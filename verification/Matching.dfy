/** The search for the longest match: the index of previous equal bytes and the two searches,
    one that follows the index and one that tries every position. */
module Matching {
  import opened Bits
  import opened Lzss

  type uint16 = n: int | 0 <= n < 0x1_0000
  type int16 = n: int | -0x8000 <= n < 0x8000

  const MATCH_NOT_FOUND: uint16 := 0xFFFF

  /** j is the greatest position below i that holds the byte v, or -1. */
  ghost predicate IsLast(data: seq<byte>, i: nat, v: byte, j: int)
    requires i <= |data|
  {
    && -1 <= j < i
    && (j >= 0 ==> data[j] == v)
    && forall k :: 0 <= k < i && j < k ==> data[k] != v
  }

  /** Every entry of the index is the last earlier position with the same byte. */
  ghost predicate IndexAgrees(index: seq<int16>, data: seq<byte>) {
    && |data| <= |index|
    && forall i :: 0 <= i < |data| ==> IsLast(data, i, data[i], index[i])
  }

  // ----- the index

  /** A 16-bit position stored in a signed variable. */
  function AsInt16(n: uint16): (r: int16)
    ensures n < 0x8000 ==> r == n
    ensures n >= 0x8000 ==> r == n - 0x1_0000
  {
    if n < 0x8000 then n else n - 0x1_0000
  }

  /** w is what is stored for the last position of v below i: -1 if there is none, and the position
      wrapped to 16 signed bits otherwise. */
  ghost predicate IsStoredLast(data: seq<byte>, i: nat, v: byte, w: int16)
    requires i <= |data| <= 0xFFFF
  {
    (IsLast(data, i, v, -1) && w == -1) || exists j: uint16 :: IsLast(data, i, v, j) && w == AsInt16(j)
  }

  /** For every fill of every buffer the entries are the last earlier positions with the same byte, as
      far as they can be stored; up to 0x8000 positions all of them can. */
  method DoIndexing(buffer: array<byte>, index: array<int16>, end: uint16)
    requires end <= buffer.Length == index.Length
    modifies index
    ensures forall i :: 0 <= i < end ==> IsStoredLast(buffer[..end], i, buffer[i], index[i])
    ensures end <= 0x8000 ==> IndexAgrees(index[..], buffer[..end])
  {
    var last := new int16[256](_ => -1);
    ghost var data := buffer[..end];
    for i := 0 to end
      invariant forall v: byte :: IsStoredLast(data, i, v, last[v])
      invariant forall k :: 0 <= k < i ==> IsStoredLast(data, k, data[k], index[k])
    {
      var v := buffer[i];
      var lv := last[v];
      index[i] := lv;
      last[v] := AsInt16(i);
      StoreNext(data, i);
    }
    if end <= 0x8000 {
      forall i | 0 <= i < end ensures IsLast(data, i, data[i], index[i]) {
        StoredFits(data, i, data[i], index[i]);
      }
    }
  }

  lemma StoreNext(data: seq<byte>, i: nat)
    requires i < |data| <= 0xFFFF
    ensures IsStoredLast(data, i + 1, data[i], AsInt16(i))
    ensures forall v: byte, w: int16 :: v != data[i] && IsStoredLast(data, i, v, w) ==> IsStoredLast(data, i + 1, v, w)
  {
    assert IsLast(data, i + 1, data[i], i);
    forall v: byte, w: int16 | v != data[i] && IsStoredLast(data, i, v, w) ensures IsStoredLast(data, i + 1, v, w) {
      if !(IsLast(data, i, v, -1) && w == -1) {
        var j: uint16 :| IsLast(data, i, v, j) && w == AsInt16(j);
        assert IsLast(data, i + 1, v, j);
      } else {
        assert IsLast(data, i + 1, v, -1);
      }
    }
  }

  lemma StoredFits(data: seq<byte>, i: nat, v: byte, w: int16)
    requires i <= |data| <= 0x8000 && IsStoredLast(data, i, v, w)
    ensures IsLast(data, i, v, w)
  {
  }

  /** The positions met by following the index from i. */
  function Chain(index: seq<int16>, i: nat): seq<nat>
    requires i < |index| && forall k :: 0 <= k < |index| ==> -1 <= index[k] < k
  {
    if index[i] < 0 then [] else [index[i]] + Chain(index, index[i])
  }

  /** The chain from i visits exactly the earlier positions with the same byte ... */
  lemma {:induction false} ChainIsEarlierEqual(index: seq<int16>, data: seq<byte>, i: nat)
    requires |index| == |data| && IndexAgrees(index, data) && i < |data|
    ensures forall k: nat :: k in Chain(index, i) <==> k < i && data[k] == data[i]
    decreases i
  {
    var j := index[i];
    assert IsLast(data, i, data[i], j);
    if j >= 0 {
      ChainIsEarlierEqual(index, data, j);
      assert Chain(index, i) == [j] + Chain(index, j);
      forall k: nat ensures k in Chain(index, i) <==> k < i && data[k] == data[i] {
        assert k in Chain(index, i) <==> k == j || k in Chain(index, j);
      }
    }
  }

  /** ... from the nearest on. */
  lemma {:induction false} ChainDescends(index: seq<int16>, i: nat)
    requires i < |index| && forall k :: 0 <= k < |index| ==> -1 <= index[k] < k
    ensures forall a :: 0 <= a < |Chain(index, i)| ==> Chain(index, i)[a] < i
    ensures forall a, b :: 0 <= a < b < |Chain(index, i)| ==> Chain(index, i)[a] > Chain(index, i)[b]
    decreases i
  {
    if index[i] >= 0 {
      var rest := Chain(index, index[i]);
      ChainDescends(index, index[i]);
      assert Chain(index, i) == [index[i]] + rest;
    }
  }

  // ----- what a search may skip

  /** Distances that match no better than what is found already do not change the best match. */
  lemma {:induction false} BestSkip(data: seq<byte>, q: nat, d1: nat, d2: nat, max: nat)
    requires d1 <= d2 <= q && q + max <= |data|
    requires forall d :: d1 < d <= d2 ==> MatchLen(data, q, d, max) <= Best(data, q, d1, max).len
    ensures Best(data, q, d2, max) == Best(data, q, d1, max)
    decreases d2 - d1
  {
    if d1 < d2 {
      BestSkip(data, q, d1, d2 - 1, max);
    }
  }

  /** A mismatch n bytes on bounds the match, and with agreement before it, is its length. */
  lemma {:induction false} MatchLenAt(data: seq<byte>, q: nat, dist: nat, max: nat, n: nat)
    requires dist <= q && q + max <= |data| && n <= max
    requires n == max || data[q + n] != data[q + n - dist]
    ensures MatchLen(data, q, dist, max) <= n
    ensures (forall k :: q <= k < q + n ==> data[k] == data[k - dist]) ==> MatchLen(data, q, dist, max) == n
    decreases max
  {
    if n > 0 {
      if data[q - dist] == data[q] {
        MatchLenAt(data, q + 1, dist, max - 1, n - 1);
      }
    }
  }

  /** held is the best match among the window positions above pos. */
  ghost predicate Searched(data: seq<byte>, start: nat, end: nat, max: nat, pos: int, held: Match)
    requires start <= end && end + max <= |data|
  {
    && -1 <= pos < end
    && held == Best(data, end, end - (if pos + 1 > start then pos + 1 else start), max)
  }

  /** No position strictly between prev and from holds the byte at end. */
  ghost predicate Gap(data: seq<byte>, end: nat, from: nat, prev: int)
    requires end < |data| && from <= end
  {
    -1 <= prev < from && forall k :: 0 <= k < from && prev < k ==> data[k] != data[end]
  }

  lemma NoGap(data: seq<byte>, end: nat, from: nat)
    requires end < |data| && from <= end
    ensures Gap(data, end, from, from - 1)
  {
  }

  /** Following the index skips only positions that hold another byte. */
  lemma FollowIndex(index: seq<int16>, data: seq<byte>, end: nat, from: nat)
    requires IndexAgrees(index, data) && from <= end < |data| && data[from] == data[end]
    ensures from < |index| && Gap(data, end, from, index[from])
    ensures index[from] >= 0 ==> data[index[from]] == data[end]
  {
    assert IsLast(data, from, data[from], index[from]);
  }

  /** Nothing in a gap matches at all. */
  lemma SkipToPrevious(data: seq<byte>, start: nat, end: nat, max: nat, from: nat, prev: int)
    requires start <= from <= end && end + max <= |data| && max >= 1
    requires Gap(data, end, from, prev)
    ensures Searched(data, start, end, max, prev, Best(data, end, end - from, max))
  {
    var low := if prev + 1 > start then prev + 1 else start;
    forall d | end - from < d <= end - low ensures MatchLen(data, end, d, max) == 0 {
      assert data[end - d] != data[end];
    }
    BestSkip(data, end, end - from, end - low, max);
  }

  /** One candidate has been compared: what is held afterwards, when the search goes on at prev. */
  lemma SearchStep(data: seq<byte>, start: nat, end: nat, max: nat, pos: nat, prev: int, held: Match)
    requires start <= pos < end && end + max <= |data| && max >= 1
    requires Searched(data, start, end, max, pos, held)
    requires Gap(data, end, pos, prev)
    ensures var len := MatchLen(data, end, end - pos, max);
            Searched(data, start, end, max, prev, if len > held.len then Match(len, end - pos) else held)
  {
    SkipToPrevious(data, start, end, max, pos, prev);
  }

  /** A match of full length is not beaten by anything further away. */
  lemma SearchFull(data: seq<byte>, start: nat, end: nat, max: nat, pos: nat, held: Match)
    requires start <= pos < end && end + max <= |data| && max >= 1
    requires Searched(data, start, end, max, pos, held)
    requires held.len < max == MatchLen(data, end, end - pos, max)
    ensures Searched(data, start, end, max, start - 1, Match(max, end - pos))
  {
    BestSkip(data, end, end - pos, end - start, max);
  }

  /** What both searches promise: the nearest among the longest matches in the window if it is
      longer than breakEven / 8, and MATCH_NOT_FOUND exactly when no match is. */
  ghost predicate IsSearchResult(data: seq<byte>, start: nat, end: nat, max: nat, breakEven: nat,
                                 matchPos: uint16, matchLength: uint16)
    requires start <= end && end + max <= |data|
  {
    if matchPos == MATCH_NOT_FOUND then
      && matchLength == 0
      && forall d :: 1 <= d <= end - start ==> MatchLen(data, end, d, max) <= breakEven / 8
    else
      && matchLength > breakEven / 8
      && IsNearestLongest(data, end, end - start, max, Match(matchLength, matchPos))
  }

  /** The result is determined by the data and the window, so the two searches cannot disagree. */
  lemma SearchesAgree(data: seq<byte>, start: nat, end: nat, max: nat, breakEven: nat,
                      pos1: uint16, len1: uint16, pos2: uint16, len2: uint16)
    requires start <= end && end + max <= |data|
    requires IsSearchResult(data, start, end, max, breakEven, pos1, len1)
    requires IsSearchResult(data, start, end, max, breakEven, pos2, len2)
    ensures pos1 == pos2 && len1 == len2
  {
    if pos1 != MATCH_NOT_FOUND {
      NearestLongestUnique(data, end, end - start, max, Match(len1, pos1));
      assert MatchLen(data, end, pos1, max) == len1;
    }
    if pos2 != MATCH_NOT_FOUND {
      NearestLongestUnique(data, end, end - start, max, Match(len2, pos2));
      assert MatchLen(data, end, pos2, max) == len2;
    }
  }

  lemma SearchDone(data: seq<byte>, start: nat, end: nat, max: nat, breakEven: nat, pos: int, held: Match)
    requires start <= end && end + max <= |data| && end - start < 0xFFFF && max < 0x1_0000
    requires pos < start && Searched(data, start, end, max, pos, held)
    ensures held.len <= max && (held.len > 0 ==> 1 <= held.dist <= end - start)
    ensures if held.len > breakEven / 8
            then IsSearchResult(data, start, end, max, breakEven, held.dist, held.len)
            else IsSearchResult(data, start, end, max, breakEven, MATCH_NOT_FOUND, 0)
  {
    BestIsNearestLongest(data, end, end - start, max);
  }

  /** Compare one candidate, as both searches do: first the byte that would beat the best match
      so far, then from the front. The answer is exact when it is an improvement. */
  method Compare(buffer: array<byte>, pos: nat, end: nat, maxlen: nat, best: nat, ghost data: seq<byte>)
    returns (len: nat)
    requires pos < end && best < maxlen && end + maxlen <= |data| <= buffer.Length && data == buffer[..|data|]
    ensures len <= maxlen
    ensures var exact := MatchLen(data, end, end - pos, maxlen);
            if exact > best then len == exact else len <= best
  {
    if buffer[pos + best] != buffer[end + best] || buffer[pos] != buffer[end] {
      MatchLenAt(data, end, end - pos, maxlen, if buffer[pos] != buffer[end] then 0 else best);
      return 0;
    }
    len := 1;
    while len < maxlen
      invariant 1 <= len <= maxlen
      invariant forall k :: end <= k < end + len ==> data[k] == data[k - (end - pos)]
    {
      if buffer[pos + len] != buffer[end + len] { break; }
      len := len + 1;
    }
    MatchLenAt(data, end, end - pos, maxlen, len);
  }

  /** The search that follows the index (HEATSHRINK_USE_INDEX). */
  method FindLongestMatch(buffer: array<byte>, index: array<int16>, start: uint16, end: uint16,
                          maxlen: uint16, breakEven: nat, ghost data: seq<byte>)
    returns (matchPos: uint16, matchLength: uint16)
    requires |data| <= buffer.Length == index.Length && data == buffer[..|data|]
    requires start < 0x8000 && end - start <= 0x8000  // the window
    requires IndexAgrees(index[..], data)
    requires start <= end && 1 <= maxlen && end + maxlen <= |data|
    ensures IsSearchResult(data, start, end, maxlen, breakEven, matchPos, matchLength)
  {
    ghost var held, full := Best(data, end, 0, maxlen), false;
    assert held == Match(0, 0);
    hide MatchLen, Best, Searched, IsSearchResult, Gap, IndexAgrees;
    var matchMaxlen: nat, matchIndex: nat := 0, end;
    FollowIndex(index[..], data, end, end);
    var pos: int := index[end];
    SkipToPrevious(data, start, end, maxlen, end, pos);
    while pos - start >= 0
      invariant -1 <= pos < end && (pos >= 0 ==> data[pos] == data[end])
      invariant Searched(data, start, end, maxlen, pos, held)
      invariant matchIndex <= end && held == Match(matchMaxlen, end - matchIndex) && matchMaxlen < maxlen && !full
      decreases pos
    {
      FollowIndex(index[..], data, end, pos);
      SearchStep(data, start, end, maxlen, pos, index[pos], held);
      var len := Compare(buffer, pos, end, maxlen, matchMaxlen, data);
      if len > matchMaxlen {
        matchMaxlen := len;
        matchIndex := pos;
        if len == maxlen {
          SearchFull(data, start, end, maxlen, pos, held);
          held, full := Match(len, end - pos), true;
          break;
        }
        held := Match(len, end - pos);
      }
      pos := index[pos];
    }
    SearchDone(data, start, end, maxlen, breakEven, if full then start - 1 else pos, held);
    if matchMaxlen > breakEven / 8 {
      matchPos, matchLength := end - matchIndex, matchMaxlen;
    } else {
      matchPos, matchLength := MATCH_NOT_FOUND, 0;
    }
  }

  /** The search that tries every position of the window backwards (no index). Its position is a signed
      16-bit variable: beyond 0x8000 the search ends at once and finds nothing. */
  method FindLongestMatchLinear(buffer: array<byte>, start: uint16, end: uint16,
                                maxlen: uint16, breakEven: nat, ghost data: seq<byte>)
    returns (matchPos: uint16, matchLength: uint16)
    requires |data| <= buffer.Length && data == buffer[..|data|]
    requires start <= end && 1 <= maxlen && end + maxlen <= |data|
    requires start < 0x8000 && end - start <= 0x8000  // the window
    ensures if end <= 0x8000 then IsSearchResult(data, start, end, maxlen, breakEven, matchPos, matchLength)
            else matchPos == MATCH_NOT_FOUND && matchLength == 0
  {
    if end > 0x8000 {
      // int16_t pos = end - 1 is negative
      assert AsInt16(end - 1) - start < 0;
      return MATCH_NOT_FOUND, 0;
    }
    ghost var held, full := Best(data, end, 0, maxlen), false;
    assert held == Match(0, 0);
    hide MatchLen, Best, Searched, IsSearchResult, Gap;
    var matchMaxlen: nat, matchIndex: nat := 0, end;
    var pos: int := end - 1;
    NoGap(data, end, end);
    SkipToPrevious(data, start, end, maxlen, end, pos);
    while pos - start >= 0
      invariant -1 <= pos < end
      invariant Searched(data, start, end, maxlen, pos, held)
      invariant matchIndex <= end && held == Match(matchMaxlen, end - matchIndex) && matchMaxlen < maxlen && !full
      decreases pos
    {
      NoGap(data, end, pos);
      SearchStep(data, start, end, maxlen, pos, pos - 1, held);
      var len := Compare(buffer, pos, end, maxlen, matchMaxlen, data);
      if len > matchMaxlen {
        matchMaxlen := len;
        matchIndex := pos;
        if len == maxlen {
          SearchFull(data, start, end, maxlen, pos, held);
          held, full := Match(len, end - pos), true;
          break;
        }
        held := Match(len, end - pos);
      }
      pos := pos - 1;
    }
    SearchDone(data, start, end, maxlen, breakEven, if full then start - 1 else pos, held);
    if matchMaxlen > breakEven / 8 {
      matchPos, matchLength := end - matchIndex, matchMaxlen;
    } else {
      matchPos, matchLength := MATCH_NOT_FOUND, 0;
    }
  }

  // ----- the buffer is a slice of the history

  lemma {:induction false} MatchLenSlice(data: seq<byte>, slid: nat, q: nat, dist: nat, max: nat)
    requires slid <= |data| && dist <= q && slid + q + max <= |data|
    ensures MatchLen(data[slid..], q, dist, max) == MatchLen(data, slid + q, dist, max)
    decreases max
  {
    if max > 0 && data[slid + q - dist] == data[slid + q] {
      MatchLenSlice(data, slid, q + 1, dist, max - 1);
    }
  }

  /** Matches look the same in the buffer as in the whole history. */
  lemma {:induction false} BestSlice(data: seq<byte>, slid: nat, q: nat, reach: nat, max: nat)
    requires slid <= |data| && reach <= q && slid + q + max <= |data|
    ensures Best(data[slid..], q, reach, max) == Best(data, slid + q, reach, max)
  {
    if reach > 0 {
      BestSlice(data, slid, q, reach - 1, max);
      MatchLenSlice(data, slid, q, reach, max);
    }
  }

  /** All buffer positions can be counted in 16 bits and stored as signed 16-bit index entries. */
  predicate PositionsFit(p: Params, inputSize: nat) {
    var end := p.Window() + inputSize;
    end % 0x1_0000 == end && end - 1 < 0x8000
  }

  /** That holds for every fill of the buffer exactly when the window is at most 2^14. */
  lemma WindowFitsIndex(p: Params)
    requires p.Valid()
    ensures (forall inputSize | 0 <= inputSize <= p.Window() :: PositionsFit(p, inputSize))
       <==> p.windowBits <= 14
  {
    assert Pow2(14) == 0x4000 && Pow2(15) == 0x8000;
    if p.windowBits <= 14 {
      Pow2Monotone(p.windowBits, 14);
    } else {
      assert p.windowBits == 15;
      assert !PositionsFit(p, p.Window());
    }
  }

  lemma {:induction false} Pow2Monotone(a: nat, b: nat)
    requires a <= b
    ensures Pow2(a) <= Pow2(b)
  {
    if a < b {
      Pow2Monotone(a, b - 1);
    }
  }
}
