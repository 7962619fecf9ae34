/** Inputs on which the firmware's size checks go wrong: messages that do not shrink, and readings that
    flush twice in one call. */
module Incompressible {
  import opened Bits
  import opened Lzss
  import opened HeatshrinkEncoder
  import opened Cbor
  import opened MsgEncode
  import opened Batching
  import opened Banks
  import opened Compression
  import opened Formats
  import opened Reporting
  import opened Sensor

  // ----- inputs without any repetition

  /** None of the bytes from q on occurs in the window before it. */
  ghost predicate NoRepeats(p: Params, data: seq<byte>, q: nat)
    requires p.Window() <= q <= |data|
  {
    forall j, k :: q <= k < |data| && k - p.Window() <= j < k ==> data[j] != data[k]
  }

  lemma FreshByteIsLiteral(p: Params, data: seq<byte>, q: nat)
    requires p.Window() <= q < |data| && NoRepeats(p, data, q)
    ensures TokenAt(p, data, q).Literal?
  {
    hide Pow2, Best;
    forall d | 1 <= d <= p.Window() ensures MatchLen(data, q, d, MaxMatch(p, data, q)) <= 0 {
      assert data[q - d] != data[q];
    }
    BestBelow(data, q, p.Window(), MaxMatch(p, data, q), 0);
  }

  lemma {:induction false} LiteralsOnly(p: Params, data: seq<byte>, q: nat)
    requires p.Window() <= q <= |data| && NoRepeats(p, data, q)
    ensures |ParseBits(p, data, q)| == 9 * (|data| - q)
    decreases |data| - q
  {
    hide Pow2, TokenBits, TokenAt;
    if q < |data| {
      FreshByteIsLiteral(p, data, q);
      TokenCost(p, data, q);
      LiteralsOnly(p, data, q + 1);
    }
  }

  predicate Distinct(input: seq<byte>) {
    && (forall k :: 0 <= k < |input| ==> input[k] != 0)
    && (forall j, k :: 0 <= j < k < |input| ==> input[j] != input[k])
  }

  /** Eight or more distinct non-zero bytes are reported with twice their length. */
  lemma DistinctBytesDouble(input: seq<byte>)
    requires Distinct(input) && 8 <= |input| <= 512
    ensures Reported(input) == 2 * |input|
  {
    var p, data := MESSAGE_PARAMS, History(MESSAGE_PARAMS, input);
    assert NoRepeats(p, data, p.Window());
    LiteralsOnly(p, data, p.Window());
    SmallReport(input);
    hide Reported, EndsInBackref, History, ParseBits;
  }

  // ----- samples whose encodings hardly repeat

  /** Sample number i of a reading: three coordinates of three bytes each, with no pair of bytes the
      same as in the sixty samples before it, except for the array head. */
  function Restless(i: nat): (t: Triple)
    ensures t.InRange()
  {
    var m := i % 60;
    Triple(256 * (1 + m) + (192 + m), 256 * (64 + m) + (192 + m), -1 - (256 * (1 + m) + (132 + m)))
  }

  function RestlessSamples(from: nat, n: nat): (r: seq<Triple>)
    ensures |r| == n
    ensures forall k :: 0 <= k < n ==> r[k] == Restless(from + k)
    ensures forall t :: t in r ==> t.InRange()
  {
    seq(n, k requires 0 <= k < n => Restless(from + k))
  }

  /** Byte r of the encoding of a sample with number m within the cycle. */
  function RestlessByte(m: nat, r: nat): byte
    requires m < 60 && r < 10
  {
    if r == 0 then 131
    else if r == 1 || r == 4 then 25
    else if r == 7 then 57
    else if r == 2 || r == 8 then 1 + m
    else if r == 5 then 64 + m
    else if r == 3 || r == 6 then 192 + m
    else 132 + m
  }

  lemma LongInt(hi: byte, lo: byte)
    requires 1 <= hi
    ensures Int(256 * hi + lo) == [25, hi, lo]
    ensures Int(-1 - (256 * hi + lo)) == [57, hi, lo]
  {
    TwoBytes(256 * hi + lo);
  }

  lemma RestlessBytes(i: nat)
    ensures |TripleBytes(Restless(i))| == 10
    ensures forall r :: 0 <= r < 10 ==> TripleBytes(Restless(i))[r] == RestlessByte(i % 60, r)
    ensures ElementSize(Restless(i)) == 9
  {
    var m := i % 60;
    LongInt(1 + m, 192 + m);
    LongInt(64 + m, 192 + m);
    LongInt(1 + m, 132 + m);
    assert Head(ARRAY, 3) == [131];
    hide Int, Head;
  }

  lemma RestlessSnoc(n: nat)
    requires n >= 1
    ensures TriplesBytes(RestlessSamples(0, n))
         == TriplesBytes(RestlessSamples(0, n - 1)) + TripleBytes(Restless(n - 1))
  {
    hide TripleBytes, TriplesBytes, Restless;
    assert RestlessSamples(0, n) == RestlessSamples(0, n - 1) + [Restless(n - 1)];
    TriplesBytesSnoc(RestlessSamples(0, n - 1), Restless(n - 1));
  }

  lemma {:induction false} RestlessLength(n: nat)
    ensures |TriplesBytes(RestlessSamples(0, n))| == 10 * n
  {
    if n == 0 {
      assert RestlessSamples(0, 0) == [];
    } else {
      RestlessLength(n - 1);
      RestlessSnoc(n);
      RestlessBytes(n - 1);
      hide *;
    }
  }

  lemma {:induction false} RestlessStream(n: nat, i: nat, r: nat)
    requires i < n && r < 10
    ensures |TriplesBytes(RestlessSamples(0, n))| == 10 * n
    ensures TriplesBytes(RestlessSamples(0, n))[10 * i + r] == RestlessByte(i % 60, r)
  {
    hide TripleBytes, TriplesBytes, RestlessByte, Restless, RestlessSamples;
    RestlessLength(n);
    RestlessLength(n - 1);
    RestlessSnoc(n);
    RestlessBytes(n - 1);
    if i < n - 1 {
      RestlessStream(n - 1, i, r);
    }
  }

  // ----- the message they make

  const QUIET := Header(0, 1, 2, 3)

  function RestlessMessage(): Msg {
    Msg(QUIET, RestlessSamples(0, 101))
  }

  /** Byte j of that message. */
  function MessageByte(j: nat): byte {
    if j < 7 then [152, 102, 132, 0, 1, 2, 3][j] else RestlessByte((j - 7) / 10 % 60, (j - 7) % 10)
  }

  lemma SmallHeads()
    ensures Head(ARRAY, 102) == [152, 102] && Head(ARRAY, 4) == [132]
    ensures Int(0) == [0] && Int(1) == [1] && Int(2) == [2] && Int(3) == [3]
  {
    assert BigEndian(102, 1) == BigEndian(0, 0) + [102];
  }

  lemma MessageParts()
    ensures MsgBytes(RestlessMessage())
         == [152, 102, 132, 0, 1, 2, 3] + TriplesBytes(RestlessSamples(0, 101))
  {
    SmallHeads();
    hide Head, Int, TriplesBytes, RestlessSamples;
    assert HeaderBytes(QUIET) == [132, 0, 1, 2, 3];
    assert [152, 102] + [132, 0, 1, 2, 3] == [152, 102, 132, 0, 1, 2, 3];
    Behind([152, 102], [132, 0, 1, 2, 3], TriplesBytes(RestlessSamples(0, 101)));
  }

  lemma MessageBytes(j: nat)
    requires j < 1017
    ensures |MsgBytes(RestlessMessage())| == 1017 && MsgBytes(RestlessMessage())[j] == MessageByte(j)
  {
    hide RestlessMessage, MsgBytes, TriplesBytes, RestlessSamples, RestlessByte;
    MessageParts();
    RestlessLength(101);
    if j >= 7 {
      RestlessStream(101, (j - 7) / 10, (j - 7) % 10);
    }
  }

  // ----- its pairs of bytes

  /** Within a sample, a pair of neighbouring bytes tells where in the cycle it stands. */
  lemma PairTells(m: nat, r: nat, m': nat, r': nat)
    requires m < 60 && 1 <= r < 10 && m' < 60 && 1 <= r' < 10
    requires RestlessByte(m, r) == RestlessByte(m', r')
    requires r < 9 && r' < 9 ==> RestlessByte(m, r + 1) == RestlessByte(m', r' + 1)
    requires r == 9 && r' < 9 ==> 131 == RestlessByte(m', r' + 1)
    requires r < 9 && r' == 9 ==> RestlessByte(m, r + 1) == 131
    ensures m == m' && r == r'
  {
  }

  lemma PairInHeader(j: nat, m: nat, r: nat)
    requires j < 7 && m < 60 && 1 <= r < 10
    ensures MessageByte(j) != RestlessByte(m, r)
         || (if j == 6 then 131 else MessageByte(j + 1)) != (if r == 9 then 131 else RestlessByte(m, r + 1))
  {
  }

  lemma HeaderBytesDiffer(i: nat, j: nat)
    requires i < j < 7
    ensures MessageByte(i) != MessageByte(j)
  {
  }

  lemma ZerosBeforeHeader(j: nat)
    requires j < 7
    ensures MessageByte(j) != 0 || MessageByte(j + 1) == 1
    ensures MessageByte(0) == 152
  {
  }

  /** The next byte after position j of the message. */
  lemma NextByte(j: nat)
    requires 7 <= j
    ensures var m, r := (j - 7) / 10 % 60, (j - 7) % 10;
      && MessageByte(j) == RestlessByte(m, r)
      && MessageByte(j + 1) == if r == 9 then 131 else RestlessByte(m, r + 1)
  {
    hide RestlessByte;
    var r := (j - 7) % 10;
    if r < 9 {
      assert (j + 1 - 7) / 10 == (j - 7) / 10 && (j + 1 - 7) % 10 == r + 1;
    } else {
      assert (j + 1 - 7) % 10 == 0;
      assert RestlessByte((j + 1 - 7) / 10 % 60, 0) == 131 by { TagByte((j + 1 - 7) / 10 % 60); }
    }
  }

  lemma TagByte(m: nat)
    requires m < 60
    ensures RestlessByte(m, 0) == 131 && forall r :: 1 <= r < 10 ==> RestlessByte(m, r) != 131
  {
  }

  /** Within a window of the message, no two positions have the same place in the cycle. */
  lemma PlacesDiffer(i: nat, j: nat)
    requires 7 <= i < j <= i + 512
    ensures (i - 7) % 10 != (j - 7) % 10 || (i - 7) / 10 % 60 != (j - 7) / 10 % 60
  {
    var a, b := (i - 7) / 10, (j - 7) / 10;
    assert a <= b <= a + 52;
  }

  /** The history that the message is parsed in. */
  function HistoryByte(k: nat): byte {
    if k < 512 then 0 else MessageByte(k - 512)
  }

  /** Apart from the array heads, no byte of the message starts a pair that the window holds. */
  lemma NoPair(k: nat, d: nat)
    requires 512 <= k < 1528 && 1 <= d <= 512 && HistoryByte(k) != 131
    ensures HistoryByte(k - d) != HistoryByte(k) || HistoryByte(k - d + 1) != HistoryByte(k + 1)
  {
    var j := k - 512;
    if j < 7 {
      ZerosBeforeHeader(j);
      if d <= j {
        HeaderBytesDiffer(j - d, j);
      }
    } else {
      NoPairInSamples(j, d);
    }
  }

  lemma NoPairInSamples(j: nat, d: nat)
    requires 7 <= j < 1016 && 1 <= d <= 512 && MessageByte(j) != 131
    ensures HistoryByte(j + 512 - d) != MessageByte(j) || HistoryByte(j + 512 - d + 1) != MessageByte(j + 1)
  {
    var m, r := (j - 7) / 10 % 60, (j - 7) % 10;
    NextByte(j);
    TagByte(m);
    NoZeroByte(m, r);
    hide RestlessByte;
    if d <= j {
      var i := j - d;
      if i < 7 {
        PairInHeader(i, m, r);
        FirstTag();
      } else {
        var m', r' := (i - 7) / 10 % 60, (i - 7) % 10;
        NextByte(i);
        TagByte(m');
        hide MessageByte;
        if MessageByte(i) == MessageByte(j) && MessageByte(i + 1) == MessageByte(j + 1) {
          PlacesDiffer(i, j);
          PairTells(m, r, m', r');
        }
      }
    }
  }

  lemma FirstTag()
    ensures MessageByte(7) == 131
  {
  }

  lemma NoZeroByte(m: nat, r: nat)
    requires m < 60 && r < 10
    ensures RestlessByte(m, r) != 0
  {
  }

  // ----- its parse

  function RestlessHistory(): (r: seq<byte>)
    ensures |r| >= 512
  {
    assert MESSAGE_PARAMS.Window() == 512;
    History(MESSAGE_PARAMS, MsgBytes(RestlessMessage()))
  }

  lemma HistoryAt(k: nat)
    requires k < 1529
    ensures |RestlessHistory()| == 1529 && RestlessHistory()[k] == HistoryByte(k)
  {
    hide MsgBytes, RestlessMessage, MessageByte;
    assert MESSAGE_PARAMS.Window() == 512;
    MessageBytes(if k < 512 then 0 else k - 512);
  }

  /** Matches are one byte long, or two where an array head is followed by the same initial byte. */
  lemma ShortMatch(k: nat, d: nat, max: nat)
    requires 512 <= k && k + max <= |RestlessHistory()| == 1529 && 1 <= d <= 512
    ensures HistoryByte(k) != 131 ==> MatchLen(RestlessHistory(), k, d, max) <= 1
    ensures MatchLen(RestlessHistory(), k, d, max) <= 2
  {
    hide RestlessHistory, HistoryByte;
    var data := RestlessHistory();
    if max >= 2 {
      HistoryAt(k);
      HistoryAt(k + 1);
      HistoryAt(k - d);
      HistoryAt(k - d + 1);
      if HistoryByte(k) != 131 {
        NoPair(k, d);
      } else if max >= 3 {
        HistoryAt(k + 2);
        HistoryAt(k - d + 2);
        AfterTag(k);
        NoPair(k + 1, d);
        assert MatchLen(data, k + 1, d, max - 1) <= 1;
      }
    }
  }

  lemma AfterTag(k: nat)
    requires 512 <= k < 1528 && HistoryByte(k) == 131
    ensures 519 <= k && (k - 519) % 10 == 0 && HistoryByte(k + 1) != 131
  {
    var j := k - 512;
    if j >= 7 {
      NextByte(j);
      TagByte((j - 7) / 10 % 60);
    }
  }

  /** The token at a position of the message. */
  lemma RestlessToken(k: nat)
    requires 512 <= k < |RestlessHistory()| == 1529
    ensures MESSAGE_PARAMS.Window() == 512
    ensures var t := TokenAt(MESSAGE_PARAMS, RestlessHistory(), k);
      && (HistoryByte(k) != 131 ==> t.Literal?)
      && (t.Backref? ==> t.Covers() == 2 && |TokenBits(MESSAGE_PARAMS, t)| == 13)
      && (t.Literal? ==> |TokenBits(MESSAGE_PARAMS, t)| == 9)
  {
    hide RestlessHistory, HistoryByte;
    assert MESSAGE_PARAMS.Window() == 512;
    var data, p := RestlessHistory(), MESSAGE_PARAMS;
    var max := MaxMatch(p, data, k);
    forall d | 1 <= d <= 512 ensures MatchLen(data, k, d, max) <= if HistoryByte(k) == 131 then 2 else 1 {
      ShortMatch(k, d, max);
    }
    hide Pow2, Best, MatchLen;
    BestBelow(data, k, 512, max, if HistoryByte(k) == 131 then 2 else 1);
    TokenCost(p, data, k);
  }

  lemma NotTag(k: nat)
    requires 512 <= k < 1529 && (k < 519 || (k - 519) % 10 != 0)
    ensures HistoryByte(k) != 131
  {
    if k < 519 {
      NoTagInHeader(k - 512);
    } else {
      NextByte(k - 512);
      TagByte((k - 519) / 10 % 60);
    }
  }

  lemma NoTagInHeader(j: nat)
    requires j < 7
    ensures MessageByte(j) != 131
  {
  }

  lemma SampleStart(i: nat)
    ensures HistoryByte(519 + 10 * i) == 131 && HistoryByte(519 + 10 * i + 1) == 25
  {
    assert (10 * i + 1) % 10 == 1;
  }

  /** From the second sample on, the array head is a back-reference to the sample before. */
  lemma HeadIsBackref(i: nat)
    requires 1 <= i <= 100 && |RestlessHistory()| == 1529
    ensures MESSAGE_PARAMS.Window() == 512
    ensures TokenAt(MESSAGE_PARAMS, RestlessHistory(), 519 + 10 * i).Backref?
  {
    hide RestlessHistory, HistoryByte;
    assert MESSAGE_PARAMS.Window() == 512 && MESSAGE_PARAMS.Lookahead() == 8;
    var data, k := RestlessHistory(), 519 + 10 * i;
    SampleStart(i);
    SampleStart(i - 1);
    HistoryAt(k);
    HistoryAt(k + 1);
    HistoryAt(k - 10);
    HistoryAt(k - 9);
    assert MatchLen(data, k, 10, 8) >= 2;
    BestIsNearestLongest(data, k, 512, 8);
    hide Best, MatchLen, Pow2;
  }

  /** A walk over bytes that are no array heads. */
  lemma {:induction false} WalkLiterals(p: Params, data: seq<byte>, m: Mark, k: nat)
    requires p == MESSAGE_PARAMS && p.Window() == 512 && data == RestlessHistory() && |data| == 1529
    requires 512 <= m.pos && m.pos + k <= 1529 && k >= 1
    requires forall j :: m.pos <= j < m.pos + k ==> HistoryByte(j) != 131
    ensures Walk(p, data, m, m.pos + k) == Mark(m.pos + k, m.bits + 9 * k, false)
    decreases k
  {
    hide *;
    var t := TokenAt(p, data, m.pos);
    RestlessToken(m.pos);
    CoversOf(t);
    var m' := Mark(m.pos + 1, m.bits + 9, false);
    WalkOneToken(p, data, m.pos, m.bits, m.backref);
    WalkOn(p, data, m, m.pos + 1, m.pos + k);
    if k == 1 {
      WalkNowhere(p, data, m', m'.pos);
    } else {
      WalkLiterals(p, data, m', k - 1);
    }
  }

  lemma CoversOf(t: Token)
    ensures t.Literal? ==> t.Covers() == 1
  {
  }

  /** A walk over the first bytes of a sample: all of it, or as far as the first round goes. */
  lemma WalkSample(p: Params, data: seq<byte>, i: nat, bits: nat, k: nat)
    requires p == MESSAGE_PARAMS && p.Window() == 512 && data == RestlessHistory() && |data| == 1529
    requires i <= 100 && 3 <= k <= 10
    ensures Walk(p, data, Mark(519 + 10 * i, bits, false), 519 + 10 * i + k)
         == Mark(519 + 10 * i + k, bits + 9 * k - (if i == 0 then 0 else 5), false)
  {
    hide *;
    var q, until := 519 + 10 * i, 519 + 10 * i + k;
    forall j | q < j < until ensures HistoryByte(j) != 131 {
      NotTag(j);
    }
    WalkOneToken(p, data, q, bits, false);
    WalkOn(p, data, Mark(q, bits, false), q + 1, until);
    var t := TokenAt(p, data, q);
    RestlessToken(q);
    CoversOf(t);
    if i == 0 {
      FirstHead();
      WalkLiterals(p, data, Mark(q + 1, bits + 9, false), k - 1);
    } else {
      HeadIsBackref(i);
      WalkLiterals(p, data, Mark(q + 2, bits + 13, true), k - 2);
    }
  }

  /** The first array head of the message has nothing before it to refer to. */
  lemma FirstHead()
    requires |RestlessHistory()| == 1529
    ensures MESSAGE_PARAMS.Window() == 512
    ensures TokenAt(MESSAGE_PARAMS, RestlessHistory(), 519).Literal?
  {
    hide RestlessHistory, HistoryByte;
    assert MESSAGE_PARAMS.Window() == 512;
    var data, p := RestlessHistory(), MESSAGE_PARAMS;
    var max := MaxMatch(p, data, 519);
    forall d | 1 <= d <= 512 ensures MatchLen(data, 519, d, max) <= 0 {
      HistoryAt(519);
      HistoryAt(519 - d);
      SampleStart(0);
      BeforeFirstHead(519 - d);
    }
    hide Pow2, Best, MatchLen;
    BestBelow(data, 519, 512, max, 0);
  }

  lemma BeforeFirstHead(k: nat)
    requires k < 519
    ensures HistoryByte(k) != 131
  {
    if k >= 512 {
      NoTagInHeader(k - 512);
    }
  }

  /** The bits of the header and the first n samples. */
  function SampleBits(n: nat): nat {
    if n == 0 then 63 else 68 + 85 * n
  }

  lemma {:induction false} WalkSamples(p: Params, data: seq<byte>, n: nat)
    requires p == MESSAGE_PARAMS && p.Window() == 512 && data == RestlessHistory() && |data| == 1529 && n <= 101
    ensures Walk(p, data, Mark(512, 0, false), 519 + 10 * n) == Mark(519 + 10 * n, SampleBits(n), false)
  {
    hide HistoryByte, RestlessHistory, Walk, Pow2;
    if n == 0 {
      forall j | 512 <= j < 519 ensures HistoryByte(j) != 131 {
        NotTag(j);
      }
      WalkLiterals(p, data, Mark(512, 0, false), 7);
    } else {
      WalkSamples(p, data, n - 1);
      WalkOn(p, data, Mark(512, 0, false), 519 + 10 * (n - 1), 519 + 10 * n);
      WalkSample(p, data, n - 1, SampleBits(n - 1), 10);
    }
  }

  lemma HistoryIsRestless()
    ensures MESSAGE_PARAMS.Window() == 512 && |RestlessHistory()| == 1529 && |MsgBytes(RestlessMessage())| == 1017
    ensures RestlessHistory() == History(MESSAGE_PARAMS, MsgBytes(RestlessMessage()))
    ensures Origin(MESSAGE_PARAMS) == Mark(512, 0, false)
  {
    hide MsgBytes, RestlessMessage, HistoryByte;
    MessageBytes(0);
    HistoryAt(0);
    assert MESSAGE_PARAMS.Window() == 512;
  }

  /** The message is parsed to 8653 bits, of which the first round, ending at byte 505, makes 4300. */
  lemma RestlessWalk()
    ensures ParseEnd(MsgBytes(RestlessMessage())).bits == 8653
    ensures FirstEnd(MsgBytes(RestlessMessage())).bits == 4300
  {
    HistoryIsRestless();
    hide HistoryByte, RestlessHistory, Walk, Pow2, MsgBytes, RestlessMessage, History, Origin;
    var p, data := MESSAGE_PARAMS, RestlessHistory();
    WalkSamples(p, data, 101);
    WalkSamples(p, data, 49);
    WalkOn(p, data, Mark(512, 0, false), 1009, 1017);
    WalkSample(p, data, 49, SampleBits(49), 8);
    RoundBound();
  }

  lemma RoundBound()
    ensures Bound(MESSAGE_PARAMS, Known(Mark(512, 0, false), 1529), 1529) == 1017
  {
    assert MESSAGE_PARAMS.Lookahead() == 8;
  }

  /** The encoding of the message is longer than the message, and the reported size is longer than both,
      and longer than the payload area of a slot. */
  lemma RestlessGrows()
    ensures |MsgBytes(RestlessMessage())| == 1017
    ensures |Encode(MESSAGE_PARAMS, MsgBytes(RestlessMessage()))| == 1082
    ensures Reported(MsgBytes(RestlessMessage())) == 1497 > PAYLOAD_BYTES
  {
    var bytes := MsgBytes(RestlessMessage());
    HistoryIsRestless();
    RestlessWalk();
    hide MsgBytes, RestlessMessage, ParseEnd, FirstEnd, SecondEnd, Reported, Encode, History, Pow2, InputBits;
    EncodedLength(bytes);
    ShortMessageReport(bytes);
    MessageReport(bytes);
  }

  // ----- readings that make such messages

  /** Feeding in two portions. */
  lemma {:induction false} FeedSplit(b: Batch, ts: seq<Triple>, us: seq<Triple>)
    ensures var p, q := Feed(b, ts), Feed(Feed(b, ts).batch, us);
            Feed(b, ts + us) == Progress(q.batch, p.flushed + q.flushed)
  {
    var p := Feed(b, ts);
    if us == [] {
      assert ts + us == ts && p.flushed + [] == p.flushed;
    } else {
      var n := |us| - 1;
      FeedSplit(b, ts, us[..n]);
      assert (ts + us)[..|ts| + n] == ts + us[..n];
      AddBehind(p.flushed, Feed(p.batch, us[..n]), us[n]);
    }
  }

  lemma AddBehind(fs: seq<Flushed>, p: Progress, t: Triple)
    ensures AddTriple(Progress(p.batch, fs + p.flushed), t)
         == Progress(AddTriple(p, t).batch, fs + AddTriple(p, t).flushed)
  {
    hide Full;
    var f := Flushed(Msg(p.batch.header, p.batch.xyz), p.batch.size);
    assert (fs + p.flushed) + [f] == fs + (p.flushed + [f]);
  }

  lemma FeedSnoc(b: Batch, ts: seq<Triple>, t: Triple)
    ensures Feed(b, ts + [t]) == AddTriple(Feed(b, ts), t)
  {
    hide AddTriple;
    assert (ts + [t])[..|ts|] == ts;
  }

  lemma FeedNone(b: Batch)
    ensures Feed(b, []) == Progress(b, [])
  {
  }

  lemma FittingAppends(p: Progress, i: nat)
    requires p.batch.size + 10 <= 1024
    ensures AddTriple(p, Restless(i))
         == Progress(Batch(p.batch.header, p.batch.xyz + [Restless(i)], p.batch.size + 10), p.flushed)
  {
    RestlessBytes(i);
    hide ElementSize, Restless;
  }

  lemma FullFlushes(b: Batch, i: nat)
    requires b.size + 10 > 1024
    ensures AddTriple(Progress(b, []), Restless(i))
         == Progress(Batch(ZERO_HEADER, [Restless(i)], 17), [Flushed(Msg(b.header, b.xyz), b.size)])
  {
    RestlessBytes(i);
    QuietHeaders();
    hide ElementSize, Restless, HeaderSize;
    assert [] + [Restless(i)] == [Restless(i)];
  }

  lemma QuietHeaders()
    ensures HeaderSize(QUIET) == HeaderSize(ZERO_HEADER) == 7 && ZERO_HEADER.(timestamp := 0) == ZERO_HEADER
    ensures EMPTY_BATCH == Batch(ZERO_HEADER, [], 0)
  {
  }

  lemma RestlessCut(from: nat, k: nat, n: nat)
    requires k < n
    ensures RestlessSamples(from, n)
         == (RestlessSamples(from, k) + [Restless(from + k)]) + RestlessSamples(from + k + 1, n - k - 1)
    ensures RestlessSamples(from, 0) == []
  {
    hide Restless;
  }

  lemma NothingBefore<T>(s: seq<T>)
    ensures [] + s == s && s + [] == s
  {
  }

  /** Samples that fit are only appended. */
  lemma {:induction false} FeedFits(b: Batch, from: nat, n: nat)
    requires b.size + 10 * n <= 1024
    ensures Feed(b, RestlessSamples(from, n))
         == Progress(Batch(b.header, b.xyz + RestlessSamples(from, n), b.size + 10 * n), [])
  {
    hide *;
    if n == 0 {
      RestlessCut(from, 0, 1);
      FeedNone(b);
      NothingBefore(b.xyz);
    } else {
      var ts, t := RestlessSamples(from, n - 1), Restless(from + (n - 1));
      FeedFits(b, from, n - 1);
      RestlessCut(from, n - 1, n);
      RestlessCut(from + n, 0, 1);
      NothingBefore(ts + [t]);
      FeedSnoc(b, ts, t);
      FittingAppends(Feed(b, ts), from + (n - 1));
      Assoc(b.xyz, ts, [t]);
    }
  }

  /** When the first k samples fit and the next one does not, they leave with the batch, and the rest
      goes on behind a header of zeros. */
  lemma FeedFlushes(b: Batch, from: nat, k: nat, n: nat)
    requires k < n && b.size + 10 * k <= 1024 < b.size + 10 * (k + 1)
    ensures var full := Flushed(Msg(b.header, b.xyz + RestlessSamples(from, k)), b.size + 10 * k);
      var rest := Feed(Batch(ZERO_HEADER, [Restless(from + k)], 17), RestlessSamples(from + k + 1, n - k - 1));
      Feed(b, RestlessSamples(from, n)) == Progress(rest.batch, [full] + rest.flushed)
  {
    hide *;
    var ts, us, t := RestlessSamples(from, k), RestlessSamples(from + k + 1, n - k - 1), Restless(from + k);
    RestlessCut(from, k, n);
    FeedFits(b, from, k);
    FeedSnoc(b, ts, t);
    FullFlushes(Feed(b, ts).batch, from + k);
    FeedSplit(b, ts + [t], us);
  }

  function RestlessReading(): Reading {
    Reading(0, 1, 2, 3, RestlessSamples(0, 170))
  }

  lemma RestlessIsValid()
    ensures RestlessReading().Valid()
  {
  }

  lemma RestlessDrain(b: Batch)
    requires b.header == ZERO_HEADER
    ensures var r := RestlessReading();
      && Begin(b, r) == Batch(QUIET, b.xyz, b.size + 7)
      && Drain(b, r) == (var p := Feed(Begin(b, r), RestlessSamples(0, 170));
           Progress(Batch(p.batch.header.(timestamp := 0), p.batch.xyz, p.batch.size - HeaderSize(p.batch.header)),
                    p.flushed))
  {
    QuietHeaders();
    hide HeaderSize, Feed, RestlessSamples;
  }

  /** The first of these readings flushes exactly the message above, and 69 samples stay. */
  lemma FirstReading()
    ensures var p := Drain(EMPTY_BATCH, RestlessReading());
      && p.flushed == [Flushed(RestlessMessage(), 1017)]
      && |p.batch.xyz| == 69 && p.batch.size == 690 && p.batch.header == ZERO_HEADER
  {
    hide *;
    QuietHeaders();
    var b := Batch(QUIET, [], 7);
    RestlessDrain(EMPTY_BATCH);
    NothingBefore(RestlessSamples(0, 101));
    FeedFlushes(b, 0, 101, 170);
    FeedFits(Batch(ZERO_HEADER, [Restless(101)], 17), 102, 68);
    TheMessage();
    NothingBefore([Flushed(RestlessMessage(), 1017)]);
  }

  lemma TheMessage()
    ensures RestlessMessage() == Msg(QUIET, RestlessSamples(0, 101))
  {
  }

  /** The second one flushes twice. */
  lemma SecondReading(b: Batch)
    requires b.size == 690 && b.header == ZERO_HEADER
    ensures |Drain(b, RestlessReading()).flushed| == 2
  {
    hide *;
    RestlessDrain(b);
    FeedFlushes(Batch(QUIET, b.xyz, 697), 0, 32, 170);
    FeedFlushes(Batch(ZERO_HEADER, [Restless(32)], 17), 33, 100, 137);
    FeedFits(Batch(ZERO_HEADER, [Restless(133)], 17), 134, 36);
  }

  /** One call can flush two messages, and then the second has a header of zeros although the reading
      has not. */
  lemma TwoFlushesHappen()
    ensures var r := RestlessReading();
      var p := Drain(Run([r]).batch, r);
      && r.Valid() && |p.flushed| == 2
      && p.flushed[1].msg.header == ZERO_HEADER != Header(r.timestamp, r.temp, r.press, r.hum)
  {
    hide Drain, Idle;
    var r := RestlessReading();
    RestlessIsValid();
    FirstReading();
    assert [r][..0] == [] && Run([]).batch == EMPTY_BATCH;
    StartIsIdle();
    DrainWell(EMPTY_BATCH, r);
    SecondReading(Run([r]).batch);
    DrainWell(Run([r]).batch, r);
  }

  /** A message of empty_fifo_fn can grow when it is compressed: the slot that takes the message
      of this reading gives back only its beginning, and the stored size exceeds its payload area. */
  lemma FifoMessageIsLost(slot: MessagePayload)
    requires SlotHolds(slot, Delivery(RestlessMessage(), Packed))
    ensures RestlessReading().Valid() && Run([RestlessReading()]).flushed == [Flushed(RestlessMessage(), 1017)]
    ensures var bytes := MsgBytes(RestlessMessage());
      Decode(MESSAGE_PARAMS, slot.payload[..Stored(bytes, slot.size)]) < bytes && slot.size == 1497 > |slot.payload|
  {
    hide Drain, Decode, Encode, MsgBytes, RestlessMessage;
    var r := RestlessReading();
    RestlessIsValid();
    FirstReading();
    assert [r][..0] == [] && Run([]) == Progress(EMPTY_BATCH, []);
    assert [] + Drain(Run([]).batch, r).flushed == Drain(Run([]).batch, r).flushed;
    RestlessGrows();
    StoredDecodes(MsgBytes(RestlessMessage()), slot.payload, slot.size);
  }
}
