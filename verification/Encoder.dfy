/** The resumable heatshrink encoder: its state machine, and the proof that whatever way its
    input and output are cut into pieces it delivers the encoding of all the input. */
module HeatshrinkEncoder {
  import opened Bits
  import opened BitPacker
  import opened Lzss
  import opened Matching

  datatype State =
    | NotFull
    | Filled
    | Search
    | YieldTagBit
    | YieldLiteral
    | YieldBrIndex
    | YieldBrLength
    | SaveBacklog
    | FlushBits
    | Done
  {
    /** The states in which the index must describe the buffer. */
    predicate UsesIndex() {
      Search? || YieldTagBit? || YieldLiteral? || YieldBrIndex? || YieldBrLength?
    }

    /** The states that write bits of a token. */
    predicate Yields() {
      YieldTagBit? || YieldLiteral? || YieldBrIndex? || YieldBrLength?
    }

    /** The order in which the states follow each other while no input is consumed. */
    function Rank(): nat {
      match this
      case Filled => 7
      case YieldTagBit => 6
      case YieldLiteral => 5
      case YieldBrIndex => 5
      case YieldBrLength => 4
      case Search => 3
      case SaveBacklog => 2
      case FlushBits => 2
      case NotFull => 1
      case Done => 0
    }
  }

  datatype SinkRes = SinkOk | SinkErrorNull | SinkErrorMisuse
  datatype PollRes = PollEmpty | PollMore | PollErrorNull | PollErrorMisuse
  datatype FinishRes = FinishDone | FinishMore

  // ----- the invariant, part by part, over values

  /** The buffer holds the slice of the history that starts slid bytes in. */
  ghost predicate WindowOk(p: Params, buffer: seq<byte>, sunk: seq<byte>, slid: nat, inputSize: nat) {
    && |buffer| == 2 * p.Window() && inputSize <= p.Window()
    && slid + inputSize == |sunk|
    && buffer[..p.Window() + inputSize] == History(p, sunk)[slid..]
  }

  /** What each state says about the counters. */
  ghost predicate ControlOk(p: Params, s: State, finishing: bool, inputSize: nat, scan: nat,
                            len: nat, pos: nat, count: nat, backref: bool) {
    && scan + len <= inputSize <= p.Window()
    && (finishing ==> !s.NotFull? && !s.SaveBacklog?)
    && (!finishing ==> !s.FlushBits? && !s.Done?)
    && (!finishing ==> if s.NotFull? then inputSize < p.Window() else inputSize == p.Window())
    && match s {
         case YieldTagBit => (if len == 0 then scan >= 1 else Backref(pos, len).Fits(p)) && (backref <==> len > 0)
         case YieldLiteral => len == 0 && scan >= 1 && !backref
         case YieldBrIndex => 1 <= len <= p.Lookahead() && count <= p.windowBits && backref
         case YieldBrLength => 1 <= len && count <= p.lookaheadBits && backref
         case NotFull => len == 0 && scan == 0
         case Filled => len == 0 && scan == 0
         case SaveBacklog => len == 0 && scan > p.Window() - p.Lookahead()
         case FlushBits => len == 0 && scan == inputSize
         case Done => len == 0 && scan == inputSize
         case _ => len == 0
       }
  }

  /** The bits of the current token that are still to be pushed. */
  ghost function Pending(p: Params, s: State, literal: byte, len: nat, pos: nat,
                         outgoing: nat, count: nat): seq<bool> {
    match s
    case YieldTagBit => TokenBits(p, if len == 0 then Literal(literal) else Backref(pos, len))
    case YieldLiteral => Field(literal, 8)
    case YieldBrIndex => Field(outgoing, count) + (if len == 0 then [] else Field(len - 1, p.lookaheadBits))
    case YieldBrLength => Field(outgoing, count)
    case _ => []
  }

  /** The bits pushed or pending are the parse up to position next, whatever input may follow; next is
      the first boundary of the parse at or behind reached, and backref tells the token that ends there. */
  ghost predicate StreamOk(p: Params, finishing: bool, sunk: seq<byte>, next: nat, bits: seq<bool>,
                           reached: nat, backref: bool) {
    && Committed(p, History(p, sunk), next, bits, finishing)
    && OnWalk(p, History(p, sunk), next, |bits|, reached, backref, finishing)
  }

  /** A token is its tag bit followed by what the next yielding state has to push. */
  lemma PendingAfterTag(p: Params, literal: byte, len: nat, pos: nat, outgoing: nat, count: nat)
    requires len > 0 ==> pos >= 1
    ensures Pending(p, YieldTagBit, literal, len, pos, outgoing, count)
         == if len == 0 then [true] + Pending(p, YieldLiteral, literal, len, pos, outgoing, count)
            else [false] + Pending(p, YieldBrIndex, literal, len, pos, pos - 1, p.windowBits)
  {
  }

  // ----- steps of the invariant

  /** More input in the buffer is more history. */
  lemma SinkWindow(p: Params, buffer: seq<byte>, sunk: seq<byte>, slid: nat, inputSize: nat,
                   more: seq<byte>, buffer': seq<byte>)
    requires WindowOk(p, buffer, sunk, slid, inputSize) && inputSize + |more| <= p.Window()
    requires |buffer'| == |buffer|
    requires var w := p.Window() + inputSize;
             buffer'[..w] == buffer[..w] && buffer'[w..w + |more|] == more
    ensures WindowOk(p, buffer', sunk + more, slid, inputSize + |more|)
    ensures History(p, sunk + more) == History(p, sunk) + more
  {
    var w := p.Window() + inputSize;
    assert History(p, sunk + more) == History(p, sunk) + more;
    assert buffer'[..w + |more|] == buffer'[..w] + buffer'[w..w + |more|];
    assert (History(p, sunk) + more)[slid..] == History(p, sunk)[slid..] + more;
  }

  /** Sliding the buffer drops processed bytes from its front and keeps a full window. */
  lemma SlideWindow(p: Params, buffer: seq<byte>, sunk: seq<byte>, slid: nat, scan: nat, buffer': seq<byte>)
    requires WindowOk(p, buffer, sunk, slid, p.Window()) && scan <= p.Window()
    requires |buffer'| == |buffer| && buffer'[..2 * p.Window() - scan] == buffer[scan..]
    ensures WindowOk(p, buffer', sunk, slid + scan, p.Window() - scan)
  {
    assert buffer[..2 * p.Window()] == buffer;
    assert History(p, sunk)[slid..][scan..] == History(p, sunk)[slid + scan..];
  }

  /** The token that the search result stands for is the greedy token of the whole history. */
  lemma SearchFindsToken(p: Params, buffer: seq<byte>, sunk: seq<byte>, slid: nat, inputSize: nat,
                         scan: nat, matchPos: uint16, matchLength: uint16)
    requires WindowOk(p, buffer, sunk, slid, inputSize) && scan < inputSize && p.Window() < 0xFFFF
    requires var data, max := buffer[..p.Window() + inputSize],
                              if inputSize - scan < p.Lookahead() then inputSize - scan else p.Lookahead();
             IsSearchResult(data, scan, p.Window() + scan, max, p.BreakEven(), matchPos, matchLength)
    ensures var q := slid + p.Window() + scan;
            && q < |History(p, sunk)| == slid + p.Window() + inputSize
            && TokenAt(p, History(p, sunk), q)
            == if matchPos == MATCH_NOT_FOUND then Literal(buffer[p.Window() + scan])
               else Backref(matchPos, matchLength)
    ensures matchPos == MATCH_NOT_FOUND <==> matchLength == 0
  {
    hide MatchLen, Best, IsNearestLongest;
    var data, h := buffer[..p.Window() + inputSize], History(p, sunk);
    var end, w := p.Window() + scan, p.Window();
    var max := if inputSize - scan < p.Lookahead() then inputSize - scan else p.Lookahead();
    assert data[end] == h[slid..][end] == h[slid + end];
    BestSlice(h, slid, end, w, max);
    if matchPos == MATCH_NOT_FOUND {
      BestBelow(data, end, w, max, p.BreakEven() / 8);
    } else {
      NearestLongestUnique(data, end, w, max, Match(matchLength, matchPos));
    }
  }

  lemma StartStream(p: Params, buffer: seq<byte>)
    requires |buffer| == 2 * p.Window() && forall i :: 0 <= i < |buffer| ==> buffer[i] == 0
    ensures WindowOk(p, buffer, [], 0, 0) && PackerOk(0, TOP_BIT)
    ensures StreamOk(p, false, [], p.Window(), BitsOut([], 0, TOP_BIT) + [], p.Window(), false)
  {
    hide Committed, OnWalk;
    EmptyByte();
    CommitStart(p);
    WalkStart(p);
    assert BitsOut([], 0, TOP_BIT) + [] == [];
  }

  lemma SizesFit(p: Params)
    requires p.Valid() && p.windowBits <= 14
    ensures 2 * p.Window() <= 0x8000 && 2 * p.Lookahead() <= p.Window()
  {
    assert Pow2(14) == 0x4000;
    Pow2Monotone(p.windowBits, 14);
    Pow2Monotone(p.lookaheadBits, p.windowBits - 1);
  }

  lemma BestBelow(data: seq<byte>, q: nat, reach: nat, max: nat, bound: nat)
    requires reach <= q && q + max <= |data|
    requires forall d :: 1 <= d <= reach ==> MatchLen(data, q, d, max) <= bound
    ensures Best(data, q, reach, max).len <= bound
  {
    var m := Best(data, q, reach, max);
    if m.len > 0 {
      assert MatchLen(data, q, m.dist, max) == m.len;
    }
  }

  /** After the search the new token's bits are committed. */
  lemma SearchCommits(p: Params, finishing: bool, sunk: seq<byte>, next: nat, bits: seq<bool>,
                      reached: nat, backref: bool)
    requires StreamOk(p, finishing, sunk, next, bits, reached, backref)
    requires p.Window() <= next < |History(p, sunk)|
    requires finishing || next + p.Lookahead() <= |History(p, sunk)|
    ensures var t := TokenAt(p, History(p, sunk), next);
            StreamOk(p, finishing, sunk, next + t.Covers(), bits + TokenBits(p, t), next + 1, t.Backref?)
  {
    hide Committed, OnWalk, TokenAt, TokenBits;
    CommitToken(p, History(p, sunk), next, bits, finishing);
    WalkToken(p, History(p, sunk), next, |bits|, reached, backref, finishing);
  }

  /** What the search has found is committed, as the state that yields its tag sees it. */
  lemma SearchYields(p: Params, finishing: bool, buffer: seq<byte>, sunk: seq<byte>, slid: nat, inputSize: nat,
                     scan: nat, max: nat, found: uint16, len: uint16, bits: seq<bool>, reached: nat, backref: bool,
                     literal: byte, pos: nat, outgoing: nat, count: nat)
    requires WindowOk(p, buffer, sunk, slid, inputSize) && scan < inputSize && p.Window() < 0xFFFF
    requires max == if inputSize - scan < p.Lookahead() then inputSize - scan else p.Lookahead()
    requires finishing || max == p.Lookahead()
    requires IsSearchResult(buffer[..p.Window() + inputSize], scan, p.Window() + scan, max, p.BreakEven(), found, len)
    requires StreamOk(p, finishing, sunk, slid + p.Window() + scan, bits, reached, backref)
    requires if found == MATCH_NOT_FOUND then literal == buffer[p.Window() + scan] else pos == found
    ensures found == MATCH_NOT_FOUND <==> len == 0
    ensures len > 0 ==> Backref(found, len).Fits(p) && scan + len <= inputSize
    ensures StreamOk(p, finishing, sunk, slid + p.Window() + scan + (if len == 0 then 1 else len),
                     bits + Pending(p, YieldTagBit, literal, len, pos, outgoing, count),
                     slid + p.Window() + scan + 1, len > 0)
  {
    hide IsSearchResult, StreamOk, TokenAt, TokenBits, WindowOk, History, Pow2;
    SearchFindsToken(p, buffer, sunk, slid, inputSize, scan, found, len);
    SearchCommits(p, finishing, sunk, slid + p.Window() + scan, bits, reached, backref);
  }

  lemma SinkStream(p: Params, sunk: seq<byte>, more: seq<byte>, next: nat, bits: seq<bool>,
                   reached: nat, backref: bool)
    requires StreamOk(p, false, sunk, next, bits, reached, backref)
    ensures StreamOk(p, false, sunk + more, next, bits, reached, backref)
  {
    hide Committed, OnWalk;
    assert History(p, sunk + more) == History(p, sunk) + more;
    CommitMoreInput(p, History(p, sunk), more, next, bits);
    WalkMoreInput(p, History(p, sunk), more, next, |bits|, reached, backref);
  }

  lemma FinishStream(p: Params, finishing: bool, sunk: seq<byte>, next: nat, bits: seq<bool>,
                     reached: nat, backref: bool)
    requires StreamOk(p, finishing, sunk, next, bits, reached, backref)
    ensures StreamOk(p, true, sunk, next, bits, reached, backref)
  {
    hide Committed, OnWalk;
    CommitFinal(p, History(p, sunk), next, bits, finishing);
    WalkFinal(p, History(p, sunk), next, |bits|, reached, backref, finishing);
  }

  /** When all input is parsed and the last byte is written, the output is the encoding. */
  lemma FlushStream(p: Params, sunk: seq<byte>, next: nat, out: seq<byte>, current: byte, bitIndex: byte,
                    reached: nat, backref: bool)
    requires PackerOk(current, bitIndex) && next == |History(p, sunk)|
    requires StreamOk(p, true, sunk, next, BitsOut(out, current, bitIndex), reached, backref)
    ensures (if bitIndex == TOP_BIT then out else out + [current]) == Encode(p, sunk)
    ensures backref <==> EndsInBackref(p, sunk)
    ensures |InputBits(p, sunk)| == 8 * |out| + HeldCount(bitIndex)
  {
    hide Committed, PackerOk, BitsOut, ParseBits, OnWalk, Walk;
    var bits := BitsOut(out, current, bitIndex);
    CommitAll(p, History(p, sunk), next, bits);
    FlushPacks(out, current, bitIndex, bits);
    BitsOutLength(out, current, bitIndex);
    WalkEnd(p, History(p, sunk), |bits|, reached, backref);
  }

  lemma WalkEnd(p: Params, data: seq<byte>, bits: nat, reached: nat, backref: bool)
    requires OnWalk(p, data, |data|, bits, reached, backref, true)
    ensures Walk(p, data, Origin(p), |data|) == Mark(|data|, bits, backref)
  {
    WalkFrom(p, data, |data|, bits, reached, backref, true, [], |data|);
    assert data + [] == data;
  }

  lemma WalkNowhere(p: Params, data: seq<byte>, m: Mark, until: nat)
    requires p.Window() <= m.pos <= |data| && until <= |data|
    ensures until <= m.pos ==> Walk(p, data, m, until) == m
  {
    hide TokenAt, TokenBits, Pow2;
  }

  lemma FieldOfNone(v: nat, i: nat)
    ensures Field(Shr(v, i), 0) == []
  {
  }

  lemma ConcatNone(a: seq<bool>)
    ensures a + [] == a
  {
  }

  lemma Ungroup(a: seq<bool>, b: seq<bool>, c: seq<bool>)
    ensures (a + b) + c == a + (b + c)
  {
  }

  lemma NoField(v: nat)
    ensures Field(v, 0) == []
  {
  }

  lemma TagField()
    ensures Field(1, 1) == [true] && Field(0, 1) == [false]
  {
  }

  lemma ShrNone(v: nat)
    ensures Shr(v, 0) == v
  {
  }

  /** The bytes written since written0 are buf[off..off + n], and nothing else in buf has changed. */
  ghost predicate Delivers(written0: seq<byte>, written: seq<byte>, buf0: seq<byte>, buf: seq<byte>,
                           off: nat, n: nat) {
    && |buf| == |buf0| && off + n <= |buf|
    && written == written0 + buf[off..off + n]
    && buf[..off] == buf0[..off] && buf[off + n..] == buf0[off + n..]
  }

  /** Nothing or one byte was written. */
  ghost predicate OneWrite(written: seq<byte>, written': seq<byte>, buf: seq<byte>, buf': seq<byte>,
                           at: nat, n: nat, n': nat) {
    if n' == n then written' == written && buf' == buf
    else
      && n' == n + 1 && at < |buf|
      && |written'| == |written| + 1 && written'[..|written|] == written
      && buf' == buf[at := written'[|written|]]
  }

  lemma WriteNone(written: seq<byte>, buf: seq<byte>, at: nat, n: nat)
    ensures OneWrite(written, written, buf, buf, at, n, n)
  {
  }

  /** Two steps that write at most one byte between them. */
  lemma WriteThen(w0: seq<byte>, w1: seq<byte>, w2: seq<byte>, b0: seq<byte>, b1: seq<byte>, b2: seq<byte>,
                  off: nat, n0: nat, n1: nat, n2: nat)
    requires OneWrite(w0, w1, b0, b1, off + n0, n0, n1) && OneWrite(w1, w2, b1, b2, off + n1, n1, n2)
    requires n0 <= n1 <= n2 <= n0 + 1
    ensures OneWrite(w0, w2, b0, b2, off + n0, n0, n2)
  {
  }

  lemma DeliverNone(written: seq<byte>, buf: seq<byte>, off: nat)
    requires off <= |buf|
    ensures Delivers(written, written, buf, buf, off, 0)
  {
  }

  lemma DeliverStep(written0: seq<byte>, written: seq<byte>, written': seq<byte>,
                    buf0: seq<byte>, buf: seq<byte>, buf': seq<byte>, off: nat, n: nat, n': nat)
    requires Delivers(written0, written, buf0, buf, off, n)
    requires OneWrite(written, written', buf, buf', off + n, n, n')
    ensures Delivers(written0, written', buf0, buf', off, n')
  {
    if n' != n {
      var b := written'[|written|];
      assert written' == written + [b];
      assert buf'[off..off + n'] == buf[off..off + n] + [b];
      assert buf'[off + n'..] == buf[off + n..][1..];
      assert buf0[off + n'..] == buf0[off + n..][1..];
    }
  }

  // ----- the encoder

  /** Where poll writes: a stretch of the caller's array. */
  class OutputInfo {
    const buf: array<byte>
    const off: nat
    const bufSize: nat
    var outputSize: nat

    constructor (buf: array<byte>, off: nat, bufSize: nat)
      requires off + bufSize <= buf.Length
      ensures this.buf == buf && this.off == off && this.bufSize == bufSize
      ensures Valid() && outputSize == 0
    {
      this.buf, this.off, this.bufSize := buf, off, bufSize;
      outputSize := 0;
    }

    ghost predicate Valid()
      reads this
    {
      off + bufSize <= buf.Length && outputSize <= bufSize
    }

    predicate CanTakeByte()
      reads this
    {
      outputSize < bufSize
    }

    method Put(b: byte)
      requires Valid() && CanTakeByte()
      modifies this`outputSize, buf
      ensures Valid() && outputSize == old(outputSize) + 1
      ensures buf[..] == old(buf[..])[off + old(outputSize) := b]
    {
      buf[off + outputSize] := b;
      outputSize := outputSize + 1;
    }
  }

  class Encoder {
    const params: Params
    const buffer: array<byte>
    const searchIndex: array<int16>
    var inputSize: uint16
    var matchScanIndex: uint16
    var matchLength: uint16
    var matchPos: uint16
    var outgoingBits: uint16
    var outgoingBitsCount: nat
    var finishing: bool
    var state: State
    var currentByte: byte
    var bitIndex: byte
    ghost var sunk: seq<byte>  // every byte taken in
    ghost var slid: nat        // how many of them have left the buffer at its front
    ghost var out: seq<byte>   // every byte written
    ghost var reached: nat     // one behind the start of the last token found, in the history
    ghost var backref: bool    // whether that token is a back-reference

    ghost predicate Shape() {
      && params.Valid() && params.windowBits <= 14
      && 2 * params.Window() <= 0x8000 && 2 * params.Lookahead() <= params.Window()
      && buffer.Length == searchIndex.Length == 2 * params.Window()
    }

    ghost function LastScanned(): byte
      reads this`matchScanIndex, buffer
    {
      var i := params.Window() + matchScanIndex - 1;
      if 0 <= i < buffer.Length then buffer[i] else 0
    }

    ghost function Emitted(): seq<bool>
      reads this`out, this`currentByte, this`bitIndex
    {
      BitsOut(out, currentByte, bitIndex)
    }

    ghost function ToCome(s: State): seq<bool>
      reads this`matchScanIndex, this`matchLength, this`matchPos, this`outgoingBits, this`outgoingBitsCount, buffer
    {
      Pending(params, s, LastScanned(), matchLength, matchPos, outgoingBits, outgoingBitsCount)
    }

    /** The position in the history up to which the input is turned into tokens. */
    ghost function Next(): nat
      reads this`slid, this`matchScanIndex, this`matchLength
    {
      slid + params.Window() + matchScanIndex + matchLength
    }

    /** Input bytes in the buffer that no token covers yet. */
    ghost function Unprocessed(): int
      reads this`inputSize, this`matchScanIndex, this`matchLength
    {
      inputSize - matchScanIndex - matchLength
    }

    /** The invariant, for an encoder about to be in state s. */
    ghost predicate ValidIn(s: State)
      reads this`inputSize, this`matchScanIndex, this`matchLength, this`matchPos, this`outgoingBits,
            this`outgoingBitsCount, this`finishing, this`currentByte, this`bitIndex,
            this`sunk, this`slid, this`out, this`reached, this`backref, buffer, searchIndex
    {
      && Shape()
      && WindowOk(params, buffer[..], sunk, slid, inputSize)
      && ControlOk(params, s, finishing, inputSize, matchScanIndex, matchLength, matchPos, outgoingBitsCount, backref)
      && (s.UsesIndex() ==> IndexAgrees(searchIndex[..], buffer[..params.Window() + inputSize]))
      && PackerOk(currentByte, bitIndex)
      && (if s.Done? then out == Encode(params, sunk) && (backref <==> EndsInBackref(params, sunk))
          else StreamOk(params, finishing, sunk, Next(), Emitted() + ToCome(s), reached, backref))
    }

    /** The invariant between calls; sliding the buffer is never left half done. */
    ghost predicate Valid()
      reads this, buffer, searchIndex
    {
      ValidIn(state) && !state.SaveBacklog?
    }

    /** The bytes written since the old state, at most one, are the next bytes of the caller's array. */
    twostate predicate Wrote(oi: OutputInfo)
      reads this`out, oi, oi.buf
    {
      && oi.Valid() && old(oi.outputSize) <= oi.outputSize <= old(oi.outputSize) + 1
      && OneWrite(old(out), out, old(oi.buf[..]), oi.buf[..], oi.off + old(oi.outputSize),
                  old(oi.outputSize), oi.outputSize)
    }

    /** A full output leaves the states that yield bits only behind a literal. */
    ghost predicate FullBehindLiteral(oi: OutputInfo)
      reads this`state, this`backref, oi
    {
      !oi.CanTakeByte() && !state.Yields() ==> !backref
    }

    // ----- pushing bits

    method PushBit(bit: bool, oi: OutputInfo)
      requires PackerOk(currentByte, bitIndex) && oi.Valid()
      requires HeldCount(bitIndex) == 7 ==> oi.CanTakeByte()
      modifies this`currentByte, this`bitIndex, this`out, oi`outputSize, oi.buf
      ensures PackerOk(currentByte, bitIndex) && Wrote(oi)
      ensures Emitted() == old(Emitted()) + [bit]
      ensures HeldCount(bitIndex) + 8 * (oi.outputSize - old(oi.outputSize)) == old(HeldCount(bitIndex)) + 1
    {
      assert HeldCount(bitIndex) < 8;
      hide PackerOk, BitsOut, Or;
      ghost var current, mask, written := currentByte, bitIndex, out;
      MaskShift(bitIndex);
      currentByte := WithBit(currentByte, bitIndex, bit);
      bitIndex := bitIndex / 2;
      if bitIndex == 0 {
        BitCompletes(written, current, mask, bit);
        bitIndex := TOP_BIT;
        out := out + [currentByte];
        oi.Put(currentByte);
        currentByte := 0;
      } else {
        BitHeld(written, current, mask, bit);
      }
    }

    /** The bit loop of push_bits: the low count bits, from the top. */
    method PushBitLoop(count: nat, bits: byte, oi: OutputInfo)
      requires PackerOk(currentByte, bitIndex) && oi.Valid() && oi.CanTakeByte()
      requires count <= 8
      modifies this`currentByte, this`bitIndex, this`out, oi`outputSize, oi.buf
      ensures PackerOk(currentByte, bitIndex) && Wrote(oi)
      ensures Emitted() == old(Emitted()) + Field(bits, count)
    {
      assert HeldCount(bitIndex) < 8;
      hide PackerOk, BitsOut, Field, Shr, TestBit, HeldCount, Emitted, OneWrite;
      FieldOfNone(bits, count);
      ghost var before := Emitted();
      ghost var w0, b0, n0 := out, oi.buf[..], oi.outputSize;
      WriteNone(w0, b0, oi.off + n0, n0);
      ConcatNone(before);
      var i: int := count - 1;
      while i >= 0
        invariant -1 <= i < count
        invariant PackerOk(currentByte, bitIndex) && Wrote(oi)
        invariant Emitted() == before + Field(Shr(bits, i + 1), count - i - 1)
        invariant HeldCount(bitIndex) + 8 * (oi.outputSize - old(oi.outputSize))
               == old(HeldCount(bitIndex)) + (count - i - 1)
      {
        FieldStep(bits, i, count);
        ghost var w1, b1, n1 := out, oi.buf[..], oi.outputSize;
        PushBit(TestBit(bits, i), oi);
        WriteThen(w0, w1, out, b0, b1, oi.buf[..], oi.off, n0, n1, oi.outputSize);
        Ungroup(before, Field(Shr(bits, i + 1), count - i - 1), [TestBit(bits, i)]);
        i := i - 1;
      }
      ShrNone(bits);
    }

    /** push_bits: a whole byte at a byte boundary goes out at once, everything else bit by bit. */
    method PushBits(count: nat, bits: byte, oi: OutputInfo)
      requires PackerOk(currentByte, bitIndex) && oi.Valid() && oi.CanTakeByte()
      requires count <= 8
      modifies this`currentByte, this`bitIndex, this`out, oi`outputSize, oi.buf
      ensures PackerOk(currentByte, bitIndex) && Wrote(oi)
      ensures Emitted() == old(Emitted()) + Field(bits, count)
    {
      if count == 8 && bitIndex == TOP_BIT {
        hide PackerOk, BitsOut, Field;
        WholeByte(out, currentByte, bits);
        out := out + [bits];
        oi.Put(bits);
      } else {
        PushBitLoop(count, bits, oi);
      }
    }

    /** push_outgoing_bits: at most eight of the queued bits, from the top. */
    method PushOutgoingBits(oi: OutputInfo) returns (count: nat)
      requires PackerOk(currentByte, bitIndex) && oi.Valid() && oi.CanTakeByte()
      modifies this`currentByte, this`bitIndex, this`out, this`outgoingBitsCount, oi`outputSize, oi.buf
      ensures PackerOk(currentByte, bitIndex) && Wrote(oi)
      ensures Emitted() + Field(outgoingBits, outgoingBitsCount)
           == old(Emitted() + Field(outgoingBits, outgoingBitsCount))
      ensures outgoingBitsCount == old(outgoingBitsCount) - count
      ensures count == 0 <==> old(outgoingBitsCount) == 0
      ensures count == 0 ==> oi.outputSize == old(oi.outputSize)
    {
      hide PackerOk, BitsOut, Field, Shr;
      var bits: byte;
      if outgoingBitsCount > 8 {
        count := 8;
        bits := Shr(outgoingBits, outgoingBitsCount - 8) % 256;
        FieldOfByte(Shr(outgoingBits, outgoingBitsCount - 8), 8);
      } else {
        count := outgoingBitsCount;
        bits := outgoingBits % 256;
        FieldOfByte(outgoingBits, count);
        FieldSplit(outgoingBits, count, 0);
        FieldOfByte(Shr(outgoingBits, 0), count);
        ShrNone(outgoingBits);
      }
      FieldSplit(outgoingBits, count, outgoingBitsCount - count);
      if count > 0 {
        PushBits(count, bits, oi);
        outgoingBitsCount := outgoingBitsCount - count;
      }
    }

    method PushLiteralByte(oi: OutputInfo)
      requires Shape() && matchScanIndex >= 1 && params.Window() + matchScanIndex <= buffer.Length
      requires PackerOk(currentByte, bitIndex) && oi.Valid() && oi.CanTakeByte()
      modifies this`currentByte, this`bitIndex, this`out, oi`outputSize, oi.buf
      ensures PackerOk(currentByte, bitIndex) && Wrote(oi)
      ensures Emitted() == old(Emitted()) + Field(old(LastScanned()), 8)
    {
      var processedOffset := matchScanIndex - 1;
      var inputOffset := params.Window() + processedOffset;
      var c := buffer[inputOffset];
      PushBits(8, c, oi);
    }

    // ----- the states that yield bits

    /** Every yielding step writes at most one byte, moves bits from what is to come to what is
        emitted, and stays in its state only with work left or without room. */
    method StYieldTagBit(oi: OutputInfo) returns (next: State)
      requires ValidIn(YieldTagBit) && oi.Valid() && oi.buf != buffer
      modifies this`currentByte, this`bitIndex, this`out, this`outgoingBits, this`outgoingBitsCount,
               oi`outputSize, oi.buf
      ensures ValidIn(next) && Wrote(oi)
      ensures Emitted() + ToCome(next) == old(Emitted() + ToCome(YieldTagBit))
      ensures next == if !old(oi.CanTakeByte()) then YieldTagBit
                      else if matchLength == 0 then YieldLiteral else YieldBrIndex
    {
      hide WindowOk, IndexAgrees, StreamOk, PackerOk, BitsOut, Field, Pending, LastScanned, Shape, Next, Emitted;
      if !oi.CanTakeByte() { return YieldTagBit; }
      TagField();
      PendingAfterTag(params, LastScanned(), matchLength, matchPos, outgoingBits, outgoingBitsCount);
      ghost var emitted := Emitted();
      if matchLength == 0 {
        PushBits(1, 1, oi);
        Ungroup(emitted, [true], ToCome(YieldLiteral));
        next := YieldLiteral;
      } else {
        PushBits(1, 0, oi);
        outgoingBits := matchPos - 1;
        outgoingBitsCount := params.windowBits;
        Ungroup(emitted, [false], ToCome(YieldBrIndex));
        next := YieldBrIndex;
      }
      assert Emitted() + ToCome(next) == old(Emitted() + ToCome(YieldTagBit));
    }

    method StYieldLiteral(oi: OutputInfo) returns (next: State)
      requires ValidIn(YieldLiteral) && oi.Valid() && oi.buf != buffer
      modifies this`currentByte, this`bitIndex, this`out, oi`outputSize, oi.buf
      ensures ValidIn(next) && Wrote(oi)
      ensures Emitted() + ToCome(next) == old(Emitted() + ToCome(YieldLiteral))
      ensures next == if !old(oi.CanTakeByte()) then YieldLiteral else Search
      ensures !backref
    {
      hide IndexAgrees, StreamOk, PackerOk, BitsOut, Field, History;
      if !oi.CanTakeByte() { return YieldLiteral; }
      PushLiteralByte(oi);
      next := Search;
      assert Emitted() + ToCome(next) == old(Emitted() + ToCome(YieldLiteral));
    }

    method StYieldBrIndex(oi: OutputInfo) returns (next: State)
      requires ValidIn(YieldBrIndex) && oi.Valid() && oi.buf != buffer
      modifies this`currentByte, this`bitIndex, this`out, this`outgoingBits, this`outgoingBitsCount,
               oi`outputSize, oi.buf
      ensures ValidIn(next) && Wrote(oi)
      ensures Emitted() + ToCome(next) == old(Emitted() + ToCome(YieldBrIndex))
      ensures next == if old(oi.CanTakeByte()) && old(outgoingBitsCount) == 0 then YieldBrLength else YieldBrIndex
      ensures next.YieldBrIndex? && old(oi.CanTakeByte()) ==> outgoingBitsCount < old(outgoingBitsCount)
    {
      hide WindowOk, IndexAgrees, StreamOk, PackerOk, BitsOut, Field;
      if !oi.CanTakeByte() { return YieldBrIndex; }
      ghost var length := Field(matchLength - 1, params.lookaheadBits);
      Ungroup(Emitted(), Field(outgoingBits, outgoingBitsCount), length);
      NoField(outgoingBits);
      var pushed := PushOutgoingBits(oi);
      Ungroup(Emitted(), Field(outgoingBits, outgoingBitsCount), length);
      if pushed > 0 {
        next := YieldBrIndex;
      } else {
        assert Emitted() + [] == Emitted();
        outgoingBits := matchLength - 1;
        outgoingBitsCount := params.lookaheadBits;
        next := YieldBrLength;
      }
      assert Emitted() + ToCome(next) == old(Emitted() + ToCome(YieldBrIndex));
    }

    method StYieldBrLength(oi: OutputInfo) returns (next: State)
      requires ValidIn(YieldBrLength) && oi.Valid() && oi.buf != buffer
      modifies this`currentByte, this`bitIndex, this`out, this`outgoingBitsCount,
               this`matchScanIndex, this`matchLength, oi`outputSize, oi.buf
      ensures ValidIn(next) && Wrote(oi) && Next() == old(Next()) && Unprocessed() == old(Unprocessed())
      ensures Emitted() + ToCome(next) == old(Emitted() + ToCome(YieldBrLength))
      ensures next == if old(oi.CanTakeByte()) && old(outgoingBitsCount) == 0 then Search else YieldBrLength
      ensures next.Search? ==> oi.CanTakeByte()
      ensures next.YieldBrLength? && old(oi.CanTakeByte()) ==> outgoingBitsCount < old(outgoingBitsCount)
    {
      hide WindowOk, IndexAgrees, StreamOk, PackerOk, BitsOut, Field;
      if !oi.CanTakeByte() { return YieldBrLength; }
      NoField(outgoingBits);
      var pushed := PushOutgoingBits(oi);
      if pushed > 0 {
        next := YieldBrLength;
      } else {
        matchScanIndex := matchScanIndex + matchLength;
        matchLength := 0;
        next := Search;
      }
      assert Emitted() + ToCome(next) == old(Emitted() + ToCome(YieldBrLength));
    }

    // ----- the other states

    /** st_step_search: end of the search, or the next token. */
    method StStepSearch() returns (next: State)
      requires ValidIn(Search)
      modifies this`matchScanIndex, this`matchLength, this`matchPos, this`reached, this`backref
      ensures ValidIn(next) && (next.Yields() || backref == old(backref))
      ensures next.YieldTagBit? || next == if finishing then FlushBits else SaveBacklog
      ensures Emitted() == old(Emitted())
      ensures if next.YieldTagBit? then Unprocessed() < old(Unprocessed()) else Unprocessed() == old(Unprocessed())
    {
      var windowLength := params.Window();
      var lookaheadSz := params.Lookahead();
      var msi := matchScanIndex;
      var fin := finishing;
      if msi > inputSize - (if fin then 1 else lookaheadSz) {
        hide StreamOk, WindowOk, IndexAgrees, PackerOk;
        return if fin then FlushBits else SaveBacklog;
      }
      var maxPossible := lookaheadSz;
      if inputSize - msi < lookaheadSz {
        maxPossible := inputSize - msi;
      }
      next := YieldTagBit;
      InSearch();
      hide ValidIn, Shape, WindowOk, IndexAgrees, PackerOk, StreamOk, Emitted, Pow2;
      NextToken(msi, maxPossible);
    }

    method NextToken(msi: uint16, maxPossible: uint16)
      requires Shape() && 2 * params.Window() <= 0x8000 && buffer.Length == searchIndex.Length == 2 * params.Window()
      requires inputSize <= params.Window() && (!finishing ==> inputSize == params.Window())
      requires WindowOk(params, buffer[..], sunk, slid, inputSize) && PackerOk(currentByte, bitIndex)
      requires IndexAgrees(searchIndex[..], buffer[..params.Window() + inputSize])
      requires StreamOk(params, finishing, sunk, slid + params.Window() + matchScanIndex, Emitted(), reached, backref)
      requires msi == matchScanIndex < inputSize && maxPossible >= 1
      requires maxPossible == if inputSize - msi < params.Lookahead() then inputSize - msi else params.Lookahead()
      requires finishing || maxPossible == params.Lookahead()
      modifies this`matchScanIndex, this`matchLength, this`matchPos, this`reached, this`backref
      ensures ValidIn(YieldTagBit) && msi < matchScanIndex + matchLength
    {
      hide *;
      var end := params.Window() + msi;
      ghost var data := buffer[..params.Window() + inputSize];
      var pos, len := FindLongestMatch(buffer, searchIndex, msi, end, maxPossible, params.BreakEven(), data);
      ghost var literal := if pos == MATCH_NOT_FOUND then buffer[end] else LastScanned();
      SearchYields(params, finishing, buffer[..], sunk, slid, inputSize, msi, maxPossible, pos, len, Emitted(),
                   reached, backref, literal, if pos == MATCH_NOT_FOUND then matchPos else pos,
                   outgoingBits, outgoingBitsCount);
      TakeToken(msi, pos, len, literal);
    }

    method TakeToken(msi: uint16, pos: uint16, len: uint16, ghost literal: byte)
      requires Shape() && inputSize <= params.Window() && (!finishing ==> inputSize == params.Window())
      requires WindowOk(params, buffer[..], sunk, slid, inputSize) && PackerOk(currentByte, bitIndex)
      requires IndexAgrees(searchIndex[..], buffer[..params.Window() + inputSize])
      requires matchScanIndex == msi && (pos == MATCH_NOT_FOUND <==> len == 0) && msi + len <= inputSize
      requires len > 0 ==> Backref(pos, len).Fits(params) && literal == LastScanned()
      requires len == 0 ==> msi < inputSize && params.Window() + msi < buffer.Length
                            && literal == buffer[params.Window() + msi]
      requires StreamOk(params, finishing, sunk, slid + params.Window() + msi + (if len == 0 then 1 else len),
                        Emitted() + Pending(params, YieldTagBit, literal, len, if len == 0 then matchPos else pos,
                                            outgoingBits, outgoingBitsCount),
                        slid + params.Window() + msi + 1, len > 0)
      modifies this`matchScanIndex, this`matchLength, this`matchPos, this`reached, this`backref
      ensures ValidIn(YieldTagBit) && msi < matchScanIndex + matchLength
    {
      hide *;
      reached, backref := slid + params.Window() + msi + 1, len > 0;
      if pos == MATCH_NOT_FOUND {
        matchScanIndex := matchScanIndex + 1;
        matchLength := 0;
      } else {
        matchPos := pos;
        matchLength := len;
      }
      InTagBit(msi, literal);
    }

    /** What the search can use of the invariant. */
    lemma InSearch()
      requires ValidIn(Search)
      ensures Shape() && 2 * params.Window() <= 0x8000 && buffer.Length == searchIndex.Length == 2 * params.Window()
      ensures matchLength == 0 && inputSize <= params.Window() && (!finishing ==> inputSize == params.Window())
      ensures WindowOk(params, buffer[..], sunk, slid, inputSize) && PackerOk(currentByte, bitIndex)
      ensures IndexAgrees(searchIndex[..], buffer[..params.Window() + inputSize])
      ensures StreamOk(params, finishing, sunk, slid + params.Window() + matchScanIndex, Emitted(), reached, backref)
    {
      hide IndexAgrees, StreamOk, PackerOk, BitsOut, WindowOk, Pow2;
      ConcatNone(Emitted());
    }

    /** What makes a state that is about to yield a tag bit valid. */
    lemma InTagBit(msi: nat, literal: byte)
      requires Shape() && inputSize <= params.Window() && (!finishing ==> inputSize == params.Window())
      requires WindowOk(params, buffer[..], sunk, slid, inputSize) && PackerOk(currentByte, bitIndex)
      requires IndexAgrees(searchIndex[..], buffer[..params.Window() + inputSize])
      requires matchScanIndex == if matchLength == 0 then msi + 1 else msi
      requires matchScanIndex + matchLength <= inputSize && (backref <==> matchLength > 0)
      requires matchLength == 0 ==> params.Window() + msi < buffer.Length && literal == buffer[params.Window() + msi]
      requires matchLength > 0 ==> Backref(matchPos, matchLength).Fits(params) && literal == LastScanned()
      requires StreamOk(params, finishing, sunk,
                        slid + params.Window() + msi + (if matchLength == 0 then 1 else matchLength),
                        Emitted() + Pending(params, YieldTagBit, literal, matchLength, matchPos,
                                            outgoingBits, outgoingBitsCount), reached, backref)
      ensures ValidIn(YieldTagBit)
    {
      hide IndexAgrees, StreamOk, PackerOk, BitsOut, WindowOk, Pow2, Pending;
      assert LastScanned() == literal;
    }

    method StFilled() returns (next: State)
      requires ValidIn(Filled)
      modifies searchIndex
      ensures ValidIn(next) && next == Search
    {
      hide IndexAgrees, StreamOk, PackerOk, BitsOut, WindowOk, History, Pow2;
      DoIndexing(buffer, searchIndex, params.Window() + inputSize);
      next := Search;
    }

    /** save_backlog: move the last window of processed bytes and everything unprocessed to the front. */
    method StSaveBacklog() returns (next: State)
      requires ValidIn(SaveBacklog)
      modifies this`matchScanIndex, this`inputSize, this`slid, buffer
      ensures ValidIn(next) && next == NotFull
      ensures Emitted() == old(Emitted()) && Next() == old(Next()) && Unprocessed() == old(Unprocessed())
      ensures inputSize < params.Lookahead()
    {
      hide IndexAgrees, StreamOk, WindowOk, PackerOk, BitsOut;
      var inputBufSz := params.Window();
      var msi := matchScanIndex;
      var rem := inputBufSz - msi;
      var shiftSz := inputBufSz + rem;
      ghost var before := buffer[..];
      forall i | 0 <= i < shiftSz {
        buffer[i] := buffer[inputBufSz - rem + i];
      }
      SlideWindow(params, before, sunk, slid, msi, buffer[..]);
      matchScanIndex := 0;
      inputSize := inputSize - (inputBufSz - rem);
      slid := slid + msi;
      next := NotFull;
    }

    /** st_flush_bit_buffer: write the partial byte, if there is one and there is room. */
    method StFlushBitBuffer(oi: OutputInfo) returns (next: State)
      requires ValidIn(FlushBits) && oi.Valid() && oi.buf != buffer
      modifies this`out, oi`outputSize, oi.buf
      ensures ValidIn(next) && Wrote(oi)
      ensures next == if bitIndex != TOP_BIT && !old(oi.CanTakeByte()) then FlushBits else Done
      ensures |InputBits(params, sunk)| == 8 * |old(out)| + HeldCount(bitIndex)
      ensures bitIndex == TOP_BIT || next.FlushBits? ==> out == old(out) && oi.outputSize == old(oi.outputSize)
      ensures next.Done? && bitIndex != TOP_BIT ==> |InputBits(params, sunk)| < 8 * |out|
    {
      hide IndexAgrees, StreamOk, PackerOk, BitsOut, Encode, InputBits, EndsInBackref;
      assert Next() == |History(params, sunk)| && Emitted() + [] == Emitted();
      hide WindowOk;
      FlushStream(params, sunk, Next(), out, currentByte, bitIndex, reached, backref);
      assert HeldCount(bitIndex) < 8 by { MaskInRange(currentByte, bitIndex); }
      if bitIndex == TOP_BIT {
        next := Done;
      } else if oi.CanTakeByte() {
        out := out + [currentByte];
        oi.Put(currentByte);
        next := Done;
      } else {
        next := FlushBits;
      }
    }

    // ----- the interface

    method ClearBuffer()
      modifies buffer
      ensures forall i :: 0 <= i < buffer.Length ==> buffer[i] == 0
    {
      forall i | 0 <= i < buffer.Length {
        buffer[i] := 0;
      }
    }

    /** heatshrink_encoder_reset: forget everything. */
    method Reset()
      modifies this, buffer
      ensures Cleared() && (Shape() ==> Valid())
    {
      hide ValidIn, Shape;
      ClearBuffer();
      inputSize := 0;
      state := NotFull;
      matchScanIndex := 0;
      finishing := false;
      bitIndex := TOP_BIT;
      currentByte := 0;
      matchLength := 0;
      outgoingBits := 0;
      outgoingBitsCount := 0;
      sunk, slid, out, reached, backref := [], 0, [], params.Window(), false;
      if Shape() {
        StartIsValid();
      }
    }

    /** An encoder at its start: nothing taken in, nothing written, a zero history. */
    ghost predicate Cleared()
      reads this, buffer
    {
      && state == NotFull && !finishing && inputSize == 0 && matchScanIndex == 0 && matchLength == 0
      && bitIndex == TOP_BIT && currentByte == 0 && outgoingBits == 0 && outgoingBitsCount == 0
      && sunk == [] && slid == 0 && out == [] && reached == params.Window() && !backref
      && forall i :: 0 <= i < buffer.Length ==> buffer[i] == 0
    }

    lemma StartIsValid()
      requires Shape() && Cleared()
      ensures ValidIn(NotFull)
    {
      hide IndexAgrees, StreamOk, PackerOk, BitsOut, WindowOk, History, Encode, TokenBits, Pow2;
      StartStream(params, buffer[..]);
    }

    /** An encoder for any accepted parameters; the search works for windows of up to 14 bits. */
    constructor (windowSz2: nat, lookaheadSz2: nat)
      requires Params(windowSz2, lookaheadSz2).Valid()
      ensures fresh(buffer) && fresh(searchIndex)
      ensures params == Params(windowSz2, lookaheadSz2)
      ensures buffer.Length == searchIndex.Length == 2 * params.Window()
      ensures Cleared() && (windowSz2 <= 14 ==> Valid())
    {
      params := Params(windowSz2, lookaheadSz2);
      var size := 2 * Pow2(windowSz2);
      buffer := new byte[size];
      searchIndex := new int16[size];
      new;
      hide ValidIn;
      if windowSz2 <= 14 {
        SizesFit(params);
      }
      Reset();
    }

    /** heatshrink_encoder_alloc: no encoder for parameters out of range or when memory runs out. */
    static method Alloc(windowSz2: nat, lookaheadSz2: nat, encoderFits: bool, indexFits: bool)
      returns (hse: Encoder?)
      ensures hse == null <==> !Params(windowSz2, lookaheadSz2).Valid() || !encoderFits || !indexFits
      ensures hse != null ==>
        && fresh(hse) && fresh(hse.buffer) && fresh(hse.searchIndex)
        && hse.params == Params(windowSz2, lookaheadSz2)
        && hse.buffer.Length == hse.searchIndex.Length == 2 * hse.params.Window()
        && hse.Cleared() && (windowSz2 <= 14 ==> hse.Valid())
    {
      if windowSz2 < MIN_WINDOW_BITS || windowSz2 > MAX_WINDOW_BITS
         || lookaheadSz2 < MIN_LOOKAHEAD_BITS || lookaheadSz2 >= windowSz2 {
        return null;
      }
      if !encoderFits || !indexFits { return null; }
      hse := new Encoder(windowSz2, lookaheadSz2);
    }

    method CopyIn(inBuf: array<byte>, off: nat, n: nat, at: nat)
      requires off + n <= inBuf.Length && at + n <= buffer.Length && inBuf != buffer
      modifies buffer
      ensures buffer[..at] == old(buffer[..at]) && buffer[at..at + n] == inBuf[off..off + n]
    {
      forall i | 0 <= i < n {
        buffer[at + i] := inBuf[off + i];
      }
    }

    /** The part of sink after its checks: take in as much as the buffer has room for. */
    method TakeIn(inBuf: array<byte>, off: nat, size: nat) returns (taken: nat)
      requires ValidIn(NotFull) && state == NotFull
      requires off + size <= inBuf.Length && inBuf != buffer
      modifies this`inputSize, this`state, this`sunk, buffer
      ensures ValidIn(state)
      ensures taken == (var rem := params.Window() - old(inputSize); if rem < size then rem else size)
      ensures inputSize == old(inputSize) + taken && sunk == old(sunk) + inBuf[off..off + taken]
      ensures state == if inputSize == params.Window() then Filled else NotFull
      ensures size > 0 ==> taken > 0
    {
      hide StreamOk, PackerOk, BitsOut, WindowOk, Pow2;
      ghost var before, sunk0, inputSize0 := buffer[..], sunk, inputSize;
      assert Shape() && inputSize < params.Window() && matchLength == 0 && matchScanIndex == 0 && !finishing;
      assert WindowOk(params, before, sunk, slid, inputSize) && PackerOk(currentByte, bitIndex);
      assert StreamOk(params, false, sunk, Next(), Emitted() + [], reached, backref);
      hide ValidIn;
      var writeOffset := params.Window() + inputSize;
      var rem := params.Window() - inputSize;
      taken := if rem < size then rem else size;
      ghost var more := inBuf[off..off + taken];
      CopyIn(inBuf, off, taken, writeOffset);
      inputSize := inputSize + taken;
      sunk := sunk + more;
      if taken == rem {
        state := Filled;
      }
      TakenIsValid(before, sunk0, inputSize0, more);
    }

    lemma TakenIsValid(before: seq<byte>, sunk0: seq<byte>, inputSize0: nat, more: seq<byte>)
      requires Shape() && matchLength == 0 && matchScanIndex == 0 && !finishing
      requires inputSize == inputSize0 + |more| <= params.Window() && sunk == sunk0 + more
      requires WindowOk(params, before, sunk0, slid, inputSize0) && PackerOk(currentByte, bitIndex)
      requires StreamOk(params, false, sunk0, Next(), Emitted() + [], reached, backref)
      requires var w := params.Window() + inputSize0;
               |before| == buffer.Length && buffer[..w] == before[..w] && buffer[w..w + |more|] == more
      ensures ValidIn(if inputSize == params.Window() then Filled else NotFull)
    {
      hide IndexAgrees, StreamOk, PackerOk, BitsOut, WindowOk, History, Encode, TokenBits, Pow2;
      SinkWindow(params, before, sunk0, slid, inputSize0, more, buffer[..]);
      SinkStream(params, sunk0, more, Next(), Emitted() + [], reached, backref);
    }

    /** heatshrink_encoder_sink: refused, leaving the caller's count as given, after finish and while
        input is being processed. */
    method Sink(inBuf: array?<byte>, off: nat, size: nat, given: nat) returns (res: SinkRes, taken: nat)
      requires Valid()
      requires inBuf != null ==> off + size <= inBuf.Length && inBuf != buffer
      modifies this`inputSize, this`state, this`sunk, buffer
      ensures Valid()
      ensures res == if inBuf == null then SinkErrorNull
                     else if finishing || old(state) != NotFull then SinkErrorMisuse else SinkOk
      ensures res == SinkOk ==>
        && taken == (var rem := params.Window() - old(inputSize); if rem < size then rem else size)
        && sunk == old(sunk) + inBuf[off..off + taken] && inputSize == old(inputSize) + taken
        && state == (if inputSize == params.Window() then Filled else NotFull)
        && (size > 0 ==> taken > 0)
      ensures res != SinkOk ==>
        taken == given && unchanged(this, buffer)
    {
      hide ValidIn;
      if inBuf == null {
        res, taken := SinkErrorNull, given;
      } else if finishing || state != NotFull {
        res, taken := SinkErrorMisuse, given;
      } else {
        taken := TakeIn(inBuf, off, size);
        res := SinkOk;
      }
    }

    /** heatshrink_encoder_finish: no more input will come. */
    method Finish() returns (res: FinishRes)
      requires Valid()
      modifies this`finishing, this`state
      ensures Valid() && finishing
      ensures state == if old(state) == NotFull then Filled else old(state)
      ensures res == FinishDone <==> state == Done
      ensures res == FinishDone ==> out == Encode(params, sunk)
    {
      hide IndexAgrees, StreamOk, PackerOk, BitsOut, WindowOk, History, Encode, TokenBits, Pow2, EndsInBackref,
           Shape;
      if state != Done {
        FinishStream(params, finishing, sunk, Next(), Emitted() + ToCome(state), reached, backref);
      }
      finishing := true;
      if state == NotFull {
        state := Filled;
      }
      res := if state == Done then FinishDone else FinishMore;
    }

    /** A round of the loop in poll from a state that writes nothing. */
    method InnerTransition()
      requires ValidIn(state) && (state.Filled? || state.Search? || state.SaveBacklog?)
      modifies this`state, this`matchScanIndex, this`matchLength, this`matchPos, this`inputSize, this`slid,
               this`reached, this`backref, buffer, searchIndex
      ensures ValidIn(state) && state != old(state) && (state.Yields() || backref == old(backref)) && !state.Done?
      ensures state == NotFull ==> inputSize < params.Lookahead()
      ensures Unprocessed() < old(Unprocessed())
           || (Unprocessed() == old(Unprocessed()) && state.Rank() < old(state.Rank()))
    {
      hide ValidIn;
      match state
      case Filled => state := StFilled();
      case Search => state := StStepSearch();
      case SaveBacklog => state := StSaveBacklog();
    }

    /** A round from a state that yields bits. */
    method YieldTransition(oi: OutputInfo)
      requires ValidIn(state) && oi.Valid() && oi.buf != buffer
      requires state.YieldTagBit? || state.YieldLiteral? || state.YieldBrIndex? || state.YieldBrLength?
      modifies this`state, this`currentByte, this`bitIndex, this`out, this`outgoingBits, this`outgoingBitsCount,
               this`matchScanIndex, this`matchLength, oi`outputSize, oi.buf
      ensures ValidIn(state) && Wrote(oi) && Unprocessed() == old(Unprocessed())
      ensures state.Yields() || state == Search
      ensures FullBehindLiteral(oi)
      ensures state.Rank() < old(state.Rank())
           || (state == old(state) && (outgoingBitsCount < old(outgoingBitsCount) || !oi.CanTakeByte()))
    {
      hide ValidIn, OneWrite, Emitted, ToCome, Next, LastScanned, Pending, Shape;
      match state
      case YieldTagBit => state := StYieldTagBit(oi);
      case YieldLiteral => state := StYieldLiteral(oi);
      case YieldBrIndex => state := StYieldBrIndex(oi);
      case YieldBrLength => state := StYieldBrLength(oi);
    }

    lemma CountsProcessed()
      requires ValidIn(state)
      ensures Unprocessed() >= 0
    {
    }

    /** Where a poll ends: in a state that yields bits only when the output is full; asking for input
        only with less than a lookahead unprocessed; and in the flush only when the output is full and
        bits remain. A full output is behind a literal, or the last byte was filled up with zeros. */
    ghost predicate Rests(from: State, room: bool)
      reads this`state, this`inputSize, this`sunk, this`out, this`backref, this`bitIndex
    {
      && (state.Yields() || state == NotFull || state == FlushBits || state == Done)
      && (state.Yields() || state == FlushBits ==> !room)
      && (state == NotFull && from != NotFull ==> inputSize < params.Lookahead())
      && (state == FlushBits ==> 8 * |out| < |InputBits(params, sunk)| < 8 * |out| + 8)
      && (!room && !state.Yields() ==> !backref || (state == Done && |InputBits(params, sunk)| < 8 * |out|))
    }

    /** The invariant of the loop of poll. */
    ghost predicate InPoll(oi: OutputInfo, from: State)
      reads this`state, this`inputSize, this`matchScanIndex, this`matchLength, this`backref, oi
    {
      && Unprocessed() >= 0 && FullBehindLiteral(oi)
      && (state == NotFull && from != NotFull ==> inputSize < params.Lookahead())
      && (state == Done ==> oi.CanTakeByte())
    }

    /** A round of the loop in poll, from a state that does not end it. */
    method Round(oi: OutputInfo, ghost from: State)
      requires ValidIn(state) && oi.Valid() && oi.buf != buffer && oi.buf as object != searchIndex
      requires !state.NotFull? && !state.FlushBits? && !state.Done? && InPoll(oi, from)
      modifies this`state, this`currentByte, this`bitIndex, this`out, this`outgoingBits, this`outgoingBitsCount,
               this`matchScanIndex, this`matchLength, this`matchPos, this`inputSize, this`slid,
               this`reached, this`backref, buffer, searchIndex, oi`outputSize, oi.buf
      ensures ValidIn(state) && Wrote(oi) && 0 <= Unprocessed() <= old(Unprocessed())
      ensures InPoll(oi, from)
      ensures state == old(state) ==> state.Yields()
      ensures Unprocessed() == old(Unprocessed()) ==>
        || state.Rank() < old(state.Rank())
        || (state == old(state) && (outgoingBitsCount < old(outgoingBitsCount) || !oi.CanTakeByte()))
    {
      hide ValidIn, OneWrite;
      if state.Filled? || state.Search? || state.SaveBacklog? {
        InnerTransition();
        WriteNone(out, oi.buf[..], oi.off + oi.outputSize, oi.outputSize);
      } else {
        YieldTransition(oi);
      }
      CountsProcessed();
    }

    lemma BeginsAt(oi: OutputInfo)
      requires ValidIn(state) && oi.CanTakeByte()
      ensures InPoll(oi, state)
    {
    }

    lemma StopsAt(oi: OutputInfo, from: State)
      requires InPoll(oi, from)
      requires state == NotFull || state == Done || (state.Yields() && !oi.CanTakeByte())
      ensures Rests(from, oi.CanTakeByte())
    {
    }

    lemma InFlush()
      requires ValidIn(FlushBits)
      ensures HeldCount(bitIndex) < 8 && (HeldCount(bitIndex) == 0 <==> bitIndex == TOP_BIT)
    {
      MaskInRange(currentByte, bitIndex);
    }

    /** The last step, which ends the loop whether it has room or not. */
    method LastStep(oi: OutputInfo, ghost from: State)
      requires ValidIn(FlushBits) && state == FlushBits && oi.Valid() && oi.buf != buffer && InPoll(oi, from)
      modifies this`state, this`out, oi`outputSize, oi.buf
      ensures ValidIn(state) && Wrote(oi) && !state.Yields() && state != SaveBacklog && Rests(from, oi.CanTakeByte())
    {
      hide ValidIn, OneWrite, InputBits, PackerOk, HeldCount;
      InFlush();
      state := StFlushBitBuffer(oi);
    }

    /** The loop of poll. It ends when the state asks for input, when everything is flushed or the
        flush finds no room, or when a state could not be left because the output is full. */
    method PollLoop(oi: OutputInfo) returns (res: PollRes)
      requires ValidIn(state) && oi.Valid() && oi.buf != buffer && oi.buf as object != searchIndex
      requires oi.outputSize == 0 && oi.CanTakeByte() && !state.SaveBacklog?
      modifies this`state, this`currentByte, this`bitIndex, this`out, this`outgoingBits, this`outgoingBitsCount,
               this`matchScanIndex, this`matchLength, this`matchPos, this`inputSize, this`slid,
               this`reached, this`backref, buffer, searchIndex, oi`outputSize, oi.buf
      ensures ValidIn(state) && !state.SaveBacklog? && oi.Valid()
      ensures Delivers(old(out), out, old(oi.buf[..]), oi.buf[..], oi.off, oi.outputSize)
      ensures res == if state.Yields() then PollMore else PollEmpty
      ensures Rests(old(state), oi.CanTakeByte())
    {
      hide ValidIn, Delivers, OneWrite, InPoll, Rests, Unprocessed, State.Rank;
      ghost var written0, bytes0, from := out, oi.buf[..], state;
      DeliverNone(out, oi.buf[..], oi.off);
      BeginsAt(oi);
      while true
        invariant ValidIn(state) && oi.Valid() && InPoll(oi, from)
        invariant Delivers(written0, out, bytes0, oi.buf[..], oi.off, oi.outputSize)
        decreases Unprocessed(), state.Rank(), outgoingBitsCount
      {
        ghost var written, bytes, n := out, oi.buf[..], oi.outputSize;
        if state == NotFull || state == Done {
          StopsAt(oi, from);
          return PollEmpty;
        } else if state == FlushBits {
          LastStep(oi, from);
          DeliverStep(written0, written, out, bytes0, bytes, oi.buf[..], oi.off, n, oi.outputSize);
          return PollEmpty;
        }
        var inState := state;
        Round(oi, from);
        DeliverStep(written0, written, out, bytes0, bytes, oi.buf[..], oi.off, n, oi.outputSize);
        if state == inState && oi.outputSize == oi.bufSize {
          StopsAt(oi, from);
          return PollMore;
        }
      }
    }

    /** heatshrink_encoder_poll: run the state machine until the output is full or the input used up.
        The caller's count keeps its given value when the call is refused. */
    method Poll(outBuf: array?<byte>, off: nat, size: nat, given: nat) returns (res: PollRes, count: nat)
      requires Valid()
      requires outBuf != null ==> off + size <= outBuf.Length && outBuf != buffer && outBuf as object != searchIndex
      modifies this`state, this`currentByte, this`bitIndex, this`out, this`outgoingBits, this`outgoingBitsCount,
               this`matchScanIndex, this`matchLength, this`matchPos, this`inputSize, this`slid,
               this`reached, this`backref, buffer, searchIndex, outBuf
      ensures Valid()
      ensures res == PollErrorNull <==> outBuf == null
      ensures res == PollErrorMisuse <==> outBuf != null && size == 0
      ensures res == PollErrorNull || res == PollErrorMisuse ==>
        count == given && unchanged(this, buffer, searchIndex) && (outBuf != null ==> unchanged(outBuf))
      ensures res == PollEmpty || res == PollMore ==>
        count <= size && Delivers(old(out), out, old(outBuf[..]), outBuf[..], off, count)
      ensures res == PollMore ==> state.Yields()
      ensures res == PollEmpty ==> !state.Yields()
      ensures res == PollEmpty || res == PollMore ==> Rests(old(state), count < size)
    {
      if outBuf == null { return PollErrorNull, given; }
      if size == 0 { return PollErrorMisuse, given; }
      var oi := new OutputInfo(outBuf, off, size);
      res := PollLoop(oi);
      count := oi.outputSize;
    }

    // ----- what a caller can rely on

    /** At any time the bytes written begin the encoding of every input that may still come. */
    lemma OutputIsPrefix(ext: seq<byte>)
      requires Valid() && (finishing ==> ext == [])
      ensures out <= Encode(params, sunk + ext)
    {
      hide Valid, Committed, ParseBits, Pack, Emitted, ToCome, Next, Unpack, BitsOut;
      if state.Done? {
        DoneIsAll();
        assert sunk + ext == sunk;
      } else {
        Streaming();
        assert History(params, sunk + ext) == History(params, sunk) + ext;
        CommitPrefix(params, History(params, sunk), Next(), Emitted() + ToCome(state), finishing, ext);
        PrefixOfPack(out, InputBits(params, sunk + ext));
      }
    }

    lemma Streaming()
      requires Valid() && state != Done
      ensures Committed(params, History(params, sunk), Next(), Emitted() + ToCome(state), finishing)
      ensures Unpack(out) <= Emitted()
    {
      hide Committed, OnWalk, WindowOk, IndexAgrees, PackerOk, Unpack, Field, History, Pending;
    }

    /** How many bits of the finished encoding have been written. */
    lemma BitsWritten()
      requires Valid() && finishing
      ensures state != Done ==> 8 * |out| <= |InputBits(params, sunk)|
      ensures state == FlushBits || state == Done ==> |InputBits(params, sunk)| < 8 * |out| + 8
    {
      assert state == FlushBits ==> Next() == |History(params, sunk)|;
      hide WindowOk, IndexAgrees, ParseBits, TokenBits, Pack, Field;
      if state != Done {
        var bits := Emitted() + ToCome(state);
        assert sunk + [] == sunk && History(params, sunk) + [] == History(params, sunk);
        CommitPrefix(params, History(params, sunk), Next(), bits, finishing, []);
        assert |bits| <= |InputBits(params, sunk)|;
        BitsOutLength(out, currentByte, bitIndex);
        if state == FlushBits {
          CommitAll(params, History(params, sunk), Next(), bits);
        }
      }
    }

    /** From where the encoder stands the parse goes on as it went from its origin, up to where tokens
        may begin with the input so far. */
    lemma OnCourse(ext: seq<byte>)
      requires Valid() && state != Done && (finishing <==> ext == [])
      requires finishing || |sunk| >= params.Lookahead()
      ensures var data, known := History(params, sunk + ext), |History(params, sunk)|;
        var until := Bound(params, known, |data|);
        && params.Window() <= Next() <= |data| && until <= |data|
        && Walk(params, data, Origin(params), until)
           == Walk(params, data, Mark(Next(), |Emitted() + ToCome(state)|, backref), until)
    {
      hide Committed, WindowOk, IndexAgrees, PackerOk, BitsOut, TokenBits, Walk, Pending, Pow2, ControlOk;
      var bits := |Emitted() + ToCome(state)|;
      var data, known := History(params, sunk), |History(params, sunk)|;
      assert History(params, sunk + ext) == data + ext;
      WalkFrom(params, data, Next(), bits, reached, backref, finishing, ext, Bound(params, known, |data + ext|));
    }

    /** An encoder stuck in a token has still to write bits that this round of the parse contains: at
        least a byte, unless the round ends with that token and it is a back-reference. */
    lemma StuckBits(ext: seq<byte>)
      requires Valid() && state.Yields() && (finishing <==> ext == [])
      requires finishing || |sunk| >= params.Lookahead()
      ensures var data, known := History(params, sunk + ext), |History(params, sunk)|;
        var g := Walk(params, data, Origin(params), Bound(params, known, |data|));
        g.bits >= 8 * |out| && (g.backref || g.bits >= 8 * (|out| + 1))
    {
      OnCourse(ext);
      Waiting();
      var data, known := History(params, sunk + ext), |History(params, sunk)|;
      var m := Mark(Next(), |Emitted() + ToCome(state)|, backref);
      hide *;
      WalkCost(params, data, m, Bound(params, known, |data|));
      WalkNowhere(params, data, m, Bound(params, known, |data|));
    }

    /** What a state that yields bits has to write: at least a byte of a literal. */
    lemma Waiting()
      requires Valid() && state.Yields()
      ensures params.Valid() && 8 * |out| <= |Emitted()| <= |Emitted() + ToCome(state)|
      ensures backref || |Emitted() + ToCome(state)| >= 8 * (|out| + 1)
    {
      hide WindowOk, IndexAgrees, StreamOk, BitsOut, Field, PackerOk;
      BitsOutLength(out, currentByte, bitIndex);
    }

    /** An encoder that asks for input after a poll has gone exactly as far as it could. */
    lemma AtRest(ext: seq<byte>)
      requires Valid() && state == NotFull && inputSize < params.Lookahead() <= |sunk| && ext != []
      ensures var data, known := History(params, sunk + ext), |History(params, sunk)|;
        var g := Walk(params, data, Origin(params), Bound(params, known, |data|));
        g == Mark(Next(), |Emitted()|, backref) && 8 * |out| <= g.bits < 8 * |out| + 8
    {
      Asking();
      OnCourse(ext);
      var data, known := History(params, sunk + ext), |History(params, sunk)|;
      assert known < |data|;
      var m := Mark(Next(), |Emitted() + ToCome(state)|, backref);
      assert Bound(params, known, |data|) <= Next();
      hide *;
      WalkNowhere(params, data, m, Bound(params, known, |data|));
    }

    lemma Asking()
      requires Valid() && state == NotFull
      ensures !finishing && Emitted() + ToCome(state) == Emitted()
      ensures 8 * |out| <= |Emitted()| < 8 * |out| + 8
      ensures |History(params, sunk)| == Next() + inputSize
      ensures Next() == |sunk| + params.Window() - inputSize
    {
      hide IndexAgrees, StreamOk, BitsOut, PackerOk;
      BitsOutLength(out, currentByte, bitIndex);
      ConcatNone(Emitted());
    }

    /** At the end of the parse. */
    lemma AtEnd()
      requires Valid() && (state == FlushBits || state == Done)
      ensures var data := History(params, sunk);
        Walk(params, data, Origin(params), |data|) == Mark(|data|, |InputBits(params, sunk)|, backref)
      ensures finishing && (backref <==> EndsInBackref(params, sunk))
    {
      var data := History(params, sunk);
      WalkParse(params, data, Origin(params));
      if state == FlushBits {
        assert Next() == |data| && sunk + [] == sunk;
        OnCourse([]);
        WalkNowhere(params, data, Mark(Next(), |Emitted() + ToCome(state)|, backref), |data|);
      }
      hide *;
    }

    lemma RestsWithRoom(from: State)
      requires Rests(from, true)
      ensures state == NotFull || state == Done
      ensures state == NotFull && from != NotFull ==> inputSize < params.Lookahead()
    {
    }

    lemma RestsFull(from: State)
      requires Rests(from, false)
      ensures state.Yields() || state == NotFull || state == FlushBits || state == Done
      ensures state == NotFull && from != NotFull ==> inputSize < params.Lookahead()
      ensures state == FlushBits ==> 8 * |out| < |InputBits(params, sunk)| < 8 * |out| + 8
      ensures !state.Yields() ==> !backref || (state == Done && |InputBits(params, sunk)| < 8 * |out|)
    {
    }

    /** A poll after finish that fills its output waits in the flush exactly when one to seven bits of
        the encoding are missing and it ends with a literal. */
    lemma FlushWaits(from: State)
      requires Valid() && finishing && Rests(from, false)
      ensures var missing := |InputBits(params, sunk)| - 8 * |out|;
        state == FlushBits <==> 0 < missing < 8 && !EndsInBackref(params, sunk)
    {
      var data := History(params, sunk);
      assert sunk + [] == sunk && params.Window() <= |data|;
      WalkParse(params, data, Origin(params));
      assert EndsInBackref(params, sunk) == Walk(params, data, Origin(params), |data|).backref;
      hide ValidIn, Rests, InputBits, Walk, EndsInBackref, Valid;
      RestsFull(from);
      if state.Yields() {
        StuckBits([]);
      } else if state == NotFull {
        FinishedMeansDone();
      } else {
        AtEnd();
        if state == Done {
          DoneLength();
        }
      }
    }

    /** In the last state the encoding is complete, and stays so. */
    lemma DoneIsAll()
      requires Valid() && state == Done
      ensures finishing && out == Encode(params, sunk)
    {
    }

    lemma YieldsFull()
      requires Valid() && state.Yields()
      ensures finishing || |sunk| >= params.Window()
    {
    }

    lemma DoneLength()
      requires Valid() && state == Done
      ensures |InputBits(params, sunk)| <= 8 * |out| < |InputBits(params, sunk)| + 8
    {
      hide InputBits, WindowOk, IndexAgrees, Pack;
    }

    lemma FilledPending()
      requires Valid() && state == Filled
      ensures Emitted() + ToCome(state) == Emitted() && (finishing || |sunk| >= params.Window())
    {
      hide IndexAgrees, StreamOk, BitsOut, PackerOk;
      ConcatNone(Emitted());
    }

    lemma UnfinishedIsNotDone()
      requires Valid() && !finishing
      ensures state != Done && state != FlushBits
    {
    }

    /** Once finished, a poll that leaves room in the output has delivered everything. */
    lemma FinishedMeansDone()
      requires Valid() && finishing && (state == NotFull || state == Done)
      ensures state == Done && out == Encode(params, sunk) && Decode(params, out) == sunk
    {
      RoundTrip(params, sunk);
    }
  }
}
