/** The firmware's one-shot compression of a message, and arbitrary use of the encoder. */
module Compression {
  import opened Bits
  import opened BitPacker
  import opened Lzss
  import opened Matching
  import opened HeatshrinkEncoder

  const MESSAGE_PARAMS := Params(9, 3)

  // ----- arbitrary sequences of calls

  datatype EncoderCall =
    | SinkCall(data: seq<byte>)
    | PollCall(size: nat)
    | FinishCall

  /** What a call comes back with: how many bytes were taken, or which bytes were put out. */
  datatype Answer = Took(n: nat) | Gave(bytes: seq<byte>) | Noted

  /** The answer is one that the call may have. */
  predicate Answers(c: EncoderCall, a: Answer) {
    match c
    case SinkCall(data) => a.Took? && a.n <= |data|
    case PollCall(size) => a.Gave? && |a.bytes| <= size
    case FinishCall => a.Noted?
  }

  /** A poll that did not fill its output. */
  predicate LeftRoom(c: EncoderCall, a: Answer) {
    c.PollCall? && a.Gave? && |a.bytes| < c.size
  }

  /** A call with its answer. */
  datatype Exchange = Exchange(call: EncoderCall, answer: Answer)

  function Calls(run: seq<Exchange>): (r: seq<EncoderCall>)
    ensures |r| == |run|
  {
    seq(|run|, i requires 0 <= i < |run| => run[i].call)
  }

  predicate Finished(run: seq<Exchange>) {
    exists x :: x in run && x.call == FinishCall
  }

  /** The bytes the encoder took. */
  function Accepted(run: seq<Exchange>): seq<byte> {
    if run == [] then []
    else
      var x := run[|run| - 1];
      Accepted(run[..|run| - 1])
      + if x.call.SinkCall? && x.answer.Took? && x.answer.n <= |x.call.data| then x.call.data[..x.answer.n] else []
  }

  /** The bytes it put out. */
  function Collected(run: seq<Exchange>): seq<byte> {
    if run == [] then []
    else
      var x := run[|run| - 1];
      Collected(run[..|run| - 1]) + if x.answer.Gave? then x.answer.bytes else []
  }

  /** How many bytes the polls after the first finish had room for. */
  function RoomAfterFinish(run: seq<Exchange>): nat {
    if run == [] then 0
    else
      var before, x := run[..|run| - 1], run[|run| - 1];
      RoomAfterFinish(before) + if Finished(before) && x.call.PollCall? then x.call.size else 0
  }

  /** At the start, and after a poll that left room, the encoder wants input. */
  predicate Wanting(run: seq<Exchange>) {
    run == [] || LeftRoom(run[|run| - 1].call, run[|run| - 1].answer)
  }

  /** The next call is answered as it may be. A sink takes nothing after finish; before it, it takes
      something of any data when it wants input. */
  predicate Fair(run: seq<Exchange>, x: Exchange) {
    && Answers(x.call, x.answer)
    && (x.call.SinkCall? && x.answer.Took? ==>
          && (Finished(run) ==> x.answer.n == 0)
          && (!Finished(run) && x.call.data != [] && Wanting(run) ==> x.answer.n > 0))
  }

  /** What has been put out begins the encoding of what was taken and of all that may follow. */
  ghost predicate Sound(p: Params, run: seq<Exchange>) {
    forall ext: seq<byte> :: (Finished(run) ==> ext == []) ==> Collected(run) <= Encode(p, Accepted(run) + ext)
  }

  lemma OneExchange(run: seq<Exchange>, x: Exchange)
    ensures Finished(run + [x]) <==> Finished(run) || x.call == FinishCall
    ensures Answers(x.call, x.answer) ==>
      && Accepted(run + [x]) == Accepted(run) + (if x.call.SinkCall? then x.call.data[..x.answer.n] else [])
      && Collected(run + [x]) == Collected(run) + (if x.call.PollCall? then x.answer.bytes else [])
    ensures RoomAfterFinish(run + [x])
         == RoomAfterFinish(run) + if Finished(run) && x.call.PollCall? then x.call.size else 0
  {
    assert (run + [x])[..|run|] == run;
    assert forall y :: y in run + [x] <==> y in run || y == x;
    if x.call == FinishCall {
      assert x in run + [x];
    }
  }

  method CallSink(hse: Encoder, data: seq<byte>) returns (taken: nat)
    requires hse.Valid()
    modifies hse, hse.buffer
    ensures hse.Valid() && hse.out == old(hse.out) && hse.finishing == old(hse.finishing)
    ensures taken <= |data| && hse.sunk == old(hse.sunk) + data[..taken]
    ensures old(hse.finishing) ==> taken == 0 && hse.state == old(hse.state)
    ensures data != [] && !old(hse.finishing) && old(hse.state) == NotFull ==> taken > 0
  {
    var inBuf := new byte[|data|](i requires 0 <= i < |data| => data[i]);
    var res, count := hse.Sink(inBuf, 0, |data|, 0);
    taken := if res == SinkOk then count else 0;
    assert inBuf[..] == data;
  }

  method CallPoll(hse: Encoder, size: nat) returns (got: seq<byte>)
    requires hse.Valid()
    modifies hse, hse.buffer, hse.searchIndex
    ensures hse.Valid() && hse.sunk == old(hse.sunk) && hse.finishing == old(hse.finishing)
    ensures hse.out == old(hse.out) + got && |got| <= size
    ensures size > 0 ==> |got| == size || hse.state == NotFull || hse.state == Done
    ensures size == 0 ==> hse.state == old(hse.state)
  {
    hide Encoder.Valid, Encoder.Rests;
    var outBuf := new byte[size];
    ghost var from, out := hse.state, hse.out;
    var res, count := hse.Poll(outBuf, 0, size, 0);
    got := outBuf[..count];
    if size > 0 && count < size {
      hse.RestsWithRoom(from);
    }
    if size == 0 {
      assert hse.out == out + [];
    }
  }

  lemma {:induction false} NoRoomBeforeFinish(run: seq<Exchange>)
    requires !Finished(run)
    ensures RoomAfterFinish(run) == 0
  {
    if run != [] {
      var n := |run| - 1;
      assert run == run[..n] + [run[n]];
      OneExchange(run[..n], run[n]);
      NoRoomBeforeFinish(run[..n]);
    }
  }

  /** How the encoder stands after a run. */
  ghost predicate Stands(hse: Encoder, run: seq<Exchange>)
    reads hse
  {
    && hse.sunk == Accepted(run) && hse.out == Collected(run) && (hse.finishing <==> Finished(run))
    && (Wanting(run) ==> hse.state == NotFull || hse.state == Done)
    && (hse.finishing && hse.state != Done ==> RoomAfterFinish(run) <= |hse.out|)
  }

  /** One call. */
  method Exchanged(hse: Encoder, c: EncoderCall, ghost run: seq<Exchange>) returns (a: Answer)
    requires hse.Valid() && Stands(hse, run)
    modifies hse, hse.buffer, hse.searchIndex
    ensures hse.Valid() && Stands(hse, run + [Exchange(c, a)]) && Fair(run, Exchange(c, a))
    ensures old(hse.state) == Done || (Finished(run) && LeftRoom(c, a)) ==> hse.state == Done
  {
    hide Encoder.Valid, Accepted, Collected, RoomAfterFinish, Finished, Encode;
    if !hse.finishing {
      hse.UnfinishedIsNotDone();
      NoRoomBeforeFinish(run);
    }
    assert hse.sunk + [] == hse.sunk;
    match c {
      case SinkCall(data) =>
        var taken := CallSink(hse, data);
        a := Took(taken);
      case PollCall(size) =>
        if hse.state == Done {
          hse.DoneIsAll();
        }
        var got := CallPoll(hse, size);
        hse.OutputIsPrefix([]);
        if hse.finishing && (hse.state == NotFull || hse.state == Done) {
          hse.FinishedMeansDone();
        }
        a := Gave(got);
      case FinishCall =>
        var _ := hse.Finish();
        a := Noted;
    }
    OneExchange(run, Exchange(c, a));
  }

  lemma Sounds(hse: Encoder, run: seq<Exchange>)
    requires hse.Valid() && Stands(hse, run)
    ensures Sound(hse.params, run)
  {
    hide Encoder.Valid, Accepted, Collected, RoomAfterFinish, Finished, Encode;
    forall ext: seq<byte> | Finished(run) ==> ext == []
      ensures Collected(run) <= Encode(hse.params, Accepted(run) + ext)
    {
      hse.OutputIsPrefix(ext);
    }
  }

  /** Whatever calls a caller makes, in whatever order and with whatever buffer sizes, each is answered
      fairly, and at every point the bytes put out begin the encoding of all that was taken and of all
      that may follow. Once the encoder is done they are that encoding, from which the input can be
      decoded, and it is done as soon as a poll after finish has left room, at the latest when these polls
      had room for more than the encoding. */
  method RunEncoder(p: Params, calls: seq<EncoderCall>) returns (run: seq<Exchange>, done: bool)
    requires p.Valid() && p.windowBits <= 14
    ensures Calls(run) == calls
    ensures forall i :: 0 <= i < |run| ==> Fair(run[..i], run[i])
    ensures forall i :: 0 <= i <= |run| ==> Sound(p, run[..i])
    ensures done ==> Finished(run) && Collected(run) == Encode(p, Accepted(run))
                     && Decode(p, Collected(run)) == Accepted(run)
    ensures RoomAfterFinish(run) > |Encode(p, Accepted(run))| ==> done
    ensures forall i :: 0 <= i < |run| && Finished(run[..i]) && LeftRoom(run[i].call, run[i].answer) ==> done
  {
    hide Encoder.Valid, Encode, Decode, Sound, Fair, Accepted, Collected, RoomAfterFinish, Finished;
    var hse := new Encoder(p.windowBits, p.lookaheadBits);
    run := [];
    NoExchange();
    Sounds(hse, run);
    for i := 0 to |calls|
      invariant hse.Valid() && hse.params == p && fresh(hse) && fresh(hse.buffer) && fresh(hse.searchIndex)
      invariant |run| == i && Calls(run) == calls[..i] && Stands(hse, run)
      invariant forall k :: 0 <= k < i ==> Fair(run[..k], run[k])
      invariant forall k :: 0 <= k < i && Finished(run[..k]) && LeftRoom(run[k].call, run[k].answer) ==>
                  hse.state == Done
      invariant forall k :: 0 <= k <= i ==> Sound(p, run[..k])
    {
      var a := Exchanged(hse, calls[i], run);
      ghost var before := run;
      run := run + [Exchange(calls[i], a)];
      Sounds(hse, run);
      assert forall k :: 0 <= k <= i ==> run[..k] == before[..k];
      assert run[..i + 1] == run && before[..i] == before;
    }
    done := hse.state == Done;
    Settled(hse, run);
  }

  lemma NoExchange()
    ensures Accepted([]) == [] && Collected([]) == [] && !Finished([]) && RoomAfterFinish([]) == 0
  {
  }

  lemma Settled(hse: Encoder, run: seq<Exchange>)
    requires hse.Valid() && Stands(hse, run)
    ensures hse.state == Done ==>
      && Finished(run) && Collected(run) == Encode(hse.params, Accepted(run))
      && Decode(hse.params, Collected(run)) == Accepted(run)
    ensures RoomAfterFinish(run) > |Encode(hse.params, Accepted(run))| ==> hse.state == Done
  {
    hide Encoder.Valid, Encode, Decode;
    if !hse.finishing {
      hse.UnfinishedIsNotDone();
      NoRoomBeforeFinish(run);
    } else if hse.state == Done {
      hse.FinishedMeansDone();
    }
    hse.OutputIsPrefix([]);
    assert Accepted(run) + [] == Accepted(run);
  }

  /** A finished poll that has no room for the last bits says that there is nothing more: one byte is
      polled of the two that a single byte encodes to, and the answer is "empty". */
  method FlushWithoutRoom(b: byte) returns (res: PollRes, got: seq<byte>, state: State)
    ensures res == PollEmpty && state == FlushBits
    ensures |got| == 1 && got < Encode(MESSAGE_PARAMS, [b]) && |Encode(MESSAGE_PARAMS, [b])| == 2
  {
    hide Encoder.Valid, Encode, Encoder.Rests, Encoder.Cleared;
    var hse := new Encoder(9, 3);
    ClearedIsEmpty(hse);
    var taken := CallSink(hse, [b]);
    assert [] + [b][..1] == [b];
    var _ := hse.Finish();
    var outBuf := new byte[1];
    ghost var from := hse.state;
    var count: nat;
    res, count := hse.Poll(outBuf, 0, 1, 0);
    assert |hse.out| == count;
    OneByteOut(hse, b, from);
    got, state := outBuf[..], hse.state;
    assert hse.out == got;
  }

  lemma ClearedIsEmpty(hse: Encoder)
    requires hse.Cleared()
    ensures hse.state == NotFull && !hse.finishing && hse.sunk == [] && hse.out == []
  {
  }

  lemma OneByteOut(hse: Encoder, b: byte, from: State)
    requires hse.Valid() && hse.finishing && hse.params == MESSAGE_PARAMS && hse.sunk == [b] && |hse.out| <= 1
    requires hse.Rests(from, |hse.out| < 1)
    ensures |hse.out| == 1 && hse.state == FlushBits && !hse.state.Yields()
    ensures hse.out < Encode(MESSAGE_PARAMS, [b]) && |Encode(MESSAGE_PARAMS, [b])| == 2
  {
    hide Encoder.Valid, Encode, Encoder.Rests, InputBits, EndsInBackref;
    OneByteBits(b);
    assert [b] + [] == [b];
    hse.OutputIsPrefix([]);
    if |hse.out| == 0 {
      hse.RestsWithRoom(from);
      hse.FinishedMeansDone();
      assert false;
    }
    hse.FlushWaits(from);
  }

  lemma OneByteBits(b: byte)
    ensures |InputBits(MESSAGE_PARAMS, [b])| == 9 && |Encode(MESSAGE_PARAMS, [b])| == 2
    ensures !EndsInBackref(MESSAGE_PARAMS, [b])
  {
    var p, data := MESSAGE_PARAMS, History(MESSAGE_PARAMS, [b]);
    OneByteToken(b);
    hide Pack, TokenAt, TokenBits, Walk, Pow2;
    WalkOneToken(p, data, p.Window(), 0, false);
    WalkParse(p, data, Origin(p));
  }

  lemma OneByteToken(b: byte)
    ensures var p, data := MESSAGE_PARAMS, History(MESSAGE_PARAMS, [b]);
      && |data| == p.Window() + 1
      && TokenAt(p, data, p.Window()).Literal? && |TokenBits(p, TokenAt(p, data, p.Window()))| == 9
  {
  }

  /** Polling until there is no more to get ends, and then the encoder wants input or is done. */
  method PollOut(hse: Encoder, room: nat, already: seq<byte>) returns (collected: seq<byte>)
    requires hse.Valid() && hse.out == already && room > 0
    modifies hse, hse.buffer, hse.searchIndex
    ensures hse.Valid() && hse.sunk == old(hse.sunk) && hse.finishing == old(hse.finishing)
    ensures hse.out == collected && (hse.state == NotFull || hse.state == Done)
  {
    hide Encoder.Valid, Encode;
    collected := already;
    ghost var all := Encode(hse.params, hse.sunk + []);
    hse.OutputIsPrefix([]);
    while hse.state != NotFull && hse.state != Done
      invariant hse.Valid() && hse.sunk == old(hse.sunk) && hse.finishing == old(hse.finishing)
      invariant hse.out == collected <= all
      decreases |all| - |collected|
    {
      var got := CallPoll(hse, room);
      collected := collected + got;
      hse.OutputIsPrefix([]);
      if |got| < room { break; }
    }
  }

  /** A caller that sinks its input in chunks, polls with any room and finishes gets the encoding. */
  method EncodeStream(p: Params, input: seq<byte>, chunk: nat, room: nat) returns (collected: seq<byte>)
    requires p.Valid() && p.windowBits <= 14 && chunk > 0 && room > 0
    ensures collected == Encode(p, input) && Decode(p, collected) == input
  {
    hide Encoder.Valid, Encode, Decode;
    var hse := new Encoder(p.windowBits, p.lookaheadBits);
    var sunk := 0;
    collected := [];
    while sunk < |input|
      invariant hse.Valid() && hse.params == p && fresh(hse) && fresh(hse.buffer) && fresh(hse.searchIndex)
      invariant sunk <= |input| && hse.sunk == input[..sunk] && hse.out == collected
      invariant hse.state == NotFull && !hse.finishing
    {
      var piece := input[sunk..if sunk + chunk < |input| then sunk + chunk else |input|];
      var taken := CallSink(hse, piece);
      assert input[..sunk] + piece[..taken] == input[..sunk + taken];
      sunk := sunk + taken;
      collected := PollOut(hse, room, collected);
      hse.UnfinishedIsNotDone();
    }
    var _ := hse.Finish();
    collected := PollOut(hse, room, collected);
    hse.FinishedMeansDone();
    assert input[..sunk] == input;
  }

  // ----- compressing one message

  /** What the output array and the returned size say about the input when an encoder could be
      allocated. If the encoding does not come out shorter than the input, it is cut off at the
      length of the input, and the returned size may be up to twice that. */
  ghost predicate Compressed(input: seq<byte>, output: seq<byte>, size: nat) {
    var enc := Encode(MESSAGE_PARAMS, input);
    && |input| <= |output|
    && if |enc| < |input| then size == |enc| && output[..size] == enc
       else |input| <= size <= 2 * |input| && output[..|input|] == enc[..|input|]
  }

  /** How far the history is known in the round that starts at a boundary q: the encoder takes one
      window of input behind it, or all there is. */
  function Known(q: Mark, total: nat): nat {
    if q.pos + 512 < total then q.pos + 512 else total
  }

  /** Where the round ends, as long as the output has room. */
  function RoundEnd(data: seq<byte>, q: Mark): (g: Mark)
    requires 512 <= q.pos <= |data|
    ensures q.pos <= g.pos <= |data| && q.bits <= g.bits
    ensures Known(q, |data|) < |data| ==> q.pos < g.pos
  {
    assert MESSAGE_PARAMS.Window() == 512 && MESSAGE_PARAMS.Lookahead() == 8;
    Walk(MESSAGE_PARAMS, data, q, Bound(MESSAGE_PARAMS, Known(q, |data|), |data|))
  }

  /** A round up to g gets stuck when the output has n bytes: a whole byte more is left to write, or the
      output fills with a back-reference at the end, whose last step writes nothing but waits for room. */
  predicate Stuck(g: Mark, n: nat) {
    g.bits >= 8 * (n + 1) || (g.bits >= 8 * n && g.backref)
  }

  /** The size reported for an input of n bytes from the round that starts at q on: when the round gets
      stuck, the output and once more what this round has written. */
  function ReportFrom(data: seq<byte>, n: nat, q: Mark): int
    requires 512 <= q.pos <= |data|
    decreases |data| - q.pos
  {
    var g := RoundEnd(data, q);
    if Stuck(g, n) then 2 * n - q.bits / 8
    else if g.bits >= 8 * n then n
    else if Known(q, |data|) == |data| then (g.bits + 7) / 8
    else ReportFrom(data, n, g)
  }

  /** The size reported for an input. */
  function Reported(input: seq<byte>): int {
    assert MESSAGE_PARAMS.Window() == 512;
    ReportFrom(History(MESSAGE_PARAMS, input), |input|, Origin(MESSAGE_PARAMS))
  }

  /** Bytes delivered behind those already in the array extend them. */
  lemma Extended(written: seq<byte>, written': seq<byte>, buf: seq<byte>, buf': seq<byte>,
                 off: nat, n: nat, limit: nat)
    requires Delivers(written, written', buf, buf', off, n)
    requires off + n <= limit <= |buf| && buf[..off] == written
    ensures buf'[..off + n] == written' && buf'[limit..] == buf[limit..]
  {
    assert buf'[..off + n] == buf'[..off] + buf'[off..off + n];
    assert buf'[limit..] == buf'[off + n..][limit - off - n..];
    assert buf[limit..] == buf[off + n..][limit - off - n..];
  }

  /** The poll loop: ask for more until the encoder wants input, or the output is full. When the
      output is full the last call is refused and its stale count is added once more. */
  method PollAll(hse: Encoder, output: array<byte>, inputLen: uint16, start: uint16, given: nat)
    returns (polled: uint16, count: nat)
    requires hse.Valid() && start < inputLen <= output.Length && inputLen <= 0x7FFF
    requires output != hse.buffer && output as object != hse.searchIndex
    requires output[..start] == hse.out
    modifies hse`state, hse`currentByte, hse`bitIndex, hse`out, hse`outgoingBits, hse`outgoingBitsCount,
             hse`matchScanIndex, hse`matchLength, hse`matchPos, hse`inputSize, hse`slid,
             hse`reached, hse`backref, hse.buffer, hse.searchIndex, output
    ensures hse.Valid() && output[inputLen..] == old(output[inputLen..])
    ensures if polled < inputLen then output[..polled] == hse.out && (hse.state == NotFull || hse.state == Done)
            else (polled == inputLen || polled == 2 * inputLen - start) && output[..inputLen] == hse.out
    ensures polled >= inputLen ==> (polled > inputLen <==> hse.state.Yields())
    ensures hse.Rests(old(hse.state), polled < inputLen)
  {
    hide Encoder.Valid, Delivers, Encoder.Rests;
    polled, count := start, given;
    var pres := PollMore;
    ghost var rest := output[inputLen..];
    while pres == PollMore
      invariant hse.Valid() && output[inputLen..] == rest
      invariant pres == PollMore || pres == PollEmpty ==> polled <= inputLen && output[..polled] == hse.out
      invariant pres == PollMore ==> polled == inputLen || polled == start
      invariant pres == PollMore && polled == inputLen ==>
                  count == inputLen - start && hse.state.Yields() && hse.Rests(old(hse.state), false)
      invariant pres == PollMore && polled < inputLen ==> polled == start && hse.state == old(hse.state)
      invariant pres == PollEmpty ==> !hse.state.Yields() && hse.Rests(old(hse.state), polled < inputLen)
      invariant pres == PollErrorMisuse ==>
                  && polled == 2 * inputLen - start && output[..inputLen] == hse.out
                  && hse.state.Yields() && hse.Rests(old(hse.state), false)
      invariant pres != PollErrorNull
      decreases pres == PollMore, inputLen - polled
    {
      ghost var before, written := output[..], hse.out;
      pres, count := hse.Poll(output, polled, inputLen - polled, count);
      if pres == PollMore || pres == PollEmpty {
        Extended(written, hse.out, before, output[..], polled, count, inputLen);
      }
      polled := (polled + count) % 0x1_0000;
    }
    if polled < inputLen {
      hse.RestsWithRoom(old(hse.state));
    }
  }

  /** Sink what fits, and announce the end when all of the input is in. */
  method SinkMore(hse: Encoder, input: array<byte>, inputLen: uint16, start: uint16, given: nat)
    returns (sunk: uint16, count: nat)
    requires hse.Valid() && hse.state == NotFull && !hse.finishing
    requires start < inputLen <= input.Length && inputLen <= 0x7FFF && input != hse.buffer
    requires hse.sunk == input[..inputLen][..start]
    modifies hse`inputSize, hse`state, hse`sunk, hse`finishing, hse.buffer
    ensures hse.Valid() && start < sunk <= inputLen && hse.sunk == input[..inputLen][..sunk]
    ensures hse.finishing <==> sunk == inputLen
    ensures sunk == if old(hse.Next()) < inputLen then old(hse.Next()) else inputLen
    ensures hse.state == Filled
  {
    hide Encoder.Valid;
    hse.Asking();
    var res: SinkRes;
    res, count := hse.Sink(input, start, inputLen - start, given);
    assert input[..start] + input[start..start + count] == input[..start + count];
    sunk := (start + count) % 0x1_0000;
    if sunk == inputLen {
      var _ := hse.Finish();
    }
  }

  /** A full output array holds the beginning of an encoding that is at least as long as the input. */
  lemma CutOff(hse: Encoder, input: seq<byte>, sunk: nat, output: seq<byte>, size: nat)
    requires hse.Valid() && hse.params == MESSAGE_PARAMS
    requires sunk <= |input| <= |output| && hse.sunk == input[..sunk] && (hse.finishing ==> sunk == |input|)
    requires output[..|input|] == hse.out && |input| <= size <= 2 * |input|
    ensures Compressed(input, output, size)
  {
    hide Encoder.Valid, Encode;
    hse.OutputIsPrefix(input[sunk..]);
    assert input[..sunk] + input[sunk..] == input;
  }

  /** The encoder stands at the boundary q, behind a round that had room. */
  ghost predicate StandsAt(hse: Encoder, q: Mark)
    reads hse`slid, hse`matchScanIndex, hse`matchLength, hse`out, hse`currentByte, hse`bitIndex, hse`backref
  {
    hse.Next() == q.pos && |hse.Emitted()| == q.bits && hse.backref == q.backref
  }

  /** Before a round: where it will end if it has room. */
  ghost predicate Heads(hse: Encoder, data: seq<byte>, g: Mark)
    reads hse`sunk
  {
    && |History(hse.params, hse.sunk)| <= |data|
    && hse.params.Window() <= |data|
    && g == Walk(hse.params, data, Origin(hse.params),
                 Bound(hse.params, |History(hse.params, hse.sunk)|, |data|))
  }

  /** The input is known up to sunk, and a round from q on begins. */
  ghost predicate InRound(hse: Encoder, input: seq<byte>, sunk: nat, q: Mark)
    reads hse`sunk, hse`finishing
  {
    && hse.params == MESSAGE_PARAMS && 512 <= q.pos <= |input| + 512
    && 0 < sunk == (if q.pos < |input| then q.pos else |input|) && hse.sunk == input[..sunk]
    && (hse.finishing <==> sunk == |input|)
  }

  lemma MessageSizes(input: seq<byte>)
    ensures MESSAGE_PARAMS.Window() == 512 && MESSAGE_PARAMS.Lookahead() == 8
    ensures |History(MESSAGE_PARAMS, input)| == |input| + 512
  {
  }

  lemma CutInput(input: seq<byte>, sunk: nat)
    requires sunk <= |input|
    ensures input[..sunk] + input[sunk..] == input && (input[sunk..] == [] <==> sunk == |input|)
    ensures sunk == |input| ==> input[..sunk] == input
  {
  }

  lemma RoundBegins(hse: Encoder, input: seq<byte>, sunk: nat, q: Mark)
    requires hse.Valid() && hse.state == Filled && StandsAt(hse, q) && InRound(hse, input, sunk, q)
    ensures |History(MESSAGE_PARAMS, input)| == |input| + 512
    ensures Heads(hse, History(MESSAGE_PARAMS, input), RoundEnd(History(MESSAGE_PARAMS, input), q))
  {
    hide Encoder.Valid, Walk, Pow2, Encoder.Next, Encoder.Emitted, Encoder.ToCome, History;
    MessageSizes(input);
    MessageSizes(hse.sunk);
    CutInput(input, sunk);
    hse.FilledPending();
    hse.OnCourse(input[sunk..]);
  }

  lemma ReportStep(data: seq<byte>, n: nat, q: Mark)
    requires 512 <= q.pos <= |data|
    ensures var g := RoundEnd(data, q);
      ReportFrom(data, n, q) ==
        if Stuck(g, n) then 2 * n - q.bits / 8
        else if g.bits >= 8 * n then n
        else if Known(q, |data|) == |data| then (g.bits + 7) / 8
        else ReportFrom(data, n, g)
  {
    hide RoundEnd;
  }

  /** A round that gets stuck. */
  lemma RoundIsStuck(hse: Encoder, input: seq<byte>, sunk: nat, q: Mark, g: Mark)
    requires hse.Valid() && InRound(hse, input, sunk, q) && hse.state.Yields()
    requires Heads(hse, History(MESSAGE_PARAMS, input), g)
    requires |hse.out| == |input|
    ensures Stuck(g, |input|)
  {
    hide Encoder.Valid, Walk, Pow2, History;
    MessageSizes(hse.sunk);
    CutInput(input, sunk);
    hse.YieldsFull();
    hse.StuckBits(input[sunk..]);
  }

  /** A round that ends with a request for more input. */
  lemma RoundAsks(hse: Encoder, input: seq<byte>, sunk: nat, q: Mark, g: Mark)
    requires hse.Valid() && InRound(hse, input, sunk, q) && hse.state == NotFull && hse.inputSize < 8
    requires Heads(hse, History(MESSAGE_PARAMS, input), g)
    ensures StandsAt(hse, g) && |hse.out| == g.bits / 8 && sunk < |input| && g.backref == hse.backref
  {
    hide Encoder.Valid, Walk, Pow2, History, Encoder.Next, Encoder.Emitted;
    MessageSizes(hse.sunk);
    CutInput(input, sunk);
    hse.Asking();
    hse.AtRest(input[sunk..]);
  }

  /** A round that ends with everything parsed. */
  lemma RoundIsLast(hse: Encoder, input: seq<byte>, sunk: nat, q: Mark, g: Mark)
    requires hse.Valid() && InRound(hse, input, sunk, q) && (hse.state == FlushBits || hse.state == Done)
    requires Heads(hse, History(MESSAGE_PARAMS, input), g)
    ensures sunk == |input| && input[..sunk] == input && g.bits == |InputBits(MESSAGE_PARAMS, input)|
    ensures g.backref == hse.backref
    ensures hse.state == Done ==> g.bits <= 8 * |hse.out| < g.bits + 8
  {
    hide Encoder.Valid, Walk, Pow2, History, InputBits;
    hse.AtEnd();
    CutInput(input, sunk);
    if hse.state == Done {
      hse.DoneLength();
    }
  }

  /** What a round leads to. */
  lemma RoundEnds(hse: Encoder, input: seq<byte>, sunk: nat, q: Mark, size: nat)
    requires hse.Valid() && InRound(hse, input, sunk, q) && |History(MESSAGE_PARAMS, input)| == |input| + 512
    requires Heads(hse, History(MESSAGE_PARAMS, input), RoundEnd(History(MESSAGE_PARAMS, input), q))
    requires hse.Rests(Filled, size < |input|)
    requires if size < |input| then |hse.out| == size
             else |hse.out| == |input| && size == if hse.state.Yields() then 2 * |input| - q.bits / 8 else |input|
    ensures var data := History(MESSAGE_PARAMS, input);
      var g := RoundEnd(data, q);
      if size < |input| && hse.state == NotFull
      then StandsAt(hse, g) && size == g.bits / 8
           && ReportFrom(data, |input|, q) == ReportFrom(data, |input|, g)
      else ReportFrom(data, |input|, q) == size
  {
    hide Encoder.Valid, RoundEnd, ReportFrom, InputBits, Heads, Encoder.Rests, History, StandsAt, Pow2;
    var data := History(MESSAGE_PARAMS, input);
    var g := RoundEnd(data, q);
    MessageSizes(input);
    ReportStep(data, |input|, q);
    if size < |input| {
      hse.RestsWithRoom(Filled);
    } else {
      hse.RestsFull(Filled);
    }
    if hse.state.Yields() {
      RoundIsStuck(hse, input, sunk, q, g);
    } else if hse.state == NotFull {
      RoundAsks(hse, input, sunk, q, g);
    } else {
      RoundIsLast(hse, input, sunk, q, g);
    }
  }

  /** An encoder that is done before the output array is full has left the whole encoding there. */
  lemma Complete(hse: Encoder, input: seq<byte>, output: seq<byte>, size: nat)
    requires hse.Valid() && hse.params == MESSAGE_PARAMS && hse.sunk == input
    requires input != [] ==> size < |input| && hse.finishing && hse.state == Done
    requires input == [] ==> size == 0
    requires size <= |input| <= |output| && output[..size] == hse.out
    ensures Compressed(input, output, size) && (input != [] ==> size > 0)
  {
    hide Encoder.Valid;
    SizeBound(MESSAGE_PARAMS, input);
    if input != [] {
      hse.FinishedMeansDone();
    } else {
      assert output[..0] == Encode(MESSAGE_PARAMS, input)[..0];
    }
  }

  lemma StandsAtNext(hse: Encoder, q: Mark)
    requires hse.Valid() && StandsAt(hse, q)
    ensures hse.Next() == q.pos >= hse.params.Window()
  {
  }

  /** One pass of the loop: take in what fits, and poll until nothing more comes. */
  method OneRound(hse: Encoder, input: array<byte>, inputLen: uint16, output: array<byte>,
                  start: uint16, sunk0: uint16, given: nat, ghost q: Mark)
    returns (sunk: uint16, polled: uint16, count: nat)
    requires hse.Valid() && hse.params == MESSAGE_PARAMS && hse.state == NotFull && !hse.finishing
    requires inputLen <= 0x7FFF && inputLen <= input.Length && inputLen <= output.Length && input != output
    requires input != hse.buffer && output != hse.buffer && output as object != hse.searchIndex
    requires input as object != hse.searchIndex
    requires sunk0 < inputLen && hse.sunk == input[..inputLen][..sunk0]
    requires start < inputLen && output[..start] == hse.out
    requires StandsAt(hse, q) && q.pos <= inputLen + 512 && start == q.bits / 8
    modifies hse, hse.buffer, hse.searchIndex, output
    ensures hse.Valid() && output[inputLen..] == old(output[inputLen..]) && input[..inputLen] == old(input[..inputLen])
    ensures sunk0 < sunk <= inputLen && hse.sunk == input[..inputLen][..sunk] && (hse.finishing <==> sunk == inputLen)
    ensures if polled < inputLen then output[..polled] == hse.out && (hse.state == NotFull || hse.state == Done)
            else polled <= 2 * inputLen && output[..inputLen] == hse.out
    ensures 512 <= q.pos <= |History(MESSAGE_PARAMS, input[..inputLen])| == inputLen + 512
    ensures var data := History(MESSAGE_PARAMS, input[..inputLen]);
      var g := RoundEnd(data, q);
      if polled < inputLen && hse.state == NotFull
      then StandsAt(hse, g) && polled == g.bits / 8
           && ReportFrom(data, inputLen, q) == ReportFrom(data, inputLen, g)
      else ReportFrom(data, inputLen, q) == polled
  {
    hide Encoder.Valid, RoundEnd, ReportFrom, Heads, Encoder.Rests, History, StandsAt, Encoder.Next;
    ghost var message := input[..inputLen];
    MessageSizes(message);
    StandsAtNext(hse, q);
    sunk, count := SinkMore(hse, input, inputLen, sunk0, given);
    RoundBegins(hse, message, sunk, q);
    polled, count := PollAll(hse, output, inputLen, start, count);
    OutLength(hse.out, output[..], polled, inputLen);
    RoundEnds(hse, message, sunk, q, polled);
  }

  lemma OutLength(out: seq<byte>, output: seq<byte>, polled: nat, n: nat)
    requires n <= |output|
    ensures polled < n && output[..polled] == out ==> |out| == polled
    ensures output[..n] == out ==> |out| == n
  {
  }

  /** The loop of heatshrink_compression: sink and poll in turn until all input is in, or the
      output is full. */
  method CompressWith(hse: Encoder, input: array<byte>, inputLen: uint16, output: array<byte>)
    returns (polled: uint16)
    requires hse.Valid() && hse.params == MESSAGE_PARAMS && hse.sunk == [] && hse.out == []
    requires hse.state == NotFull && !hse.finishing && StandsAt(hse, Origin(MESSAGE_PARAMS))
    requires inputLen <= 0x7FFF && inputLen <= input.Length && inputLen <= output.Length && input != output
    requires input != hse.buffer && output != hse.buffer
    requires input as object != hse.searchIndex && output as object != hse.searchIndex
    modifies hse, hse.buffer, hse.searchIndex, output
    ensures Compressed(input[..inputLen], output[..], polled) && (inputLen > 0 ==> polled > 0)
    ensures polled == Reported(input[..inputLen])
    ensures output[inputLen..] == old(output[inputLen..])
  {
    hide Encoder.Valid, Compressed, Encode, StandsAt, RoundEnd, ReportFrom, Reported, Origin;
    var sunk: uint16, count := 0, 0;
    polled := 0;
    ghost var message, rest := input[..inputLen], output[inputLen..];
    ghost var data, q := History(MESSAGE_PARAMS, message), Origin(MESSAGE_PARAMS);
    ReportedStarts(message);
    while sunk < inputLen
      invariant hse.Valid() && hse.params == MESSAGE_PARAMS
      invariant sunk <= inputLen && hse.sunk == message[..sunk]
      invariant input[..inputLen] == message && output[inputLen..] == rest
      invariant polled <= inputLen && (polled < inputLen || inputLen == 0)
      invariant output[..polled] == hse.out
      invariant if sunk < inputLen then hse.state == NotFull && !hse.finishing
                else inputLen == 0 || (hse.finishing && hse.state == Done && Reported(message) == polled)
      invariant sunk < inputLen ==> 512 <= q.pos <= |data| && StandsAt(hse, q) && polled == q.bits / 8
      invariant sunk < inputLen ==> Reported(message) == ReportFrom(data, inputLen, q)
      decreases inputLen - sunk
    {
      MessageSizes(message);
      sunk, polled, count := OneRound(hse, input, inputLen, output, polled, sunk, count, q);
      if polled >= inputLen {
        CutOff(hse, message, sunk, output[..], polled);
        return;
      }
      if sunk == inputLen {
        hse.FinishedMeansDone();
        var _ := hse.Finish();
      } else {
        hse.UnfinishedIsNotDone();
        q := RoundEnd(data, q);
      }
    }
    Complete(hse, message, output[..], polled);
  }

  lemma ReportedStarts(input: seq<byte>)
    ensures var data, o := History(MESSAGE_PARAMS, input), Origin(MESSAGE_PARAMS);
      512 <= o.pos <= |data| && o.bits == 0 && Reported(input) == ReportFrom(data, |input|, o)
    ensures input == [] ==> Reported(input) == 0
  {
    MessageSizes(input);
  }

  lemma ClearedStands(hse: Encoder)
    requires hse.Cleared() && hse.params == MESSAGE_PARAMS
    ensures StandsAt(hse, Origin(MESSAGE_PARAMS))
  {
    EmptyByte();
  }

  /** heatshrink_compression: zero when no encoder can be allocated. */
  method HeatshrinkCompression(input: array<byte>, inputLen: uint16, output: array<byte>,
                               encoderFits: bool, indexFits: bool)
    returns (size: uint16)
    requires inputLen <= 0x7FFF && inputLen <= input.Length && inputLen <= output.Length && input != output
    modifies output
    ensures !(encoderFits && indexFits) ==> size == 0 && output[..] == old(output[..])
    ensures encoderFits && indexFits ==>
              Compressed(input[..inputLen], output[..], size) && (inputLen > 0 ==> size > 0)
    ensures encoderFits && indexFits ==> size == Reported(input[..inputLen])
    ensures output[inputLen..] == old(output[inputLen..])
  {
    hide Encoder.Valid, Compressed, Reported;
    var hse := Encoder.Alloc(9, 3, encoderFits, indexFits);
    if hse == null { return 0; }
    ghost var message := input[..inputLen];
    ClearedStands(hse);
    size := CompressWith(hse, input, inputLen, output);
    assert input[..inputLen] == message;
  }

  // ----- what a receiver gets

  /** How much of the output array the returned size can mean. */
  function Stored(input: seq<byte>, size: nat): nat {
    if size < |input| then size else |input|
  }

  /** The size tells whether the message shrank, and what is stored decodes to the input exactly when
      the encoding is not longer than the input; otherwise the end of the input is lost. */
  lemma StoredDecodes(input: seq<byte>, output: seq<byte>, size: nat)
    requires Compressed(input, output, size)
    ensures size < |input| <==> |Encode(MESSAGE_PARAMS, input)| < |input|
    ensures var decoded := Decode(MESSAGE_PARAMS, output[..Stored(input, size)]);
            && decoded <= input
            && (decoded == input <==> |Encode(MESSAGE_PARAMS, input)| <= |input|)
  {
    hide Encode, Decode;
    var enc := Encode(MESSAGE_PARAMS, input);
    RoundTrip(MESSAGE_PARAMS, input);
    if |enc| > |input| {
      TruncationLoses(MESSAGE_PARAMS, input, |input|);
    } else {
      assert output[..Stored(input, size)] == enc;
    }
  }

  /** Messages that do not compress exist: a single byte needs nine bits. */
  lemma OneByteIsLost(b: byte, output: seq<byte>, size: nat)
    requires Compressed([b], output, size)
    ensures Decode(MESSAGE_PARAMS, output[..Stored([b], size)]) != [b]
  {
    OneByteBits(b);
    StoredDecodes([b], output, size);
  }
}
