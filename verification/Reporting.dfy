/** What the size that heatshrink_compression reports says, for all inputs that fit one window and for
    all messages of the firmware. */
module Reporting {
  import opened Bits
  import opened Lzss
  import opened Compression

  /** The boundary at the end of the parse. */
  function ParseEnd(input: seq<byte>): (g: Mark)
    ensures g.bits == |InputBits(MESSAGE_PARAMS, input)| && (g.backref <==> EndsInBackref(MESSAGE_PARAMS, input))
  {
    var data := History(MESSAGE_PARAMS, input);
    WalkParse(MESSAGE_PARAMS, data, Origin(MESSAGE_PARAMS));
    Walk(MESSAGE_PARAMS, data, Origin(MESSAGE_PARAMS), |data|)
  }

  /** A round in which everything is known goes to the end of the parse. */
  lemma LastRound(input: seq<byte>, q: Mark)
    requires 512 <= q.pos <= |History(MESSAGE_PARAMS, input)| == |input| + 512
    requires q == Walk(MESSAGE_PARAMS, History(MESSAGE_PARAMS, input), Origin(MESSAGE_PARAMS), q.pos)
    requires Known(q, |input| + 512) == |input| + 512
    ensures RoundEnd(History(MESSAGE_PARAMS, input), q) == ParseEnd(input)
  {
    assert MESSAGE_PARAMS.Window() == 512;
    hide Walk, Pow2;
    WalkOn(MESSAGE_PARAMS, History(MESSAGE_PARAMS, input), Origin(MESSAGE_PARAMS), q.pos, |input| + 512);
  }

  lemma HistoryLength(input: seq<byte>)
    ensures |History(MESSAGE_PARAMS, input)| == |input| + 512 && Origin(MESSAGE_PARAMS) == Mark(512, 0, false)
  {
    assert MESSAGE_PARAMS.Window() == 512;
  }

  lemma EncodedLength(input: seq<byte>)
    ensures |Encode(MESSAGE_PARAMS, input)| == (|InputBits(MESSAGE_PARAMS, input)| + 7) / 8
  {
    hide InputBits, Pack;
  }

  /** Up to one window: the size is doubled exactly when the bits of the encoding fill a byte more than
      the input has, or fill it and end with a back-reference. */
  lemma SmallReport(input: seq<byte>)
    requires 1 <= |input| <= 512
    ensures var n, bits := |input|, |InputBits(MESSAGE_PARAMS, input)|;
      && (Reported(input) == 2 * n <==>
            bits >= 8 * (n + 1) || (bits >= 8 * n && EndsInBackref(MESSAGE_PARAMS, input)))
      && (Reported(input) == n <==>
            8 * (n - 1) < bits < 8 * n || (8 * n <= bits < 8 * (n + 1) && !EndsInBackref(MESSAGE_PARAMS, input)))
      && (Reported(input) < n ==> Reported(input) == |Encode(MESSAGE_PARAMS, input)|)
      && Reported(input) <= 2 * n
  {
    HistoryLength(input);
    StartWalk(input);
    EncodedLength(input);
    LastRound(input, Origin(MESSAGE_PARAMS));
    hide Walk, History, InputBits, RoundEnd, Encode, EndsInBackref;
  }

  lemma StartWalk(input: seq<byte>)
    ensures MESSAGE_PARAMS.Window() == 512 <= |History(MESSAGE_PARAMS, input)|
    ensures var o := Origin(MESSAGE_PARAMS); o == Walk(MESSAGE_PARAMS, History(MESSAGE_PARAMS, input), o, o.pos)
  {
    assert MESSAGE_PARAMS.Window() == 512;
  }

  // ----- messages of the firmware

  /** The first two rounds of a message: the first takes in one window, the second another one behind
      the boundary at which the first stopped. */
  function FirstEnd(input: seq<byte>): (g: Mark)
    ensures 512 <= g.pos <= |History(MESSAGE_PARAMS, input)|
  {
    HistoryLength(input);
    RoundEnd(History(MESSAGE_PARAMS, input), Origin(MESSAGE_PARAMS))
  }

  function SecondEnd(input: seq<byte>): (g: Mark)
    ensures 512 <= g.pos <= |History(MESSAGE_PARAMS, input)|
  {
    RoundEnd(History(MESSAGE_PARAMS, input), FirstEnd(input))
  }

  /** How far one round goes, and what it costs. */
  lemma RoundGoes(data: seq<byte>, q: Mark)
    requires 512 <= q.pos <= |data|
    ensures var g := RoundEnd(data, q);
      && (q.pos + 512 < |data| ==> q.pos + 505 <= g.pos < q.pos + 513)
      && (q.pos + 512 >= |data| ==> g.pos == |data|)
      && g.bits <= q.bits + 9 * (g.pos - q.pos)
  {
    assert MESSAGE_PARAMS.Window() == 512 && MESSAGE_PARAMS.Lookahead() == 8;
    var until := Bound(MESSAGE_PARAMS, Known(q, |data|), |data|);
    hide Walk, Pow2;
    WalkCost(MESSAGE_PARAMS, data, q, until);
    WalkStops(MESSAGE_PARAMS, data, q, until);
  }

  /** A message of the firmware is reported with a size within the payload area exactly when its second
      round does not get stuck. Otherwise the size is twice the length less what the first round wrote,
      which is at most 576 bytes. */
  lemma MessageReport(input: seq<byte>)
    requires 1015 <= |input| <= 1044
    ensures var n, first := |input|, FirstEnd(input).bits / 8;
      && first <= 576
      && (Stuck(SecondEnd(input), n) ==> Reported(input) == 2 * n - first >= 1454)
      && (!Stuck(SecondEnd(input), n) ==> Reported(input) <= n + 39)
      && (Reported(input) <= 1100 <==> !Stuck(SecondEnd(input), n))
  {
    var data, n := History(MESSAGE_PARAMS, input), |input|;
    HistoryLength(input);
    var o, g1, g2 := Origin(MESSAGE_PARAMS), FirstEnd(input), SecondEnd(input);
    hide RoundEnd, ReportFrom, History, Origin;
    ReportStep(data, n, o);
    RoundGoes(data, o);
    ReportStep(data, n, g1);
    RoundGoes(data, g1);
    if g2.bits < 8 * n && Known(g1, |data|) < |data| {
      ReportStep(data, n, g2);
      RoundGoes(data, g2);
    }
  }

  /** Messages of up to 1017 bytes take two rounds, so everything depends on the whole parse. */
  lemma ShortMessageReport(input: seq<byte>)
    requires 1015 <= |input| <= 1017
    ensures SecondEnd(input) == ParseEnd(input)
  {
    var data := History(MESSAGE_PARAMS, input);
    HistoryLength(input);
    StartWalk(input);
    FirstIsWalk(input);
    RoundGoes(data, Origin(MESSAGE_PARAMS));
    LastRound(input, FirstEnd(input));
  }

  lemma FirstIsWalk(input: seq<byte>)
    requires |input| > 512
    ensures var g := FirstEnd(input);
      g == Walk(MESSAGE_PARAMS, History(MESSAGE_PARAMS, input), Origin(MESSAGE_PARAMS), g.pos)
  {
    var p, data := MESSAGE_PARAMS, History(MESSAGE_PARAMS, input);
    HistoryLength(input);
    assert p.Window() == 512;
    var until := Bound(p, Known(Origin(p), |data|), |data|);
    hide Walk, Pow2;
    var g := Walk(p, data, Origin(p), until);
    WalkOn(p, data, Origin(p), until, g.pos);
    WalkStays(p, data, g);
  }

  lemma WalkStays(p: Params, data: seq<byte>, m: Mark)
    requires p.Window() <= m.pos <= |data|
    ensures Walk(p, data, m, m.pos) == m
  {
  }
}
