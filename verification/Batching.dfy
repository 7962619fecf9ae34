/** How acceleration samples are gathered into messages, as functions of the sensor readings, and
    what holds over every run of readings. */
module Batching {
  import opened Cbor
  import opened MsgEncode
  import opened Zcbor

  const PAYLOAD_SIZE: int := 1024
  const FIFO_SIZE: nat := 510
  const ARRAY_BYTE: int := 1
  const TABLE_BYTES: int := 2
  const TEMPORARY_SIZE: nat := 1200

  const SAMPLES: nat := FIFO_SIZE / 3
  const ZERO_HEADER := Header(0, 0, 0, 0)

  /** encode_msg_buf: a message being filled and the running count of its encoded bytes. */
  datatype Batch = Batch(header: Header, xyz: seq<Triple>, size: int)

  /** A message handed to the encoder, with the size the batcher believes it has. */
  datatype Flushed = Flushed(msg: Msg, size: int)

  datatype Progress = Progress(batch: Batch, flushed: seq<Flushed>)

  /** What one call of empty_fifo_fn reads from the sensors. */
  datatype Reading = Reading(timestamp: int, temp: int, press: int, hum: int, samples: seq<Triple>) {
    predicate Valid() {
      && Header(timestamp, temp, press, hum).Valid()
      && |samples| == SAMPLES && forall t :: t in samples ==> t.InRange()
    }
  }

  function ElementSize(t: Triple): int {
    CborBitWidth(t.x) + CborBitWidth(t.y) + CborBitWidth(t.z)
  }

  function HeaderSize(h: Header): int {
    CborBitWidth(h.temp) + CborBitWidth(h.press) + CborBitWidth(h.hum)
    + CborBitWidthTimestamp(if h.timestamp >= 0 then h.timestamp else 0) + ARRAY_BYTE + TABLE_BYTES
  }

  // ----- one reading

  /** The start of a call: the new climate values, and the header added to the count. */
  function Begin(b: Batch, r: Reading): Batch {
    var h := Header(b.header.timestamp, r.temp, r.press, r.hum);
    Batch(h, b.xyz, b.size + HeaderSize(h))
  }

  predicate Full(b: Batch, t: Triple) {
    b.size + ElementSize(t) + ARRAY_BYTE > PAYLOAD_SIZE
  }

  function Append(b: Batch, t: Triple): Batch {
    Batch(b.header, b.xyz + [t], b.size + ElementSize(t) + ARRAY_BYTE)
  }

  /** After a flush everything is zero and only the header of zeros counts. */
  const EMPTIED := Batch(ZERO_HEADER, [], HeaderSize(ZERO_HEADER))

  /** One sample: the batch is flushed first if it would become too large. */
  function AddTriple(p: Progress, t: Triple): Progress {
    if Full(p.batch, t) then
      Progress(Append(EMPTIED, t), p.flushed + [Flushed(Msg(p.batch.header, p.batch.xyz), p.batch.size)])
    else Progress(Append(p.batch, t), p.flushed)
  }

  function Feed(b: Batch, ts: seq<Triple>): Progress {
    if ts == [] then Progress(b, [])
    else AddTriple(Feed(b, ts[..|ts| - 1]), ts[|ts| - 1])
  }

  /** The end of a call: the header is taken out of the count again and the new timestamp is stored. */
  function End(b: Batch, timestamp: int): Batch {
    Batch(b.header.(timestamp := timestamp), b.xyz, b.size - HeaderSize(b.header))
  }

  function Drain(b: Batch, r: Reading): Progress {
    var p := Feed(Begin(b, r), r.samples);
    Progress(End(p.batch, r.timestamp), p.flushed)
  }

  /** At the start everything is zero. */
  const EMPTY_BATCH := Batch(ZERO_HEADER, [], 0)

  /** All readings since the start. */
  function Run(rs: seq<Reading>): Progress {
    if rs == [] then Progress(EMPTY_BATCH, [])
    else
      var p := Run(rs[..|rs| - 1]);
      var q := Drain(p.batch, rs[|rs| - 1]);
      Progress(q.batch, p.flushed + q.flushed)
  }

  // ----- what holds between samples and between calls

  ghost predicate ValidBatch(b: Batch) {
    b.header.Valid() && forall t :: t in b.xyz ==> t.InRange()
  }

  /** Between calls the count is exactly the encoded length of the samples. */
  ghost predicate Idle(b: Batch) {
    ValidBatch(b) && b.size == |TriplesBytes(b.xyz)| <= 1017
  }

  /** During a call it is that and the length of the header, including both array heads. */
  ghost predicate Busy(b: Batch) {
    && ValidBatch(b) && |TriplesBytes(b.xyz)| <= 1017
    && b.size == HeaderSize(b.header) + |TriplesBytes(b.xyz)|
  }

  /** Every message that reaches the encoder: 99 to 254 samples, the count exactly its encoded
      length, 1015 to 1044 bytes, and accepted by the encoder with the buffer it is given. */
  ghost predicate GoodFlush(f: Flushed) {
    && f.msg.Valid() && f.msg.Encodable() && 99 <= |f.msg.xyz| <= 254
    && 1015 <= f.size == |MsgBytes(f.msg)| <= 1044
    && Needs(f.msg) <= TEMPORARY_SIZE
  }

  function AllSamples(rs: seq<Reading>): seq<Triple> {
    if rs == [] then [] else AllSamples(rs[..|rs| - 1]) + rs[|rs| - 1].samples
  }

  function Sent(fs: seq<Flushed>): seq<Triple> {
    if fs == [] then [] else Sent(fs[..|fs| - 1]) + fs[|fs| - 1].msg.xyz
  }

  // ----- sizes

  lemma ElementSizeIsEncoded(t: Triple)
    requires t.InRange()
    ensures |TripleBytes(t)| == ElementSize(t) + ARRAY_BYTE
    ensures 4 <= |TripleBytes(t)| <= 10
  {
    hide Int, CborBitWidth;
    WidthIsEncodedLength(t.x);
    WidthIsEncodedLength(t.y);
    WidthIsEncodedLength(t.z);
    Int32Width(t.x);
    Int32Width(t.y);
    Int32Width(t.z);
  }

  lemma HeaderSizeIsEncoded(h: Header)
    requires h.Valid()
    ensures HeaderSize(h) == |HeaderBytes(h)| + TABLE_BYTES
    ensures 7 <= HeaderSize(h) <= 27
  {
    hide Int, CborBitWidth, CborBitWidthTimestamp;
    TimestampWidthIsEncodedLength(h.timestamp);
    WidthIsEncodedLength(h.temp);
    WidthIsEncodedLength(h.press);
    WidthIsEncodedLength(h.hum);
    Int32Width(h.temp);
    Int32Width(h.press);
    Int32Width(h.hum);
  }

  lemma Int32Width(n: int)
    requires IsInt32(n)
    ensures 1 <= CborBitWidth(n) <= 5 && (IsInt16(n) ==> CborBitWidth(n) <= 3)
  {
  }

  lemma {:induction false} BodyBounds(ts: seq<Triple>)
    requires forall t :: t in ts ==> t.InRange()
    ensures 4 * |ts| <= |TriplesBytes(ts)| <= 10 * |ts|
  {
    hide TripleBytes;
    if ts != [] {
      ElementSizeIsEncoded(ts[0]);
      BodyBounds(ts[1..]);
    }
  }

  /** A flush happens only when enough samples have gathered for a two-byte outer array head, so the
      count is the encoded length. */
  lemma FlushIsGood(b: Batch, t: Triple)
    requires Busy(b) && t.InRange() && Full(b, t)
    ensures GoodFlush(Flushed(Msg(b.header, b.xyz), b.size))
    ensures b.header == ZERO_HEADER ==> |b.xyz| >= 101
  {
    hide TriplesBytes, HeaderBytes, TripleBytes;
    ElementSizeIsEncoded(t);
    HeaderSizeIsEncoded(b.header);
    BodyBounds(b.xyz);
    var m := Msg(b.header, b.xyz);
    assert forall u :: u in b.xyz ==> u.InRange() && u.Valid();
    assert m.Valid() && m.Encodable();
    assert |Head(ARRAY, 1 + |m.xyz|)| == 2 && |Head(ARRAY, MAX_QTY + 1)| == 3;
  }

  /** A sample makes the batch flush exactly when the message with this sample in it would be longer than
      1024 bytes; otherwise it joins the batch. */
  lemma FlushedWhenTooLong(p: Progress, t: Triple)
    requires Busy(p.batch) && t.InRange()
    ensures var b, p' := p.batch, AddTriple(p, t);
      if |MsgBytes(Msg(b.header, b.xyz + [t]))| > 1024
      then |p'.flushed| == |p.flushed| + 1 && p'.batch.xyz == [t]
      else p'.flushed == p.flushed && p'.batch.xyz == b.xyz + [t] && p'.batch.header == b.header
  {
    hide TriplesBytes, HeaderBytes, TripleBytes;
    var b := p.batch;
    ElementSizeIsEncoded(t);
    TriplesBytesSnoc(b.xyz, t);
    HeaderSizeIsEncoded(b.header);
    BodyBounds(b.xyz + [t]);
    HeadLengths(1 + |b.xyz + [t]|);
  }

  lemma HeadLengths(n: nat)
    requires n < 0x1_0000
    ensures |Head(ARRAY, n)| == if n <= 23 then 1 else if n <= 255 then 2 else 3
  {
  }

  lemma AppendKeepsBusy(b: Batch, t: Triple)
    requires Busy(b) && t.InRange() && !Full(b, t)
    ensures Busy(Append(b, t)) && Append(b, t).size <= PAYLOAD_SIZE
    ensures |Append(b, t).xyz| <= 254
  {
    hide TriplesBytes, HeaderBytes, TripleBytes;
    ElementSizeIsEncoded(t);
    TriplesBytesSnoc(b.xyz, t);
    HeaderSizeIsEncoded(b.header);
    BodyBounds(b.xyz + [t]);
  }

  lemma EmptiedIsBusy(t: Triple)
    requires t.InRange()
    ensures Busy(EMPTIED) && !Full(EMPTIED, t)
  {
    ElementSizeIsEncoded(t);
  }

  // ----- one call

  lemma SentSnoc(fs: seq<Flushed>, f: Flushed)
    ensures Sent(fs + [f]) == Sent(fs) + f.msg.xyz
  {
    assert (fs + [f])[..|fs|] == fs;
  }

  lemma Assoc(a: seq<Triple>, b: seq<Triple>, c: seq<Triple>)
    ensures (a + b) + c == a + (b + c)
  {
  }

  ghost predicate AllGood(fs: seq<Flushed>) {
    forall f :: f in fs ==> GoodFlush(f)
  }

  /** The first message has the header h, all later ones a header of zeros. */
  ghost predicate HeadersFrom(h: Header, fs: seq<Flushed>) {
    forall i :: 0 <= i < |fs| ==> fs[i].msg.header == if i == 0 then h else ZERO_HEADER
  }

  /** The header that comes next. */
  function NextHeader(h: Header, fs: seq<Flushed>): Header {
    if fs == [] then h else ZERO_HEADER
  }

  /** What holds after feeding the samples ts to a batch b. */
  ghost predicate FedWell(b: Batch, ts: seq<Triple>, p: Progress) {
    && Busy(p.batch)
    && (ts != [] ==> p.batch.size <= PAYLOAD_SIZE && |p.batch.xyz| <= 254)
    && AllGood(p.flushed)
    && Sent(p.flushed) + p.batch.xyz == b.xyz + ts
    && HeadersFrom(b.header, p.flushed) && p.batch.header == NextHeader(b.header, p.flushed)
    && (p.flushed != [] ==> 101 * (|p.flushed| - 1) + |p.batch.xyz| <= |ts|)
  }

  lemma OneMoreFlush(h: Header, fs: seq<Flushed>, f: Flushed)
    requires AllGood(fs) && GoodFlush(f)
    requires HeadersFrom(h, fs) && f.msg.header == NextHeader(h, fs)
    ensures AllGood(fs + [f]) && HeadersFrom(h, fs + [f]) && NextHeader(h, fs + [f]) == ZERO_HEADER
  {
    hide GoodFlush;
  }

  lemma FlushKeepsFedWell(b: Batch, ts: seq<Triple>, p: Progress, t: Triple)
    requires FedWell(b, ts, p) && t.InRange() && Full(p.batch, t)
    ensures FedWell(b, ts + [t], AddTriple(p, t))
  {
    hide Busy, GoodFlush, HeaderSize, ElementSize, AllGood, HeadersFrom, NextHeader, Sent;
    var f := Flushed(Msg(p.batch.header, p.batch.xyz), p.batch.size);
    FlushIsGood(p.batch, t);
    EmptiedIsBusy(t);
    AppendKeepsBusy(EMPTIED, t);
    OneMoreFlush(b.header, p.flushed, f);
    LaterHeader(b.header, p.flushed);
    SentSnoc(p.flushed, f);
    assert [] + [t] == [t];
    Assoc(b.xyz, ts, [t]);
  }

  lemma LaterHeader(h: Header, fs: seq<Flushed>)
    ensures fs != [] ==> NextHeader(h, fs) == ZERO_HEADER
  {
  }

  lemma AppendKeepsFedWell(b: Batch, ts: seq<Triple>, p: Progress, t: Triple)
    requires FedWell(b, ts, p) && t.InRange() && !Full(p.batch, t)
    ensures FedWell(b, ts + [t], AddTriple(p, t))
  {
    hide Busy, GoodFlush, HeaderSize, ElementSize, AllGood, HeadersFrom, NextHeader, Sent;
    AppendKeepsBusy(p.batch, t);
    Assoc(Sent(p.flushed), p.batch.xyz, [t]);
    Assoc(b.xyz, ts, [t]);
  }

  lemma AddKeepsFedWell(b: Batch, ts: seq<Triple>, p: Progress, t: Triple)
    requires FedWell(b, ts, p) && t.InRange()
    ensures FedWell(b, ts + [t], AddTriple(p, t))
  {
    hide FedWell, AddTriple;
    if Full(p.batch, t) {
      FlushKeepsFedWell(b, ts, p, t);
    } else {
      AppendKeepsFedWell(b, ts, p, t);
    }
  }

  lemma {:induction false} FeedWell(b: Batch, ts: seq<Triple>)
    requires Busy(b) && forall t :: t in ts ==> t.InRange()
    ensures FedWell(b, ts, Feed(b, ts))
  {
    hide Busy, GoodFlush, AddTriple, FedWell;
    if ts == [] {
      FeedNothing(b);
    } else {
      var n := |ts| - 1;
      FeedWell(b, ts[..n]);
      AddKeepsFedWell(b, ts[..n], Feed(b, ts[..n]), ts[n]);
      assert ts == ts[..n] + [ts[n]];
    }
  }

  lemma FeedNothing(b: Batch)
    requires Busy(b)
    ensures FedWell(b, [], Progress(b, []))
  {
    assert [] + b.xyz == b.xyz + [];
  }

  lemma BeginIsBusy(b: Batch, r: Reading)
    requires Idle(b) && r.Valid()
    ensures Busy(Begin(b, r))
  {
    HeaderSizeIsEncoded(Begin(b, r).header);
  }

  /** One call: what goes in comes out or stays, at most two messages are flushed, each as long as
      counted; the first carries this call's climate values with the previous call's timestamp, a
      second one a header of zeros. */
  lemma DrainWell(b: Batch, r: Reading)
    requires Idle(b) && r.Valid()
    ensures var p := Drain(b, r);
      && Idle(p.batch)
      && |p.flushed| <= 2 && (forall f :: f in p.flushed ==> GoodFlush(f))
      && Sent(p.flushed) + p.batch.xyz == b.xyz + r.samples
      && (|p.flushed| >= 1 ==> p.flushed[0].msg.header == Header(b.header.timestamp, r.temp, r.press, r.hum))
      && (|p.flushed| == 2 ==> p.flushed[1].msg.header == Header(0, 0, 0, 0))
      && p.batch.header.timestamp == r.timestamp
  {
    hide GoodFlush, HeaderSize;
    BeginIsBusy(b, r);
    FeedWell(Begin(b, r), r.samples);
    HeaderSizeIsEncoded(Feed(Begin(b, r), r.samples).batch.header);
  }

  // ----- every run

  lemma {:induction false} SentConcat(a: seq<Flushed>, b: seq<Flushed>)
    ensures Sent(a + b) == Sent(a) + Sent(b)
  {
    if b == [] {
      assert a + b == a && Sent(a) + [] == Sent(a);
    } else {
      var n := |b| - 1;
      SentConcat(a, b[..n]);
      assert a + b == (a + b[..n]) + [b[n]];
      SentSnoc(a + b[..n], b[n]);
      assert b == b[..n] + [b[n]];
      Assoc(Sent(a), Sent(b[..n]), b[n].msg.xyz);
    }
  }

  lemma StartIsIdle()
    ensures Idle(EMPTY_BATCH) && Sent([]) == []
  {
  }

  lemma PassOn(sent: seq<Triple>, held: seq<Triple>, new_: seq<Triple>, sent': seq<Triple>, held': seq<Triple>)
    requires sent' + held' == held + new_
    ensures (sent + sent') + held' == (sent + held) + new_
  {
    Assoc(sent, sent', held');
    Assoc(sent, held, new_);
  }

  /** Over any run of readings: the count between calls is exact, every message that reached the
      encoder was counted exactly and fits its buffers, and no sample is lost, added or reordered. */
  lemma {:induction false} RunWell(rs: seq<Reading>)
    requires forall r :: r in rs ==> r.Valid()
    ensures var p := Run(rs);
      && Idle(p.batch)
      && (forall f :: f in p.flushed ==> GoodFlush(f))
      && Sent(p.flushed) + p.batch.xyz == AllSamples(rs)
      && |p.flushed| <= 2 * |rs|
  {
    hide GoodFlush, Drain, Idle, Sent, Reading.Valid;
    if rs == [] {
      StartIsIdle();
    } else {
      var n := |rs| - 1;
      RunWell(rs[..n]);
      var p, r := Run(rs[..n]), rs[n];
      DrainWell(p.batch, r);
      var q := Drain(p.batch, r);
      SentConcat(p.flushed, q.flushed);
      PassOn(Sent(p.flushed), p.batch.xyz, r.samples, Sent(q.flushed), q.batch.xyz);
    }
  }

  lemma {:induction false} FlushedSoFar(rs: seq<Reading>, k: nat)
    requires k <= |rs|
    ensures Run(rs[..k]).flushed <= Run(rs).flushed
    decreases |rs| - k
  {
    hide Drain;
    if k == |rs| {
      assert rs[..k] == rs;
    } else {
      assert rs[..k + 1][..k] == rs[..k];
      FlushedSoFar(rs, k + 1);
    }
  }

  lemma RunOneReading(rs: seq<Reading>, k: nat)
    requires k < |rs|
    ensures var q := Drain(Run(rs[..k]).batch, rs[k]);
      Run(rs[..k + 1]) == Progress(q.batch, Run(rs[..k]).flushed + q.flushed)
  {
    hide Drain;
    assert rs[..k + 1][..k] == rs[..k];
  }

  /** Over every run: the first message flushed by call k carries the climate values of that call and the
      time of the call before, zero for the first call; a second one carries zeros; there is no third. */
  lemma RunHeaders(rs: seq<Reading>, k: nat)
    requires k < |rs| && forall r :: r in rs ==> r.Valid()
    ensures var n, n', all := |Run(rs[..k]).flushed|, |Run(rs[..k + 1]).flushed|, Run(rs).flushed;
      && n <= n' <= n + 2 && n' <= |all|
      && (n' > n ==> all[n].msg.header
                     == Header(if k == 0 then 0 else rs[k - 1].timestamp, rs[k].temp, rs[k].press, rs[k].hum))
      && (n' == n + 2 ==> all[n + 1].msg.header == Header(0, 0, 0, 0))
  {
    hide Drain, Run, Idle, Reading.Valid, GoodFlush, Sent;
    assert rs[k] in rs && forall r :: r in rs[..k] ==> r in rs;
    RunWell(rs[..k]);
    RunOneReading(rs, k);
    DrainWell(Run(rs[..k]).batch, rs[k]);
    FlushedSoFar(rs, k + 1);
    if k == 0 {
      RunOfNone(rs);
    } else {
      assert rs[k - 1] in rs && forall r :: r in rs[..k - 1] ==> r in rs;
      RunWell(rs[..k - 1]);
      RunOneReading(rs, k - 1);
      DrainWell(Run(rs[..k - 1]).batch, rs[k - 1]);
    }
  }

  lemma RunOfNone(rs: seq<Reading>)
    ensures Run(rs[..0]) == Progress(Batch(Header(0, 0, 0, 0), [], 0), [])
  {
  }
}
