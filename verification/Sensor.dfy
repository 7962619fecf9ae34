/** empty_fifo_fn: reads the sensors, fills the current message and hands full messages over. */
module Sensor {
  import opened Bits
  import opened Matching
  import opened MsgEncode
  import opened Zcbor
  import opened Batching
  import opened Banks
  import opened Compression

  /** How the environment lets a flush end: the encoder reports a fault, the compressor finds no
      memory, or the message is compressed. */
  datatype FlushOutcome = EncoderFault | NoMemory | Packed

  /** A message stored in a slot. */
  datatype Delivery = Delivery(msg: Msg, outcome: FlushOutcome)

  /** A sensor reading of Zephyr: an integer part and millionths. */
  datatype SensorValue = SensorValue(val1: int, val2: int)

  /** The C operator / on signed integers. */
  function TruncDiv(a: int, b: int): int
    requires b > 0
  {
    if a >= 0 then a / b else -((-a) / b)
  }

  function Milli(v: SensorValue): int {
    v.val1 * 1000 + TruncDiv(v.val2, 1000)
  }

  /** The C division truncates: the quotient times the divisor is not further from zero, and less than
      the divisor away. */
  lemma TruncDivIs(a: int, b: int)
    requires b > 0
    ensures var q := TruncDiv(a, b);
      && -b < a - q * b < b
      && (a >= 0 ==> 0 <= q * b <= a) && (a <= 0 ==> a <= q * b <= 0)
  {
    var n := if a >= 0 then a else -a;
    assert n == (n / b) * b + n % b;
    if a < 0 {
      assert TruncDiv(a, b) * b == -((n / b) * b);
    }
  }

  /** n are the thousandths of a value given by an integer part and millionths: the integer part counts
      whole thousandths, and the millionths are cut off towards zero. */
  predicate InThousandths(n: int, v: SensorValue) {
    var q := n - 1000 * v.val1;
    && -1000 < v.val2 - 1000 * q < 1000
    && (v.val2 >= 0 ==> 0 <= 1000 * q <= v.val2) && (v.val2 <= 0 ==> v.val2 <= 1000 * q <= 0)
  }

  /** The conversion gives the thousandths, and no other number is them. For parts of one sign that is
      the value itself, cut off towards zero after three digits. */
  lemma MilliIs(v: SensorValue, n: int)
    ensures InThousandths(n, v) <==> n == Milli(v)
    ensures v.val1 >= 0 && v.val2 >= 0 ==>
      var m := 1000000 * v.val1 + v.val2; 1000 * Milli(v) <= m < 1000 * Milli(v) + 1000
    ensures v.val1 <= 0 && v.val2 <= 0 ==>
      var m := 1000000 * v.val1 + v.val2; 1000 * Milli(v) - 1000 < m <= 1000 * Milli(v)
  {
    TruncDivIs(v.val2, 1000);
    hide TruncDiv;
  }

  /** Neither the product nor the sum of the conversion overflows. */
  predicate MilliFits(v: SensorValue) {
    IsInt32(v.val1 * 1000) && IsInt32(Milli(v))
  }

  /** The FIFO holds x, y and z of each sample in a row. */
  function Samples(accel: seq<int16>): (r: seq<Triple>)
    ensures |r| == |accel| / 3
    ensures forall t :: t in r ==> t.InRange()
  {
    seq(|accel| / 3, i requires 0 <= i < |accel| / 3 => Triple(accel[3 * i], accel[3 * i + 1], accel[3 * i + 2]))
  }

  /** The coordinates of the samples, one after the other. */
  function Coordinates(ts: seq<Triple>): seq<int> {
    if ts == [] then []
    else
      var t := ts[|ts| - 1];
      Coordinates(ts[..|ts| - 1]) + [t.x, t.y, t.z]
  }

  /** Reading the FIFO by threes neither loses nor reorders a coordinate. */
  lemma {:induction false} SamplesAreTheFifo(accel: seq<int16>)
    requires |accel| % 3 == 0
    ensures Coordinates(Samples(accel)) == accel
  {
    if accel != [] {
      var n := |accel| - 3;
      SamplesAreTheFifo(accel[..n]);
      var ts := Samples(accel);
      assert ts[..|ts| - 1] == Samples(accel[..n]);
      assert accel == accel[..n] + [accel[n], accel[n + 1], accel[n + 2]];
    }
  }

  function DeliveryOf(m: Msg, outcome: FlushOutcome): seq<Delivery> {
    if outcome == EncoderFault then [] else [Delivery(m, outcome)]
  }

  /** Which flushes of one call end up in a slot. */
  function Deliveries(fs: seq<Flushed>, outcomes: nat -> FlushOutcome): seq<Delivery> {
    if fs == [] then []
    else
      var n := |fs| - 1;
      Deliveries(fs[..n], outcomes) + DeliveryOf(fs[n].msg, outcomes(n))
  }

  /** Flush i ends up in a slot unless the encoder reports a fault, as the delivery whose number is the
      count of those before it. */
  lemma {:induction false} DeliveriesInOrder(fs: seq<Flushed>, outcomes: nat -> FlushOutcome, i: nat)
    requires i < |fs|
    ensures var k := |Deliveries(fs[..i], outcomes)|;
      && Deliveries(fs[..i], outcomes) <= Deliveries(fs, outcomes)
      && |Deliveries(fs[..i + 1], outcomes)| == k + (if outcomes(i) == EncoderFault then 0 else 1)
      && (outcomes(i) != EncoderFault ==>
            k < |Deliveries(fs, outcomes)| && Deliveries(fs, outcomes)[k] == Delivery(fs[i].msg, outcomes(i)))
  {
    var n := |fs| - 1;
    if i < n {
      assert fs[..n][..i] == fs[..i] && fs[..n][..i + 1] == fs[..i + 1];
      DeliveriesInOrder(fs[..n], outcomes, i);
    } else {
      assert fs[..i + 1] == fs;
    }
  }

  /** What the slot holds for a delivered message. */
  ghost predicate SlotHolds(slot: MessagePayload, d: Delivery) {
    var bytes := MsgBytes(d.msg);
    && |slot.payload| == PAYLOAD_BYTES && |bytes| <= PAYLOAD_BYTES
    && match d.outcome
       case Packed => Compressed(bytes, slot.payload, slot.size) && slot.size == Reported(bytes)
       case NoMemory => slot.size == |bytes| && slot.payload[..|bytes|] == bytes
       case EncoderFault => false
  }

  /** The slots stored so far are those of the messages delivered so far, in order. */
  ghost predicate AllHold(stored: seq<MessagePayload>, delivered: seq<Delivery>) {
    |stored| == |delivered| && forall k :: 0 <= k < |stored| ==> SlotHolds(stored[k], delivered[k])
  }

  lemma AllHoldMore(stored: seq<MessagePayload>, delivered: seq<Delivery>, slot: MessagePayload, d: Delivery)
    requires AllHold(stored, delivered) && SlotHolds(slot, d)
    ensures AllHold(stored + [slot], delivered + [d])
  {
    hide SlotHolds;
  }

  lemma NoneHold()
    ensures AllHold([], [])
  {
    hide SlotHolds;
  }

  lemma FlushFits(f: Flushed)
    requires GoodFlush(f)
    ensures f.msg.Encodable() && Needs(f.msg) <= TEMPORARY_SIZE && 1 <= |MsgBytes(f.msg)| <= PAYLOAD_BYTES
  {
    hide HeaderBytes, TriplesBytes;
  }

  // ----- handing one message over

  /** The slot for an encoded message: compressed, or copied as it is when the compressor fails. */
  method FillSlot(temporary: array<byte>, cborLen: nat, slot: MessagePayload, memoryLeft: bool, ghost d: Delivery)
    returns (filled: MessagePayload)
    requires d.outcome != EncoderFault && |slot.payload| == PAYLOAD_BYTES
    requires cborLen <= temporary.Length && 1 <= cborLen <= PAYLOAD_BYTES
    requires temporary[..cborLen] == MsgBytes(d.msg)
    requires memoryLeft <==> d.outcome == Packed
    ensures SlotHolds(filled, d)
  {
    var payload := new byte[PAYLOAD_BYTES](i requires 0 <= i < |slot.payload| => slot.payload[i]);
    var compressionSize := HeatshrinkCompression(temporary, cborLen, payload, memoryLeft, true);
    if compressionSize > 0 {
      filled := MessagePayload(compressionSize, payload[..]);
    } else {
      forall i | 0 <= i < cborLen {
        payload[i] := temporary[i];
      }
      filled := MessagePayload(cborLen, payload[..]);
    }
  }

  /** Encode a message and store it in the next slot, unless the encoder fails. */
  method HandOver(banks: SharedBanks, m: Msg, outcome: FlushOutcome, ghost size: int, ghost delivered: seq<Delivery>)
    requires banks.Valid() && AllHold(banks.stored, delivered)
    requires GoodFlush(Flushed(m, size))
    modifies banks, banks.message0, banks.message1
    ensures banks.Valid() && AllHold(banks.stored, delivered + DeliveryOf(m, outcome))
    ensures old(banks.stored) <= banks.stored
    ensures banks.sendFlag == (old(banks.sendFlag) || Swaps(|banks.stored|) > Swaps(old(|banks.stored|)))
  {
    FlushFits(Flushed(m, size));
    hide AllHold, SlotHolds, Swaps, Filled, MsgBytes, GoodFlush, Needs, Msg.Encodable;
    var temporary := new byte[TEMPORARY_SIZE];
    var ok, cborLen := CborEncodeMsg(temporary, TEMPORARY_SIZE, m);
    if ok && outcome != EncoderFault {
      ghost var d := Delivery(m, outcome);
      assert |banks.Bank(banks.msgIndex)[banks.collectedAccel].payload| == PAYLOAD_BYTES;
      var slot := banks.Row(banks.msgIndex)[banks.collectedAccel];
      slot := FillSlot(temporary, cborLen, slot, outcome == Packed, d);
      assert |slot.payload| == PAYLOAD_BYTES by { SlotSize(slot, d); }
      AllHoldMore(banks.stored, delivered, slot, d);
      banks.Store(slot);
    } else {
      assert delivered + [] == delivered;
    }
  }

  lemma SlotSize(slot: MessagePayload, d: Delivery)
    requires SlotHolds(slot, d)
    ensures |slot.payload| == PAYLOAD_BYTES
  {
  }

  // ----- the sensor task

  lemma SampleAt(accel: seq<int16>, k: nat)
    requires 3 * k + 2 < |accel|
    ensures k < |Samples(accel)|
    ensures Samples(accel)[k] == Triple(accel[3 * k], accel[3 * k + 1], accel[3 * k + 2])
  {
  }

  /** Where a call stands after the first k samples. */
  ghost predicate FedSoFar(b: Batch, samples: seq<Triple>, k: nat, batch: Batch, flushes: nat,
                           before: seq<Delivery>, delivered: seq<Delivery>, outcomes: nat -> FlushOutcome)
    requires k <= |samples|
  {
    var p := Feed(b, samples[..k]);
    batch == p.batch && flushes == |p.flushed| && delivered == before + Deliveries(p.flushed, outcomes)
  }

  lemma FedNothing(b: Batch, samples: seq<Triple>, before: seq<Delivery>, outcomes: nat -> FlushOutcome)
    ensures FedSoFar(b, samples, 0, b, 0, before, before, outcomes)
  {
    assert samples[..0] == [] && before + [] == before;
  }

  /** In the middle of a call the batch is still consistent. */
  lemma FedIsBusy(b: Batch, samples: seq<Triple>, k: nat, batch: Batch, flushes: nat,
                  before: seq<Delivery>, delivered: seq<Delivery>, outcomes: nat -> FlushOutcome)
    requires Busy(b) && k <= |samples| && forall t :: t in samples ==> t.InRange()
    requires FedSoFar(b, samples, k, batch, flushes, before, delivered, outcomes)
    ensures Busy(batch)
  {
    hide Busy, Deliveries;
    FeedWell(b, samples[..k]);
  }

  /** One sample more. */
  lemma FedOneMore(b: Batch, samples: seq<Triple>, k: nat, batch: Batch, flushes: nat,
                   before: seq<Delivery>, delivered: seq<Delivery>, outcomes: nat -> FlushOutcome)
    requires k < |samples| && FedSoFar(b, samples, k, batch, flushes, before, delivered, outcomes)
    ensures var full := Full(batch, samples[k]);
      FedSoFar(b, samples, k + 1, AddTriple(Progress(batch, []), samples[k]).batch, flushes + (if full then 1 else 0),
               before, delivered + (if full then DeliveryOf(Msg(batch.header, batch.xyz), outcomes(flushes)) else []),
               outcomes)
  {
    hide Full, DeliveryOf;
    assert samples[..k + 1][..k] == samples[..k];
    var p := Feed(b, samples[..k]);
    var f := Flushed(Msg(p.batch.header, p.batch.xyz), p.batch.size);
    assert (p.flushed + [f])[..|p.flushed|] == p.flushed;
    assert delivered + [] == delivered;
  }

  lemma FedAll(b: Batch, samples: seq<Triple>, batch: Batch, flushes: nat,
               before: seq<Delivery>, delivered: seq<Delivery>, outcomes: nat -> FlushOutcome)
    requires FedSoFar(b, samples, |samples|, batch, flushes, before, delivered, outcomes)
    ensures var p := Feed(b, samples);
            batch == p.batch && delivered == before + Deliveries(p.flushed, outcomes)
  {
    assert samples[..|samples|] == samples;
  }

  lemma {:induction false} DeliveriesCount(fs: seq<Flushed>, outcomes: nat -> FlushOutcome)
    ensures |Deliveries(fs, outcomes)| <= |fs|
  {
    if fs != [] {
      DeliveriesCount(fs[..|fs| - 1], outcomes);
    }
  }

  lemma SameCount(stored: seq<MessagePayload>, delivered: seq<Delivery>)
    requires AllHold(stored, delivered)
    ensures |stored| == |delivered|
  {
  }

  lemma SwapsAtMostOne(m: nat, n: nat)
    requires m <= n <= m + 2
    ensures Swaps(n) <= Swaps(m) + 1
  {
  }

  /** The count stays within 16 bits when the header is added and when it is taken out again. */
  lemma DrainFits(b: Batch, r: Reading)
    requires Idle(b) && r.Valid()
    ensures Busy(Begin(b, r)) && 0 <= Begin(b, r).size <= 1044
    ensures var q := Feed(Begin(b, r), r.samples).batch; 0 <= q.size - HeaderSize(q.header) <= q.size <= 1044
  {
    hide GoodFlush, HeaderSize;
    BeginIsBusy(b, r);
    HeaderSizeIsEncoded(Begin(b, r).header);
    FeedWell(Begin(b, r), r.samples);
    HeaderSizeIsEncoded(Feed(Begin(b, r), r.samples).batch.header);
  }

  class SensorTask {
    var header: Header            // encode_msg_buf, field by field
    const msgXyz: array<Triple>
    var msgXyzCount: nat
    var size: uint16
    const banks: SharedBanks
    ghost var delivered: seq<Delivery>  // every message stored in a slot so far

    /** encode_msg_buf with the given number of samples. */
    ghost function BatchOf(count: nat): Batch
      requires count <= msgXyz.Length
      reads this`header, this`size, msgXyz
    {
      Batch(header, msgXyz[..count], size)
    }

    ghost predicate BanksValid()
      reads this`delivered, banks, banks.message0, banks.message1
    {
      banks.Valid() && AllHold(banks.stored, delivered)
    }

    ghost predicate Valid()
      reads this, msgXyz, banks, banks.message0, banks.message1
    {
      && msgXyz.Length == MAX_QTY && msgXyzCount <= MAX_QTY
      && Idle(BatchOf(msgXyzCount))
      && BanksValid()
    }

    /** The globals at start-up, all zero. */
    constructor ()
      ensures Valid() && BatchOf(msgXyzCount) == Run([]).batch
      ensures delivered == [] && banks.stored == [] && !banks.sendFlag
      ensures fresh(msgXyz) && fresh(banks) && fresh(banks.message0) && fresh(banks.message1)
    {
      header := ZERO_HEADER;
      msgXyz := new Triple[MAX_QTY](_ => Triple(0, 0, 0));
      msgXyzCount, size := 0, 0;
      banks := new SharedBanks();
      delivered := [];
      new;
      NoneHold();
      StartIsIdle();
      assert BatchOf(0) == Run([]).batch;
      hide Idle, AllHold, SharedBanks.Valid, ZERO_HEADER, Run, BankIndex, Filled;
    }

    /** memset of encode_msg_buf, and the header of zeros counted in. */
    method ClearBuffer()
      modifies this`header, this`msgXyzCount, this`size, msgXyz
      ensures BatchOf(0) == EMPTIED
    {
      forall i | 0 <= i < msgXyz.Length {
        msgXyz[i] := Triple(0, 0, 0);
      }
      header := ZERO_HEADER;
      msgXyzCount := 0;
      size := 0;
      size := size + HeaderSize(header);
    }

    /** A full batch: encode it, store it unless the encoder fails, and start afresh. */
    method Flush(count: nat, outcome: FlushOutcome)
      requires BanksValid() && count <= msgXyz.Length
      requires GoodFlush(Flushed(Msg(header, msgXyz[..count]), size))
      modifies this`header, this`msgXyzCount, this`size, this`delivered, msgXyz,
               banks, banks.message0, banks.message1
      ensures BanksValid() && BatchOf(0) == EMPTIED
      ensures delivered == old(delivered) + DeliveryOf(old(Msg(header, msgXyz[..count])), outcome)
      ensures old(banks.stored) <= banks.stored
      ensures banks.sendFlag == (old(banks.sendFlag) || Swaps(|banks.stored|) > Swaps(old(|banks.stored|)))
    {
      hide GoodFlush, AllHold, SharedBanks.Valid, Swaps;
      msgXyzCount := count;
      var m := Msg(header, msgXyz[..count]);
      HandOver(banks, m, outcome, size, delivered);
      delivered := delivered + DeliveryOf(m, outcome);
      ClearBuffer();
    }

    /** One sample of the FIFO: flush first if it does not fit, then store it. */
    method AddSample(t: Triple, index: nat, outcome: FlushOutcome) returns (next: nat, flushed: bool)
      requires BanksValid() && index <= msgXyz.Length == MAX_QTY
      requires Busy(BatchOf(index)) && t.InRange()
      modifies this`header, this`msgXyzCount, this`size, this`delivered, msgXyz,
               banks, banks.message0, banks.message1
      ensures BanksValid() && next <= MAX_QTY
      ensures flushed <==> Full(old(BatchOf(index)), t)
      ensures BatchOf(next) == AddTriple(Progress(old(BatchOf(index)), []), t).batch
      ensures delivered == old(delivered)
           + (if flushed then DeliveryOf(old(Msg(header, msgXyz[..index])), outcome) else [])
      ensures old(banks.stored) <= banks.stored
      ensures banks.sendFlag == (old(banks.sendFlag) || Swaps(|banks.stored|) > Swaps(old(|banks.stored|)))
    {
      hide GoodFlush, BanksValid, Busy, HeaderSize, Swaps;
      next := index;
      ghost var b := BatchOf(index);
      var elementSize := ElementSize(t);
      flushed := size + elementSize + ARRAY_BYTE > PAYLOAD_SIZE;
      if flushed {
        FlushIsGood(b, t);
        Flush(index, outcome);
        next := 0;
        EmptiedIsBusy(t);
        b := EMPTIED;
      }
      AppendKeepsBusy(b, t);
      msgXyz[next] := t;
      size := size + (elementSize + ARRAY_BYTE);
      next := next + 1;
      assert msgXyz[..next] == b.xyz + [t];
    }

    /** The loop over the FIFO: feeds every sample to the batch. */
    method FeedFifo(accel: seq<int16>, start: nat, outcomes: nat -> FlushOutcome) returns (index: nat)
      requires BanksValid() && start <= msgXyz.Length == MAX_QTY && Busy(BatchOf(start))
      requires |accel| == FIFO_SIZE
      modifies this`header, this`msgXyzCount, this`size, this`delivered, msgXyz,
               banks, banks.message0, banks.message1
      ensures BanksValid() && index <= MAX_QTY
      ensures var p := Feed(old(BatchOf(start)), Samples(accel));
              BatchOf(index) == p.batch && delivered == old(delivered) + Deliveries(p.flushed, outcomes)
      ensures old(banks.stored) <= banks.stored
      ensures banks.sendFlag == (old(banks.sendFlag) || Swaps(|banks.stored|) > Swaps(old(|banks.stored|)))
    {
      hide BanksValid, Busy, Full, Swaps, AddTriple, Samples, FedSoFar;
      index := start;
      var accelIndex, flushes := 0, 0;
      ghost var b, samples, before := BatchOf(start), Samples(accel), delivered;
      FedNothing(b, samples, before, outcomes);
      while accelIndex < FIFO_SIZE
        invariant accelIndex % 3 == 0 && accelIndex <= FIFO_SIZE && BanksValid() && index <= MAX_QTY
        invariant FedSoFar(b, samples, accelIndex / 3, BatchOf(index), flushes, before, delivered, outcomes)
        invariant old(banks.stored) <= banks.stored
        invariant banks.sendFlag == (old(banks.sendFlag) || Swaps(|banks.stored|) > Swaps(old(|banks.stored|)))
      {
        ghost var k, swapped := accelIndex / 3, |banks.stored|;
        var t := Triple(accel[accelIndex], accel[accelIndex + 1], accel[accelIndex + 2]);
        var flushed: bool;
        SampleAt(accel, k);
        FedIsBusy(b, samples, k, BatchOf(index), flushes, before, delivered, outcomes);
        FedOneMore(b, samples, k, BatchOf(index), flushes, before, delivered, outcomes);
        SwapsMonotone(old(|banks.stored|), swapped);
        index, flushed := AddSample(t, index, outcomes(flushes));
        if flushed {
          flushes := flushes + 1;
        }
        SwapsMonotone(swapped, |banks.stored|);
        accelIndex := accelIndex + 3;
      }
      FedAll(b, samples, BatchOf(index), flushes, before, delivered, outcomes);
    }

    /** The part of empty_fifo_fn after the sensors have been read. */
    method ProcessReading(uptime: int, accel: seq<int16>, temp: int, press: int, hum: int,
                          outcomes: nat -> FlushOutcome)
      requires Valid() && |accel| == FIFO_SIZE
      requires Header(uptime, temp, press, hum).Valid()
      modifies this`header, this`msgXyzCount, this`size, this`delivered, msgXyz,
               banks, banks.message0, banks.message1
      ensures Valid()
      ensures var p := Drain(old(BatchOf(msgXyzCount)), Reading(uptime, temp, press, hum, Samples(accel)));
        && BatchOf(msgXyzCount) == p.batch && |p.flushed| <= 2
        && delivered == old(delivered) + Deliveries(p.flushed, outcomes)
      ensures old(banks.stored) <= banks.stored
      ensures banks.sendFlag == (old(banks.sendFlag) || Swaps(|banks.stored|) > Swaps(old(|banks.stored|)))
    {
      hide AllHold, SharedBanks.Valid, Busy, Idle, Feed, Swaps, HeaderSize, Deliveries, Samples, TriplesBytes;
      ghost var r := Reading(uptime, temp, press, hum, Samples(accel));
      ghost var b := BatchOf(msgXyzCount);
      DrainWell(b, r);
      DrainFits(b, r);
      header := Header(header.timestamp, temp, press, hum);
      size := size + HeaderSize(header);
      msgXyzCount := FeedFifo(accel, msgXyzCount, outcomes);
      size := size - HeaderSize(header);
      header := header.(timestamp := uptime);
    }

    /** empty_fifo_fn: one reading of the sensors. When a read fails nothing happens; otherwise the
        batch and the deliveries advance exactly as Drain says, with at most two messages stored and at
        most one swap, which raises the flag; a raised flag submits the sender. */
    method EmptyFifoFn(uptime: int, fetchOk: bool, fifoOk: bool, accel: seq<int16>, temp1: SensorValue,
                       press: SensorValue, humidity: SensorValue, outcomes: nat -> FlushOutcome)
      returns (submitted: bool)
      requires Valid() && |accel| == FIFO_SIZE && IsUint64(uptime)
      requires IsInt32(temp1.val1) && MilliFits(press) && MilliFits(humidity)
      modifies this`header, this`msgXyzCount, this`size, this`delivered, msgXyz,
               banks, banks.message0, banks.message1
      ensures Valid()
      ensures var b, r := old(BatchOf(msgXyzCount)),
                          Reading(uptime, temp1.val1, Milli(press), Milli(humidity), Samples(accel));
        var p := if fetchOk && fifoOk then Drain(b, r) else Progress(b, []);
        && BatchOf(msgXyzCount) == p.batch && |p.flushed| <= 2
        && delivered == old(delivered) + Deliveries(p.flushed, outcomes)
        && (p.flushed != [] ==>
              var h := p.flushed[0].msg.header;
              && h.timestamp == old(header.timestamp) && h.temp == temp1.val1
              && InThousandths(h.press, press) && InThousandths(h.hum, humidity))
      ensures header.timestamp == if fetchOk && fifoOk then uptime else old(header.timestamp)
      ensures old(banks.stored) <= banks.stored && |banks.stored| <= |old(banks.stored)| + 2
      ensures Swaps(|banks.stored|) <= Swaps(|old(banks.stored)|) + 1
      ensures banks.sendFlag == (old(banks.sendFlag) || Swaps(|banks.stored|) > Swaps(old(|banks.stored|)))
      ensures submitted == (fetchOk && fifoOk && banks.sendFlag)
    {
      SameCount(banks.stored, delivered);
      assert delivered + Deliveries([], outcomes) == delivered;
      MilliIs(press, Milli(press));
      MilliIs(humidity, Milli(humidity));
      hide AllHold, SharedBanks.Valid, Idle, Drain, Swaps, Deliveries, Samples, TriplesBytes, Milli, InThousandths;
      if !fetchOk || !fifoOk { return false; }
      ghost var r := Reading(uptime, temp1.val1, Milli(press), Milli(humidity), Samples(accel));
      DrainWell(BatchOf(msgXyzCount), r);
      DeliveriesCount(Drain(BatchOf(msgXyzCount), r).flushed, outcomes);
      ProcessReading(uptime, accel, temp1.val1, Milli(press), Milli(humidity), outcomes);
      SameCount(banks.stored, delivered);
      SwapsAtMostOne(old(|banks.stored|), |banks.stored|);
      submitted := banks.sendFlag;
    }
  }
}
