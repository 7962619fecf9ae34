/** The parts together: from sensor readings to what the receiver of a bank can read, over whole runs
    and with sampling and sending interleaved. */
module Pipeline {
  import opened Lzss
  import opened Matching
  import opened MsgEncode
  import opened Batching
  import opened Banks
  import opened Bits
  import opened Cbor
  import opened Compression
  import opened Reporting
  import opened Sensor
  import opened Sender

  /** One call of empty_fifo_fn: what the devices return, and how its flushes will end. */
  datatype Call = Call(uptime: int, fetchOk: bool, fifoOk: bool, accel: seq<int16>, temp1: SensorValue,
                       press: SensorValue, humidity: SensorValue, outcomes: nat -> FlushOutcome)
  {
    predicate Valid() {
      && |accel| == FIFO_SIZE && IsUint64(uptime)
      && IsInt32(temp1.val1) && MilliFits(press) && MilliFits(humidity)
    }

    predicate Succeeds() { fetchOk && fifoOk }

    function AsReading(): Reading {
      Reading(uptime, temp1.val1, Milli(press), Milli(humidity), Samples(accel))
    }

    ghost predicate Faultless() {
      forall n: nat :: outcomes(n) != EncoderFault
    }
  }

  /** The readings that succeeded. */
  function Readings(calls: seq<Call>): seq<Reading> {
    if calls == [] then []
    else
      var c := calls[|calls| - 1];
      Readings(calls[..|calls| - 1]) + if c.Succeeds() then [c.AsReading()] else []
  }

  /** A batch and the messages that got into a slot. */
  datatype Sampled = Sampled(batch: Batch, delivered: seq<Delivery>)

  function SampleOne(s: Sampled, c: Call): Sampled {
    var p := if c.Succeeds() then Drain(s.batch, c.AsReading()) else Progress(s.batch, []);
    Sampled(p.batch, s.delivered + Deliveries(p.flushed, c.outcomes))
  }

  function SampleAll(b: Batch, calls: seq<Call>): Sampled {
    if calls == [] then Sampled(b, [])
    else SampleOne(SampleAll(b, calls[..|calls| - 1]), calls[|calls| - 1])
  }

  /** The messages that get into a slot. */
  function AllDeliveries(calls: seq<Call>): seq<Delivery> {
    SampleAll(EMPTY_BATCH, calls).delivered
  }

  function SamplesOf(ds: seq<Delivery>): seq<Triple> {
    if ds == [] then [] else SamplesOf(ds[..|ds| - 1]) + ds[|ds| - 1].msg.xyz
  }

  /** Call i, when it succeeds, is the reading whose number is the count of successful calls before it,
      with the sensor values of that call; when it fails it adds none. */
  lemma {:induction false} ReadingsInOrder(calls: seq<Call>, i: nat)
    requires i < |calls|
    ensures var k, c := |Readings(calls[..i])|, calls[i];
      && Readings(calls[..i]) <= Readings(calls)
      && |Readings(calls[..i + 1])| == k + (if c.fetchOk && c.fifoOk then 1 else 0)
      && (c.fetchOk && c.fifoOk ==>
            && k < |Readings(calls)|
            && Readings(calls)[k].timestamp == c.uptime && Readings(calls)[k].temp == c.temp1.val1
            && InThousandths(Readings(calls)[k].press, c.press) && InThousandths(Readings(calls)[k].hum, c.humidity)
            && Readings(calls)[k].samples == Samples(c.accel))
  {
    var n := |calls| - 1;
    hide Milli, InThousandths, Samples;
    MilliIs(calls[i].press, Milli(calls[i].press));
    MilliIs(calls[i].humidity, Milli(calls[i].humidity));
    if i < n {
      assert calls[..n][..i] == calls[..i] && calls[..n][..i + 1] == calls[..i + 1];
      ReadingsInOrder(calls[..n], i);
    } else {
      assert calls[..i + 1] == calls;
    }
  }

  // ----- every run of the sensor task

  method Perform(task: SensorTask, c: Call) returns (submitted: bool)
    requires task.Valid() && c.Valid()
    modifies task, task.msgXyz, task.banks, task.banks.message0, task.banks.message1
    ensures task.Valid()
    ensures Sampled(task.BatchOf(task.msgXyzCount), task.delivered)
         == SampleOne(old(Sampled(task.BatchOf(task.msgXyzCount), task.delivered)), c)
    ensures old(task.banks.stored) <= task.banks.stored
    ensures Swaps(|task.banks.stored|) <= Swaps(|old(task.banks.stored)|) + 1
  {
    hide Drain, Deliveries, Idle, SharedBanks.Valid, AllHold, Swaps;
    submitted := task.EmptyFifoFn(c.uptime, c.fetchOk, c.fifoOk, c.accel, c.temp1, c.press, c.humidity, c.outcomes);
  }

  lemma SampleSnoc(b: Batch, calls: seq<Call>, i: nat)
    requires i < |calls|
    ensures SampleAll(b, calls[..i + 1]) == SampleOne(SampleAll(b, calls[..i]), calls[i])
  {
    hide SampleOne;
    assert calls[..i + 1][..i] == calls[..i];
  }

  /** From start-up, after any calls: the batch is that of the run of the successful readings, and the
      slots hold exactly the messages delivered, in order. */
  method RunCalls(calls: seq<Call>) returns (task: SensorTask)
    requires forall c :: c in calls ==> c.Valid()
    ensures task.Valid()
    ensures task.BatchOf(task.msgXyzCount) == Run(Readings(calls)).batch
    ensures task.delivered == AllDeliveries(calls)
  {
    hide SampleOne, SensorTask.BanksValid, Idle, Call.Valid;
    task := new SensorTask();
    for i := 0 to |calls|
      invariant task.Valid() && fresh(task) && fresh(task.msgXyz)
      invariant fresh(task.banks) && fresh(task.banks.message0) && fresh(task.banks.message1)
      invariant Sampled(task.BatchOf(task.msgXyzCount), task.delivered) == SampleAll(EMPTY_BATCH, calls[..i])
    {
      SampleSnoc(EMPTY_BATCH, calls, i);
      assert calls[i] in calls;
      var _ := Perform(task, calls[i]);
    }
    assert calls[..|calls|] == calls;
    SampledIsRun(calls);
  }

  lemma {:induction false} SampledIsRun(calls: seq<Call>)
    ensures SampleAll(EMPTY_BATCH, calls).batch == Run(Readings(calls)).batch
  {
    hide Drain, Deliveries;
    if calls != [] {
      var n := |calls| - 1;
      SampledIsRun(calls[..n]);
      var rs, c := Readings(calls[..n]), calls[n];
      assert (rs + [c.AsReading()])[..|rs|] == rs && rs + [] == rs;
    }
  }

  // ----- no sample is lost

  lemma {:induction false} SamplesConcat(a: seq<Delivery>, b: seq<Delivery>)
    ensures SamplesOf(a + b) == SamplesOf(a) + SamplesOf(b)
  {
    if b == [] {
      assert a + b == a && SamplesOf(a) + [] == SamplesOf(a);
    } else {
      var init, d := b[..|b| - 1], b[|b| - 1];
      SamplesConcat(a, init);
      assert (a + b)[..|a + b| - 1] == a + init;
      Assoc(SamplesOf(a), SamplesOf(init), d.msg.xyz);
    }
  }

  lemma {:induction false} FaultlessDeliversAll(fs: seq<Flushed>, c: Call)
    requires c.Faultless()
    ensures SamplesOf(Deliveries(fs, c.outcomes)) == Sent(fs)
  {
    if fs != [] {
      var n := |fs| - 1;
      FaultlessDeliversAll(fs[..n], c);
      var d := Delivery(fs[n].msg, c.outcomes(n));
      SamplesConcat(Deliveries(fs[..n], c.outcomes), [d]);
      assert [d][..0] == [] && SamplesOf([d]) == SamplesOf([]) + d.msg.xyz;
    }
  }

  lemma {:induction false} RunDeliversSent(calls: seq<Call>)
    requires forall c :: c in calls ==> c.Faultless()
    ensures SamplesOf(AllDeliveries(calls)) == Sent(Run(Readings(calls)).flushed)
  {
    hide Drain, Call.Faultless, Deliveries;
    if calls != [] {
      var n := |calls| - 1;
      var before, c := calls[..n], calls[n];
      assert c in calls && forall d :: d in before ==> d in calls;
      RunDeliversSent(before);
      SampledIsRun(before);
      var rs := Readings(before);
      if c.Succeeds() {
        var q := Drain(Run(rs).batch, c.AsReading());
        assert (rs + [c.AsReading()])[..|rs|] == rs;
        FaultlessDeliversAll(q.flushed, c);
        SamplesConcat(AllDeliveries(before), Deliveries(q.flushed, c.outcomes));
        SentConcat(Run(rs).flushed, q.flushed);
      } else {
        assert rs + [] == rs && AllDeliveries(before) + [] == AllDeliveries(before);
        NoDeliveries(c.outcomes);
      }
    }
  }

  lemma NoDeliveries(outcomes: nat -> FlushOutcome)
    ensures Deliveries([], outcomes) == []
  {
  }

  lemma {:induction false} ReadingsValid(calls: seq<Call>)
    requires forall c :: c in calls ==> c.Valid()
    ensures forall r :: r in Readings(calls) ==> r.Valid()
  {
    hide Milli;
    if calls != [] {
      var n := |calls| - 1;
      assert calls[n] in calls && forall d :: d in calls[..n] ==> d in calls;
      ReadingsValid(calls[..n]);
    }
  }

  /** As long as the message encoder reports no fault, the samples in the delivered messages followed
      by those still waiting are exactly the samples read, in order, whether or not the messages
      could be compressed. */
  lemma NoSampleIsLost(calls: seq<Call>)
    requires forall c :: c in calls ==> c.Valid() && c.Faultless()
    ensures SamplesOf(AllDeliveries(calls)) + Run(Readings(calls)).batch.xyz == AllSamples(Readings(calls))
  {
    hide Call.Valid, Call.Faultless;
    ReadingsValid(calls);
    RunDeliversSent(calls);
    RunWell(Readings(calls));
  }

  // ----- what a slot is worth to the receiver

  /** A slot stored without compression gives the message back. A compressed one does exactly when the
      encoding is not longer than the message; otherwise the end of the message is lost, and the size
      in the slot, at least that of the message, shows it. */
  lemma SlotDecodes(slot: MessagePayload, d: Delivery)
    requires SlotHolds(slot, d) && d.msg.Valid() && |d.msg.xyz| <= MAX_QTY
    ensures d.outcome == NoMemory ==> ReadMsg(slot.payload[..slot.size]) == Read(d.msg, [])
    ensures d.outcome == Packed ==>
      var bytes := MsgBytes(d.msg);
      var decoded := Decode(MESSAGE_PARAMS, slot.payload[..Stored(bytes, slot.size)]);
      && (slot.size < |bytes| <==> |Encode(MESSAGE_PARAMS, bytes)| < |bytes|)
      && (decoded == bytes <==> |Encode(MESSAGE_PARAMS, bytes)| <= |bytes|)
      && (decoded == bytes ==> ReadMsg(decoded) == Read(d.msg, []))
      && (decoded != bytes ==> decoded < bytes && |bytes| <= slot.size)
  {
    hide MsgBytes, ReadMsg, Encode, Decode;
    var bytes := MsgBytes(d.msg);
    MsgRoundTrip(d.msg);
    if d.outcome == Packed {
      StoredDecodes(bytes, slot.payload, slot.size);
    }
  }

  // ----- from the sensor to the server

  /** A slot that holds a compressed message fits its payload area exactly when the second round of the
      compression does not get stuck; a message that shrank always does. */
  lemma SlotSizeFits(slot: MessagePayload, d: Delivery)
    requires SlotHolds(slot, d) && 1015 <= |MsgBytes(d.msg)| <= 1044
    ensures d.outcome == Packed ==>
      (slot.size <= PAYLOAD_BYTES <==> !Stuck(SecondEnd(MsgBytes(d.msg)), |MsgBytes(d.msg)|))
    ensures d.outcome == NoMemory || Shrinks(d) ==> slot.size <= |MsgBytes(d.msg)|
  {
    hide MsgBytes, Stuck, SecondEnd, Reported, Encode;
    if d.outcome == Packed {
      MessageReport(MsgBytes(d.msg));
    }
  }

  const PLAIN_START: byte := 0x98  // the head of an array of 24 to 255 items

  /** What the server makes of a slot: the stored size says how much of it was sent, and the first byte
      whether it is the message itself or has to be decompressed. */
  function ServerReads(slot: MessagePayload): Read<Msg> {
    if slot.size == 0 || |slot.payload| < slot.size then Failed
    else
      var bytes := slot.payload[..slot.size];
      ReadMsg(if bytes[0] == PLAIN_START then bytes else Decode(MESSAGE_PARAMS, bytes))
  }

  /** The samples of the messages read. */
  function ServerSamples(slots: seq<MessagePayload>): seq<Triple> {
    if slots == [] then []
    else
      var r := ServerReads(slots[|slots| - 1]);
      ServerSamples(slots[..|slots| - 1]) + if r.Read? then r.value.xyz else []
  }

  /** Compression made the message smaller, or was not applied. */
  ghost predicate Shrinks(d: Delivery) {
    d.outcome == Packed ==> |Encode(MESSAGE_PARAMS, MsgBytes(d.msg))| < |MsgBytes(d.msg)|
  }

  /** A message as the batcher flushes it. */
  predicate Flushable(m: Msg) {
    m.Valid() && 99 <= |m.xyz| <= 254
  }

  lemma PlainStart(m: Msg)
    requires 23 <= |m.xyz| <= 254
    ensures |MsgBytes(m)| >= 1 && MsgBytes(m)[0] == PLAIN_START
  {
    hide HeaderBytes, TriplesBytes, BigEndian;
  }

  lemma PackedStart(m: Msg)
    requires 23 <= |m.xyz| <= 254
    ensures var enc := Encode(MESSAGE_PARAMS, MsgBytes(m)); |enc| >= 1 && enc[0] == 0xCC
  {
    hide MsgBytes, Encode;
    PlainStart(m);
    FirstByte(MESSAGE_PARAMS, MsgBytes(m));
  }

  lemma SlotIsRead(slot: MessagePayload, d: Delivery)
    requires SlotHolds(slot, d) && Shrinks(d) && Flushable(d.msg)
    ensures ServerReads(slot) == Read(d.msg, [])
  {
    hide Encode, Decode, MsgBytes, ReadMsg, Reported, Msg.Valid;
    PlainStart(d.msg);
    PackedStart(d.msg);
    MsgRoundTrip(d.msg);
    RoundTrip(MESSAGE_PARAMS, MsgBytes(d.msg));
  }

  lemma {:induction false} SlotsAreRead(slots: seq<MessagePayload>, ds: seq<Delivery>)
    requires AllHold(slots, ds) && forall d :: d in ds ==> Shrinks(d) && Flushable(d.msg)
    ensures ServerSamples(slots) == SamplesOf(ds)
  {
    hide SlotHolds, Shrinks, Flushable, ServerReads;
    if slots != [] {
      var n := |slots| - 1;
      assert forall k :: 0 <= k < n ==> SlotHolds(slots[..n][k], ds[..n][k]);
      assert forall d :: d in ds[..n] ==> d in ds;
      SlotsAreRead(slots[..n], ds[..n]);
      assert ds[n] in ds && SlotHolds(slots[n], ds[n]);
      SlotIsRead(slots[n], ds[n]);
    }
  }

  lemma {:induction false} FlushesGetDelivered(fs: seq<Flushed>, outcomes: nat -> FlushOutcome)
    requires forall f :: f in fs ==> GoodFlush(f)
    ensures forall d :: d in Deliveries(fs, outcomes) ==> Flushable(d.msg)
  {
    hide GoodFlush, Flushable;
    if fs != [] {
      var n := |fs| - 1;
      assert fs[n] in fs && forall f :: f in fs[..n] ==> f in fs;
      FlushesGetDelivered(fs[..n], outcomes);
      GoodIsFlushable(fs[n]);
    }
  }

  lemma GoodIsFlushable(f: Flushed)
    requires GoodFlush(f)
    ensures Flushable(f.msg)
  {
  }

  lemma {:induction false} DeliveriesAreValid(calls: seq<Call>)
    requires forall c :: c in calls ==> c.Valid()
    ensures forall d :: d in AllDeliveries(calls) ==> Flushable(d.msg)
  {
    hide Call.Valid, Drain, Deliveries, Idle, GoodFlush, Flushable;
    if calls != [] {
      var n := |calls| - 1;
      var before, c := calls[..n], calls[n];
      assert c in calls && forall d :: d in before ==> d in calls;
      DeliveriesAreValid(before);
      ReadingsValid(before);
      RunWell(Readings(before));
      SampledIsRun(before);
      NoDeliveries(c.outcomes);
      if c.Succeeds() {
        ReadingIsValid(c);
        DrainWell(SampleAll(EMPTY_BATCH, before).batch, c.AsReading());
        FlushesGetDelivered(Drain(SampleAll(EMPTY_BATCH, before).batch, c.AsReading()).flushed, c.outcomes);
      }
    }
  }

  lemma ReadingIsValid(c: Call)
    requires c.Valid()
    ensures c.AsReading().Valid()
  {
    hide Milli;
  }

  /** The deliveries whose slots are those of the last full bank. */
  function LastBankOf(ds: seq<Delivery>): (r: seq<Delivery>)
    requires Swaps(|ds|) >= 1
    ensures |r| == PAYLOAD_COUNT
  {
    var base := |ds| - Filled(|ds|);
    ds[base - PAYLOAD_COUNT..base]
  }

  /** Those before, and those since. */
  function EarlierOf(ds: seq<Delivery>): seq<Delivery>
    requires Swaps(|ds|) >= 1
  {
    ds[..|ds| - Filled(|ds|) - PAYLOAD_COUNT]
  }

  function LaterOf(ds: seq<Delivery>): seq<Delivery> {
    ds[|ds| - Filled(|ds|)..]
  }

  lemma LastBankHolds(stored: seq<MessagePayload>, ds: seq<Delivery>)
    requires AllHold(stored, ds) && Swaps(|stored|) >= 1
    ensures AllHold(LastBank(stored), LastBankOf(ds))
    ensures forall d :: d in LastBankOf(ds) ==> d in ds
  {
    hide SlotHolds;
    var base := |ds| - Filled(|ds|);
    forall k | 0 <= k < PAYLOAD_COUNT ensures SlotHolds(LastBank(stored)[k], LastBankOf(ds)[k]) {
      assert SlotHolds(stored[base - PAYLOAD_COUNT + k], ds[base - PAYLOAD_COUNT + k]);
    }
  }

  /** End to end: when a bank filled by faultless calls is sent with truthful replies until everything
      is acknowledged, and each of its messages was stored plain or shrank, then every slot of the bank
      has been sent and has arrived, and the samples the server reads from the slots are exactly the
      stretch of the sensors' samples between those of the earlier slots and those of the later ones and
      the waiting batch. */
  lemma EndToEnd(calls: seq<Call>, stored: seq<MessagePayload>, conToken: uint16, evs: seq<Event>)
    requires forall c :: c in calls ==> c.Valid() && c.Faultless()
    requires AllHold(stored, AllDeliveries(calls)) && Swaps(|stored|) >= 1
    requires var s := RunSend(conToken, evs, LastBank(stored)); s.status == Delivered && s.honest
    requires forall d :: d in LastBankOf(AllDeliveries(calls)) ==> Shrinks(d)
    ensures |AllDeliveries(calls)| == |stored|
    ensures var s, ds := RunSend(conToken, evs, LastBank(stored)), AllDeliveries(calls);
      && BankArrived(s, LastBank(stored))
      && AllSamples(Readings(calls))
         == SamplesOf(EarlierOf(ds)) + ServerSamples(LastBank(stored))
            + SamplesOf(LaterOf(ds)) + Run(Readings(calls)).batch.xyz
  {
    hide *;
    var ds := AllDeliveries(calls);
    SameCount(stored, ds);
    DeliveryIsComplete(conToken, evs, LastBank(stored));
    NoSampleIsLost(calls);
    DeliveriesAreValid(calls);
    LastBankHolds(stored, ds);
    SlotsAreRead(LastBank(stored), LastBankOf(ds));
    SamplesSplit(ds);
  }

  lemma ThreeStretches(ds: seq<Delivery>)
    requires Swaps(|ds|) >= 1
    ensures ds == (EarlierOf(ds) + LastBankOf(ds)) + LaterOf(ds)
  {
  }

  lemma SamplesSplit(ds: seq<Delivery>)
    requires Swaps(|ds|) >= 1
    ensures SamplesOf(ds) == SamplesOf(EarlierOf(ds)) + SamplesOf(LastBankOf(ds)) + SamplesOf(LaterOf(ds))
  {
    hide *;
    ThreeStretches(ds);
    SamplesConcat(EarlierOf(ds), LastBankOf(ds));
    SamplesConcat(EarlierOf(ds) + LastBankOf(ds), LaterOf(ds));
  }

  // ----- sampling while a bank is being sent

  datatype Action = Sample(call: Call) | Network(event: Event)

  function NetworkEvents(actions: seq<Action>): seq<Event> {
    if actions == [] then []
    else
      var a := actions[|actions| - 1];
      NetworkEvents(actions[..|actions| - 1]) + if a.Network? then [a.event] else []
  }

  /** A single swap shows in the bank index, and without one the other bank holds what it held. */
  lemma SwapShows(banks: SharedBanks, stored0: seq<MessagePayload>)
    requires banks.Valid() && stored0 <= banks.stored && Swaps(|stored0|) >= 1
    requires Swaps(|stored0|) <= Swaps(|banks.stored|) <= Swaps(|stored0|) + 1
    ensures banks.msgIndex == BankIndex(|stored0|) <==> Swaps(|banks.stored|) == Swaps(|stored0|)
    ensures banks.msgIndex == BankIndex(|stored0|) ==> banks.Row(1 - banks.msgIndex)[..] == LastBank(stored0)
  {
    if Swaps(|banks.stored|) == Swaps(|stored0|) {
      OtherBankKept(stored0, banks.stored);
    }
  }

  lemma RunOneAction(conToken: uint16, actions: seq<Action>, i: nat, bank: seq<MessagePayload>)
    requires i < |actions|
    ensures var s := RunSend(conToken, NetworkEvents(actions[..i]), bank);
      RunSend(conToken, NetworkEvents(actions[..i + 1]), bank)
      == if actions[i].Network? then Step(s, actions[i].event, bank) else s
  {
    hide Step;
    assert actions[..i + 1][..i] == actions[..i];
    var evs := NetworkEvents(actions[..i]);
    if actions[i].Network? {
      assert (evs + [actions[i].event])[..|evs|] == evs;
    } else {
      assert evs + [] == evs;
    }
  }

  function SampleCalls(actions: seq<Action>): seq<Call> {
    if actions == [] then []
    else
      var a := actions[|actions| - 1];
      SampleCalls(actions[..|actions| - 1]) + if a.Sample? then [a.call] else []
  }

  /** Each action is the network event or the call whose number is the count of those before it. */
  lemma {:induction false} ActionsInOrder(actions: seq<Action>, i: nat)
    requires i < |actions|
    ensures NetworkEvents(actions[..i]) <= NetworkEvents(actions) && SampleCalls(actions[..i]) <= SampleCalls(actions)
    ensures match actions[i]
            case Network(ev) =>
              var k := |NetworkEvents(actions[..i])|; k < |NetworkEvents(actions)| && NetworkEvents(actions)[k] == ev
            case Sample(c) =>
              var k := |SampleCalls(actions[..i])|; k < |SampleCalls(actions)| && SampleCalls(actions)[k] == c
  {
    var n := |actions| - 1;
    if i < n {
      assert actions[..n][..i] == actions[..i];
      ActionsInOrder(actions[..n], i);
    }
  }

  lemma {:induction false} ActionsCounted(actions: seq<Action>)
    ensures |NetworkEvents(actions)| + |SampleCalls(actions)| == |actions|
  {
    if actions != [] {
      ActionsCounted(actions[..|actions| - 1]);
    }
  }

  lemma SampleOneAction(b: Batch, actions: seq<Action>, i: nat)
    requires i < |actions|
    ensures var s := SampleAll(b, SampleCalls(actions[..i]));
      SampleAll(b, SampleCalls(actions[..i + 1]))
      == if actions[i].Sample? then SampleOne(s, actions[i].call) else s
  {
    hide SampleOne;
    assert actions[..i + 1][..i] == actions[..i];
    var calls := SampleCalls(actions[..i]);
    if actions[i].Sample? {
      assert (calls + [actions[i].call])[..|calls|] == calls;
    } else {
      assert calls + [] == calls;
    }
  }

  lemma DeliveredBefore(ds: seq<Delivery>, s: Sampled, c: Call)
    ensures SampleOne(Sampled(s.batch, ds + s.delivered), c)
         == (var s' := SampleOne(s, c); Sampled(s'.batch, ds + s'.delivered))
  {
    hide Drain, Deliveries;
    var p := if c.Succeeds() then Drain(s.batch, c.AsReading()) else Progress(s.batch, []);
    var more := Deliveries(p.flushed, c.outcomes);
    assert ds + s.delivered + more == ds + (s.delivered + more);
  }

  /** Batch and deliveries are those of the calls among the actions so far. */
  ghost predicate SampledSoFar(b: Batch, ds: seq<Delivery>, actions: seq<Action>, steps: nat,
                               batch: Batch, delivered: seq<Delivery>)
    requires steps <= |actions|
  {
    var s := SampleAll(b, SampleCalls(actions[..steps]));
    batch == s.batch && delivered == ds + s.delivered
  }

  lemma NothingSampled(b: Batch, ds: seq<Delivery>, actions: seq<Action>)
    ensures SampledSoFar(b, ds, actions, 0, b, ds)
  {
    assert ds + [] == ds;
  }

  lemma SampledOneMore(b: Batch, ds: seq<Delivery>, actions: seq<Action>, steps: nat,
                       batch: Batch, delivered: seq<Delivery>, next: Sampled)
    requires steps < |actions| && SampledSoFar(b, ds, actions, steps, batch, delivered)
    requires next == match actions[steps]
                     case Sample(c) => SampleOne(Sampled(batch, delivered), c)
                     case Network(_) => Sampled(batch, delivered)
    ensures SampledSoFar(b, ds, actions, steps + 1, next.batch, next.delivered)
  {
    SampleOneAction(b, actions, steps);
    if actions[steps].Sample? {
      DeliveredBefore(ds, SampleAll(b, SampleCalls(actions[..steps])), actions[steps].call);
    }
    hide SampleAll, SampleOne, SampleCalls;
  }

  /** The sender has its row, and its bank in it as long as it is not overtaken. */
  ghost predicate Serves(banks: SharedBanks, row: array<MessagePayload>, stored0: seq<MessagePayload>, overrun: bool)
    reads banks`msgIndex, banks`stored, row
  {
    && stored0 <= banks.stored
    && row == banks.Row(1 - BankIndex(|stored0|))
    && (overrun <==> Swaps(|banks.stored|) > Swaps(|stored0|))
    && (!overrun ==> banks.msgIndex == BankIndex(|stored0|) && row[..] == LastBank(stored0))
  }

  /** A call of the sensor task while a bank is being sent. */
  method SampleWhileSending(task: SensorTask, c: Call, row: array<MessagePayload>, ghost stored0: seq<MessagePayload>)
    returns (overrun: bool)
    requires task.Valid() && c.Valid() && Swaps(|stored0|) >= 1 && Serves(task.banks, row, stored0, false)
    modifies task, task.msgXyz, task.banks, task.banks.message0, task.banks.message1
    ensures task.Valid() && Serves(task.banks, row, stored0, overrun)
    ensures Sampled(task.BatchOf(task.msgXyzCount), task.delivered)
         == SampleOne(old(Sampled(task.BatchOf(task.msgXyzCount), task.delivered)), c)
  {
    hide SampleOne, Idle, AllHold, Call.Valid, SharedBanks.Valid, Swaps, LastBank, BankIndex;
    var index := task.banks.msgIndex;
    ghost var stored := task.banks.stored;
    SwapsMonotone(|stored0|, |stored|);
    var _ := Perform(task, c);
    SwapsMonotone(|stored0|, |task.banks.stored|);
    SwapShows(task.banks, stored0);
    overrun := task.banks.msgIndex != index;
  }

  /** In every interleaving of calls of the sensor task with steps of the sender, up to the call that
      swaps the banks, both do what they would have done alone: the samples are gathered and delivered as
      by the same calls in a row, and the sender, reading the live bank, sends the sixty payloads stored
      between the last two swaps. */
  method SendWhileSampling(task: SensorTask, conToken: uint16, actions: seq<Action>)
    returns (s: SendState, steps: nat, overrun: bool)
    requires task.Valid() && Swaps(|task.banks.stored|) >= 1
    requires forall a :: a in actions && a.Sample? ==> a.call.Valid()
    modifies task, task.msgXyz, task.banks, task.banks.message0, task.banks.message1
    ensures task.Valid()
    ensures steps <= |actions| && (steps == |actions| || overrun)
    ensures overrun <==> Swaps(|task.banks.stored|) > Swaps(old(|task.banks.stored|))
    ensures s == RunSend(conToken, NetworkEvents(actions[..steps]), LastBank(old(task.banks.stored)))
    ensures SampledSoFar(old(task.BatchOf(task.msgXyzCount)), old(task.delivered), actions, steps,
                         task.BatchOf(task.msgXyzCount), task.delivered)
  {
    SwapShows(task.banks, task.banks.stored);
    assert RunSend(conToken, NetworkEvents(actions[..0]), LastBank(task.banks.stored)) == Start(conToken);
    var row := task.banks.Row(1 - task.banks.msgIndex);
    ghost var stored0, b, ds := task.banks.stored, task.BatchOf(task.msgXyzCount), task.delivered;
    NothingSampled(b, ds, actions);
    s, steps, overrun := Start(conToken), 0, false;
    assert Serves(task.banks, row, stored0, false);
    hide *;
    while steps < |actions| && !overrun
      invariant task.Valid() && steps <= |actions| && Serves(task.banks, row, stored0, overrun)
      invariant s == RunSend(conToken, NetworkEvents(actions[..steps]), LastBank(stored0))
      invariant SampledSoFar(b, ds, actions, steps, task.BatchOf(task.msgXyzCount), task.delivered)
      decreases |actions| - steps
    {
      RunOneAction(conToken, actions, steps, LastBank(stored0));
      ServesBank(task.banks, row, stored0);
      ghost var batch, delivered := task.BatchOf(task.msgXyzCount), task.delivered;
      match actions[steps] {
        case Network(ev) =>
          s := Step(s, ev, row[..]);
        case Sample(c) =>
          assert actions[steps] in actions;
          overrun := SampleWhileSending(task, c, row, stored0);
      }
      SampledOneMore(b, ds, actions, steps, batch, delivered,
                     Sampled(task.BatchOf(task.msgXyzCount), task.delivered));
      steps := steps + 1;
    }
    ServesTells(task.banks, row, stored0, overrun);
  }

  lemma ServesBank(banks: SharedBanks, row: array<MessagePayload>, stored0: seq<MessagePayload>)
    requires Serves(banks, row, stored0, false)
    ensures row[..] == LastBank(stored0)
  {
  }

  lemma ServesTells(banks: SharedBanks, row: array<MessagePayload>, stored0: seq<MessagePayload>, overrun: bool)
    requires Serves(banks, row, stored0, overrun)
    ensures overrun <==> Swaps(|banks.stored|) > Swaps(|stored0|)
  {
  }
}
