/** Storing and sending over unbounded time, as steps on one memory: whatever is stored while a sender
    runs, it sends the bank that was complete when it started. */
module Interleaving {
  import opened Matching
  import opened Banks
  import opened Sender

  /** The two banks as values, with everything stored so far. */
  datatype Memory = Memory(row0: seq<MessagePayload>, row1: seq<MessagePayload>, stored: seq<MessagePayload>)
  {
    function Row(i: nat): seq<MessagePayload> {
      if i == 0 then row0 else row1
    }

    ghost predicate Valid() {
      var i := BankIndex(|stored|);
      BanksOk(Row(i), Row(1 - i), stored)
    }

    /** What SharedBanks.Store does. */
    function Store(slot: MessagePayload): (m: Memory)
      requires |row0| == |row1| == PAYLOAD_COUNT
      ensures |m.row0| == |m.row1| == PAYLOAD_COUNT
    {
      var k := Filled(|stored|);
      if BankIndex(|stored|) == 0 then Memory(row0[k := slot], row1, stored + [slot])
      else Memory(row0, row1[k := slot], stored + [slot])
    }
  }

  datatype WorldAction = Store(slot: MessagePayload) | StartSending | NetworkStep(event: Event)

  /** The banks and a sender that reads row number row of them as they are. */
  datatype World = World(memory: Memory, send: SendState, row: nat)
  {
    function Act(a: WorldAction): (w: World)
      requires |memory.row0| == |memory.row1| == PAYLOAD_COUNT
      ensures |w.memory.row0| == |w.memory.row1| == PAYLOAD_COUNT
    {
      match a
      case Store(slot) => this.(memory := memory.Store(slot))
      case StartSending => World(memory, Start(send.conToken), 1 - BankIndex(|memory.stored|))
      case NetworkStep(ev) => this.(send := Step(send, ev, memory.Row(row)))
    }
  }

  /** The world at start-up, with a sender that has nothing to do yet. */
  function NewWorld(conToken: uint16): (w: World)
    ensures |w.memory.row0| == |w.memory.row1| == PAYLOAD_COUNT
  {
    var empty := seq(PAYLOAD_COUNT, _ => EmptySlot());
    World(Memory(empty, empty, []), Start(conToken), 1)
  }

  function RunWorld(conToken: uint16, actions: seq<WorldAction>): (w: World)
    ensures |w.memory.row0| == |w.memory.row1| == PAYLOAD_COUNT
  {
    if actions == [] then NewWorld(conToken)
    else RunWorld(conToken, actions[..|actions| - 1]).Act(actions[|actions| - 1])
  }

  // ----- what the actions bring

  /** The slots stored, in order. */
  function Slots(actions: seq<WorldAction>): seq<MessagePayload> {
    if actions == [] then []
    else
      var a := actions[|actions| - 1];
      Slots(actions[..|actions| - 1]) + if a.Store? then [a.slot] else []
  }

  /** The network events, in order. */
  function Events(actions: seq<WorldAction>): seq<Event> {
    if actions == [] then []
    else
      var a := actions[|actions| - 1];
      Events(actions[..|actions| - 1]) + if a.NetworkStep? then [a.event] else []
  }

  /** Every action is one of the slots, one of the events or a start, and there are no other slots and
      events. */
  lemma {:induction false} ActionsCounted(actions: seq<WorldAction>)
    ensures |Slots(actions)| + |Events(actions)| + multiset(actions)[StartSending] == |actions|
  {
    if actions != [] {
      var n := |actions| - 1;
      ActionsCounted(actions[..n]);
      assert actions == actions[..n] + [actions[n]];
    }
  }

  /** Action i is the slot or the event whose number is the count of those before it. */
  lemma {:induction false} ActionsInOrder(actions: seq<WorldAction>, i: nat)
    requires i < |actions|
    ensures Slots(actions[..i]) <= Slots(actions) && Events(actions[..i]) <= Events(actions)
    ensures match actions[i]
            case Store(slot) => var k := |Slots(actions[..i])|; k < |Slots(actions)| && Slots(actions)[k] == slot
            case NetworkStep(ev) => var k := |Events(actions[..i])|; k < |Events(actions)| && Events(actions)[k] == ev
            case StartSending => true
  {
    var n := |actions| - 1;
    if i < n {
      assert actions[..n][..i] == actions[..i];
      ActionsInOrder(actions[..n], i);
    }
  }

  lemma Snoc(actions: seq<WorldAction>, a: WorldAction, conToken: uint16)
    ensures RunWorld(conToken, actions + [a]) == RunWorld(conToken, actions).Act(a)
    ensures Slots(actions + [a]) == Slots(actions) + (if a.Store? then [a.slot] else [])
    ensures Events(actions + [a]) == Events(actions) + (if a.NetworkStep? then [a.event] else [])
  {
    hide World.Act;
    assert (actions + [a])[..|actions|] == actions;
  }

  predicate Sized(actions: seq<WorldAction>) {
    forall a :: a in actions && a.Store? ==> |a.slot.payload| == PAYLOAD_BYTES
  }

  lemma StoreRows(m: Memory, slot: MessagePayload)
    requires |m.row0| == |m.row1| == PAYLOAD_COUNT
    ensures var m', i := m.Store(slot), BankIndex(|m.stored|);
      && m'.stored == m.stored + [slot] && |m.Row(i)| == PAYLOAD_COUNT
      && m'.Row(i) == m.Row(i)[Filled(|m.stored|) := slot] && m'.Row(1 - i) == m.Row(1 - i)
  {
    hide BankIndex, Filled;
  }

  lemma ValidMeans(m: Memory, i: nat, current: seq<MessagePayload>, other: seq<MessagePayload>)
    requires i == BankIndex(|m.stored|) && current == m.Row(i) && other == m.Row(1 - i)
    ensures m.Valid() <==> BanksOk(current, other, m.stored)
  {
    hide BanksOk, BankIndex;
  }

  lemma StoreIsValid(m: Memory, slot: MessagePayload)
    requires m.Valid() && |m.row0| == |m.row1| == PAYLOAD_COUNT && |slot.payload| == PAYLOAD_BYTES
    ensures m.Store(slot).Valid()
  {
    hide *;
    var i, n, m' := BankIndex(|m.stored|), Filled(|m.stored|), m.Store(slot);
    var current, other := m.Row(i), m.Row(1 - i);
    StoreRows(m, slot);
    ValidMeans(m, i, current, other);
    StoreKeepsBanks(current, other, m.stored, slot);
    NextSlot(|m.stored|);
    if n + 1 == PAYLOAD_COUNT {
      ValidMeans(m', 1 - i, other, current[n := slot]);
    } else {
      ValidMeans(m', i, current[n := slot], other);
    }
  }

  lemma SameBank(m: nat, n: nat)
    requires Swaps(m) == Swaps(n)
    ensures BankIndex(m) == BankIndex(n)
  {
  }

  lemma NewIsValid(conToken: uint16)
    ensures NewWorld(conToken).memory.Valid() && NewWorld(conToken).memory.stored == []
  {
    var m := NewWorld(conToken).memory;
    StartBanks(m.row0, m.row1);
    NothingStored();
  }

  /** The memory holds what the actions have stored, whatever is sent meanwhile. */
  lemma {:induction false} MemoryIsStored(conToken: uint16, actions: seq<WorldAction>)
    requires Sized(actions)
    ensures var m := RunWorld(conToken, actions).memory; m.Valid() && m.stored == Slots(actions)
  {
    hide NewWorld, Memory.Valid, Memory.Store, Step, BankIndex;
    if actions == [] {
      NewIsValid(conToken);
    } else {
      var n := |actions| - 1;
      assert actions[n] in actions && forall a :: a in actions[..n] ==> a in actions;
      MemoryIsStored(conToken, actions[..n]);
      var m := RunWorld(conToken, actions[..n]).memory;
      if actions[n].Store? {
        StoreIsValid(m, actions[n].slot);
        StoreRows(m, actions[n].slot);
      } else {
        assert m.stored + [] == m.stored;
      }
    }
  }

  /** As long as nothing is swapped, the row that was the full bank at the start of a run stays so. */
  lemma RowKept(m: Memory, slots: seq<MessagePayload>, row: nat)
    requires m.Valid() && slots <= m.stored && row == 1 - BankIndex(|slots|)
    requires Swaps(|slots|) >= 1 && Swaps(|m.stored|) == Swaps(|slots|)
    ensures m.Row(row) == LastBank(slots)
  {
    SameBank(|slots|, |m.stored|);
    OtherBankKept(slots, m.stored);
    hide BankIndex, Filled, Swaps, LastBank, Fits, Latest;
  }

  /** Over every run of storing, starting to send and network steps, in any order and for ever: the sender
      last started, after the actions before, reads the live memory during the actions after. Unless a
      swap has overtaken it, its state is that of a sender alone with the network, over the sixty payloads
      stored between the last two swaps before its start. */
  lemma {:induction false} SendersAreSafe(conToken: uint16, before: seq<WorldAction>, after: seq<WorldAction>)
    requires Sized(before) && Sized(after) && StartSending !in after
    ensures var w := RunWorld(conToken, before + [StartSending] + after);
      var slots := Slots(before);
      && w.memory.stored == slots + Slots(after)
      && w.row == 1 - BankIndex(|slots|)
      && (Swaps(|slots|) >= 1 && Swaps(|slots + Slots(after)|) == Swaps(|slots|) ==>
            w.send == RunSend(RunWorld(conToken, before).send.conToken, Events(after), LastBank(slots)))
  {
    hide RunWorld, NewWorld, Memory.Valid, Memory.Store, Memory.Row, Step, BankIndex, Swaps, LastBank, RunSend,
         Slots, Events, Sized;
    var slots := Slots(before);
    if after == [] {
      StartsThere(conToken, before);
      assert before + [StartSending] + [] == before + [StartSending];
    } else {
      var n := |after| - 1;
      var init, a := after[..n], after[n];
      assert after == init + [a];
      SizedParts(before, init, a);
      SendersAreSafe(conToken, before, init);
      Snoc(before + [StartSending] + init, a, conToken);
      Snoc(init, a, conToken);
      assert before + [StartSending] + after == (before + [StartSending] + init) + [a];
      var w := RunWorld(conToken, before + [StartSending] + init);
      MemoryIsStored(conToken, before + [StartSending] + init);
      OneAction(w, a, slots, Slots(init), Events(init), RunWorld(conToken, before).send.conToken);
    }
  }

  lemma SizedParts(before: seq<WorldAction>, init: seq<WorldAction>, a: WorldAction)
    requires Sized(before) && Sized(init + [a])
    ensures Sized(init) && Sized(before + [StartSending] + init)
    ensures a.Store? ==> |a.slot.payload| == PAYLOAD_BYTES
  {
    assert a in init + [a] && forall b :: b in init ==> b in init + [a];
  }

  lemma StartsThere(conToken: uint16, before: seq<WorldAction>)
    requires Sized(before)
    ensures var w, slots := RunWorld(conToken, before + [StartSending]), Slots(before);
      && w.memory.stored == slots + Slots([]) && w.row == 1 - BankIndex(|slots|)
      && w.send == RunSend(RunWorld(conToken, before).send.conToken, Events([]), LastBank(slots))
  {
    Snoc(before, StartSending, conToken);
    MemoryIsStored(conToken, before);
    assert Slots(before) + [] == Slots(before);
  }

  lemma OneAction(w: World, a: WorldAction, slots: seq<MessagePayload>, more: seq<MessagePayload>,
                  events: seq<Event>, token: uint16)
    requires |w.memory.row0| == |w.memory.row1| == PAYLOAD_COUNT && w.memory.Valid() && !a.StartSending?
    requires w.memory.stored == slots + more && w.row == 1 - BankIndex(|slots|)
    requires Swaps(|slots|) >= 1 && Swaps(|slots + more|) == Swaps(|slots|) ==>
               w.send == RunSend(token, events, LastBank(slots))
    ensures var w' := w.Act(a);
      var more', events' := more + (if a.Store? then [a.slot] else []),
                            events + (if a.NetworkStep? then [a.event] else []);
      && w'.memory.stored == slots + more' && w'.row == w.row
      && (Swaps(|slots|) >= 1 && Swaps(|slots + more'|) == Swaps(|slots|) ==>
            w'.send == RunSend(token, events', LastBank(slots)))
  {
    hide Memory.Valid, Memory.Store, Memory.Row, Step, BankIndex, Swaps, LastBank;
    match a
    case Store(slot) =>
      StoreRows(w.memory, slot);
      assert slots + more + [slot] == slots + (more + [slot]);
      SwapsMonotone(|slots|, |slots + more|);
      SwapsMonotone(|slots + more|, |slots + more + [slot]|);
      assert events + [] == events;
    case NetworkStep(ev) =>
      assert more + [] == more;
      if Swaps(|slots|) >= 1 && Swaps(|slots + more|) == Swaps(|slots|) {
        RowKept(w.memory, slots, w.row);
        assert (events + [ev])[..|events|] == events;
      }
  }
}
