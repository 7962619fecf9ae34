/** The globals that the sensor task and the sender share: two banks of sixty message slots, used in
    turn, the index of the bank being filled, and the flag that asks for sending. */
module Banks {
  import opened Bits

  const PAYLOAD_COUNT: nat := 60
  const PAYLOAD_BYTES: nat := 1100

  /** A slot of a bank: a size and a fixed payload area. */
  datatype MessagePayload = MessagePayload(size: nat, payload: seq<byte>)

  /** A slot as the globals start out. */
  function EmptySlot(): (r: MessagePayload)
    ensures |r.payload| == PAYLOAD_BYTES
  {
    MessagePayload(0, seq(PAYLOAD_BYTES, _ => 0))
  }

  /** After n slots have been stored: how many of the current bank are filled, how often the banks
      have been swapped, and which bank is current. The banks have PAYLOAD_COUNT slots. */
  function Filled(n: nat): (r: nat)
    ensures r < PAYLOAD_COUNT && r <= n
  {
    n % 60
  }

  function Swaps(n: nat): nat {
    n / 60
  }

  function BankIndex(n: nat): (r: nat)
    ensures r < 2
  {
    Swaps(n) % 2
  }

  /** What was stored since the last swap. */
  function Latest(stored: seq<MessagePayload>): (r: seq<MessagePayload>)
    ensures |r| == Filled(|stored|)
  {
    stored[|stored| - Filled(|stored|)..]
  }

  /** What was stored between the last two swaps. */
  function LastBank(stored: seq<MessagePayload>): (r: seq<MessagePayload>)
    ensures Swaps(|stored|) >= 1 ==> |r| == PAYLOAD_COUNT
  {
    var base := |stored| - Filled(|stored|);
    if base < PAYLOAD_COUNT then [] else stored[base - PAYLOAD_COUNT..base]
  }

  /** The slots are cut into banks of sixty, in order: the last full one, and what has begun of the next. */
  lemma BanksAreSixties(stored: seq<MessagePayload>)
    ensures var k := |stored| / 60;
      && Latest(stored) == stored[60 * k..]
      && (k >= 1 ==> LastBank(stored) == stored[60 * k - 60..60 * k])
  {
  }

  /** A bank is sixty slots with the payload area each. */
  ghost predicate Fits(bank: seq<MessagePayload>) {
    |bank| == PAYLOAD_COUNT && forall k :: 0 <= k < PAYLOAD_COUNT ==> |bank[k].payload| == PAYLOAD_BYTES
  }

  /** The current bank begins with what was stored since the last swap; the other bank is exactly
      what was stored before it. */
  ghost predicate BanksOk(current: seq<MessagePayload>, other: seq<MessagePayload>, stored: seq<MessagePayload>) {
    && Fits(current) && Fits(other)
    && current[..Filled(|stored|)] == Latest(stored)
    && (Swaps(|stored|) >= 1 ==> other == LastBank(stored))
  }

  lemma NothingStored()
    ensures Filled(0) == 0 && Swaps(0) == 0 && BankIndex(0) == 0
  {
  }

  lemma NothingLatest()
    ensures Latest([]) == []
  {
    NothingStored();
  }

  lemma StartBanks(bank0: seq<MessagePayload>, bank1: seq<MessagePayload>)
    requires Fits(bank0) && Fits(bank1)
    ensures BanksOk(bank0, bank1, []) && Filled(0) == 0 && BankIndex(0) == 0
  {
    NothingStored();
    NothingLatest();
    hide Fits, Filled, Swaps, BankIndex, Latest, LastBank;
    assert bank0[..0] == [];
  }

  /** One slot on: the next one, or the first one of the other bank. */
  lemma NextSlot(n: nat)
    ensures if Filled(n) + 1 == PAYLOAD_COUNT
            then Filled(n + 1) == 0 && BankIndex(n + 1) == 1 - BankIndex(n) && Swaps(n + 1) == Swaps(n) + 1
            else Filled(n + 1) == Filled(n) + 1 && BankIndex(n + 1) == BankIndex(n) && Swaps(n + 1) == Swaps(n)
  {
    assert PAYLOAD_COUNT == 60;
  }

  lemma StartOnward<T>(s: seq<T>, n: nat, x: T)
    requires n <= |s|
    ensures (s + [x])[|s| - n..] == s[|s| - n..] + [x]
  {
  }

  lemma BeforeStart<T>(s: seq<T>, base: nat, x: T)
    requires base <= |s|
    ensures base >= PAYLOAD_COUNT ==> (s + [x])[base - PAYLOAD_COUNT..base] == s[base - PAYLOAD_COUNT..base]
  {
  }

  lemma UpToUpdate<T>(s: seq<T>, n: nat, x: T)
    requires n < |s|
    ensures s[n := x][..n + 1] == s[..n] + [x]
    ensures n + 1 == |s| ==> s[n := x] == s[..n] + [x]
  {
  }

  /** What was stored since the last swap grows by the slot ... */
  lemma OneMore(stored: seq<MessagePayload>, slot: MessagePayload)
    requires Filled(|stored|) + 1 < PAYLOAD_COUNT
    ensures Latest(stored + [slot]) == Latest(stored) + [slot]
    ensures LastBank(stored + [slot]) == LastBank(stored)
  {
    NextSlot(|stored|);
    StartOnward(stored, Filled(|stored|), slot);
    BeforeStart(stored, |stored| - Filled(|stored|), slot);
    hide Filled, Swaps, BankIndex;
  }

  /** ... until the sixtieth moves it all. */
  lemma SixtiethSlot(stored: seq<MessagePayload>, slot: MessagePayload)
    requires Filled(|stored|) + 1 == PAYLOAD_COUNT
    ensures Latest(stored + [slot]) == []
    ensures LastBank(stored + [slot]) == Latest(stored) + [slot]
  {
    NextSlot(|stored|);
    StartOnward(stored, Filled(|stored|), slot);
    hide Filled, Swaps, BankIndex;
  }

  lemma UpdateFits(bank: seq<MessagePayload>, n: nat, slot: MessagePayload)
    requires Fits(bank) && n < PAYLOAD_COUNT && |slot.payload| == PAYLOAD_BYTES
    ensures Fits(bank[n := slot])
  {
  }

  lemma StoreWithoutSwap(current: seq<MessagePayload>, other: seq<MessagePayload>, stored: seq<MessagePayload>,
                         slot: MessagePayload)
    requires BanksOk(current, other, stored) && |slot.payload| == PAYLOAD_BYTES
    requires Filled(|stored|) + 1 < PAYLOAD_COUNT
    ensures BanksOk(current[Filled(|stored|) := slot], other, stored + [slot])
  {
    var n := Filled(|stored|);
    NextSlot(|stored|);
    OneMore(stored, slot);
    UpdateFits(current, n, slot);
    assert |current| == PAYLOAD_COUNT;
    UpToUpdate(current, n, slot);
    hide Fits, Filled, Swaps, Latest, LastBank;
  }

  lemma StoreAndSwap(current: seq<MessagePayload>, other: seq<MessagePayload>, stored: seq<MessagePayload>,
                     slot: MessagePayload)
    requires BanksOk(current, other, stored) && |slot.payload| == PAYLOAD_BYTES
    requires Filled(|stored|) + 1 == PAYLOAD_COUNT
    ensures BanksOk(other, current[Filled(|stored|) := slot], stored + [slot])
  {
    var n := Filled(|stored|);
    NextSlot(|stored|);
    SixtiethSlot(stored, slot);
    UpdateFits(current, n, slot);
    assert |current| == PAYLOAD_COUNT;
    UpToUpdate(current, n, slot);
    assert other[..0] == [];
    hide Fits, Filled, Swaps, Latest, LastBank;
  }

  /** Storing a slot keeps the banks in order, with the swap after the sixtieth. */
  lemma StoreKeepsBanks(current: seq<MessagePayload>, other: seq<MessagePayload>, stored: seq<MessagePayload>,
                        slot: MessagePayload)
    requires BanksOk(current, other, stored) && |slot.payload| == PAYLOAD_BYTES
    ensures var n := Filled(|stored|);
            if n + 1 == PAYLOAD_COUNT then BanksOk(other, current[n := slot], stored + [slot])
            else BanksOk(current[n := slot], other, stored + [slot])
  {
    assert |current| == PAYLOAD_COUNT;
    hide BanksOk;
    if Filled(|stored|) + 1 == PAYLOAD_COUNT {
      StoreAndSwap(current, other, stored, slot);
    } else {
      StoreWithoutSwap(current, other, stored, slot);
    }
  }

  lemma SwapsMonotone(m: nat, n: nat)
    requires m <= n
    ensures Swaps(m) <= Swaps(n)
  {
  }

  /** Without a swap the other bank stays what it was. */
  lemma OtherBankKept(stored: seq<MessagePayload>, stored': seq<MessagePayload>)
    requires stored <= stored' && Swaps(|stored|) == Swaps(|stored'|)
    ensures LastBank(stored') == LastBank(stored)
  {
    var n, n' := |stored|, |stored'|;
    assert n - Filled(n) == 60 * Swaps(n) && n' - Filled(n') == 60 * Swaps(n');
    hide Filled, Swaps;
    var base := n - Filled(n);
    assert base >= 60 ==> stored'[base - 60..base] == stored[base - 60..base];
  }

  method EmptyBank() returns (bank: array<MessagePayload>)
    ensures fresh(bank) && bank.Length == PAYLOAD_COUNT && Fits(bank[..])
  {
    hide EmptySlot;
    bank := new MessagePayload[PAYLOAD_COUNT](_ => EmptySlot());
  }

  class SharedBanks {
    var collectedAccel: nat
    var msgIndex: nat
    var sendFlag: bool
    const message0: array<MessagePayload>  // the two rows of message
    const message1: array<MessagePayload>
    ghost var stored: seq<MessagePayload>  // every slot stored so far

    function Row(i: nat): array<MessagePayload> {
      if i == 0 then message0 else message1
    }

    ghost function Bank(i: nat): seq<MessagePayload>
      reads message0, message1
    {
      Row(i)[..]
    }

    ghost predicate Valid()
      reads this`collectedAccel, this`msgIndex, this`stored, message0, message1
    {
      && message0.Length == message1.Length == PAYLOAD_COUNT && message0 != message1
      && collectedAccel == Filled(|stored|) && msgIndex == BankIndex(|stored|)
      && BanksOk(Bank(msgIndex), Bank(1 - msgIndex), stored)
    }

    /** The globals at start-up, all zero. */
    constructor ()
      ensures Valid() && stored == [] && !sendFlag
      ensures fresh(message0) && fresh(message1)
    {
      collectedAccel, msgIndex, sendFlag := 0, 0, false;
      var bank0 := EmptyBank();
      var bank1 := EmptyBank();
      message0, message1 := bank0, bank1;
      stored := [];
      new;
      hide *;
      StartIsValid();
    }

    lemma StartIsValid()
      requires collectedAccel == 0 && msgIndex == 0 && stored == [] && message0 != message1
      requires message0.Length == message1.Length == PAYLOAD_COUNT && Fits(message0[..]) && Fits(message1[..])
      ensures Valid()
    {
      StartBanks(Bank(0), Bank(1));
      hide Fits, BanksOk, Filled, BankIndex, Swaps;
    }

    /** Put a payload into the next slot of the current bank; the sixtieth swaps the banks and asks
        for sending. */
    method Store(slot: MessagePayload)
      requires Valid() && |slot.payload| == PAYLOAD_BYTES
      modifies this, message0, message1
      ensures Valid() && stored == old(stored) + [slot]
      ensures sendFlag == (old(sendFlag) || Swaps(|stored|) > Swaps(old(|stored|)))
    {
      hide BanksOk, Filled, BankIndex, Swaps;
      ghost var n, here := collectedAccel, msgIndex;
      ghost var current, other := Bank(here), Bank(1 - here);
      assert |current| == PAYLOAD_COUNT;
      NextSlot(|stored|);
      StoreKeepsBanks(current, other, stored, slot);
      Row(msgIndex)[collectedAccel] := slot;
      assert Bank(here) == current[n := slot] && Bank(1 - here) == other;
      stored := stored + [slot];
      collectedAccel := collectedAccel + 1;
      if collectedAccel == PAYLOAD_COUNT {
        msgIndex := if msgIndex == 1 then 0 else 1;
        sendFlag := true;
        collectedAccel := 0;
        assert msgIndex == 1 - here;
      }
    }
  }
}
