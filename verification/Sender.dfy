/** coap_send_fn: sends a bank in six groups of ten messages and resends what the server's bitmap
    says is missing, as steps against a network that may do anything. */
module Sender {
  import opened Bits
  import opened Matching
  import opened Banks

  const GROUP: nat := 10
  const GROUPS: nat := 6  // PAYLOAD_COUNT / 10
  const ALL_RECEIVED: nat := 0x3FF
  const RESEND_ALL: nat := 0x400
  const MAX_TRIES: nat := 3
  const CODE_CREATED: nat := 0x41
  const CODE_BAD_REQUEST: nat := 0x80

  // ----- the bitmap

  /** check_list: the server has message x of the group. */
  predicate CheckList(bitmap: nat, x: nat) {
    TestBit(bitmap, x)
  }

  /** The greatest position below n whose bit is clear, as an unsigned byte: 255 if there is none. */
  function HighestClear(bitmap: nat, n: nat): nat {
    if n == 0 then 255
    else if !CheckList(bitmap, n - 1) then n - 1
    else HighestClear(bitmap, n - 1)
  }

  /** getmsgCount. */
  method GetmsgCount(bitmap: uint16) returns (r: nat)
    ensures r == HighestClear(bitmap, GROUP)
  {
    var i: int := 9;
    while i >= 0
      invariant -1 <= i <= 9
      invariant HighestClear(bitmap, GROUP) == HighestClear(bitmap, i + 1)
    {
      if !CheckList(bitmap, i) { break; }
      i := i - 1;
    }
    r := i % 256;
  }

  lemma {:induction false} HighestClearIs(bitmap: nat, n: nat)
    requires n <= 255
    ensures var h := HighestClear(bitmap, n);
      if h == 255 then forall b :: 0 <= b < n ==> CheckList(bitmap, b)
      else h < n && !CheckList(bitmap, h) && forall b :: h < b < n ==> CheckList(bitmap, b)
  {
    if n > 0 {
      HighestClearIs(bitmap, n - 1);
    }
  }

  /** The C expression v & (2^n - 1). */
  function LowBits(v: nat, n: nat): nat {
    if n == 0 then 0 else 2 * LowBits(v / 2, n - 1) + v % 2
  }

  lemma {:induction false} LowBitsBound(v: nat, n: nat)
    ensures LowBits(v, n) < Pow2(n)
    ensures v < Pow2(n) ==> LowBits(v, n) == v
  {
    if n > 0 {
      LowBitsBound(v / 2, n - 1);
    }
  }

  /** All low bits are set exactly when the masked number is all ones. */
  lemma {:induction false} AllBitsSet(v: nat, n: nat)
    ensures (forall b :: 0 <= b < n ==> CheckList(v, b)) <==> LowBits(v, n) == Pow2(n) - 1
  {
    if n > 0 {
      AllBitsSet(v / 2, n - 1);
      LowBitsBound(v / 2, n - 1);
      assert forall b: nat {:trigger CheckList(v / 2, b)} :: CheckList(v / 2, b) == CheckList(v, b + 1);
      assert CheckList(v, 0) <==> v % 2 == 1;
      if LowBits(v, n) == Pow2(n) - 1 {
        forall b | 0 <= b < n ensures CheckList(v, b) {
          if b > 0 {
            assert CheckList(v / 2, b - 1);
          }
        }
      } else if v % 2 == 1 {
        var b :| 0 <= b < n - 1 && !CheckList(v / 2, b);
        assert !CheckList(v, b + 1);
      }
    }
  }

  // ----- replies

  /** What a datagram looks like after parsing. */
  datatype Datagram = Malformed | Packet(token: seq<byte>, code: nat, payload: seq<byte>)

  datatype Verdict = Rejected | Bitmap(value: uint16)

  /** A token as it lies in memory. */
  function TokenBytes(token: uint16): seq<byte> {
    [token % 256, token / 256]
  }

  /** union received_msg: two bytes read as a number. */
  function Received(low: byte, high: byte): uint16 {
    low + 256 * high
  }

  /** client_handle_get_response: the bitmap a datagram stands for. Only a packet with the token of
      the last confirmable message counts; "created" means everything arrived, "bad request" carries
      the bitmap or asks for everything again. A one-byte payload is read past its end. */
  function ReplyBitmap(conToken: uint16, d: Datagram, stale: byte): Verdict {
    if d.Malformed? || d.token != TokenBytes(conToken) then Rejected
    else if d.code == CODE_CREATED then Bitmap(ALL_RECEIVED)
    else if d.code == CODE_BAD_REQUEST then
      if |d.payload| > 0 then Bitmap(Received(d.payload[0], if |d.payload| > 1 then d.payload[1] else stale))
      else Bitmap(RESEND_ALL)
    else Rejected
  }

  /** Which datagrams count, in the bytes of the packet: those whose two token bytes, the low one first,
      are the number awaited, with the code 2.01 or 4.00 (RFC 7252, sections 5.9.1.1 and 5.9.2.1); and what
      each of them stands for. */
  lemma ReplyExactly(conToken: uint16, d: Datagram, stale: byte)
    ensures ReplyBitmap(conToken, d, stale) != Rejected <==>
      && d.Packet? && |d.token| == 2 && (d.token[0] as int) + 256 * (d.token[1] as int) == conToken
      && (d.code == 0x41 || d.code == 0x80)
    ensures ReplyBitmap(conToken, d, stale) != Rejected ==>
      ReplyBitmap(conToken, d, stale) ==
        if d.code == 0x41 then Bitmap(0x3FF)
        else if |d.payload| == 0 then Bitmap(0x400)
        else if |d.payload| == 1 then Bitmap((d.payload[0] as int) + 256 * (stale as int))
        else Bitmap((d.payload[0] as int) + 256 * (d.payload[1] as int))
  {
    if d.Packet? && |d.token| == 2 {
      assert d.token == [d.token[0], d.token[1]];
      assert (d.token[0] as int) + 256 * (d.token[1] as int) == conToken <==>
               d.token[0] == conToken % 256 && d.token[1] == conToken / 256;
    }
  }

  // ----- the run as a state machine

  /** What the network does in one round of a loop. */
  datatype Event = Event(sendOk: bool, arrived: bool, waitOk: bool, recvOk: bool, datagram: Datagram, stale: byte)

  /** How a run stands: all groups acknowledged, given up, device restarted, or sent astray by a bitmap
      that leaves no message to resend. */
  datatype Status = Running | Delivered | Broken | Restarted | Runaway

  /** One message handed to the network. */
  datatype Attempt = Attempt(index: nat, con: bool, slot: MessagePayload, ok: bool)

  /** The variables of coap_send_fn, and what has happened: all attempts, those of the current round,
      what the server has received, and whether all its bitmaps so far told the truth. */
  datatype SendState = SendState(
    group: nat, x: nat, last: nat, tries: nat, bitmap: uint16, conToken: uint16, status: Status,
    log: seq<Attempt>, round: seq<Attempt>, arrived: set<int>, honest: bool)

  function Start(conToken: uint16): SendState {
    SendState(0, 0, GROUP - 1, 0, 0, conToken, Running, [], [], {}, true)
  }

  /** The slot of message x of a group. */
  function Index(group: nat, x: nat): nat {
    10 * group + x
  }

  /** Every message the bitmap reports as received has been received. */
  predicate Truthful(bitmap: nat, group: nat, arrived: set<int>) {
    forall b :: 0 <= b < GROUP && CheckList(bitmap, b) ==> Index(group, b) in arrived
  }

  /** A message is sent and waited for; after a failure it is sent again, but the fourth failure
      restarts the device. */
  function SendOne(s: SendState, ev: Event, bank: seq<MessagePayload>): SendState {
    var index := Index(s.group, s.x);
    var con := s.x >= s.last;
    var slot := if index < |bank| then bank[index] else MessagePayload(0, []);
    var a := Attempt(index, con, slot, ev.sendOk && ev.waitOk);
    var conToken: uint16 := if con then index % 0x1_0000 else s.conToken;
    var arrived := if ev.arrived then s.arrived + {index} else s.arrived;
    var s' := s.(conToken := conToken, log := s.log + [a], round := s.round + [a], arrived := arrived);
    if a.ok then s'.(x := s.x + 1)
    else if s.tries < MAX_TRIES then s'.(tries := s.tries + 1)
    else s'.(status := Restarted)
  }

  /** The reply to a round: the next group, another round of this one, or the end. */
  function HandleReply(s: SendState, ev: Event): SendState {
    if !ev.recvOk then s.(status := Broken)
    else
      match ReplyBitmap(s.conToken, ev.datagram, ev.stale)
      case Rejected =>
        if s.tries < MAX_TRIES then s.(x := 0, round := []) else s.(status := Broken)
      case Bitmap(v) =>
        var s' := s.(honest := s.honest && Truthful(v, s.group, s.arrived));
        if v == ALL_RECEIVED then
          s'.(group := s.group + 1, x := 0, last := GROUP - 1, bitmap := 0, round := [],
              status := if s.group + 1 == GROUPS then Delivered else Running)
        else if s.tries < MAX_TRIES then
          var last := HighestClear(v, GROUP);
          s'.(x := 0, last := last, bitmap := v, round := [], status := if last == 255 then Runaway else Running)
        else s'.(bitmap := v, status := Broken)
  }

  /** One round of the inner loop, or the part of the outer loop after it. */
  function Step(s: SendState, ev: Event, bank: seq<MessagePayload>): SendState {
    if s.status != Running then s
    else if s.x <= s.last then
      if CheckList(s.bitmap, s.x) then s.(x := s.x + 1) else SendOne(s, ev, bank)
    else HandleReply(s, ev)
  }

  function RunSend(conToken: uint16, evs: seq<Event>, bank: seq<MessagePayload>): SendState {
    if evs == [] then Start(conToken)
    else Step(RunSend(conToken, evs[..|evs| - 1], bank), evs[|evs| - 1], bank)
  }

  // ----- the plan of a round

  /** The positions below n that the bitmap leaves to send, in ascending order. */
  function Missing(bitmap: nat, n: nat): (r: seq<nat>)
    ensures |r| <= n
  {
    if n == 0 then []
    else if CheckList(bitmap, n - 1) then Missing(bitmap, n - 1)
    else Missing(bitmap, n - 1) + [n - 1]
  }

  lemma {:induction false} MissingIs(bitmap: nat, n: nat)
    ensures forall p :: p in Missing(bitmap, n) <==> 0 <= p < n && !CheckList(bitmap, p)
    ensures forall a, b :: 0 <= a < b < |Missing(bitmap, n)| ==> Missing(bitmap, n)[a] < Missing(bitmap, n)[b]
  {
    if n > 0 {
      MissingIs(bitmap, n - 1);
      var rest := Missing(bitmap, n - 1);
      assert forall p :: p in rest + [n - 1] <==> p in rest || p == n - 1;
      assert forall a :: 0 <= a < |rest| ==> rest[a] in rest;
    }
  }

  lemma {:induction false} MissingPrefix(bitmap: nat, m: nat, n: nat)
    requires m <= n
    ensures Missing(bitmap, m) <= Missing(bitmap, n)
    ensures m < n && !CheckList(bitmap, m) ==>
              |Missing(bitmap, m)| < |Missing(bitmap, n)| && Missing(bitmap, n)[|Missing(bitmap, m)|] == m
    decreases n - m
  {
    if m < n {
      MissingPrefix(bitmap, m + 1, n);
    }
  }

  function OkCount(round: seq<Attempt>): (r: nat)
    ensures r <= |round|
  {
    if round == [] then 0
    else OkCount(round[..|round| - 1]) + if round[|round| - 1].ok then 1 else 0
  }

  function Failures(log: seq<Attempt>): nat {
    |log| - OkCount(log)
  }

  /** Every attempt of the round is for the first planned position not yet sent successfully, and it
      is confirmable exactly when that position is the last one. */
  ghost predicate FollowsPlan(round: seq<Attempt>, plan: seq<nat>, group: nat, last: nat) {
    forall k :: 0 <= k < |round| ==>
      && OkCount(round[..k]) < |plan|
      && round[k].index == Index(group, plan[OkCount(round[..k])])
      && (round[k].con <==> plan[OkCount(round[..k])] == last)
  }

  // ----- the invariant

  /** Where a round stands. */
  ghost predicate RoundOk(s: SendState) {
    && s.group < GROUPS && s.last < GROUP && s.x <= s.last + 1 && s.tries <= MAX_TRIES
    && HighestClear(s.bitmap, GROUP) == s.last
    && FollowsPlan(s.round, Missing(s.bitmap, s.last + 1), s.group, s.last)
    && OkCount(s.round) == |Missing(s.bitmap, s.x)|
    && (s.x == s.last + 1 ==> s.conToken == Index(s.group, s.last))
  }

  /** There was an attempt for every slot that has arrived. */
  ghost predicate AllTried(arrived: set<int>, log: seq<Attempt>) {
    forall m :: m in arrived ==> exists a :: a in log && a.index == m
  }

  ghost predicate Inv(s: SendState, bank: seq<MessagePayload>)
    requires |bank| == PAYLOAD_COUNT
  {
    && (s.status == Running ==> RoundOk(s) && Failures(s.log) == s.tries)
    && (if s.status == Restarted then Failures(s.log) == MAX_TRIES + 1 else Failures(s.log) <= MAX_TRIES)
    && s.group <= GROUPS && (s.status == Delivered ==> s.group == GROUPS)
    && (s.honest ==> forall m :: 0 <= m < Index(s.group, 0) ==> m in s.arrived)
    && (forall a :: a in s.log ==> a.index < |bank| && a.slot == bank[a.index])
    && AllTried(s.arrived, s.log)
  }

  lemma FailuresSnoc(log: seq<Attempt>, a: Attempt)
    ensures OkCount(log + [a]) == OkCount(log) + (if a.ok then 1 else 0)
    ensures Failures(log + [a]) == Failures(log) + (if a.ok then 0 else 1)
  {
    assert (log + [a])[..|log|] == log;
  }

  lemma FollowsSnoc(round: seq<Attempt>, a: Attempt, plan: seq<nat>, group: nat, last: nat)
    requires FollowsPlan(round, plan, group, last) && OkCount(round) < |plan|
    requires a.index == Index(group, plan[OkCount(round)]) && (a.con <==> plan[OkCount(round)] == last)
    ensures FollowsPlan(round + [a], plan, group, last)
  {
    var next := round + [a];
    assert next[..|round|] == round;
    forall k | 0 <= k < |next| ensures
      && OkCount(next[..k]) < |plan|
      && next[k].index == Index(group, plan[OkCount(next[..k])])
      && (next[k].con <==> plan[OkCount(next[..k])] == last)
    {
      if k < |round| {
        assert next[..k] == round[..k];
      }
    }
  }

  /** A new round starts consistently once its last position is known to be missing. */
  lemma NewRoundOk(s: SendState)
    requires s.group < GROUPS && s.tries <= MAX_TRIES && s.x == 0 && s.round == []
    requires s.last < GROUP && HighestClear(s.bitmap, GROUP) == s.last
    ensures RoundOk(s)
  {
  }

  lemma FreshBitmap()
    ensures HighestClear(0, GROUP) == GROUP - 1
  {
  }

  lemma MissingSkip(bitmap: nat, x: nat)
    requires CheckList(bitmap, x)
    ensures Missing(bitmap, x + 1) == Missing(bitmap, x)
  {
  }

  lemma SkipKeepsRound(s: SendState)
    requires RoundOk(s) && s.x <= s.last && CheckList(s.bitmap, s.x)
    ensures RoundOk(s.(x := s.x + 1))
  {
    hide FollowsPlan, CheckList, HighestClear, Missing, OkCount;
    HighestClearIs(s.bitmap, GROUP);
    MissingSkip(s.bitmap, s.x);
  }

  /** The attempt that SendOne makes. */
  ghost function AttemptOf(s: SendState, ev: Event, bank: seq<MessagePayload>): Attempt
    requires |bank| == PAYLOAD_COUNT && s.group < GROUPS && s.x < GROUP
  {
    Attempt(Index(s.group, s.x), s.x >= s.last, bank[Index(s.group, s.x)], ev.sendOk && ev.waitOk)
  }

  /** s' is s after the attempt a. */
  ghost predicate Attempted(s: SendState, a: Attempt, s': SendState) {
    && a.index == Index(s.group, s.x) && (a.con <==> s.x >= s.last)
    && s'.group == s.group && s'.last == s.last && s'.bitmap == s.bitmap && s'.honest == s.honest
    && s'.log == s.log + [a] && s'.round == s.round + [a]
    && s.arrived <= s'.arrived <= s.arrived + {a.index}
    && s'.conToken == (if a.con then a.index else s.conToken)
    && s'.x == (if a.ok then s.x + 1 else s.x)
    && s'.tries == (if a.ok || s.tries >= MAX_TRIES then s.tries else s.tries + 1)
    && s'.status == (if a.ok || s.tries < MAX_TRIES then Running else Restarted)
  }

  lemma SendFields(s: SendState, ev: Event, bank: seq<MessagePayload>)
    requires |bank| == PAYLOAD_COUNT && s.group < GROUPS && s.x < GROUP && s.status == Running
    ensures Attempted(s, AttemptOf(s, ev, bank), SendOne(s, ev, bank))
  {
  }

  lemma MissingStep(bitmap: nat, x: nat)
    requires !CheckList(bitmap, x)
    ensures Missing(bitmap, x + 1) == Missing(bitmap, x) + [x]
  {
  }

  lemma AttemptKeepsRound(s: SendState, a: Attempt, s': SendState)
    requires RoundOk(s) && s.x <= s.last && !CheckList(s.bitmap, s.x)
    requires Attempted(s, a, s') && s'.status == Running
    ensures RoundOk(s')
  {
    hide FollowsPlan, CheckList, Missing, HighestClear, OkCount, Index;
    var plan := Missing(s.bitmap, s.last + 1);
    MissingStep(s.bitmap, s.x);
    MissingPrefix(s.bitmap, s.x, s.last + 1);
    FollowsSnoc(s.round, a, plan, s.group, s.last);
    FailuresSnoc(s.round, a);
  }

  lemma TriedMore(arrived: set<int>, arrived': set<int>, log: seq<Attempt>, a: Attempt)
    requires AllTried(arrived, log) && arrived' <= arrived + {a.index}
    ensures AllTried(arrived', log + [a])
  {
    forall m | m in arrived' ensures exists b :: b in log + [a] && b.index == m {
      if m in arrived {
        var b :| b in log && b.index == m;
        assert b in log + [a];
      } else {
        assert a in log + [a];
      }
    }
  }

  lemma SendKeepsInv(s: SendState, ev: Event, bank: seq<MessagePayload>)
    requires |bank| == PAYLOAD_COUNT && Inv(s, bank)
    requires s.status == Running && s.x <= s.last && !CheckList(s.bitmap, s.x)
    ensures Inv(SendOne(s, ev, bank), bank)
  {
    hide SendOne, CheckList, FollowsPlan, Missing, HighestClear, OkCount;
    var a, s' := AttemptOf(s, ev, bank), SendOne(s, ev, bank);
    SendFields(s, ev, bank);
    if s'.status == Running {
      AttemptKeepsRound(s, a, s');
    }
    hide RoundOk;
    FailuresSnoc(s.log, a);
    TriedMore(s.arrived, s'.arrived, s.log, a);
    hide AllTried;
  }

  lemma ReplyKeepsInv(s: SendState, ev: Event, bank: seq<MessagePayload>)
    requires |bank| == PAYLOAD_COUNT && Inv(s, bank)
    requires s.status == Running && s.x > s.last
    ensures Inv(HandleReply(s, ev), bank)
  {
    hide FollowsPlan, HighestClear, Failures, ReplyBitmap, Missing, CheckList, AllTried;
    var s' := HandleReply(s, ev);
    if ev.recvOk {
      match ReplyBitmap(s.conToken, ev.datagram, ev.stale)
      case Rejected =>
        if s.tries < MAX_TRIES {
          NewRoundOk(s');
        }
      case Bitmap(v) =>
        if v == ALL_RECEIVED {
          FreshBitmap();
          if s'.honest {
            GroupArrived(s.group, s.arrived);
          }
          if s'.status == Running {
            NewRoundOk(s');
          }
        } else if s.tries < MAX_TRIES && s'.status == Running {
          HighestClearIs(v, GROUP);
          NewRoundOk(s');
        }
    }
  }

  /** A truthful "everything arrived" completes the group. */
  lemma GroupArrived(group: nat, arrived: set<int>)
    requires Truthful(ALL_RECEIVED, group, arrived)
    requires forall m :: 0 <= m < Index(group, 0) ==> m in arrived
    ensures forall m :: 0 <= m < Index(group + 1, 0) ==> m in arrived
  {
    FullBitmap();
    forall m | Index(group, 0) <= m < Index(group + 1, 0) ensures m in arrived {
      assert CheckList(ALL_RECEIVED, m - 10 * group);
      assert Index(group, m - 10 * group) == m;
    }
  }

  lemma FullBitmap()
    ensures forall b :: 0 <= b < GROUP ==> CheckList(ALL_RECEIVED, b)
  {
    assert Pow2(10) == 1024;
    LowBitsBound(ALL_RECEIVED, 10);
    AllBitsSet(ALL_RECEIVED, 10);
  }

  // ----- what every run promises

  lemma {:induction false} RunKeepsInv(conToken: uint16, evs: seq<Event>, bank: seq<MessagePayload>)
    requires |bank| == PAYLOAD_COUNT
    ensures Inv(RunSend(conToken, evs, bank), bank)
  {
    hide HighestClear, HandleReply, SendOne, RoundOk;
    if evs == [] {
      StartOk(conToken);
    } else {
      var s, ev := RunSend(conToken, evs[..|evs| - 1], bank), evs[|evs| - 1];
      RunKeepsInv(conToken, evs[..|evs| - 1], bank);
      if s.status == Running {
        if s.x > s.last {
          ReplyKeepsInv(s, ev, bank);
        } else if CheckList(s.bitmap, s.x) {
          SkipKeepsRound(s);
        } else {
          SendKeepsInv(s, ev, bank);
        }
      }
    }
  }

  lemma StartOk(conToken: uint16)
    ensures RoundOk(Start(conToken)) && Failures([]) == 0
  {
    FreshBitmap();
    NewRoundOk(Start(conToken));
  }

  /** The slots of the successful attempts, in order. */
  function OkIndices(round: seq<Attempt>): seq<nat> {
    if round == [] then []
    else
      var a := round[|round| - 1];
      OkIndices(round[..|round| - 1]) + if a.ok then [a.index] else []
  }

  function Indices(group: nat, plan: seq<nat>): (r: seq<nat>)
    ensures |r| == |plan|
  {
    seq(|plan|, k requires 0 <= k < |plan| => Index(group, plan[k]))
  }

  lemma FollowsPrefix(round: seq<Attempt>, n: nat, plan: seq<nat>, group: nat, last: nat)
    requires FollowsPlan(round, plan, group, last) && n <= |round|
    ensures FollowsPlan(round[..n], plan, group, last)
  {
    assert forall k :: 0 <= k < n ==> round[..n][..k] == round[..k];
  }

  lemma {:induction false} OkIndicesArePlanned(round: seq<Attempt>, plan: seq<nat>, group: nat, last: nat)
    requires FollowsPlan(round, plan, group, last) && OkCount(round) <= |plan|
    ensures OkIndices(round) == Indices(group, plan[..OkCount(round)])
  {
    if round != [] {
      var n := |round| - 1;
      FollowsPrefix(round, n, plan, group, last);
      var c := OkCount(round[..n]);
      assert round[n].index == Index(group, plan[c]);
      hide FollowsPlan;
      OkIndicesArePlanned(round[..n], plan, group, last);
      if round[n].ok {
        assert Indices(group, plan[..c + 1]) == Indices(group, plan[..c]) + [Index(group, plan[c])];
      }
    }
  }

  /** When a round is complete it has delivered to the network exactly the messages the bitmap left
      to send, in ascending order; the last of them is the highest one missing, it alone was sent
      confirmable, and the reply is awaited under its token. */
  lemma RoundIsComplete(s: SendState, bank: seq<MessagePayload>)
    requires |bank| == PAYLOAD_COUNT && Inv(s, bank) && s.status == Running && s.x > s.last
    ensures OkIndices(s.round) == Indices(s.group, Missing(s.bitmap, GROUP))
    ensures s.last in Missing(s.bitmap, GROUP) && forall p :: p in Missing(s.bitmap, GROUP) ==> p <= s.last
    ensures forall a :: a in s.round ==> (a.con <==> a.index == Index(s.group, s.last))
    ensures s.conToken == Index(s.group, s.last)
  {
    var plan := Missing(s.bitmap, s.last + 1);
    HighestClearIs(s.bitmap, GROUP);
    MissingIs(s.bitmap, GROUP);
    NothingMissingAbove(s.bitmap, s.last + 1, GROUP);
    OkIndicesArePlanned(s.round, plan, s.group, s.last);
    assert plan[..|plan|] == plan;
    forall a | a in s.round ensures a.con <==> a.index == Index(s.group, s.last) {
      var k :| 0 <= k < |s.round| && s.round[k] == a;
      assert a.index == Index(s.group, plan[OkCount(s.round[..k])]);
    }
  }

  lemma {:induction false} NothingMissingAbove(bitmap: nat, m: nat, n: nat)
    requires m <= n && forall b :: m <= b < n ==> CheckList(bitmap, b)
    ensures Missing(bitmap, n) == Missing(bitmap, m)
    decreases n - m
  {
    if m < n {
      NothingMissingAbove(bitmap, m, n - 1);
    }
  }

  /** Every message of the bank has arrived, and was sent from its slot. */
  ghost predicate BankArrived(s: SendState, bank: seq<MessagePayload>)
    requires |bank| == PAYLOAD_COUNT
  {
    forall m :: 0 <= m < PAYLOAD_COUNT ==>
      m in s.arrived && exists a :: a in s.log && a.index == m && a.slot == bank[m]
  }

  /** If the server's bitmaps told the truth, leaving the loop with every group acknowledged means that
      all sixty messages of the bank have arrived, each sent from its slot. */
  lemma DeliveryIsComplete(conToken: uint16, evs: seq<Event>, bank: seq<MessagePayload>)
    requires |bank| == PAYLOAD_COUNT
    ensures var s := RunSend(conToken, evs, bank);
            s.status == Delivered && s.honest ==> BankArrived(s, bank)
  {
    RunKeepsInv(conToken, evs, bank);
    assert Index(GROUPS, 0) == PAYLOAD_COUNT;
  }

  /** Three failed sends or waits are survived, whatever else happens; the fourth restarts the device,
      and nothing else does. */
  lemma FailureBudget(conToken: uint16, evs: seq<Event>, bank: seq<MessagePayload>)
    requires |bank| == PAYLOAD_COUNT
    ensures var s := RunSend(conToken, evs, bank);
      && (s.status == Restarted <==> Failures(s.log) == MAX_TRIES + 1)
      && (s.status != Restarted <==> Failures(s.log) <= MAX_TRIES)
      && (s.status == Running ==> Failures(s.log) == s.tries)
      && forall a :: a in s.log ==> a.index < PAYLOAD_COUNT && a.slot == bank[a.index]
  {
    RunKeepsInv(conToken, evs, bank);
  }

  /** A reply that carries the token of the last confirmable message and acknowledges everything,
      taken when a round is complete. */
  predicate FullAck(s: SendState, ev: Event) {
    && s.status == Running && s.x > s.last && ev.recvOk
    && ReplyBitmap(s.conToken, ev.datagram, ev.stale) == Bitmap(ALL_RECEIVED)
  }

  /** Its token is that of the last message of the round. */
  predicate AckMatches(s: SendState, ev: Event) {
    var d := ev.datagram;
    d.Packet? && |d.token| == 2 && (d.token[0] as int) + 256 * (d.token[1] as int) == 10 * s.group + s.last
  }

  lemma FullAckMatches(s: SendState, ev: Event, bank: seq<MessagePayload>)
    requires |bank| == PAYLOAD_COUNT && Inv(s, bank) && FullAck(s, ev)
    ensures AckMatches(s, ev)
    ensures Step(s, ev, bank).group == s.group + 1
  {
    ReplyExactly(s.conToken, ev.datagram, ev.stale);
    hide HighestClear, FollowsPlan, Missing, OkCount, Truthful;
  }

  /** Nothing else moves the group. */
  lemma NoAckNoAdvance(s: SendState, ev: Event, bank: seq<MessagePayload>)
    requires !FullAck(s, ev)
    ensures Step(s, ev, bank).group == s.group
  {
    hide CheckList, HighestClear, Truthful;
  }

  /** How many full acknowledgements a run has taken. */
  function Acks(conToken: uint16, evs: seq<Event>, bank: seq<MessagePayload>): (r: nat)
    ensures r <= |evs|
  {
    if evs == [] then 0
    else
      var before, ev := evs[..|evs| - 1], evs[|evs| - 1];
      Acks(conToken, before, bank) + if FullAck(RunSend(conToken, before, bank), ev) then 1 else 0
  }

  /** Over any run the group is the number of full acknowledgements taken, each for the token of the
      last message of its round, so the run ends with everything delivered exactly when there have
      been six of them. */
  lemma {:induction false} AdvanceOnlyOnAck(conToken: uint16, evs: seq<Event>, bank: seq<MessagePayload>)
    requires |bank| == PAYLOAD_COUNT
    ensures var s := RunSend(conToken, evs, bank);
      s.group == Acks(conToken, evs, bank) <= GROUPS && (s.status == Delivered <==> s.group == GROUPS)
    ensures forall k :: 0 <= k < |evs| && FullAck(RunSend(conToken, evs[..k], bank), evs[k]) ==>
      AckMatches(RunSend(conToken, evs[..k], bank), evs[k])
  {
    hide Step, FullAck, AckMatches, Inv;
    if evs != [] {
      var n := |evs| - 1;
      var before, ev := evs[..n], evs[n];
      var s := RunSend(conToken, before, bank);
      AdvanceOnlyOnAck(conToken, before, bank);
      RunKeepsInv(conToken, before, bank);
      AckStep(s, ev, bank);
      forall k | 0 <= k < |evs| && FullAck(RunSend(conToken, evs[..k], bank), evs[k])
        ensures AckMatches(RunSend(conToken, evs[..k], bank), evs[k])
      {
        if k < n {
          assert before[..k] == evs[..k] && before[k] == evs[k];
        }
      }
    }
  }

  lemma AckStep(s: SendState, ev: Event, bank: seq<MessagePayload>)
    requires |bank| == PAYLOAD_COUNT && Inv(s, bank) && (s.status == Delivered <==> s.group == GROUPS)
    ensures var s' := Step(s, ev, bank);
      && s'.group == s.group + (if FullAck(s, ev) then 1 else 0)
      && (s'.status == Delivered <==> s'.group == GROUPS)
      && s'.group <= GROUPS
    ensures FullAck(s, ev) ==> AckMatches(s, ev)
  {
    hide CheckList, HighestClear, Truthful, FollowsPlan, Missing, OkCount;
    if FullAck(s, ev) {
      FullAckMatches(s, ev, bank);
    } else {
      NoAckNoAdvance(s, ev, bank);
    }
  }

  /** A bitmap sends the code astray exactly when its ten low bits are all set but it is not 0x3FF:
      then no message is left to resend and the computed last position is 255. */
  lemma RunawayExactly(s: SendState, ev: Event, bank: seq<MessagePayload>)
    requires s.status == Running
    ensures Step(s, ev, bank).status == Runaway <==>
      && s.x > s.last && ev.recvOk && s.tries < MAX_TRIES
      && var v := ReplyBitmap(s.conToken, ev.datagram, ev.stale);
         v.Bitmap? && v.value != ALL_RECEIVED && LowBits(v.value, GROUP) == ALL_RECEIVED
  {
    hide CheckList, ReplyBitmap, Truthful, HighestClear, LowBits;
    assert Pow2(10) == 1024;
    hide Pow2;
    match ReplyBitmap(s.conToken, ev.datagram, ev.stale)
    case Rejected =>
    case Bitmap(v) =>
      HighestClearIs(v, GROUP);
      AllBitsSet(v, GROUP);
  }

  /** In particular bitmaps of at most ten bits, and the one that asks for everything, never do. */
  lemma SmallBitmapsAreSafe(v: uint16)
    ensures v <= ALL_RECEIVED || v == RESEND_ALL ==> v == ALL_RECEIVED || LowBits(v, GROUP) != ALL_RECEIVED
    ensures LowBits(0x7FF, GROUP) == ALL_RECEIVED
  {
    assert Pow2(10) == 1024;
    LowBitsBound(v, 10);
    assert LowBits(0x400, 10) == 0;
    assert LowBits(0x7FF, 10) == 0x3FF;
  }

  const GOOD := Event(true, true, true, true, Malformed, 0)

  /** The first messages of a run over a network that loses nothing. */
  lemma {:induction false} FirstSends(conToken: uint16, bank: seq<MessagePayload>, n: nat)
    requires n <= GROUP
    ensures var s := RunSend(conToken, seq(n, _ => GOOD), bank);
      && s.status == Running && s.x == n && s.last == GROUP - 1 && s.group == 0 && s.tries == 0 && s.bitmap == 0
      && (n == GROUP ==> s.conToken == GROUP - 1)
  {
    if n > 0 {
      FirstSends(conToken, bank, n - 1);
      assert seq(n, _ => GOOD)[..n - 1] == seq(n - 1, _ => GOOD);
      ZeroBit(n - 1);
    }
  }

  lemma {:induction false} ZeroBit(x: nat)
    ensures !CheckList(0, x)
  {
    if x > 0 {
      ZeroBit(x - 1);
    }
  }

  /** The fault occurs: the first ten messages arrive, and a reply with the bitmap 0x7FF sends the code
      astray. */
  lemma RunawayHappens(conToken: uint16, bank: seq<MessagePayload>)
    ensures var reply := Event(true, true, true, true, Packet([9, 0], 0x80, [0xFF, 0x07]), 0);
            RunSend(conToken, seq(GROUP, _ => GOOD) + [reply], bank).status == Runaway
  {
    hide CheckList, LowBits, HandleReply;
    var reply := Event(true, true, true, true, Packet([9, 0], 0x80, [0xFF, 0x07]), 0);
    var before := seq(GROUP, _ => GOOD);
    var s := RunSend(conToken, before, bank);
    FirstSends(conToken, bank, GROUP);
    assert (before + [reply])[..GROUP] == before;
    assert ReplyBitmap(s.conToken, reply.datagram, 0) == Bitmap(0x7FF);
    SmallBitmapsAreSafe(0x7FF);
    RunawayExactly(s, reply, bank);
  }

  // ----- the sender task

  lemma RunStart(conToken: uint16, bank: seq<MessagePayload>)
    requires |bank| == PAYLOAD_COUNT
    ensures RunSend(conToken, [], bank) == Start(conToken) && Inv(Start(conToken), bank)
  {
    RunKeepsInv(conToken, [], bank);
  }

  lemma RunOneMore(conToken: uint16, script: seq<Event>, pos: nat, bank: seq<MessagePayload>)
    requires pos < |script| && |bank| == PAYLOAD_COUNT
    ensures RunSend(conToken, script[..pos + 1], bank)
         == Step(RunSend(conToken, script[..pos], bank), script[pos], bank)
    ensures Inv(RunSend(conToken, script[..pos], bank), bank)
  {
    hide Step, Inv;
    assert script[..pos + 1][..pos] == script[..pos];
    RunKeepsInv(conToken, script[..pos], bank);
  }

  /** A run that has ended stays as it is. */
  lemma {:induction false} RunStops(conToken: uint16, script: seq<Event>, pos: nat, bank: seq<MessagePayload>)
    requires pos <= |script| && RunSend(conToken, script[..pos], bank).status != Running
    ensures RunSend(conToken, script, bank) == RunSend(conToken, script[..pos], bank)
    decreases |script| - pos
  {
    if pos == |script| {
      assert script[..pos] == script;
    } else {
      assert script[..pos + 1][..pos] == script[..pos];
      RunStops(conToken, script, pos + 1, bank);
    }
  }

  lemma RunEnds(conToken: uint16, script: seq<Event>, pos: nat, bank: seq<MessagePayload>)
    requires pos <= |script|
    requires pos == |script| || RunSend(conToken, script[..pos], bank).status != Running
    ensures RunSend(conToken, script, bank) == RunSend(conToken, script[..pos], bank)
  {
    if pos == |script| {
      assert script[..pos] == script;
    } else {
      RunStops(conToken, script, pos, bank);
    }
  }

  lemma StepSkips(s: SendState, ev: Event, bank: seq<MessagePayload>)
    requires s.status == Running && s.x <= s.last && CheckList(s.bitmap, s.x)
    ensures Step(s, ev, bank) == s.(x := s.x + 1)
  {
  }

  lemma TriesBound(s: SendState, bank: seq<MessagePayload>)
    requires |bank| == PAYLOAD_COUNT && Inv(s, bank) && s.status == Running
    ensures s.tries <= MAX_TRIES
  {
  }

  class SenderTask {
    var conToken: uint16

    /** client_handle_get_response: the bitmap bytes are written only when the reply counts. */
    method ClientHandleGetResponse(d: Datagram, stale: byte, pload: array<byte>) returns (failed: bool)
      requires pload.Length == 2
      modifies pload
      ensures match ReplyBitmap(conToken, d, stale)
              case Rejected => failed && pload[..] == old(pload[..])
              case Bitmap(v) => !failed && Received(pload[0], pload[1]) == v
      ensures failed <==>
        !(d.Packet? && |d.token| == 2 && (d.token[0] as int) + 256 * (d.token[1] as int) == conToken
          && (d.code == 0x41 || d.code == 0x80))
    {
      ReplyExactly(conToken, d, stale);
      if d.Malformed? { return true; }
      if |d.token| != 2 || d.token[0] != conToken % 256 || d.token[1] != conToken / 256 { return true; }
      if d.code == CODE_CREATED {
        pload[0] := 0xff;
        pload[1] := 0x3;
      } else if d.code == CODE_BAD_REQUEST {
        if |d.payload| > 0 {
          pload[0] := d.payload[0];
          pload[1] := if |d.payload| > 1 then d.payload[1] else stale;
        } else {
          pload[0] := 0x0;
          pload[1] := 0x4;
        }
      } else {
        return true;
      }
      failed := false;
    }

    /** client_get_send: remembers the token of a confirmable message before anything can fail. */
    method ClientGetSend(con: bool, token: uint16, ev: Event) returns (failed: bool)
      modifies this
      ensures conToken == if con then token else old(conToken)
      ensures failed == !ev.sendOk
    {
      if con {
        conToken := token;
      }
      failed := !ev.sendOk;
    }

    /** The locals of coap_send_fn are those of a running state. */
    ghost predicate Tracks(s: SendState, group: nat, x: nat, last: nat, tries: nat, pload: seq<byte>,
                           sent: seq<Attempt>)
      reads this
    {
      && s.status == Running && s.group == group && s.x == x && s.last == last && s.tries == tries
      && |pload| == 2 && s.bitmap == Received(pload[0], pload[1]) && s.conToken == conToken && s.log == sent
    }

    /** One message: send it and wait. */
    method SendAndWait(row: array<MessagePayload>, group: nat, x: nat, last: nat, tries: nat, ev: Event,
                       sent: seq<Attempt>, ghost s: SendState, ghost pload: seq<byte>)
      returns (ok: bool, sent': seq<Attempt>)
      requires row.Length == PAYLOAD_COUNT && Inv(s, row[..])
      requires Tracks(s, group, x, last, tries, pload, sent)
      requires x <= last && !CheckList(s.bitmap, x)
      modifies this
      ensures var s' := Step(s, ev, row[..]);
        && sent' == s'.log && conToken == s'.conToken
        && (s'.status == Restarted <==> !ok && tries >= MAX_TRIES)
        && (s'.status != Restarted ==>
              Tracks(s', group, if ok then x + 1 else x, last, if ok then tries else tries + 1, pload, sent'))
    {
      hide FollowsPlan, HighestClear, Missing, OkCount, Failures, CheckList;
      SendFields(s, ev, row[..]);
      var con := x >= last;
      var index := group * 10 + x;
      var failed := ClientGetSend(con, index, ev);
      ok := !failed && ev.waitOk;
      sent' := sent + [Attempt(index, con, row[index], ok)];
    }

    /** What coap_send_fn does with a reply: the next group, another round, or the end. */
    method TakeReply(group: nat, x: nat, last: nat, tries: nat, ev: Event, pload: array<byte>,
                     ghost s: SendState, ghost sent: seq<Attempt>, ghost bank: seq<MessagePayload>)
      returns (status: Status, group': nat, last': nat)
      requires pload.Length == 2 && Tracks(s, group, x, last, tries, pload[..], sent) && x > last
      requires group < GROUPS
      modifies pload
      ensures var s' := Step(s, ev, bank);
        && (s'.status == Delivered ==> group' == GROUPS)
        && status == (if s'.status == Delivered then Running else s'.status)
        && s'.log == sent && s'.conToken == conToken
        && (s'.status == Running ==> group' < GROUPS && Tracks(s', group', 0, last', tries, pload[..], sent))
    {
      hide HighestClear, CheckList, Truthful, Received;
      status, group', last' := Running, group, last;
      if !ev.recvOk {
        status := Broken;
        return;
      }
      var failed := ClientHandleGetResponse(ev.datagram, ev.stale, pload);
      if failed {
        status := if tries < MAX_TRIES then Running else Broken;
        return;
      }
      var bitmap := Received(pload[0], pload[1]);
      if bitmap == ALL_RECEIVED {
        last' := GROUP - 1;
        group' := group + 1;
        pload[0], pload[1] := 0, 0;
        NothingReceived();
      } else if tries < MAX_TRIES {
        last' := GetmsgCount(bitmap);
        status := if last' == 255 then Runaway else Running;
      } else {
        status := Broken;
      }
    }

    lemma NothingReceived()
      ensures Received(0, 0) == 0
    {
    }

    lemma StartTracks()
      ensures Tracks(Start(conToken), 0, 0, GROUP - 1, 0, [0, 0], [])
    {
    }

    /** The inner loop: one round over the group. It stops early when the script ends or the device
        restarts. */
    method SendRound(row: array<MessagePayload>, group: nat, last: nat, tries0: nat, pload: array<byte>,
                     script: seq<Event>, start: nat, sent0: seq<Attempt>, ghost con0: uint16)
      returns (status: Status, over: bool, tries: nat, pos: nat, sent: seq<Attempt>)
      requires row.Length == PAYLOAD_COUNT && pload.Length == 2 && start <= |script|
      requires Tracks(RunSend(con0, script[..start], row[..]), group, 0, last, tries0, pload[..], sent0)
      modifies this
      ensures start <= pos <= |script|
      ensures var s := RunSend(con0, script[..pos], row[..]);
        && status == s.status && sent == s.log && conToken == s.conToken
        && (over ==> status == Restarted || pos == |script|)
        && (!over ==> Tracks(s, group, last + 1, last, tries, pload[..], sent))
    {
      hide Inv, Step, RunSend, CheckList, Received;
      tries, pos, sent := tries0, start, sent0;
      var reconnected := false;
      ghost var bank := row[..];
      var x := 0;
      while x < last + 1
        invariant start <= pos <= |script| && x <= last + 1
        invariant Tracks(RunSend(con0, script[..pos], bank), group, x, last, tries, pload[..], sent)
        decreases |script| - pos
      {
        if pos == |script| { return Running, true, tries, pos, sent; }
        var ev := script[pos];
        ghost var s := RunSend(con0, script[..pos], bank);
        RunOneMore(con0, script, pos, bank);
        pos := pos + 1;
        if CheckList(Received(pload[0], pload[1]), x) {
          StepSkips(s, ev, bank);
          x := x + 1;
        } else {
          var ok: bool;
          ok, sent := SendAndWait(row, group, x, last, tries, ev, sent, s, pload[..]);
          if ok {
            x := x + 1;
          } else if tries < MAX_TRIES {
            tries := tries + 1;
          } else if tries == 4 && !reconnected {
            TriesBound(s, bank);
            assert false;
          } else {
            return Restarted, true, tries, pos, sent;
          }
        }
      }
      status, over := Running, false;
    }

    /** One pass of the outer loop: a round and its reply. */
    method RoundAndReply(row: array<MessagePayload>, group: nat, last: nat, tries0: nat, pload: array<byte>,
                         script: seq<Event>, start: nat, sent0: seq<Attempt>, ghost con0: uint16)
      returns (status: Status, over: bool, group': nat, last': nat, tries: nat, pos: nat, sent: seq<Attempt>)
      requires row.Length == PAYLOAD_COUNT && pload.Length == 2 && start <= |script| && group < GROUPS
      requires Tracks(RunSend(con0, script[..start], row[..]), group, 0, last, tries0, pload[..], sent0)
      modifies this, pload
      ensures pos <= |script| && (!over ==> start < pos)
      ensures var s := RunSend(con0, script[..pos], row[..]);
        && sent == s.log && conToken == s.conToken
        && (over ==> status == s.status && (status != Running || pos == |script|))
        && (!over ==> if group' < GROUPS then Tracks(s, group', 0, last', tries, pload[..], sent)
                      else s.status == Delivered)
    {
      hide Inv, Step, RunSend, Received, Tracks;
      group', last' := group, last;
      status, over, tries, pos, sent := SendRound(row, group, last, tries0, pload, script, start, sent0, con0);
      if over || pos == |script| {
        over := true;
        return;
      }
      var ev := script[pos];
      ghost var s := RunSend(con0, script[..pos], row[..]);
      RunOneMore(con0, script, pos, row[..]);
      pos := pos + 1;
      status, group', last' := TakeReply(group, last + 1, last, tries, ev, pload, s, sent, row[..]);
      over := status != Running;
    }

    /** The outer loop: group after group. */
    method SendBank(row: array<MessagePayload>, script: seq<Event>) returns (status: Status, sent: seq<Attempt>)
      requires row.Length == PAYLOAD_COUNT
      modifies this
      ensures var s := RunSend(old(conToken), script, row[..]);
              status == s.status && sent == s.log && conToken == s.conToken
    {
      RunStart(conToken, row[..]);
      StartTracks();
      hide RunSend, Tracks;
      var tries: nat, lastMsg: nat, group: nat, pos: nat, over := 0, GROUP - 1, 0, 0, false;
      var recvPayload := new byte[2](_ => 0);
      ghost var bank, con0 := row[..], conToken;
      sent := [];
      assert script[..0] == [] && recvPayload[..] == [0, 0];
      while group < GROUPS
        invariant recvPayload.Length == 2 && pos <= |script|
        invariant var s := RunSend(con0, script[..pos], bank);
          && s.log == sent && s.conToken == conToken
          && if group < GROUPS then Tracks(s, group, 0, lastMsg, tries, recvPayload[..], sent)
             else s.status == Delivered
        decreases |script| - pos
      {
        status, over, group, lastMsg, tries, pos, sent :=
          RoundAndReply(row, group, lastMsg, tries, recvPayload, script, pos, sent, con0);
        if over {
          RunEnds(con0, script, pos, bank);
          return;
        }
      }
      RunEnds(con0, script, pos, bank);
      status := Delivered;
    }

    /** coap_send_fn: sends the bank that is not being filled. The run is watched for as many steps as
        the network script lasts; it is the run of the state machine over these steps. */
    method CoapSendFn(banks: SharedBanks, script: seq<Event>) returns (status: Status, sent: seq<Attempt>)
      requires banks.Valid()
      modifies this, banks`sendFlag
      ensures banks.Valid() && !banks.sendFlag
      ensures var s := RunSend(old(conToken), script, banks.Bank(1 - banks.msgIndex));
              status == s.status && sent == s.log && conToken == s.conToken
    {
      hide BanksOk, Filled, BankIndex, RunSend;
      banks.sendFlag := false;
      var row := banks.Row(if banks.msgIndex == 1 then 0 else 1);
      assert row[..] == banks.Bank(1 - banks.msgIndex) && row.Length == PAYLOAD_COUNT;
      status, sent := SendBank(row, script);
    }
  }
}
