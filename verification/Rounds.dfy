/** What a sending run does, told from its network events alone: which replies count, which messages each
    round resends, what every attempt stands for, and how each reply is answered. */
module Rounds {
  import opened Bits
  import opened Matching
  import opened Banks
  import opened Sender

  /** What a datagram says when a token is awaited, in the bytes of the packet. */
  datatype Reply = NoReply | Reply(bits: nat)

  function ReplyBits(token: nat, d: Datagram, stale: byte): Reply {
    if d.Malformed? || |d.token| != 2 || (d.token[0] as int) + 256 * (d.token[1] as int) != token then NoReply
    else if d.code == 0x41 then Reply(0x3FF)
    else if d.code != 0x80 then NoReply
    else if |d.payload| == 0 then Reply(0x400)
    else Reply((d.payload[0] as int) + 256 * (if |d.payload| == 1 then stale else d.payload[1]) as int)
  }

  lemma RepliesAgree(token: uint16, d: Datagram, stale: byte)
    ensures match ReplyBits(token, d, stale)
            case NoReply => ReplyBitmap(token, d, stale) == Rejected
            case Reply(v) => v < 0x1_0000 && ReplyBitmap(token, d, stale) == Bitmap(v)
  {
    ReplyExactly(token, d, stale);
  }

  /** The bitmap leaves message p of the group to send. */
  predicate Clear(bits: nat, p: nat)
    requires p < 10
  {
    bits / [1, 2, 4, 8, 16, 32, 64, 128, 256, 512][p] % 2 == 0
  }

  lemma {:induction false} ShrDivides(v: nat, p: nat, w: nat)
    requires p < 10 && w == [1, 2, 4, 8, 16, 32, 64, 128, 256, 512][p]
    ensures Shr(v, p) == v / w
  {
    if p > 0 {
      ShrDivides(v / 2, p - 1, w / 2);
      HalveFirst(v, p, w);
    }
  }

  lemma HalveFirst(v: nat, p: nat, w: nat)
    requires 1 <= p < 10 && w == [1, 2, 4, 8, 16, 32, 64, 128, 256, 512][p]
    ensures v / 2 / (w / 2) == v / w
  {
    if p == 1 {
    } else if p == 2 {
    } else if p == 3 {
    } else if p == 4 {
    } else if p == 5 {
    } else if p == 6 {
    } else if p == 7 {
    } else if p == 8 {
    } else {
    }
  }

  lemma ClearIs(bits: nat, p: nat)
    requires p < 10
    ensures Clear(bits, p) <==> !CheckList(bits, p)
  {
    ShrDivides(bits, p, [1, 2, 4, 8, 16, 32, 64, 128, 256, 512][p]);
  }

  // ----- rounds within a run

  /** The round is over and a reply is taken. */
  predicate AtReply(s: SendState) {
    s.status == Running && s.x > s.last
  }

  /** What the reply says that is taken after a round. */
  function ReplyAt(s: SendState, ev: Event): Reply {
    if AtReply(s) && ev.recvOk then ReplyBits(10 * s.group + s.last, ev.datagram, ev.stale) else NoReply
  }

  /** The last bitmap that has counted for the group now being sent. */
  function GroupReply(conToken: uint16, evs: seq<Event>, bank: seq<MessagePayload>): Reply {
    if evs == [] then NoReply
    else
      var before, ev := evs[..|evs| - 1], evs[|evs| - 1];
      match ReplyAt(RunSend(conToken, before, bank), ev)
      case NoReply => GroupReply(conToken, before, bank)
      case Reply(bits) => if bits == 0x3FF then NoReply else Reply(bits)
  }

  /** How many events lie before the current round. */
  function RoundStart(conToken: uint16, evs: seq<Event>, bank: seq<MessagePayload>): (r: nat)
    ensures r <= |evs|
  {
    if evs == [] then 0
    else
      var before := evs[..|evs| - 1];
      if AtReply(RunSend(conToken, before, bank)) then |evs| else RoundStart(conToken, before, bank)
  }

  /** The attempts of the current round. */
  function RoundLog(conToken: uint16, evs: seq<Event>, bank: seq<MessagePayload>): seq<Attempt> {
    var all, old_ := RunSend(conToken, evs, bank).log,
                     RunSend(conToken, evs[..RoundStart(conToken, evs, bank)], bank).log;
    if |old_| <= |all| then all[|old_|..] else []
  }

  /** The log only grows by attempts. */
  lemma StepLog(s: SendState, ev: Event, bank: seq<MessagePayload>)
    ensures var s' := Step(s, ev, bank);
      if s.status == Running && s.x <= s.last && !CheckList(s.bitmap, s.x)
      then s'.log == s.log + [s'.log[|s.log|]] && s'.round == s.round + [s'.log[|s.log|]]
      else s'.log == s.log && (s'.round == s.round || (AtReply(s) && s'.round == []))
    ensures AtReply(s) && Step(s, ev, bank).status == Running ==> Step(s, ev, bank).round == []
  {
    hide CheckList, HighestClear, Truthful, ReplyBitmap;
  }

  lemma {:induction false} LogEndsWithRound(conToken: uint16, evs: seq<Event>, bank: seq<MessagePayload>)
    ensures var s, start := RunSend(conToken, evs, bank), RoundStart(conToken, evs, bank);
      s.status == Running ==> s.log == RunSend(conToken, evs[..start], bank).log + s.round
    ensures RunSend(conToken, evs, bank).status == Running ==>
      RoundLog(conToken, evs, bank) == RunSend(conToken, evs, bank).round
  {
    hide Step;
    if evs != [] {
      var n := |evs| - 1;
      var before, ev := evs[..n], evs[n];
      LogEndsWithRound(conToken, before, bank);
      var s, start := RunSend(conToken, before, bank), RoundStart(conToken, before, bank);
      StepLog(s, ev, bank);
      StopsForGood(s, ev, bank);
      if AtReply(s) {
        assert evs[..|evs|] == evs;
      } else {
        assert evs[..start] == before[..start];
      }
    } else {
      assert evs[..0] == [];
    }
  }

  lemma StopsForGood(s: SendState, ev: Event, bank: seq<MessagePayload>)
    ensures s.status != Running ==> Step(s, ev, bank) == s
  {
  }

  /** How a reply changes the bitmap, in terms of what it says. */
  lemma ReplyStores(s: SendState, ev: Event, bank: seq<MessagePayload>)
    requires |bank| == PAYLOAD_COUNT && Inv(s, bank)
    ensures var s', r := Step(s, ev, bank), ReplyAt(s, ev);
      && (r.NoReply? ==> s'.bitmap == s.bitmap && s'.group == s.group)
      && (r.Reply? && r.bits == 0x3FF ==> s'.bitmap == 0 && s'.group == s.group + 1)
      && (r.Reply? && r.bits != 0x3FF ==> s'.bitmap == r.bits && s'.group == s.group)
  {
    hide CheckList, HighestClear, Truthful, FollowsPlan, Missing, OkCount, ReplyBitmap, ReplyBits, Failures, AllTried;
    if AtReply(s) {
      assert s.conToken == 10 * s.group + s.last;
      RepliesAgree(s.conToken, ev.datagram, ev.stale);
    }
  }

  /** The bitmap of a run is what the last reply that counted for the group has said. */
  lemma {:induction false} BitmapIsReply(conToken: uint16, evs: seq<Event>, bank: seq<MessagePayload>)
    requires |bank| == PAYLOAD_COUNT
    ensures RunSend(conToken, evs, bank).bitmap == match GroupReply(conToken, evs, bank)
                                                  case NoReply => 0
                                                  case Reply(bits) => bits
  {
    hide Step, Inv, ReplyAt;
    if evs != [] {
      var n := |evs| - 1;
      BitmapIsReply(conToken, evs[..n], bank);
      RunKeepsInv(conToken, evs[..n], bank);
      ReplyStores(RunSend(conToken, evs[..n], bank), evs[n], bank);
    }
  }

  /** The messages of a group that a reply leaves to send: all of them if there was none. */
  predicate LeftToSend(r: Reply, p: nat)
    requires p < 10
  {
    r.NoReply? || Clear(r.bits, p)
  }

  lemma LeftIsMissing(conToken: uint16, evs: seq<Event>, bank: seq<MessagePayload>, p: nat)
    requires |bank| == PAYLOAD_COUNT && p < 10
    ensures LeftToSend(GroupReply(conToken, evs, bank), p) <==>
              p in Missing(RunSend(conToken, evs, bank).bitmap, GROUP)
  {
    hide RunSend, GroupReply, CheckList;
    BitmapIsReply(conToken, evs, bank);
    MissingIs(RunSend(conToken, evs, bank).bitmap, GROUP);
    var r := GroupReply(conToken, evs, bank);
    if r.Reply? {
      ClearIs(r.bits, p);
    } else {
      ZeroBit(p);
    }
  }

  predicate Ascending(plan: seq<nat>) {
    forall a, b :: 0 <= a < b < |plan| ==> plan[a] < plan[b]
  }

  /** The slots of a group that a reply leaves to send, in ascending order. */
  ghost predicate FillsGaps(sent: seq<nat>, group: nat, r: Reply) {
    && Ascending(sent)
    && (forall i :: i in sent ==> 10 * group <= i < 10 * group + 10 && LeftToSend(r, i - 10 * group))
    && (forall p: nat :: p < 10 && LeftToSend(r, p) ==> 10 * group + p in sent)
  }

  lemma SlotInPlan(group: nat, plan: seq<nat>, i: nat)
    ensures i in Indices(group, plan) <==> i >= 10 * group && i - 10 * group in plan
  {
    var sent := Indices(group, plan);
    if i in sent {
      var k :| 0 <= k < |sent| && sent[k] == i;
      assert plan[k] == i - 10 * group;
    }
    if i >= 10 * group && i - 10 * group in plan {
      var k :| 0 <= k < |plan| && plan[k] == i - 10 * group;
      assert sent[k] == i;
    }
  }

  lemma PlanFillsGaps(group: nat, plan: seq<nat>, r: Reply)
    requires Ascending(plan) && forall p :: p in plan ==> p < 10
    requires forall p: nat :: p < 10 ==> (LeftToSend(r, p) <==> p in plan)
    ensures FillsGaps(Indices(group, plan), group, r)
  {
    hide LeftToSend, Indices, Ascending;
    var sent := Indices(group, plan);
    forall i | i in sent ensures 10 * group <= i < 10 * group + 10 && LeftToSend(r, i - 10 * group) {
      SlotInPlan(group, plan, i);
    }
    forall p: nat | p < 10 && LeftToSend(r, p) ensures 10 * group + p in sent {
      SlotInPlan(group, plan, 10 * group + p);
    }
    SlotsAscend(group, plan);
  }

  lemma SlotsAscend(group: nat, plan: seq<nat>)
    requires Ascending(plan)
    ensures Ascending(Indices(group, plan))
  {
  }

  lemma LastOfPlan(group: nat, plan: seq<nat>, last: nat)
    requires Ascending(plan) && last in plan && forall p :: p in plan ==> p <= last
    ensures var sent := Indices(group, plan); sent != [] && sent[|sent| - 1] == 10 * group + last
  {
    var k :| 0 <= k < |plan| && plan[k] == last;
    assert plan[|plan| - 1] in plan;
  }

  /** Whenever a round is over, the messages it has sent successfully are exactly those of the group that
      the last reply which counted has left to send, or all ten if there was none, in ascending order;
      exactly the attempts for the highest of them were confirmable, and the reply is awaited under its
      number. */
  lemma RoundsFillTheGaps(conToken: uint16, evs: seq<Event>, bank: seq<MessagePayload>)
    requires |bank| == PAYLOAD_COUNT && AtReply(RunSend(conToken, evs, bank))
    ensures var s, log := RunSend(conToken, evs, bank), RoundLog(conToken, evs, bank);
      var sent := OkIndices(log);
      && FillsGaps(sent, s.group, GroupReply(conToken, evs, bank))
      && sent != [] && s.conToken == sent[|sent| - 1] == 10 * s.group + s.last
      && forall a :: a in log ==> (a.con <==> a.index == sent[|sent| - 1])
  {
    hide RunSend, GroupReply, CheckList, LeftToSend, OkIndices, RoundLog, Inv, FollowsPlan, HighestClear, FillsGaps,
         Missing, Indices;
    var s := RunSend(conToken, evs, bank);
    RunKeepsInv(conToken, evs, bank);
    RoundIsComplete(s, bank);
    LogEndsWithRound(conToken, evs, bank);
    MissingIs(s.bitmap, GROUP);
    var plan := Missing(s.bitmap, GROUP);
    forall p: nat | p < 10 ensures LeftToSend(GroupReply(conToken, evs, bank), p) <==> p in plan {
      LeftIsMissing(conToken, evs, bank, p);
    }
    PlanFillsGaps(s.group, plan, GroupReply(conToken, evs, bank));
    LastOfPlan(s.group, plan, s.last);
  }

  // ----- attempts

  /** Failures counts the attempts that did not succeed. */
  lemma {:induction false} FailuresAre(log: seq<Attempt>)
    ensures Failures(log) == |set k | 0 <= k < |log| && !log[k].ok|
  {
    var failed := set k | 0 <= k < |log| && !log[k].ok;
    if log == [] {
      assert failed == {};
    } else {
      var n := |log| - 1;
      FailuresAre(log[..n]);
      var before := set k | 0 <= k < n && !log[..n][k].ok;
      assert failed == before + if log[n].ok then {} else {n};
    }
  }

  /** Event k is the sending of message m. */
  ghost predicate SentAt(conToken: uint16, evs: seq<Event>, bank: seq<MessagePayload>, k: nat, m: nat)
    requires k < |evs|
  {
    var log, log' := RunSend(conToken, evs[..k], bank).log, RunSend(conToken, evs[..k + 1], bank).log;
    |log'| == |log| + 1 && log'[..|log|] == log && log'[|log|].index == m
  }

  /** Every event of a run that takes a message of the group whose turn it is sends this message or skips
      it, and every other event of the run takes a reply; an attempt succeeds exactly when the event lets
      both sending and waiting succeed, and the message arrives exactly when the event lets it arrive. */
  lemma AttemptsFollowEvents(conToken: uint16, evs: seq<Event>, k: nat, bank: seq<MessagePayload>)
    requires k < |evs| && |bank| == PAYLOAD_COUNT
    ensures var s, s', r := RunSend(conToken, evs[..k], bank), RunSend(conToken, evs[..k + 1], bank),
                            GroupReply(conToken, evs[..k], bank);
      if s.status == Running && s.x <= s.last && s.x < 10 && LeftToSend(r, s.x) then
        var m := 10 * s.group + s.x;
        && SentAt(conToken, evs, bank, k, m)
        && s'.log[|s.log|].ok == (evs[k].sendOk && evs[k].waitOk)
        && s'.arrived == (if evs[k].arrived then s.arrived + {m} else s.arrived)
      else s'.log == s.log && s'.arrived == s.arrived
    ensures var s, s', r := RunSend(conToken, evs[..k], bank), RunSend(conToken, evs[..k + 1], bank),
                            GroupReply(conToken, evs[..k], bank);
      s.status == Running && s.x <= s.last ==>
        && s.x < 10 && s'.group == s.group && s'.last == s.last
        && s'.x == if LeftToSend(r, s.x) && !(evs[k].sendOk && evs[k].waitOk) then s.x else s.x + 1
  {
    hide Inv, CheckList, HighestClear, Truthful, ReplyBitmap, GroupReply, LeftToSend, RunSend;
    var s := RunSend(conToken, evs[..k], bank);
    RunKeepsInv(conToken, evs[..k], bank);
    RunOneMore(conToken, evs, k, bank);
    RunningBounds(s, bank);
    if s.status == Running && s.x <= s.last {
      LeftIsBit(conToken, evs[..k], bank, s.x);
    }
  }

  lemma RunningBounds(s: SendState, bank: seq<MessagePayload>)
    requires |bank| == PAYLOAD_COUNT && Inv(s, bank)
    ensures s.status == Running ==> s.last < 10 && s.group < 6
  {
    hide FollowsPlan, HighestClear, Missing, OkCount, AllTried;
  }

  lemma LeftIsBit(conToken: uint16, evs: seq<Event>, bank: seq<MessagePayload>, p: nat)
    requires |bank| == PAYLOAD_COUNT && p < 10
    ensures LeftToSend(GroupReply(conToken, evs, bank), p) <==> !CheckList(RunSend(conToken, evs, bank).bitmap, p)
  {
    hide RunSend, GroupReply, CheckList;
    BitmapIsReply(conToken, evs, bank);
    var r := GroupReply(conToken, evs, bank);
    if r.Reply? {
      ClearIs(r.bits, p);
    } else {
      ZeroBit(p);
    }
  }

  /** A message has arrived exactly when one of its attempts was let arrive. */
  lemma {:induction false} ArrivedIs(conToken: uint16, evs: seq<Event>, bank: seq<MessagePayload>, m: nat)
    requires |bank| == PAYLOAD_COUNT
    ensures m in RunSend(conToken, evs, bank).arrived <==>
              exists k :: 0 <= k < |evs| && evs[k].arrived && SentAt(conToken, evs, bank, k, m)
  {
    hide RunSend, SentAt, GroupReply, LeftToSend;
    if evs == [] {
      NothingArrived(conToken, bank);
    } else {
      var n := |evs| - 1;
      var before := evs[..n];
      ArrivedIs(conToken, before, bank, m);
      AttemptsFollowEvents(conToken, evs, n, bank);
      assert evs[..n + 1] == evs;
      forall k | 0 <= k < n ensures SentAt(conToken, before, bank, k, m) == SentAt(conToken, evs, bank, k, m) {
        SentEarlier(conToken, evs, n, bank, k, m);
      }
      SentOnce(conToken, evs, bank, n, m);
      if m in RunSend(conToken, before, bank).arrived {
        var k :| 0 <= k < n && before[k].arrived && SentAt(conToken, before, bank, k, m);
        assert evs[k].arrived && SentAt(conToken, evs, bank, k, m);
      }
      if k: nat :| k < |evs| && evs[k].arrived && SentAt(conToken, evs, bank, k, m) {
        if k < n {
          assert before[k].arrived && SentAt(conToken, before, bank, k, m);
        }
      }
    }
  }

  lemma NothingArrived(conToken: uint16, bank: seq<MessagePayload>)
    ensures RunSend(conToken, [], bank).arrived == {}
  {
  }

  lemma SentEarlier(conToken: uint16, evs: seq<Event>, n: nat, bank: seq<MessagePayload>, k: nat, m: nat)
    requires k < n <= |evs|
    ensures SentAt(conToken, evs[..n], bank, k, m) == SentAt(conToken, evs, bank, k, m)
  {
    hide RunSend;
    assert evs[..n][..k] == evs[..k] && evs[..n][..k + 1] == evs[..k + 1];
  }

  /** An event sends at most one message, and none if the log stays the same. */
  lemma SentOnce(conToken: uint16, evs: seq<Event>, bank: seq<MessagePayload>, k: nat, m: nat)
    requires k < |evs|
    ensures RunSend(conToken, evs[..k + 1], bank).log == RunSend(conToken, evs[..k], bank).log ==>
              !SentAt(conToken, evs, bank, k, m)
    ensures forall m': nat :: SentAt(conToken, evs, bank, k, m) && SentAt(conToken, evs, bank, k, m') ==> m == m'
  {
    hide RunSend;
  }

  // ----- replies

  /** The reply to event k told the truth: everything it reports as received has arrived. */
  ghost predicate TrueAt(conToken: uint16, evs: seq<Event>, bank: seq<MessagePayload>, k: nat)
    requires k < |evs|
  {
    var s := RunSend(conToken, evs[..k], bank);
    var r := ReplyAt(s, evs[k]);
    r.Reply? ==> forall p: nat :: p < 10 && !Clear(r.bits, p) ==> 10 * s.group + p in s.arrived
  }

  /** A run is honest exactly when each of its replies that counted told the truth. */
  lemma {:induction false} HonestIs(conToken: uint16, evs: seq<Event>, bank: seq<MessagePayload>)
    requires |bank| == PAYLOAD_COUNT
    ensures RunSend(conToken, evs, bank).honest <==> forall k :: 0 <= k < |evs| ==> TrueAt(conToken, evs, bank, k)
  {
    hide RunSend, TrueAt, Step;
    if evs == [] {
      HonestAtFirst(conToken, bank);
    } else {
      var n := |evs| - 1;
      var before := evs[..n];
      HonestIs(conToken, before, bank);
      HonestStep(conToken, evs, n, bank);
      assert evs[..n + 1] == evs;
      forall k | 0 <= k < n ensures TrueAt(conToken, before, bank, k) == TrueAt(conToken, evs, bank, k) {
        TrueEarlier(conToken, evs, n, bank, k);
      }
    }
  }

  lemma HonestAtFirst(conToken: uint16, bank: seq<MessagePayload>)
    ensures RunSend(conToken, [], bank).honest
  {
  }

  lemma TrueEarlier(conToken: uint16, evs: seq<Event>, n: nat, bank: seq<MessagePayload>, k: nat)
    requires k < n <= |evs|
    ensures TrueAt(conToken, evs[..n], bank, k) == TrueAt(conToken, evs, bank, k)
  {
    hide RunSend, ReplyAt, Clear;
    assert evs[..n][..k] == evs[..k];
  }

  lemma HonestStep(conToken: uint16, evs: seq<Event>, k: nat, bank: seq<MessagePayload>)
    requires k < |evs| && |bank| == PAYLOAD_COUNT
    ensures RunSend(conToken, evs[..k + 1], bank).honest <==>
              RunSend(conToken, evs[..k], bank).honest && TrueAt(conToken, evs, bank, k)
  {
    hide Inv, CheckList, HighestClear, ReplyBitmap, RunSend, Clear, ReplyBits, Truthful;
    var s := RunSend(conToken, evs[..k], bank);
    RunKeepsInv(conToken, evs[..k], bank);
    RunOneMore(conToken, evs, k, bank);
    AwaitsToken(s, bank);
    if AtReply(s) {
      RepliesAgree(s.conToken, evs[k].datagram, evs[k].stale);
      var r := ReplyAt(s, evs[k]);
      if r.Reply? {
        TruthIs(r.bits, s.group, s.arrived);
      }
    }
  }

  lemma AwaitsToken(s: SendState, bank: seq<MessagePayload>)
    requires |bank| == PAYLOAD_COUNT && Inv(s, bank)
    ensures AtReply(s) ==> s.conToken == 10 * s.group + s.last
  {
    hide FollowsPlan, HighestClear, Missing, OkCount, AllTried;
  }

  lemma TruthIs(bits: nat, group: nat, arrived: set<int>)
    ensures Truthful(bits, group, arrived) <==>
              forall p: nat :: p < 10 && !Clear(bits, p) ==> 10 * group + p in arrived
  {
    hide CheckList, Clear;
    forall p: nat | p < 10 ensures Clear(bits, p) <==> !CheckList(bits, p) {
      ClearIs(bits, p);
    }
    if Truthful(bits, group, arrived) {
      forall p: nat | p < 10 && !Clear(bits, p) ensures 10 * group + p in arrived {
        assert CheckList(bits, p) && Index(group, p) == 10 * group + p;
      }
    }
  }

  /** How the reply taken after a round is answered: a full acknowledgement goes on to the next group or
      ends the run; a rejected reply repeats the round, and a partial one starts a round of the gaps, as
      long as fewer than three attempts have failed; a partial reply without gaps sends the run astray. */
  lemma RepliesDecide(conToken: uint16, evs: seq<Event>, k: nat, bank: seq<MessagePayload>)
    requires k < |evs| && |bank| == PAYLOAD_COUNT && AtReply(RunSend(conToken, evs[..k], bank))
    ensures var s, s', r := RunSend(conToken, evs[..k], bank), RunSend(conToken, evs[..k + 1], bank),
                            ReplyBits(10 * RunSend(conToken, evs[..k], bank).group
                                      + RunSend(conToken, evs[..k], bank).last, evs[k].datagram, evs[k].stale);
      if !evs[k].recvOk then s'.status == Broken
      else if r == Reply(0x3FF) then
        s'.group == s.group + 1 && s'.x == 0 && s'.status == if s.group == 5 then Delivered else Running
      else if Failures(s.log) >= 3 then s'.status == Broken
      else if r.NoReply? then s'.status == Running && s'.x == 0 && s'.last == s.last && s'.group == s.group
      else
        && s'.group == s.group && s'.x == 0
        && (s'.status == Running <==> exists p: nat :: p < 10 && Clear(r.bits, p))
        && (s'.status != Running ==> s'.status == Runaway)
  {
    hide CheckList, HighestClear, ReplyBitmap, RunSend, Clear, ReplyBits, Truthful, Failures, FollowsPlan, Missing,
         OkCount, AllTried;
    var s := RunSend(conToken, evs[..k], bank);
    RunKeepsInv(conToken, evs[..k], bank);
    RunOneMore(conToken, evs, k, bank);
    AwaitsToken(s, bank);
    RepliesAgree(s.conToken, evs[k].datagram, evs[k].stale);
    var r := ReplyBits(10 * s.group + s.last, evs[k].datagram, evs[k].stale);
    if r.Reply? {
      GapsRemain(r.bits);
    }
  }

  lemma GapsRemain(bits: nat)
    ensures HighestClear(bits, GROUP) != 255 <==> exists p: nat :: p < 10 && Clear(bits, p)
  {
    hide CheckList, Clear;
    HighestClearIs(bits, GROUP);
    var h := HighestClear(bits, GROUP);
    hide HighestClear;
    forall p: nat | p < 10 ensures Clear(bits, p) <==> !CheckList(bits, p) {
      ClearIs(bits, p);
    }
    if h != 255 {
      assert Clear(bits, h);
    }
  }
}
