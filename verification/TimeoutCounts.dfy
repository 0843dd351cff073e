/** What stacking does to the counts of a user's timeouts, one call and whole runs. */
module TimeoutCounts {
  import opened Sequences
  import opened Messages
  import opened QueueSpec
  import opened Stacking
  import opened ChannelRuns

  function Counted(x: MessageData, user: string): nat {
    if TimeoutOf(x, user) then x.count else 0
  }

  /** The sum of `count` over a user's Timeout messages. */
  function CountOf(s: seq<MessageData>, user: string): nat {
    if s == [] then 0 else Counted(s[0], user) + CountOf(s[1..], user)
  }

  lemma {:induction false} CountConcat(s: seq<MessageData>, t: seq<MessageData>, user: string)
    ensures CountOf(s + t, user) == CountOf(s, user) + CountOf(t, user)
  {
    if s == [] {
      assert s + t == t;
    } else {
      ConcatTail(s, t);
      CountConcat(s[1..], t, user);
    }
  }

  lemma CountAround(front: seq<MessageData>, x: MessageData, back: seq<MessageData>, user: string)
    ensures CountOf(front + [x] + back, user) == CountOf(front, user) + Counted(x, user) + CountOf(back, user)
  {
    CountConcat(front + [x], back, user);
    CountConcat(front, [x], user);
    assert CountOf([x], user) == Counted(x, user);
  }

  lemma CountReplaced(s: seq<MessageData>, i: nat, x: MessageData, user: string)
    requires i < |s|
    ensures CountOf(s[i := x], user) == CountOf(s, user) - Counted(s[i], user) + Counted(x, user)
  {
    Sequences.Split(s, i);
    Updated(s, i, x);
    CountAround(s[..i], s[i], s[i + 1..], user);
    CountAround(s[..i], x, s[i + 1..], user);
  }

  lemma {:induction false} CountSame(s: seq<MessageData>, t: seq<MessageData>, user: string)
    requires |s| == |t| && forall i :: 0 <= i < |s| ==> Counted(s[i], user) == Counted(t[i], user)
    ensures CountOf(s, user) == CountOf(t, user)
  {
    if s != [] {
      CountSame(s[1..], t[1..], user);
    }
  }

  /** What an append to a full queue takes away: the count of the oldest message. */
  function FirstOut(s: seq<MessageData>, limit: nat, o: Outcome, user: string): nat {
    if o.Append? && |s| == limit && s != [] then Counted(s[0], user) else 0
  }

  function Gain(s: seq<MessageData>, m: MessageData, o: Outcome): int
    requires o.ReplaceAt? ==> o.index < |s|
  {
    if o.Append? then m.count
    else if o.Drop? then 0
    else if (PubSub in m.flags) == (PubSub in s[o.index].flags) then 1
    else m.count - s[o.index].count
  }

  /** The exact change of a user's total made by one timeout of that user, in every case: a new
      entry brings its own count, stacking adds one, and meeting a timeout from the other source
      either replaces that one's count or leaves the total alone; an append to a full queue takes
      the oldest message's count away. */
  lemma TimeoutLedger(s: seq<MessageData>, limit: nat, m: MessageData, style: TimeoutStackStyle, now: int)
    requires |s| <= limit && 0 < limit && 0 <= now < DAY && Timeout in m.flags
    ensures var user, o := m.timeoutUser, TimeoutOutcome(s, m, style, now);
      CountOf(AfterTimeout(s, limit, m, style, now), user)
      == CountOf(s, user) + Gain(s, m, o) - FirstOut(s, limit, o, user)
  {
    GainIsTheDifference(s, m, style, now);
    ApplyAfterDisable(s, limit, m, TimeoutOutcome(s, m, style, now), m.timeoutUser, m.timeoutUser);
  }

  function Difference(s: seq<MessageData>, m: MessageData, o: Outcome, user: string): int
    requires o.ReplaceAt? ==> o.index < |s|
  {
    if o.Append? then Counted(m, user)
    else if o.Drop? then 0
    else Counted(o.replacement, user) - Counted(s[o.index], user)
  }

  lemma GainIsTheDifference(s: seq<MessageData>, m: MessageData, style: TimeoutStackStyle, now: int)
    requires 0 <= now < DAY && Timeout in m.flags
    ensures var o := TimeoutOutcome(s, m, style, now); Gain(s, m, o) == Difference(s, m, o, m.timeoutUser)
  {
    TimeoutOutcomeFacts(s, m, style, now);
  }

  /** The queued timeout and the incoming one come from different sources, and one of them goes
      without being counted. */
  predicate LosesCount(x: MessageData, m: MessageData, style: TimeoutStackStyle) {
    if PubSub in m.flags then PubSub !in x.flags && x.count != 0
    else PubSub in x.flags && !style.DontStack?
  }

  /** The queued timeout that the incoming one meets, if any, is not one of another source that
      takes or loses a count. */
  ghost predicate MeetsNoLoss(s: seq<MessageData>, m: MessageData, style: TimeoutStackStyle, now: int)
    requires 0 <= now < DAY
  {
    forall k: nat :: Meets(s, k, m, style, now) ==> !LosesCount(s[k], m, style)
  }

  /** One timeout adds one to the user's total, eviction aside, exactly when it meets no loss, and
      never more. */
  lemma CountedExactlyWhen(s: seq<MessageData>, limit: nat, m: MessageData, style: TimeoutStackStyle, now: int)
    requires |s| <= limit && 0 < limit && 0 <= now < DAY && Timeout in m.flags && m.count == 1
    ensures var user := m.timeoutUser;
      var total := CountOf(AfterTimeout(s, limit, m, style, now), user)
        + FirstOut(s, limit, TimeoutOutcome(s, m, style, now), user);
      && total <= CountOf(s, user) + 1
      && (total == CountOf(s, user) + 1 <==> MeetsNoLoss(s, m, style, now))
  {
    TimeoutLedger(s, limit, m, style, now);
    GainIsOne(s, m, style, now);
  }

  lemma GainIsOne(s: seq<MessageData>, m: MessageData, style: TimeoutStackStyle, now: int)
    requires 0 <= now < DAY && m.count == 1
    ensures var gain := Gain(s, m, TimeoutOutcome(s, m, style, now));
      gain <= 1 && (gain == 1 <==> MeetsNoLoss(s, m, style, now))
  {
    TimeoutSearchDecides(s, |s| - 1, m, style, now);
    var o := TimeoutOutcome(s, m, style, now);
    assert forall k: nat :: Meets(s, k, m, style, now) ==> o == MeetTimeout(k, s[k], m, style, now);
    if n: nat :| Meets(s, n, m, style, now) {
      assert Gain(s, m, o) == 1 <==> !LosesCount(s[n], m, style);
    }
  }

  lemma CountPushed(s: seq<MessageData>, limit: nat, m: MessageData, user: string)
    requires |s| <= limit && 0 < limit
    ensures CountOf(PushedBack(s, limit, m), user)
         == CountOf(s, user) + Counted(m, user) - FirstOut(s, limit, Append, user)
  {
    if |s| < limit {
      CountConcat(s, [m], user);
      assert PushedBack(s, limit, m) == s + [m];
    } else {
      CountConcat(s[1..], [m], user);
      assert PushedBack(s, limit, m) == s[1..] + [m];
    }
  }

  lemma ApplyAfterDisable(s: seq<MessageData>, limit: nat, m: MessageData, o: Outcome, disabled: string, user: string)
    requires |s| <= limit && 0 < limit && (o.ReplaceAt? ==> o.index < |s|)
    ensures CountOf(Apply(DisableUserIn(s, disabled), limit, m, o), user)
         == CountOf(s, user) + Difference(s, m, o, user) - FirstOut(s, limit, o, user)
  {
    var s' := DisableUserIn(s, disabled);
    CountSame(s, s', user);
    match o
    case Append => CountPushed(s', limit, m, user);
    case Drop =>
    case ReplaceAt(k, r) => CountReplaced(s', k, r, user);
  }

  // ---------------------------------------------------------------------------------------
  // Whole runs, on a queue of any fill and with timeouts of any source
  // ---------------------------------------------------------------------------------------

  /** The timeouts of the user that an operation brings in. */
  function Received(op: Op, user: string): nat {
    match op
    case Add(m) => Counted(m, user)
    case AddTimeout(m, _, _) => Counted(m, user)
    case AddEvent(m, _) => Counted(m, user)
    case AddHistory(ms) => CountOf(ms, user)
    case _ => 0
  }

  function TotalReceived(ops: seq<Op>, user: string): nat {
    if ops == [] then 0
    else TotalReceived(ops[..|ops| - 1], user) + Received(ops[|ops| - 1], user)
  }

  /** The timeouts of the user that an operation pushes out of the queue or, for a history page,
      does not let in for lack of room. */
  function Evicted(s: seq<MessageData>, limit: nat, op: Op, user: string): nat
    requires |s| <= limit && op.Valid()
  {
    match op
    case Add(_) => FirstOut(s, limit, Append, user)
    case AddTimeout(m, style, now) => FirstOut(s, limit, TimeoutOutcome(s, m, style, now), user)
    case AddEvent(m, now) => FirstOut(s, limit, EventOutcome(s, m, now), user)
    case AddHistory(ms) => CountOf(ms[..|ms| - |LastN(ms, limit - |s|)|], user)
    case _ => 0
  }

  ghost function TotalEvicted(s: seq<MessageData>, limit: nat, ops: seq<Op>, user: string): nat
    requires |s| <= limit && ValidOps(ops)
  {
    if ops == [] then 0
    else
      var last := |ops| - 1;
      TotalEvicted(s, limit, ops[..last], user) + Evicted(Run(s, limit, ops[..last]), limit, ops[last], user)
  }

  /** Each of the user's timeouts is reported singly. */
  predicate Single(op: Op, user: string) {
    op.AddTimeout? && op.m.timeoutUser == user ==> Timeout in op.m.flags && op.m.count == 1
  }

  ghost predicate AllSingle(ops: seq<Op>, user: string) {
    forall op :: op in ops ==> Single(op, user)
  }

  ghost predicate Lossless(s: seq<MessageData>, op: Op, user: string)
    requires op.Valid()
  {
    op.AddTimeout? && op.m.timeoutUser == user ==> MeetsNoLoss(s, op.m, op.style, op.now)
  }

  /** At no step does a timeout of the user meet a loss. */
  ghost predicate LosslessRun(s: seq<MessageData>, limit: nat, ops: seq<Op>, user: string)
    requires |s| <= limit && ValidOps(ops)
  {
    ops != [] ==>
      var last := |ops| - 1;
      LosslessRun(s, limit, ops[..last], user) && Lossless(Run(s, limit, ops[..last]), ops[last], user)
  }

  lemma OthersTimeout(s: seq<MessageData>, limit: nat, m: MessageData, style: TimeoutStackStyle, now: int, user: string)
    requires |s| <= limit && 0 < limit && 0 <= now < DAY && m.timeoutUser != user
    ensures CountOf(AfterTimeout(s, limit, m, style, now), user)
      + FirstOut(s, limit, TimeoutOutcome(s, m, style, now), user) == CountOf(s, user)
  {
    TimeoutOutcomeFacts(s, m, style, now);
    var o := TimeoutOutcome(s, m, style, now);
    ApplyAfterDisable(s, limit, m, o, m.timeoutUser, user);
    assert Difference(s, m, o, user) == 0;
  }

  lemma EventKeepsCount(s: seq<MessageData>, limit: nat, m: MessageData, now: int, user: string)
    requires |s| <= limit && 0 < limit && 0 <= now < DAY && AllWellFormed(s) && WellFormed(m)
    ensures CountOf(AfterEvent(s, limit, m, now), user) + FirstOut(s, limit, EventOutcome(s, m, now), user)
         == CountOf(s, user) + Counted(m, user)
  {
    EventOutcomeFacts(s, m, now);
    var o := EventOutcome(s, m, now);
    if o.Append? {
      CountPushed(s, limit, m, user);
    } else {
      assert WellFormed(s[o.index]);
      CountReplaced(s, o.index, o.replacement, user);
    }
  }

  lemma HistoryCount(s: seq<MessageData>, limit: nat, ms: seq<MessageData>, user: string)
    requires |s| <= limit
    ensures CountOf(PushedFront(s, limit, ms), user) + CountOf(ms[..|ms| - |LastN(ms, limit - |s|)|], user)
         == CountOf(s, user) + CountOf(ms, user)
  {
    var kept := LastN(ms, limit - |s|);
    CountConcat(kept, s, user);
    CountConcat(ms[..|ms| - |kept|], kept, user);
    assert ms == ms[..|ms| - |kept|] + kept;
  }

  lemma StepCounts(s: seq<MessageData>, limit: nat, op: Op, user: string)
    requires |s| <= limit && 0 < limit && op.Valid() && AllWellFormed(s) && WellFormedOp(op) && Single(op, user)
    ensures var after, before := CountOf(Step(s, limit, op), user) + Evicted(s, limit, op, user),
        CountOf(s, user) + Received(op, user);
      after <= before && (after == before <==> Lossless(s, op, user))
  {
    match op
    case Add(m) => CountPushed(s, limit, m, user);
    case AddTimeout(m, style, now) =>
      if m.timeoutUser == user {
        CountedExactlyWhen(s, limit, m, style, now);
      } else {
        OthersTimeout(s, limit, m, style, now, user);
      }
    case AddEvent(m, now) => EventKeepsCount(s, limit, m, now, user);
    case AddHistory(ms) => HistoryCount(s, limit, ms, user);
    case DisableAll => CountSame(s, DisableAllIn(s), user);
    case Delete(id) => CountSame(s, Deleted(s, id), user);
  }

  lemma {:induction false} RunCounts(s: seq<MessageData>, limit: nat, ops: seq<Op>, user: string)
    requires |s| <= limit && 0 < limit && ValidOps(ops) && AllSingle(ops, user)
    requires AllWellFormed(s) && WellFormedOps(ops)
    ensures var after, before := CountOf(Run(s, limit, ops), user) + TotalEvicted(s, limit, ops, user),
        CountOf(s, user) + TotalReceived(ops, user);
      after <= before && (after == before <==> LosslessRun(s, limit, ops, user))
  {
    if ops != [] {
      var last := |ops| - 1;
      RunCounts(s, limit, ops[..last], user);
      RunWellFormed(s, limit, ops[..last]);
      StepCounts(Run(s, limit, ops[..last]), limit, ops[last], user);
    }
  }

  lemma {:induction false} NothingEvicted(s: seq<MessageData>, limit: nat, ops: seq<Op>, user: string)
    requires Fits(s, limit, ops) && ValidOps(ops)
    ensures TotalEvicted(s, limit, ops, user) == 0
  {
    if ops != [] {
      NothingEvicted(s, limit, ops[..|ops| - 1], user);
      RunSize(s, limit, ops[..|ops| - 1]);
    }
  }

  /** Over any run, with timeouts from any source and any other traffic in between: the counts in
      the queue and the evicted ones add up to the timeouts received exactly when no timeout met a
      loss. When everything fits nothing is evicted. */
  lemma CountsAddUpExactlyWhen(s: seq<MessageData>, limit: nat, ops: seq<Op>, user: string)
    requires |s| <= limit && 0 < limit && ValidOps(ops) && AllSingle(ops, user)
    requires AllWellFormed(s) && WellFormedOps(ops)
    ensures LosslessRun(s, limit, ops, user) <==>
      CountOf(Run(s, limit, ops), user) + TotalEvicted(s, limit, ops, user)
      == CountOf(s, user) + TotalReceived(ops, user)
    ensures Fits(s, limit, ops) ==> TotalEvicted(s, limit, ops, user) == 0
  {
    RunCounts(s, limit, ops, user);
    if Fits(s, limit, ops) {
      NothingEvicted(s, limit, ops, user);
    }
  }

  // ---------------------------------------------------------------------------------------
  // PubSub timeouts alone never meet a loss
  // ---------------------------------------------------------------------------------------

  /** The user's timeouts all come from PubSub, those to be stacked with count 1. */
  predicate PubSubOnly(x: MessageData, user: string) {
    TimeoutOf(x, user) ==> PubSub in x.flags
  }

  ghost predicate AllPubSub(s: seq<MessageData>, user: string) {
    forall x :: x in s ==> PubSubOnly(x, user)
  }

  predicate PubSubOp(op: Op, user: string) {
    match op
    case Add(m) => PubSubOnly(m, user)
    case AddTimeout(m, _, _) => m.timeoutUser == user ==> Timeout in m.flags && PubSub in m.flags && m.count == 1
    case AddEvent(m, _) => PubSubOnly(m, user)
    case AddHistory(ms) => forall x :: x in ms ==> PubSubOnly(x, user)
    case _ => true
  }

  ghost predicate PubSubOps(ops: seq<Op>, user: string) {
    forall op :: op in ops ==> PubSubOp(op, user)
  }

  lemma PubSubApplied(s: seq<MessageData>, limit: nat, m: MessageData, o: Outcome, user: string)
    requires |s| <= limit && AllPubSub(s, user) && PubSubOnly(m, user)
    requires o.ReplaceAt? ==> o.index < |s| && PubSubOnly(o.replacement, user)
    ensures AllPubSub(Apply(s, limit, m, o), user)
  {
    assert o.ReplaceAt? ==> forall x :: x in s[o.index := o.replacement] ==> x in s || x == o.replacement;
  }

  lemma StepKeepsPubSub(s: seq<MessageData>, limit: nat, op: Op, user: string)
    requires |s| <= limit && op.Valid() && AllWellFormed(s) && WellFormedOp(op)
    requires AllPubSub(s, user) && PubSubOp(op, user)
    ensures AllPubSub(Step(s, limit, op), user) && Single(op, user) && Lossless(s, op, user)
  {
    assert forall i :: 0 <= i < |s| ==> PubSubOnly(s[i], user);
    match op
    case Add(m) =>
    case AddTimeout(m, style, now) =>
      TimeoutOutcomeFacts(s, m, style, now);
      PubSubApplied(DisableUserIn(s, m.timeoutUser), limit, m, TimeoutOutcome(s, m, style, now), user);
    case AddEvent(m, now) =>
      EventOutcomeFacts(s, m, now);
      PubSubApplied(s, limit, m, EventOutcome(s, m, now), user);
    case AddHistory(ms) =>
    case DisableAll =>
    case Delete(id) =>
  }

  /** Hence the counts of PubSub timeouts, those to be stacked being of count 1, always add up. */
  lemma {:induction false} TimeoutCountsAreConserved(s: seq<MessageData>, limit: nat, ops: seq<Op>, user: string)
    requires |s| <= limit && 0 < limit && ValidOps(ops) && AllWellFormed(s) && WellFormedOps(ops)
    requires AllPubSub(s, user) && PubSubOps(ops, user)
    ensures AllPubSub(Run(s, limit, ops), user)
    ensures CountOf(Run(s, limit, ops), user) + TotalEvicted(s, limit, ops, user)
         == CountOf(s, user) + TotalReceived(ops, user)
    ensures Fits(s, limit, ops) ==> CountOf(Run(s, limit, ops), user) == CountOf(s, user) + TotalReceived(ops, user)
  {
    if ops != [] {
      var before, op := ops[..|ops| - 1], ops[|ops| - 1];
      TimeoutCountsAreConserved(s, limit, before, user);
      RunWellFormed(s, limit, before);
      StepKeepsPubSub(Run(s, limit, before), limit, op, user);
      StepCounts(Run(s, limit, before), limit, op, user);
    }
    if Fits(s, limit, ops) {
      NothingEvicted(s, limit, ops, user);
    }
  }

  /** The restriction to PubSub timeouts is needed: a PubSub timeout that meets a stack of IRC
      timeouts replaces it, and their counts are lost. */
  lemma MixedSourcesLoseCounts(now: int, user: string, count: nat) returns (s: seq<MessageData>, m: MessageData)
    requires 0 <= now < DAY && user != ""
    ensures |s| == 1 && Timeout in m.flags && m.count == 1 && CountOf(s, user) == count
    ensures CountOf(AfterTimeout(s, 2, m, StackHard, now), user) == 1
  {
    var irc := MessageData("", 0, MinimumTime(now), {System, Timeout}, "", user, count, []);
    s := [irc];
    m := MessageData("", 0, now, {System, Timeout, PubSub}, "", user, 1, []);
    assert TimeoutSearch(s, 0, m, StackHard, now) == ReplaceAt(0, m);
    TimeoutLedger(s, 2, m, StackHard, now);
    assert CountOf(s, user) == count;
  }
}
