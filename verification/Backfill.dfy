/** History back-fill (`Channel::fillInMissingMessages`) as a step machine: each locked queue
    operation is one step, and appends made by other threads fall between the steps. */
module Backfill {
  import opened Messages
  import opened QueueSpec
  import opened Sequences

  /** What is fixed when back-fill starts: the queue's limit and snapshot, and the incoming batch. */
  datatype Job = Job(limit: nat, snapshot: seq<Message>, batch: seq<Message>) {
    predicate Startable() {
      0 < |snapshot| <= limit
    }
  }

  datatype State = State(queue: seq<Message>, next: nat, lastMsg: Message)

  datatype Action = Fill | Live(m: Message)

  /** The ids already present, collected once before the loop. */
  function KnownIds(snapshot: seq<Message>): set<string> {
    set m | m in snapshot && !IsSystem(m) && m.data.id != "" :: m.data.id
  }

  predicate Unknown(snapshot: seq<Message>, m: Message) {
    m.data.id !in KnownIds(snapshot)
  }

  predicate ComesAfter(m: Message, time: int) {
    !IsSystem(m) && time < m.data.serverReceivedTime
  }

  /** Index of the first non-System snapshot message later than `time`, or the length. */
  function FirstLater(snapshot: seq<Message>, time: int): (k: nat)
    ensures k <= |snapshot|
    ensures forall j :: 0 <= j < k ==> !ComesAfter(snapshot[j], time)
    ensures k < |snapshot| ==> ComesAfter(snapshot[k], time)
  {
    if snapshot == [] || ComesAfter(snapshot[0], time) then 0
    else 1 + FirstLater(snapshot[1..], time)
  }

  function Slot(job: Job, n: nat): (k: nat)
    requires n < |job.batch|
    ensures k <= |job.snapshot|
  {
    FirstLater(job.snapshot, job.batch[n].data.serverReceivedTime)
  }

  function Start(job: Job): State
    requires job.Startable()
  {
    State(job.snapshot, 0, job.snapshot[|job.snapshot| - 1])
  }

  /** One iteration of the loop over the batch; it performs at most one queue operation. */
  function FillStep(job: Job, s: State): State
    requires s.next < |job.batch| && |s.queue| <= job.limit
  {
    var msg := job.batch[s.next];
    if !Unknown(job.snapshot, msg) then s.(next := s.next + 1)
    else
      var k := Slot(job, s.next);
      if k < |job.snapshot| then
        s.(queue := InsertedBefore(s.queue, job.limit, job.snapshot[k], msg), next := s.next + 1)
      else
        State(InsertedAfter(s.queue, job.limit, s.lastMsg, msg), s.next + 1, msg)
  }

  function Step(job: Job, s: State, a: Action): (s': State)
    requires |s.queue| <= job.limit
    ensures |s'.queue| <= job.limit
  {
    match a
    case Live(m) => s.(queue := PushedBack(s.queue, job.limit, m))
    case Fill => if s.next < |job.batch| then FillStep(job, s) else s
  }

  function Run(job: Job, s: State, actions: seq<Action>): (s': State)
    requires |s.queue| <= job.limit
    ensures |s'.queue| <= job.limit
  {
    if actions == [] then s
    else
      var last := |actions| - 1;
      Step(job, Run(job, s, actions[..last]), actions[last])
  }

  function Lives(actions: seq<Action>): seq<Message> {
    if actions == [] then []
    else
      var last := |actions| - 1;
      Lives(actions[..last]) + if actions[last].Live? then [actions[last].m] else []
  }

  lemma RunLast(job: Job, s: State, actions: seq<Action>, a: Action)
    requires |s.queue| <= job.limit
    ensures Run(job, s, actions + [a]) == Step(job, Run(job, s, actions), a)
  {
    SnocParts(actions, a);
  }

  // ---------------------------------------------------------------------------------------
  // The invariant: every queued message has an origin, and origins increase along the queue
  // ---------------------------------------------------------------------------------------

  /** Where a queued message comes from: the snapshot, the batch (with the snapshot position it
      belongs in front of), or a live append. */
  datatype Origin = Old(j: nat) | Filled(slot: nat, n: nat) | Appended(l: nat)

  function Rank(job: Job, o: Origin): nat {
    match o
    case Old(j) => 2 * j + 1
    case Filled(slot, _) => 2 * slot
    case Appended(_) => 2 * |job.snapshot| + 1
  }

  function Seqno(o: Origin): nat {
    match o
    case Old(_) => 0
    case Filled(_, n) => n
    case Appended(l) => l
  }

  predicate Before(job: Job, a: Origin, b: Origin) {
    Rank(job, a) < Rank(job, b) || (Rank(job, a) == Rank(job, b) && Seqno(a) < Seqno(b))
  }

  predicate Explains(job: Job, live: seq<Message>, next: nat, m: Message, o: Origin)
    requires next <= |job.batch|
  {
    match o
    case Old(j) => j < |job.snapshot| && m == job.snapshot[j]
    case Filled(slot, n) => n < next && m == job.batch[n] && slot == Slot(job, n) && Unknown(job.snapshot, m)
    case Appended(l) => l < |live| && m == live[l]
  }

  ghost predicate Increasing(job: Job, origins: seq<Origin>) {
    forall i, j :: 0 <= i < j < |origins| ==> Before(job, origins[i], origins[j])
  }

  ghost predicate Explained(job: Job, live: seq<Message>, s: State, origins: seq<Origin>) {
    && s.next <= |job.batch|
    && |origins| == |s.queue|
    && (forall i :: 0 <= i < |s.queue| ==> Explains(job, live, s.next, s.queue[i], origins[i]))
    && Increasing(job, origins)
  }

  ghost predicate NothingBehind(job: Job, origins: seq<Origin>) {
    forall o :: o in origins ==> Rank(job, o) != 2 * |job.snapshot|
  }

  ghost predicate NewestBehind(job: Job, s: State, origins: seq<Origin>, b: nat)
    requires s.next <= |job.batch|
  {
    && b < s.next && s.lastMsg == job.batch[b]
    && Slot(job, b) == |job.snapshot| && Unknown(job.snapshot, s.lastMsg)
    && forall o :: o in origins && Rank(job, o) == 2 * |job.snapshot| ==> Seqno(o) <= b
  }

  /** `lastMsg` is the last snapshot message or the newest message filled in behind it. */
  ghost predicate LastMsgOk(job: Job, s: State, origins: seq<Origin>)
    requires s.next <= |job.batch|
  {
    || (0 < |job.snapshot| && s.lastMsg == job.snapshot[|job.snapshot| - 1] && NothingBehind(job, origins))
    || exists b :: NewestBehind(job, s, origins, b)
  }

  ghost predicate Inv(job: Job, live: seq<Message>, s: State, origins: seq<Origin>) {
    Explained(job, live, s, origins) && LastMsgOk(job, s, origins)
  }

  /** All message objects of the run are different objects. */
  ghost predicate AllDistinct(job: Job, live: seq<Message>) {
    Distinct(job.snapshot + job.batch + live)
  }

  lemma DistinctOrigins(job: Job, live: seq<Message>, next: nat, m: Message, a: Origin, b: Origin)
    requires AllDistinct(job, live) && next <= |job.batch|
    requires Explains(job, live, next, m, a) && Explains(job, live, next, m, b)
    ensures a == b
  {
    var all := job.snapshot + job.batch + live;
    var ia := Position(job, live, next, m, a);
    var ib := Position(job, live, next, m, b);
    assert all[ia] == all[ib];
  }

  ghost function Position(job: Job, live: seq<Message>, next: nat, m: Message, o: Origin): (i: nat)
    requires next <= |job.batch| && Explains(job, live, next, m, o)
    ensures i < |job.snapshot + job.batch + live| && (job.snapshot + job.batch + live)[i] == m
  {
    match o
    case Old(j) => j
    case Filled(_, n) => |job.snapshot| + n
    case Appended(l) => |job.snapshot| + |job.batch| + l
  }

  lemma DropKeepsExplained(job: Job, live: seq<Message>, s: State, origins: seq<Origin>, drop: nat)
    requires Explained(job, live, s, origins) && drop <= |origins|
    ensures Explained(job, live, s.(queue := s.queue[drop..]), origins[drop..])
  {
  }

  lemma WidenKeepsExplained(job: Job, live: seq<Message>, s: State, origins: seq<Origin>, pos: nat, o: Origin)
    requires Explained(job, live, s, origins) && s.next < |job.batch|
    requires pos <= |origins| && o == Filled(Slot(job, s.next), s.next) && Unknown(job.snapshot, job.batch[s.next])
    requires forall i :: 0 <= i < pos ==> Before(job, origins[i], o)
    requires forall i :: pos <= i < |origins| ==> Before(job, o, origins[i])
    ensures Explained(job, live,
      s.(queue := s.queue[..pos] + [job.batch[s.next]] + s.queue[pos..], next := s.next + 1),
      origins[..pos] + [o] + origins[pos..])
  {
    var queue' := s.queue[..pos] + [job.batch[s.next]] + s.queue[pos..];
    var origins' := origins[..pos] + [o] + origins[pos..];
    forall i | 0 <= i < |queue'| ensures Explains(job, live, s.next + 1, queue'[i], origins'[i]) {
      InsertedAtIndex(s.queue, pos, job.batch[s.next], i);
      InsertedAtIndex(origins, pos, o, i);
    }
    forall i, j | 0 <= i < j < |origins'| ensures Before(job, origins'[i], origins'[j]) {
      InsertedAtIndex(origins, pos, o, i);
      InsertedAtIndex(origins, pos, o, j);
    }
  }

  /** Inserting a message and its origin at the same place keeps the queue explained, whether or
      not the queue is full, provided the origin belongs at that place. */
  lemma InsertKeepsExplained(job: Job, live: seq<Message>, s: State, origins: seq<Origin>, pos: nat, o: Origin)
    returns (origins': seq<Origin>)
    requires Explained(job, live, s, origins) && |s.queue| <= job.limit && s.next < |job.batch|
    requires pos <= |origins| && o == Filled(Slot(job, s.next), s.next) && Unknown(job.snapshot, job.batch[s.next])
    requires forall i :: 0 <= i < pos ==> Before(job, origins[i], o)
    requires forall i :: pos <= i < |origins| ==> Before(job, o, origins[i])
    ensures var queue' := InsertedAt(s.queue, job.limit, pos, job.batch[s.next]);
      Explained(job, live, s.(queue := queue', next := s.next + 1), origins')
    ensures forall x :: x in origins' ==> x in origins || x == o
  {
    var msg := job.batch[s.next];
    var wide := s.queue[..pos] + [msg] + s.queue[pos..];
    origins' := origins[..pos] + [o] + origins[pos..];
    WidenKeepsExplained(job, live, s, origins, pos, o);
    if |s.queue| == job.limit {
      if pos == 0 {
        origins' := origins;
      } else {
        DropKeepsExplained(job, live, s.(queue := wide, next := s.next + 1), origins', 1);
        assert wide[1..] == s.queue[1..pos] + [msg] + s.queue[pos..];
        origins' := origins'[1..];
      }
    }
  }

  /** Everything behind `lastMsg` is a live append. */
  lemma LastMsgOrigin(job: Job, live: seq<Message>, s: State, origins: seq<Origin>, p: nat)
    requires job.Startable() && AllDistinct(job, live) && Inv(job, live, s, origins)
    requires p < |s.queue| && s.queue[p] == s.lastMsg
    ensures forall i :: 0 <= i <= p ==> Before(job, origins[i], Filled(|job.snapshot|, s.next))
    ensures forall i :: p < i < |origins| ==> Before(job, Filled(|job.snapshot|, s.next), origins[i])
  {
    var n := |job.snapshot|;
    if s.lastMsg == job.snapshot[n - 1] && NothingBehind(job, origins) {
      DistinctOrigins(job, live, s.next, s.lastMsg, origins[p], Old(n - 1));
    } else {
      var b :| NewestBehind(job, s, origins, b);
      DistinctOrigins(job, live, s.next, s.lastMsg, origins[p], Filled(n, b));
    }
    assert forall i :: p < i < |origins| ==> Before(job, origins[p], origins[i]);
  }

  lemma KeptInFront(job: Job, live: seq<Message>, s: State, origins: seq<Origin>)
    returns (origins': seq<Origin>)
    requires job.Startable() && AllDistinct(job, live) && |s.queue| <= job.limit
    requires Inv(job, live, s, origins) && s.next < |job.batch|
    requires Unknown(job.snapshot, job.batch[s.next]) && Slot(job, s.next) < |job.snapshot|
    ensures Explained(job, live, FillStep(job, s), origins')
    ensures forall o :: o in origins' ==> o in origins || o == Filled(Slot(job, s.next), s.next)
  {
    var k := Slot(job, s.next);
    var p := IndexOf(s.queue, job.snapshot[k]);
    if p < 0 {
      origins' := origins;
    } else {
      DistinctOrigins(job, live, s.next, s.queue[p], origins[p], Old(k));
      assert forall i :: 0 <= i < p ==> Before(job, origins[i], origins[p]);
      assert forall i :: p < i < |origins| ==> Before(job, origins[p], origins[i]);
      origins' := InsertKeepsExplained(job, live, s, origins, p, Filled(k, s.next));
    }
  }

  lemma KeptBehind(job: Job, live: seq<Message>, s: State, origins: seq<Origin>)
    returns (origins': seq<Origin>)
    requires job.Startable() && AllDistinct(job, live) && |s.queue| <= job.limit
    requires Inv(job, live, s, origins) && s.next < |job.batch|
    requires Unknown(job.snapshot, job.batch[s.next]) && Slot(job, s.next) == |job.snapshot|
    ensures Explained(job, live, FillStep(job, s), origins')
    ensures forall o :: o in origins' ==> o in origins || o == Filled(|job.snapshot|, s.next)
  {
    var p := IndexOf(s.queue, s.lastMsg);
    if p < 0 {
      origins' := origins;
    } else {
      LastMsgOrigin(job, live, s, origins, p);
      origins' := InsertKeepsExplained(job, live, s, origins, p + 1, Filled(|job.snapshot|, s.next));
    }
  }

  lemma KeptByFill(job: Job, live: seq<Message>, s: State, origins: seq<Origin>)
    returns (origins': seq<Origin>)
    requires job.Startable() && AllDistinct(job, live) && |s.queue| <= job.limit
    requires Inv(job, live, s, origins) && s.next < |job.batch|
    ensures Inv(job, live, FillStep(job, s), origins')
  {
    var n := |job.snapshot|;
    var s' := FillStep(job, s);
    if !Unknown(job.snapshot, job.batch[s.next]) || Slot(job, s.next) < n {
      if Unknown(job.snapshot, job.batch[s.next]) {
        origins' := KeptInFront(job, live, s, origins);
      } else {
        origins' := origins;
      }
      if s.lastMsg == job.snapshot[n - 1] && NothingBehind(job, origins) {
        assert NothingBehind(job, origins');
      } else {
        var b :| NewestBehind(job, s, origins, b);
        assert NewestBehind(job, s', origins', b);
      }
    } else {
      origins' := KeptBehind(job, live, s, origins);
      assert NewestBehind(job, s', origins', s.next);
    }
  }

  /** Dropping items from the front keeps the rest explained. */
  lemma DropKeepsInv(job: Job, live: seq<Message>, s: State, origins: seq<Origin>, drop: nat)
    requires 0 < |job.snapshot| && Inv(job, live, s, origins) && drop <= |origins|
    ensures Inv(job, live, s.(queue := s.queue[drop..]), origins[drop..])
  {
    var s' := s.(queue := s.queue[drop..]);
    var rest := origins[drop..];
    assert forall o :: o in rest ==> o in origins;
    if s.lastMsg == job.snapshot[|job.snapshot| - 1] && NothingBehind(job, origins) {
      assert NothingBehind(job, rest);
    } else {
      var b :| NewestBehind(job, s, origins, b);
      assert NewestBehind(job, s', rest, b);
    }
  }

  lemma KeptByLive(job: Job, live: seq<Message>, s: State, origins: seq<Origin>, m: Message)
    returns (origins': seq<Origin>)
    requires job.Startable() && Inv(job, live, s, origins) && |s.queue| <= job.limit
    ensures Inv(job, live + [m], Step(job, s, Live(m)), origins')
  {
    var o := Appended(|live|);
    var wider := origins + [o];
    var s1 := s.(queue := s.queue + [m]);
    assert forall x :: x in wider ==> x in origins || x == o;
    forall i | 0 <= i < |origins| ensures Before(job, origins[i], o) {
      assert Explains(job, live, s.next, s.queue[i], origins[i]);
    }
    assert Explained(job, live + [m], s1, wider);
    if s.lastMsg == job.snapshot[|job.snapshot| - 1] && NothingBehind(job, origins) {
      assert NothingBehind(job, wider);
    } else {
      var b :| NewestBehind(job, s, origins, b);
      assert NewestBehind(job, s1, wider, b);
    }
    var drop := |wider| - |LastN(wider, job.limit)|;
    DropKeepsInv(job, live + [m], s1, wider, drop);
    origins' := wider[drop..];
  }

  lemma FewerAreDistinct(job: Job, live: seq<Message>, more: seq<Message>)
    requires AllDistinct(job, more) && live <= more
    ensures AllDistinct(job, live)
  {
    var all := job.snapshot + job.batch + more;
    var some := job.snapshot + job.batch + live;
    assert forall i :: 0 <= i < |some| ==> some[i] == all[i];
  }

  lemma {:induction false} Reachable(job: Job, actions: seq<Action>) returns (origins: seq<Origin>)
    requires job.Startable() && AllDistinct(job, Lives(actions))
    ensures Inv(job, Lives(actions), Run(job, Start(job), actions), origins)
  {
    if actions == [] {
      origins := seq(|job.snapshot|, j requires 0 <= j => Old(j));
    } else {
      var last := |actions| - 1;
      var live := Lives(actions[..last]);
      assert Lives(actions)[..|live|] == live;
      FewerAreDistinct(job, live, Lives(actions));
      origins := Reachable(job, actions[..last]);
      var s := Run(job, Start(job), actions[..last]);
      match actions[last]
      case Live(m) => origins := KeptByLive(job, live, s, origins, m);
      case Fill =>
        assert live == Lives(actions);
        if s.next < |job.batch| {
          origins := KeptByFill(job, live, s, origins);
        }
    }
  }

  // ---------------------------------------------------------------------------------------
  // Chronological order, over every interleaving and even when the queue evicts
  // ---------------------------------------------------------------------------------------

  function Time(m: Message): int {
    m.data.serverReceivedTime
  }

  /** The non-System messages are in non-decreasing time order. */
  ghost predicate UserMessagesAscend(s: seq<Message>) {
    forall i, j :: 0 <= i < j < |s| && !IsSystem(s[i]) && !IsSystem(s[j]) ==> Time(s[i]) <= Time(s[j])
  }

  ghost predicate Ascend(s: seq<Message>) {
    forall i, j :: 0 <= i < j < |s| ==> Time(s[i]) <= Time(s[j])
  }

  /** No live user message is older than a batch message or an old user message. */
  ghost predicate NoOlder(job: Job, live: seq<Message>) {
    && (forall l, m :: l in live && m in job.batch && !IsSystem(l) ==> Time(m) <= Time(l))
    && (forall l, m :: l in live && m in job.snapshot && !IsSystem(l) && !IsSystem(m) ==> Time(m) <= Time(l))
  }

  /** System messages of the snapshot and of the live appends keep their place but carry no
      time; batch messages are always placed by time. */
  predicate Timed(job: Job, m: Message) {
    !IsSystem(m) || m in job.batch
  }

  ghost predicate OrderlyInput(job: Job, live: seq<Message>) {
    && UserMessagesAscend(job.snapshot) && Ascend(job.batch) && UserMessagesAscend(live)
    && NoOlder(job, live)
  }

  lemma LaterSlot(snapshot: seq<Message>, t: int, u: int)
    requires t <= u
    ensures FirstLater(snapshot, t) <= FirstLater(snapshot, u)
  {
  }

  lemma OriginsGiveTimes(job: Job, live: seq<Message>, next: nat, m: Message, a: Origin, m': Message, b: Origin)
    requires next <= |job.batch| && OrderlyInput(job, live) && AllDistinct(job, live)
    requires Explains(job, live, next, m, a) && Explains(job, live, next, m', b) && Before(job, a, b)
    requires Timed(job, m) && Timed(job, m')
    ensures Time(m) <= Time(m')
  {
    if a.Old? || a.Appended? { NotInBatch(job, live, next, m, a); }
    if b.Old? || b.Appended? { NotInBatch(job, live, next, m', b); }
    match (a, b)
    case (Old(i), Filled(k, n)) => assert !ComesAfter(job.snapshot[i], Time(m'));
    case (Filled(k, n), Old(j)) => assert ComesAfter(job.snapshot[k], Time(m));
    case (Filled(k, n), Filled(k', n')) =>
      if n' < n { LaterSlot(job.snapshot, Time(m'), Time(m)); }
    case (_, Old(_)) =>
    case (_, Appended(_)) =>
  }

  lemma NotInBatch(job: Job, live: seq<Message>, next: nat, m: Message, o: Origin)
    requires next <= |job.batch| && AllDistinct(job, live) && Explains(job, live, next, m, o) && !o.Filled?
    ensures m !in job.batch
  {
    var i := Position(job, live, next, m, o);
    forall n | 0 <= n < |job.batch| ensures job.batch[n] != m {
      assert (job.snapshot + job.batch + live)[|job.snapshot| + n] == job.batch[n];
    }
  }

  /** For every interleaving of back-fill steps and live appends, and whether or not the queue is
      full, the old user messages, the filled-in messages and the live user messages stand in
      chronological order. As it holds for every list of actions, it holds after every step. */
  lemma BackfillIsChronological(job: Job, actions: seq<Action>)
    requires job.Startable() && AllDistinct(job, Lives(actions)) && OrderlyInput(job, Lives(actions))
    ensures var queue := Run(job, Start(job), actions).queue;
      forall i, j :: 0 <= i < j < |queue| && Timed(job, queue[i]) && Timed(job, queue[j])
        ==> Time(queue[i]) <= Time(queue[j])
  {
    var s := Run(job, Start(job), actions);
    var origins := Reachable(job, actions);
    forall i, j | 0 <= i < j < |s.queue| && Timed(job, s.queue[i]) && Timed(job, s.queue[j])
      ensures Time(s.queue[i]) <= Time(s.queue[j])
    {
      OriginsGiveTimes(job, Lives(actions), s.next, s.queue[i], origins[i], s.queue[j], origins[j]);
    }
  }

  /** Members of `from` that occur in `s` occur there in the order of `from`. */
  ghost predicate InOrderOf(s: seq<Message>, from: seq<Message>) {
    forall i, j, x, y ::
      (0 <= i < j < |s| && 0 <= x < |from| && 0 <= y < |from| && s[i] == from[x] && s[j] == from[y]) ==> x < y
  }

  lemma OldInOrder(job: Job, live: seq<Message>, s: State, origins: seq<Origin>)
    requires AllDistinct(job, live) && Explained(job, live, s, origins)
    ensures InOrderOf(s.queue, job.snapshot)
  {
    forall i, j, x, y | 0 <= i < j < |s.queue| && 0 <= x < |job.snapshot| && 0 <= y < |job.snapshot|
      && s.queue[i] == job.snapshot[x] && s.queue[j] == job.snapshot[y] ensures x < y
    {
      DistinctOrigins(job, live, s.next, s.queue[i], origins[i], Old(x));
      DistinctOrigins(job, live, s.next, s.queue[j], origins[j], Old(y));
      assert Before(job, origins[i], origins[j]);
    }
  }

  lemma LiveInOrder(job: Job, live: seq<Message>, s: State, origins: seq<Origin>)
    requires AllDistinct(job, live) && Explained(job, live, s, origins)
    ensures InOrderOf(s.queue, live)
  {
    forall i, j, x, y | 0 <= i < j < |s.queue| && 0 <= x < |live| && 0 <= y < |live|
      && s.queue[i] == live[x] && s.queue[j] == live[y] ensures x < y
    {
      DistinctOrigins(job, live, s.next, s.queue[i], origins[i], Appended(x));
      DistinctOrigins(job, live, s.next, s.queue[j], origins[j], Appended(y));
      assert Before(job, origins[i], origins[j]);
    }
  }

  lemma FilledInOrder(job: Job, live: seq<Message>, s: State, origins: seq<Origin>)
    requires AllDistinct(job, live) && Explained(job, live, s, origins) && Ascend(job.batch)
    ensures InOrderOf(s.queue, job.batch)
  {
    forall i, j, x, y | 0 <= i < j < |s.queue| && 0 <= x < |job.batch| && 0 <= y < |job.batch|
      && s.queue[i] == job.batch[x] && s.queue[j] == job.batch[y] ensures x < y
    {
      BatchOrigin(job, live, s.next, x, origins[i]);
      BatchOrigin(job, live, s.next, y, origins[j]);
      assert Before(job, origins[i], origins[j]);
      if y < x { LaterSlot(job.snapshot, Time(job.batch[y]), Time(job.batch[x])); }
    }
  }

  lemma NothingInvented(job: Job, live: seq<Message>, s: State, origins: seq<Origin>)
    requires AllDistinct(job, live) && Explained(job, live, s, origins)
    ensures Distinct(s.queue)
    ensures forall m :: m in s.queue ==> m in job.snapshot || m in live || (m in job.batch && Unknown(job.snapshot, m))
  {
    forall i, j | 0 <= i < j < |s.queue| ensures s.queue[i] != s.queue[j] {
      if s.queue[i] == s.queue[j] {
        DistinctOrigins(job, live, s.next, s.queue[i], origins[i], origins[j]);
      }
    }
    forall i | 0 <= i < |s.queue|
      ensures var m := s.queue[i];
        m in job.snapshot || m in live || (m in job.batch && Unknown(job.snapshot, m))
    {
      assert Explains(job, live, s.next, s.queue[i], origins[i]);
    }
  }

  /** No assumption about times: whatever arrives, the queue never holds a message twice, holds
      only old messages, batch messages whose id was unknown, and live messages, and keeps the
      old ones and the live ones in their own order. Filled-in messages never pass each other
      when the batch is in time order. */
  lemma BackfillKeepsEachOrder(job: Job, actions: seq<Action>)
    requires job.Startable() && AllDistinct(job, Lives(actions))
    ensures var live := Lives(actions); var queue := Run(job, Start(job), actions).queue;
      && Distinct(queue)
      && (forall m :: m in queue ==> m in job.snapshot || m in live || (m in job.batch && Unknown(job.snapshot, m)))
      && InOrderOf(queue, job.snapshot) && InOrderOf(queue, live)
      && (Ascend(job.batch) ==> InOrderOf(queue, job.batch))
  {
    var live := Lives(actions);
    var s := Run(job, Start(job), actions);
    var origins := Reachable(job, actions);
    NothingInvented(job, live, s, origins);
    OldInOrder(job, live, s, origins);
    LiveInOrder(job, live, s, origins);
    if Ascend(job.batch) { FilledInOrder(job, live, s, origins); }
  }

  lemma BatchOrigin(job: Job, live: seq<Message>, next: nat, x: nat, o: Origin)
    requires next <= |job.batch| && AllDistinct(job, live) && x < |job.batch|
    requires Explains(job, live, next, job.batch[x], o)
    ensures o == Filled(Slot(job, x), x)
  {
    var all := job.snapshot + job.batch + live;
    var i := Position(job, live, next, job.batch[x], o);
    assert all[|job.snapshot| + x] == job.batch[x];
    assert i == |job.snapshot| + x;
  }

  // ---------------------------------------------------------------------------------------
  // The place of every message, in terms of the messages' own data
  // ---------------------------------------------------------------------------------------

  /** A message counts as new when it has no id, or no old user message has the same one. */
  lemma UnknownExactlyWhen(snapshot: seq<Message>, m: Message)
    ensures Unknown(snapshot, m) <==>
      m.data.id == "" || forall x :: x in snapshot && System !in x.data.flags ==> x.data.id != m.data.id
  {
    if !Unknown(snapshot, m) {
      var x :| x in snapshot && !IsSystem(x) && x.data.id != "" && x.data.id == m.data.id;
      assert System !in x.data.flags;
    }
  }

  /** Some old user message up to the j-th is later than `time`. */
  ghost predicate LaterUpTo(snapshot: seq<Message>, j: int, time: int) {
    exists i :: 0 <= i <= j < |snapshot| && System !in snapshot[i].data.flags
             && time < snapshot[i].data.serverReceivedTime
  }

  lemma SlotMeans(snapshot: seq<Message>, j: nat, time: int)
    requires j < |snapshot|
    ensures FirstLater(snapshot, time) <= j <==> LaterUpTo(snapshot, j, time)
  {
    var k := FirstLater(snapshot, time);
    if k <= j {
      assert ComesAfter(snapshot[k], time);
    } else {
      assert forall i :: 0 <= i <= j ==> !ComesAfter(snapshot[i], time);
    }
  }

  /** Positions compare as origins do. */
  lemma OriginsCompare(
    job: Job, live: seq<Message>, s: State, origins: seq<Origin>, i: nat, k: nat, a: Origin, b: Origin)
    requires AllDistinct(job, live) && Explained(job, live, s, origins) && i < |s.queue| && k < |s.queue|
    requires Explains(job, live, s.next, s.queue[i], a) && Explains(job, live, s.next, s.queue[k], b)
    ensures i < k <==> Before(job, a, b)
  {
    DistinctOrigins(job, live, s.next, s.queue[i], origins[i], a);
    DistinctOrigins(job, live, s.next, s.queue[k], origins[k], b);
  }

  lemma BatchOriginExists(job: Job, live: seq<Message>, s: State, origins: seq<Origin>, i: nat, n: nat)
    requires AllDistinct(job, live) && Explained(job, live, s, origins)
    requires i < |s.queue| && n < |job.batch| && s.queue[i] == job.batch[n]
    ensures Explains(job, live, s.next, s.queue[i], Filled(Slot(job, n), n))
  {
    BatchOrigin(job, live, s.next, n, origins[i]);
  }

  /** An inserted message stands before an old one exactly when an old user message up to that one
      is later; messages of the same time stay in front of it. */
  lemma FilledAmongOld(job: Job, actions: seq<Action>, i: nat, k: nat, n: nat, j: nat)
    requires job.Startable() && AllDistinct(job, Lives(actions))
    requires var queue := Run(job, Start(job), actions).queue;
      && i < |queue| && k < |queue| && n < |job.batch| && j < |job.snapshot|
      && queue[i] == job.batch[n] && queue[k] == job.snapshot[j]
    ensures i < k <==> LaterUpTo(job.snapshot, j, job.batch[n].data.serverReceivedTime)
  {
    var s := Run(job, Start(job), actions);
    var origins := Reachable(job, actions);
    BatchOriginExists(job, Lives(actions), s, origins, i, n);
    OriginsCompare(job, Lives(actions), s, origins, i, k, Filled(Slot(job, n), n), Old(j));
    SlotMeans(job.snapshot, j, job.batch[n].data.serverReceivedTime);
  }

  /** Of two inserted messages the one handled later stands behind the other, unless an old user
      message is later than it but neither that one nor any before it is later than the other. */
  lemma FilledAmongFilled(job: Job, actions: seq<Action>, i: nat, k: nat, n: nat, n': nat)
    requires job.Startable() && AllDistinct(job, Lives(actions)) && n < n' < |job.batch|
    requires var queue := Run(job, Start(job), actions).queue;
      i < |queue| && k < |queue| && queue[i] == job.batch[n] && queue[k] == job.batch[n']
    ensures i < k <==> !exists j :: LaterUpTo(job.snapshot, j, job.batch[n'].data.serverReceivedTime)
                                 && !LaterUpTo(job.snapshot, j, job.batch[n].data.serverReceivedTime)
  {
    var s := Run(job, Start(job), actions);
    var origins := Reachable(job, actions);
    var a, b := Slot(job, n), Slot(job, n');
    BatchOriginExists(job, Lives(actions), s, origins, i, n);
    BatchOriginExists(job, Lives(actions), s, origins, k, n');
    OriginsCompare(job, Lives(actions), s, origins, i, k, Filled(a, n), Filled(b, n'));
    SlotsCompare(job.snapshot, job.batch[n].data.serverReceivedTime, job.batch[n'].data.serverReceivedTime);
  }

  lemma SlotsCompare(snapshot: seq<Message>, t: int, u: int)
    ensures FirstLater(snapshot, u) < FirstLater(snapshot, t) <==>
      exists j :: LaterUpTo(snapshot, j, u) && !LaterUpTo(snapshot, j, t)
  {
    var a, b := FirstLater(snapshot, t), FirstLater(snapshot, u);
    if b < a {
      SlotMeans(snapshot, b, u);
      SlotMeans(snapshot, b, t);
    }
    if j :| LaterUpTo(snapshot, j, u) && !LaterUpTo(snapshot, j, t) {
      SlotMeans(snapshot, j, u);
      SlotMeans(snapshot, j, t);
    }
  }

  /** Live messages stand behind all old and all inserted ones. */
  lemma LiveComeLast(job: Job, actions: seq<Action>, i: nat, k: nat)
    requires job.Startable() && AllDistinct(job, Lives(actions))
    requires var queue := Run(job, Start(job), actions).queue;
      && i < |queue| && k < |queue|
      && (queue[i] in job.snapshot || queue[i] in job.batch) && queue[k] in Lives(actions)
    ensures i < k
  {
    var s, live := Run(job, Start(job), actions), Lives(actions);
    var origins := Reachable(job, actions);
    var l :| 0 <= l < |live| && live[l] == s.queue[k];
    if s.queue[i] in job.snapshot {
      var j :| 0 <= j < |job.snapshot| && job.snapshot[j] == s.queue[i];
      OriginsCompare(job, live, s, origins, i, k, Old(j), Appended(l));
    } else {
      var n :| 0 <= n < |job.batch| && job.batch[n] == s.queue[i];
      BatchOriginExists(job, live, s, origins, i, n);
      OriginsCompare(job, live, s, origins, i, k, Filled(Slot(job, n), n), Appended(l));
    }
  }
}
