/** What back-fill does to the set of messages: for a queue of any size, full or not. */
module Conservation {
  import opened Messages
  import opened QueueSpec
  import opened Sequences
  import opened Backfill

  /** The part of `s` whose members lie in `keep`, in order. */
  ghost function Keep(s: seq<Message>, keep: set<Message>): seq<Message> {
    if s == [] then []
    else (if s[0] in keep then [s[0]] else []) + Keep(s[1..], keep)
  }

  lemma {:induction false} KeepConcat(s: seq<Message>, t: seq<Message>, keep: set<Message>)
    ensures Keep(s + t, keep) == Keep(s, keep) + Keep(t, keep)
  {
    if s == [] {
      assert s + t == t;
    } else {
      ConcatTail(s, t);
      KeepConcat(s[1..], t, keep);
      ConcatAssociates(if s[0] in keep then [s[0]] else [], Keep(s[1..], keep), Keep(t, keep));
    }
  }

  lemma {:induction false} KeepAll(s: seq<Message>, keep: set<Message>)
    ensures (forall m :: m in s ==> m in keep) ==> Keep(s, keep) == s
    ensures (forall m :: m in s ==> m !in keep) ==> Keep(s, keep) == []
  {
    if s != [] {
      KeepAll(s[1..], keep);
    }
  }

  ghost function Members(s: seq<Message>): set<Message> {
    set m | m in s
  }

  /** The batch messages that back-fill adds: those whose id was not in the snapshot. */
  function Unknowns(snapshot: seq<Message>, batch: seq<Message>): (r: seq<Message>)
    ensures |r| <= |batch|
  {
    if batch == [] then []
    else
      var last := |batch| - 1;
      Unknowns(snapshot, batch[..last]) + if Unknown(snapshot, batch[last]) then [batch[last]] else []
  }

  /** Room even if every batch message were added. */
  ghost predicate Roomy(job: Job, live: seq<Message>) {
    |job.snapshot| + |job.batch| + |live| <= job.limit
  }

  ghost predicate SameMessages(queue: seq<Message>, earlier: seq<Message>, added: seq<Message>, live: seq<Message>) {
    multiset(queue) == multiset(earlier) + multiset(added) + multiset(live)
  }

  ghost predicate BothInOrder(queue: seq<Message>, earlier: seq<Message>, live: seq<Message>) {
    Keep(queue, Members(earlier)) == earlier && Keep(queue, Members(live)) == live
  }

  /** The queue holds exactly the given messages, with the old and the live ones in order. */
  ghost predicate Merged(queue: seq<Message>, earlier: seq<Message>, added: seq<Message>, live: seq<Message>) {
    SameMessages(queue, earlier, added, live) && BothInOrder(queue, earlier, live)
  }

  lemma MergedMembers(queue: seq<Message>, earlier: seq<Message>, added: seq<Message>, live: seq<Message>)
    requires SameMessages(queue, earlier, added, live)
    ensures |queue| == |earlier| + |added| + |live|
    ensures forall m :: m in queue <==> m in earlier || m in added || m in live
  {
    assert |multiset(queue)| == |queue|;
    assert forall m :: m in queue <==> m in multiset(queue);
  }

  lemma InsertInOrder(queue: seq<Message>, earlier: seq<Message>, live: seq<Message>, pos: nat, m: Message)
    requires BothInOrder(queue, earlier, live) && pos <= |queue| && m !in earlier && m !in live
    ensures BothInOrder(queue[..pos] + [m] + queue[pos..], earlier, live)
  {
    var front, back := queue[..pos], queue[pos..];
    assert queue == front + back;
    KeepInserted(front, m, back, Members(earlier));
    KeepInserted(front, m, back, Members(live));
  }

  lemma MergedInsert(
    queue: seq<Message>, earlier: seq<Message>, added: seq<Message>, live: seq<Message>, pos: nat, m: Message)
    requires Merged(queue, earlier, added, live) && pos <= |queue|
    requires m !in earlier && m !in live
    ensures Merged(queue[..pos] + [m] + queue[pos..], earlier, added + [m], live)
  {
    InsertInOrder(queue, earlier, live, pos, m);
    InsertCounts(queue, pos, m);
    SnocCounts(added, m);
  }

  lemma AppendInOrder(queue: seq<Message>, earlier: seq<Message>, live: seq<Message>, m: Message)
    requires BothInOrder(queue, earlier, live) && m !in earlier && m !in queue
    ensures BothInOrder(queue + [m], earlier, live + [m])
  {
    KeepAppended(queue, m, Members(earlier));
    assert Members(live + [m]) == Members(live) + {m};
    KeepAppended(queue, m, Members(live) + {m});
    KeepMore(queue, Members(live), m);
  }

  lemma MergedAppend(queue: seq<Message>, earlier: seq<Message>, added: seq<Message>, live: seq<Message>, m: Message)
    requires Merged(queue, earlier, added, live)
    requires m !in earlier && m !in added && m !in live
    ensures Merged(queue + [m], earlier, added, live + [m])
  {
    MergedMembers(queue, earlier, added, live);
    AppendInOrder(queue, earlier, live, m);
    SnocCounts(queue, m);
    SnocCounts(live, m);
  }

  lemma KeepAppended(queue: seq<Message>, m: Message, keep: set<Message>)
    ensures Keep(queue + [m], keep) == Keep(queue, keep) + if m in keep then [m] else []
  {
    KeepConcat(queue, [m], keep);
  }

  /** Everything handled so far is in the queue exactly once, next to all old messages. */
  ghost predicate Conserved(job: Job, live: seq<Message>, s: State) {
    && s.next <= |job.batch|
    && Merged(s.queue, job.snapshot, Unknowns(job.snapshot, job.batch[..s.next]), live)
    && s.lastMsg in s.queue
  }

  lemma BatchIsNew(job: Job, live: seq<Message>, n: nat)
    requires AllDistinct(job, live) && n < |job.batch|
    ensures job.batch[n] !in job.snapshot && job.batch[n] !in live
  {
    var all := job.snapshot + job.batch + live;
    assert all[|job.snapshot| + n] == job.batch[n];
    assert forall j :: 0 <= j < |job.snapshot| ==> all[j] == job.snapshot[j];
    assert forall l :: 0 <= l < |live| ==> all[|job.snapshot| + |job.batch| + l] == live[l];
  }

  lemma LiveIsNew(job: Job, live: seq<Message>, m: Message)
    requires AllDistinct(job, live + [m])
    ensures m !in job.snapshot && m !in job.batch && m !in live
  {
    var all := job.snapshot + job.batch + (live + [m]);
    assert all[|all| - 1] == m;
    assert forall j :: 0 <= j < |job.snapshot| ==> all[j] == job.snapshot[j];
    assert forall n :: 0 <= n < |job.batch| ==> all[|job.snapshot| + n] == job.batch[n];
    assert forall l :: 0 <= l < |live| ==> all[|job.snapshot| + |job.batch| + l] == live[l];
  }

  lemma OneMoreHandled(snapshot: seq<Message>, batch: seq<Message>, n: nat)
    requires n < |batch|
    ensures Unknowns(snapshot, batch[..n + 1])
         == Unknowns(snapshot, batch[..n]) + if Unknown(snapshot, batch[n]) then [batch[n]] else []
  {
    assert batch[..n + 1][..n] == batch[..n];
  }

  lemma KeepInserted(front: seq<Message>, m: Message, back: seq<Message>, keep: set<Message>)
    requires m !in keep
    ensures Keep(front + [m] + back, keep) == Keep(front + back, keep)
  {
    KeepConcat(front, [m], keep);
    KeepConcat(front + [m], back, keep);
    KeepConcat(front, back, keep);
  }

  /** With room left and the needle in the queue, a back-fill step inserts exactly its message. */
  lemma FillInserts(job: Job, s: State) returns (pos: nat)
    requires s.next < |job.batch| && |s.queue| < job.limit && Unknown(job.snapshot, job.batch[s.next])
    requires s.lastMsg in s.queue && forall m :: m in job.snapshot ==> m in s.queue
    ensures pos <= |s.queue|
    ensures var msg := job.batch[s.next]; var s' := FillStep(job, s);
      && s'.queue == s.queue[..pos] + [msg] + s.queue[pos..] && s'.next == s.next + 1
      && (s'.lastMsg == s.lastMsg || s'.lastMsg == msg)
  {
    var k := Slot(job, s.next);
    if k < |job.snapshot| {
      assert job.snapshot[k] in s.queue;
      pos := IndexOf(s.queue, job.snapshot[k]);
    } else {
      pos := IndexOf(s.queue, s.lastMsg) + 1;
    }
  }

  lemma InsertMerged(job: Job, live: seq<Message>, queue: seq<Message>, n: nat, pos: nat)
    requires n < |job.batch| && Unknown(job.snapshot, job.batch[n])
    requires Merged(queue, job.snapshot, Unknowns(job.snapshot, job.batch[..n]), live)
    requires job.batch[n] !in job.snapshot && job.batch[n] !in live && pos <= |queue|
    ensures Merged(queue[..pos] + [job.batch[n]] + queue[pos..],
      job.snapshot, Unknowns(job.snapshot, job.batch[..n + 1]), live)
  {
    MergedInsert(queue, job.snapshot, Unknowns(job.snapshot, job.batch[..n]), live, pos, job.batch[n]);
    OneMoreHandled(job.snapshot, job.batch, n);
  }

  lemma InsertConserves(job: Job, live: seq<Message>, s: State, s': State, pos: nat)
    requires Conserved(job, live, s) && s.next < |job.batch| && Unknown(job.snapshot, job.batch[s.next])
    requires job.batch[s.next] !in job.snapshot && job.batch[s.next] !in live
    requires pos <= |s.queue| && s'.queue == s.queue[..pos] + [job.batch[s.next]] + s.queue[pos..]
    requires s'.next == s.next + 1 && (s'.lastMsg == s.lastMsg || s'.lastMsg == job.batch[s.next])
    ensures Conserved(job, live, s')
  {
    InsertedMembers(s.queue, pos, job.batch[s.next]);
    InsertMerged(job, live, s.queue, s.next, pos);
  }

  lemma StillRoom(job: Job, live: seq<Message>, s: State)
    requires Roomy(job, live) && Conserved(job, live, s) && s.next < |job.batch|
    ensures |s.queue| < job.limit && s.lastMsg in s.queue
    ensures forall m :: m in job.snapshot ==> m in s.queue
  {
    MergedMembers(s.queue, job.snapshot, Unknowns(job.snapshot, job.batch[..s.next]), live);
  }

  lemma NewConserves(job: Job, live: seq<Message>, s: State)
    requires Roomy(job, live) && Conserved(job, live, s) && |s.queue| <= job.limit
    requires s.next < |job.batch| && Unknown(job.snapshot, job.batch[s.next])
    requires job.batch[s.next] !in job.snapshot && job.batch[s.next] !in live
    ensures Conserved(job, live, FillStep(job, s))
  {
    StillRoom(job, live, s);
    var pos := FillInserts(job, s);
    InsertConserves(job, live, s, FillStep(job, s), pos);
  }

  lemma KnownConserves(job: Job, live: seq<Message>, s: State)
    requires Conserved(job, live, s) && |s.queue| <= job.limit
    requires s.next < |job.batch| && !Unknown(job.snapshot, job.batch[s.next])
    ensures Conserved(job, live, FillStep(job, s))
  {
    OneMoreHandled(job.snapshot, job.batch, s.next);
    assert FillStep(job, s) == s.(next := s.next + 1);
  }

  lemma FillConserves(job: Job, live: seq<Message>, s: State)
    requires Roomy(job, live) && Conserved(job, live, s)
    requires s.next < |job.batch| && |s.queue| <= job.limit
    requires job.batch[s.next] !in job.snapshot && job.batch[s.next] !in live
    ensures Conserved(job, live, FillStep(job, s))
  {
    if Unknown(job.snapshot, job.batch[s.next]) {
      NewConserves(job, live, s);
    } else {
      KnownConserves(job, live, s);
    }
  }

  lemma LiveConserves(job: Job, live: seq<Message>, s: State, m: Message)
    requires Roomy(job, live + [m]) && Conserved(job, live, s) && |s.queue| <= job.limit
    requires m !in job.snapshot && m !in job.batch && m !in live
    ensures Conserved(job, live + [m], Step(job, s, Live(m)))
  {
    var added := Unknowns(job.snapshot, job.batch[..s.next]);
    UnknownsInBatch(job.snapshot, job.batch[..s.next]);
    MergedMembers(s.queue, job.snapshot, added, live);
    MergedAppend(s.queue, job.snapshot, added, live, m);
    assert PushedBack(s.queue, job.limit, m) == s.queue + [m];
  }

  lemma {:induction false} KeepMore(s: seq<Message>, keep: set<Message>, m: Message)
    requires m !in s
    ensures Keep(s, keep + {m}) == Keep(s, keep)
  {
    if s != [] {
      KeepMore(s[1..], keep, m);
    }
  }

  lemma {:induction false} UnknownsInBatch(snapshot: seq<Message>, batch: seq<Message>)
    ensures forall m :: m in Unknowns(snapshot, batch) <==> m in batch && Unknown(snapshot, m)
  {
    if batch != [] {
      var last := |batch| - 1;
      assert batch == batch[..last] + [batch[last]];
      UnknownsInBatch(snapshot, batch[..last]);
    }
  }

  function Fills(actions: seq<Action>): nat {
    if actions == [] then 0
    else
      var last := |actions| - 1;
      Fills(actions[..last]) + if actions[last].Fill? then 1 else 0
  }

  lemma StartConserves(job: Job)
    requires job.Startable()
    ensures Conserved(job, [], Start(job))
  {
    KeepAll(job.snapshot, Members(job.snapshot));
    KeepAll(job.snapshot, Members([]));
  }

  lemma StepConserves(job: Job, live: seq<Message>, s: State, a: Action)
    requires var live' := live + if a.Live? then [a.m] else [];
      job.Startable() && AllDistinct(job, live') && Roomy(job, live')
    requires Conserved(job, live, s) && |s.queue| <= job.limit
    ensures Conserved(job, live + if a.Live? then [a.m] else [], Step(job, s, a))
  {
    match a
    case Live(m) =>
      LiveIsNew(job, live, m);
      LiveConserves(job, live, s, m);
    case Fill =>
      assert live + [] == live;
      if s.next < |job.batch| {
        BatchIsNew(job, live, s.next);
        FillConserves(job, live, s);
      }
  }

  lemma {:induction false} RoomyRunConserves(job: Job, actions: seq<Action>)
    requires job.Startable() && AllDistinct(job, Lives(actions)) && Roomy(job, Lives(actions))
    ensures var s := Run(job, Start(job), actions);
      Conserved(job, Lives(actions), s) && s.next == Min(Fills(actions), |job.batch|)
  {
    if actions == [] {
      StartConserves(job);
    } else {
      var last := |actions| - 1;
      var live := Lives(actions[..last]);
      FewerAreDistinct(job, live, Lives(actions));
      RoomyRunConserves(job, actions[..last]);
      var s := Run(job, Start(job), actions[..last]);
      StepConserves(job, live, s, actions[last]);
      assert Run(job, Start(job), actions) == Step(job, s, actions[last]);
    }
  }

  // ---------------------------------------------------------------------------------------
  // Queues of any size: the newest part of the complete merge
  // ---------------------------------------------------------------------------------------

  /** The same job on a queue that never gets full. */
  function Wide(job: Job, actions: seq<Action>): Job {
    job.(limit := job.limit + |job.batch| + |Lives(actions)| + 1)
  }

  /** What the queue would hold if it were never full. */
  function Complete(job: Job, actions: seq<Action>): seq<Message>
    requires job.Startable()
  {
    Run(Wide(job, actions), Start(Wide(job, actions)), actions).queue
  }

  /** `s` is the state of a queue that has lost `older` from what state `t` still holds. */
  predicate Follows(limit: nat, s: State, t: State, older: seq<Message>) {
    NewestPart(t.queue, older, s.queue, limit) && s.next == t.next && s.lastMsg == t.lastMsg
  }

  lemma NotInBoth(older: seq<Message>, kept: seq<Message>, m: Message)
    requires Distinct(older + kept)
    ensures m in kept ==> m !in older
  {
    forall i, k | 0 <= i < |older| && 0 <= k < |kept| ensures older[i] != kept[k] {
      assert (older + kept)[i] == older[i] && (older + kept)[|older| + k] == kept[k];
    }
  }

  lemma FillFollows(job: Job, large: nat, s: State, t: State, older: seq<Message>) returns (older': seq<Message>)
    requires Follows(job.limit, s, t, older) && |t.queue| < large && Distinct(t.queue) && t.next < |job.batch|
    ensures Follows(job.limit, FillStep(job, s), FillStep(job.(limit := large), t), older')
  {
    var msg := job.batch[t.next];
    var k := Slot(job, t.next);
    assert Slot(job.(limit := large), t.next) == k;
    older' := older;
    if Unknown(job.snapshot, msg) {
      if k < |job.snapshot| {
        NotInBoth(older, s.queue, job.snapshot[k]);
        older' := InsertBeforeParts(t.queue, older, s.queue, job.limit, large, job.snapshot[k], msg);
      } else {
        NotInBoth(older, s.queue, t.lastMsg);
        older' := InsertAfterParts(t.queue, older, s.queue, job.limit, large, t.lastMsg, msg);
      }
    }
  }

  lemma StepFollows(job: Job, large: nat, s: State, t: State, older: seq<Message>, a: Action)
    returns (older': seq<Message>)
    requires Follows(job.limit, s, t, older) && |t.queue| < large && Distinct(t.queue)
    ensures Follows(job.limit, Step(job, s, a), Step(job.(limit := large), t, a), older')
  {
    older' := older;
    match a
    case Live(m) => older' := PushParts(t.queue, older, s.queue, job.limit, large, m);
    case Fill => if t.next < |job.batch| { older' := FillFollows(job, large, s, t, older); }
  }

  /** Eviction loses nothing but the oldest messages: at every moment a queue holds the newest
      part of what a queue that never gets full holds after the same actions. */
  lemma {:induction false} RunFollows(job: Job, large: nat, actions: seq<Action>) returns (older: seq<Message>)
    requires job.Startable() && AllDistinct(job, Lives(actions))
    requires job.limit + |job.batch| + |Lives(actions)| < large
    ensures var wide := job.(limit := large);
      Follows(job.limit, Run(job, Start(job), actions), Run(wide, Start(wide), actions), older)
  {
    older := [];
    if actions != [] {
      var wide, before := job.(limit := large), actions[..|actions| - 1];
      FewerAreDistinct(job, Lives(before), Lives(actions));
      older := RunFollows(job, large, before);
      var t := Run(wide, Start(wide), before);
      BackfillKeepsEachOrder(wide, before);
      RoomyRunConserves(wide, before);
      MergedSize(t.queue, job.snapshot, Unknowns(job.snapshot, job.batch[..t.next]), Lives(before));
      older := StepFollows(job, large, Run(job, Start(job), before), t, older, actions[|actions| - 1]);
    }
  }

  /** The batch messages that the actions have added. */
  function Added(job: Job, actions: seq<Action>): seq<Message> {
    Unknowns(job.snapshot, job.batch[..Min(Fills(actions), |job.batch|)])
  }

  /** For every queue and every interleaving: the queue is exactly the newest part of the complete
      merge of the old messages, the batch messages of unknown id handled so far and the live
      messages, each once, with the old ones and the live ones as subsequences. */
  lemma QueueIsNewestOfMerge(job: Job, actions: seq<Action>)
    requires job.Startable() && AllDistinct(job, Lives(actions))
    ensures var s := Run(job, Start(job), actions);
      && s.queue == LastN(Complete(job, actions), job.limit)
      && s.next == Min(Fills(actions), |job.batch|)
    ensures Merged(Complete(job, actions), job.snapshot, Added(job, actions), Lives(actions))
  {
    var older := RunFollows(job, Wide(job, actions).limit, actions);
    PartIsLastN(Complete(job, actions), older, Run(job, Start(job), actions).queue, job.limit);
    CompleteIsMerged(job, actions);
  }

  lemma PartIsLastN(s: seq<Message>, older: seq<Message>, kept: seq<Message>, limit: nat)
    requires NewestPart(s, older, kept, limit)
    ensures kept == LastN(s, limit)
  {
  }

  lemma CompleteIsMerged(job: Job, actions: seq<Action>)
    requires job.Startable() && AllDistinct(job, Lives(actions))
    ensures Merged(Complete(job, actions), job.snapshot, Added(job, actions), Lives(actions))
    ensures var wide := Wide(job, actions); Run(wide, Start(wide), actions).next == Min(Fills(actions), |job.batch|)
  {
    RoomyRunConserves(Wide(job, actions), actions);
  }

  /** Which batch messages those are, by the messages' own data: the handled ones that have no id,
      or whose id no old user message has. */
  lemma MergedExactlyWhen(job: Job, actions: seq<Action>, n: nat)
    requires job.Startable() && AllDistinct(job, Lives(actions)) && n < |job.batch|
    ensures job.batch[n] in Complete(job, actions) <==>
      && n < Fills(actions)
      && (job.batch[n].data.id == "" || forall m :: m in job.snapshot && System !in m.data.flags
                                          ==> m.data.id != job.batch[n].data.id)
  {
    var handled := Min(Fills(actions), |job.batch|);
    QueueIsNewestOfMerge(job, actions);
    MergedMembers(Complete(job, actions), job.snapshot, Added(job, actions), Lives(actions));
    BatchIsNew(job, Lives(actions), n);
    UnknownExactlyWhen(job.snapshot, job.batch[n]);
    UnknownsInBatch(job.snapshot, job.batch[..handled]);
    BatchPrefix(job, Lives(actions), n, handled);
  }

  lemma BatchPrefix(job: Job, live: seq<Message>, n: nat, handled: nat)
    requires AllDistinct(job, live) && n < |job.batch| && handled <= |job.batch|
    ensures job.batch[n] in job.batch[..handled] <==> n < handled
  {
    var all := job.snapshot + job.batch + live;
    assert forall i :: 0 <= i < |job.batch| ==> all[|job.snapshot| + i] == job.batch[i];
    if job.batch[n] in job.batch[..handled] {
      var i :| 0 <= i < handled && job.batch[i] == job.batch[n];
      assert all[|job.snapshot| + i] == all[|job.snapshot| + n];
    }
  }

  /** Whether everything added so far fits. */
  predicate Fits(job: Job, actions: seq<Action>) {
    |job.snapshot| + |Added(job, actions)| + |Lives(actions)| <= job.limit
  }

  /** Hence nothing at all is lost exactly when everything fits. */
  lemma BackfillConserves(job: Job, actions: seq<Action>)
    requires job.Startable() && AllDistinct(job, Lives(actions))
    ensures Merged(Run(job, Start(job), actions).queue, job.snapshot, Added(job, actions), Lives(actions))
      <==> Fits(job, actions)
  {
    QueueIsNewestOfMerge(job, actions);
    MergedSize(Complete(job, actions), job.snapshot, Added(job, actions), Lives(actions));
    if Merged(Run(job, Start(job), actions).queue, job.snapshot, Added(job, actions), Lives(actions)) {
      MergedSize(Run(job, Start(job), actions).queue, job.snapshot, Added(job, actions), Lives(actions));
    }
  }

  lemma MergedSize(queue: seq<Message>, earlier: seq<Message>, added: seq<Message>, live: seq<Message>)
    requires Merged(queue, earlier, added, live)
    ensures |queue| == |earlier| + |added| + |live|
  {
    MergedMembers(queue, earlier, added, live);
  }

  /** When every id of the batch is known, back-fill only lets the live appends through. */
  lemma {:induction false} KnownBatchChangesNothing(job: Job, actions: seq<Action>)
    requires job.Startable()
    requires forall m :: m in job.batch ==> !Unknown(job.snapshot, m)
    ensures Run(job, Start(job), actions).queue == PushedBackAll(job.snapshot, job.limit, Lives(actions))
    ensures Run(job, Start(job), actions).next <= |job.batch|
  {
    if actions != [] {
      var last := |actions| - 1;
      KnownBatchChangesNothing(job, actions[..last]);
      match actions[last]
      case Live(m) => PushOneMore(job.snapshot, job.limit, Lives(actions[..last]), m);
      case Fill => assert Lives(actions) == Lives(actions[..last]);
    }
  }

  lemma PushOneMore(s: seq<Message>, limit: nat, items: seq<Message>, m: Message)
    requires |s| <= limit
    ensures PushedBackAll(s, limit, items + [m]) == PushedBack(PushedBackAll(s, limit, items), limit, m)
  {
    AppendsKeepTheNewest(s, limit, items);
    AppendsKeepTheNewest(s, limit, items + [m]);
    var all := s + items;
    assert s + (items + [m]) == all + [m];
  }

  /** Running the same batch a second time adds nothing: after a complete first run in which
      everything fitted, a second run of a batch of user messages with ids only lets its live
      appends through. */
  lemma BackfillIsIdempotent(job: Job, actions: seq<Action>, actions': seq<Action>)
    requires job.Startable() && AllDistinct(job, Lives(actions)) && Fits(job, actions)
    requires Fills(actions) >= |job.batch|
    requires Identified(job.batch)
    ensures var queue := Run(job, Start(job), actions).queue;
      var again := job.(snapshot := queue);
      && again.Startable()
      && Run(again, Start(again), actions').queue == PushedBackAll(queue, job.limit, Lives(actions'))
  {
    BackfillConserves(job, actions);
    var queue := Run(job, Start(job), actions).queue;
    MergedMembers(queue, job.snapshot, Added(job, actions), Lives(actions));
    var again := job.(snapshot := queue);
    assert job.batch[..|job.batch|] == job.batch;
    UnknownsInBatch(job.snapshot, job.batch);
    forall m | m in job.batch ensures !Unknown(queue, m) {
      if Unknown(job.snapshot, m) {
        assert m in queue;
      } else {
        var earlier :| earlier in job.snapshot && !IsSystem(earlier) && earlier.data.id == m.data.id;
        assert earlier in queue;
      }
    }
    KnownBatchChangesNothing(again, actions');
  }

  // ---------------------------------------------------------------------------------------
  // Full queues: exactly when a batch changes nothing
  // ---------------------------------------------------------------------------------------

  /** The id is known, or the place of the message is in front of everything in a full queue. */
  predicate Refused(job: Job, m: Message) {
    || !Unknown(job.snapshot, m)
    || (|job.snapshot| == job.limit && FirstLater(job.snapshot, Time(m)) == 0)
  }

  predicate Changed(job: Job, queue: seq<Message>)
    requires job.Startable()
  {
    |queue| > |job.snapshot| || job.snapshot[0] !in queue
  }

  lemma InsertionChanges(queue: seq<Message>, limit: nat, pos: nat, m: Message)
    requires 0 < pos <= |queue| <= limit && Distinct(queue) && m !in queue
    ensures var r := InsertedAt(queue, limit, pos, m); |r| > |queue| || queue[0] !in r
  {
    if |queue| == limit {
      var r := InsertedAt(queue, limit, pos, m);
      forall i | 0 <= i < |r| ensures r[i] != queue[0] {
        assert r[i] == m || r[i] in queue[1..];
      }
    }
  }

  lemma InsertionInvents(queue: seq<Message>, limit: nat, pos: nat, m: Message)
    requires pos <= |queue| <= limit
    ensures var r := InsertedAt(queue, limit, pos, m);
      |r| >= |queue| && forall x :: x in r ==> x in queue || x == m
  {
  }

  /** Identified user messages, which is what a history page consists of. */
  ghost predicate Identified(batch: seq<Message>) {
    forall m :: m in batch ==> !IsSystem(m) && m.data.id != ""
  }

  lemma StaysChanged(job: Job, s: State)
    requires job.Startable() && Identified(job.batch) && s.next < |job.batch| && |s.queue| <= job.limit
    requires Changed(job, s.queue)
    ensures Changed(job, FillStep(job, s).queue)
  {
    var msg := job.batch[s.next];
    if Unknown(job.snapshot, msg) {
      assert msg != job.snapshot[0];
      var k := Slot(job, s.next);
      var i := IndexOf(s.queue, if k < |job.snapshot| then job.snapshot[k] else s.lastMsg);
      if i >= 0 {
        InsertionInvents(s.queue, job.limit, if k < |job.snapshot| then i else i + 1, msg);
      }
    }
  }

  lemma FirstChange(job: Job, s: State)
    requires job.Startable() && Identified(job.batch) && s.next < |job.batch| && Distinct(job.snapshot)
    requires s == Start(job).(next := s.next)
    ensures var s' := FillStep(job, s);
      if Refused(job, job.batch[s.next]) then s' == s.(next := s.next + 1) else Changed(job, s'.queue)
  {
    var msg := job.batch[s.next];
    var k := Slot(job, s.next);
    var last := |job.snapshot| - 1;
    if Unknown(job.snapshot, msg) {
      if k < |job.snapshot| {
        FirstIndex(job.snapshot, job.snapshot[k], k);
      } else {
        FirstIndex(job.snapshot, job.snapshot[last], last);
      }
      if 0 < k {
        InsertionChanges(job.snapshot, job.limit, if k < |job.snapshot| then k else last + 1, msg);
      }
    }
  }

  lemma {:induction false} ChangeSoFar(job: Job, actions: seq<Action>)
    requires job.Startable() && Identified(job.batch) && Distinct(job.snapshot) && Lives(actions) == []
    ensures var s := Run(job, Start(job), actions);
      && s.next == Min(Fills(actions), |job.batch|)
      && if forall i :: 0 <= i < s.next ==> Refused(job, job.batch[i])
         then s == Start(job).(next := s.next) else Changed(job, s.queue)
  {
    if actions != [] {
      var before := actions[..|actions| - 1];
      var s := Run(job, Start(job), before);
      ChangeSoFar(job, before);
      if s.next < |job.batch| {
        if forall i :: 0 <= i < s.next ==> Refused(job, job.batch[i]) {
          FirstChange(job, s);
        } else {
          StaysChanged(job, s);
        }
      }
    }
  }

  /** Without live appends a complete run over identified user messages leaves the queue as it was
      exactly when each of them is refused. In particular a second run of a batch on a full queue
      need not be without effect: see `SecondRunOnFullQueue`. */
  lemma ChangesNothingExactlyWhen(job: Job, actions: seq<Action>)
    requires job.Startable() && Identified(job.batch) && Distinct(job.snapshot)
    requires Lives(actions) == [] && Fills(actions) >= |job.batch|
    ensures Run(job, Start(job), actions).queue == job.snapshot <==>
      forall m :: m in job.batch ==> Refused(job, m)
  {
    ChangeSoFar(job, actions);
  }

  /** A full queue [a, b] and a batch of two messages of one time between a and b: the first run
      evicts a and then the first of the two, which the second run brings back for the other. */
  lemma SecondRunOnFullQueue(a: Message, b: Message, x: Message, y: Message)
    requires Distinct([a, b, x, y]) && Identified([a, b, x, y])
    requires a.data.id !in {x.data.id, y.data.id} && b.data.id !in {x.data.id, y.data.id} && x.data.id != y.data.id
    requires Time(a) < Time(x) == Time(y) < Time(b)
    ensures var job := Job(2, [a, b], [x, y]); var twice := [Fill, Fill];
      && Run(job, Start(job), twice).queue == [y, b]
      && var again := job.(snapshot := [y, b]); Run(again, Start(again), twice).queue == [x, b]
  {
    var job := Job(2, [a, b], [x, y]);
    TwoFills(job);
    SwapOnFullQueue(a, b, x);
    SwapOnFullQueue(x, b, y);
    var again := Job(2, [y, b], [x, y]);
    TwoFills(again);
    SwapOnFullQueue(y, b, x);
    assert y in again.snapshot;
  }

  /** A message between the two of a full queue takes the place of the first. */
  lemma SwapOnFullQueue(first: Message, b: Message, x: Message)
    requires first != b && Time(first) <= Time(x) < Time(b) && !IsSystem(b)
    ensures FirstLater([first, b], Time(x)) == 1 && InsertedBefore([first, b], 2, b, x) == [x, b]
  {
    assert [first, b][1..] == [b];
  }

  lemma TwoFills(job: Job)
    requires job.Startable()
    ensures Run(job, Start(job), [Fill, Fill]) == Step(job, Step(job, Start(job), Fill), Fill)
  {
    assert [Fill, Fill][..1] == [Fill] && [Fill][..0] == [];
    assert Run(job, Start(job), [Fill]) == Step(job, Start(job), Fill);
  }

  // ---------------------------------------------------------------------------------------
  // Ids: the known ids are collected only once
  // ---------------------------------------------------------------------------------------

  predicate SameId(m: Message, m': Message) {
    m != m' && m.data.id == m'.data.id && m.data.id != ""
  }

  /** One message of each list with the same id. */
  ghost predicate CommonId(s: seq<Message>, t: seq<Message>) {
    exists m, m' :: m in s && m' in t && SameId(m, m')
  }

  ghost predicate SystemIdAdded(s: seq<Message>, added: seq<Message>) {
    exists m, m' :: m in s && m' in added && IsSystem(m) && SameId(m, m')
  }

  /** An old user message and a filled-in one never share an id, in a queue of any size. */
  lemma OldIdsAreNotAdded(job: Job, actions: seq<Action>, m: Message, m': Message)
    requires job.Startable() && AllDistinct(job, Lives(actions))
    requires m in job.snapshot && !IsSystem(m)
    requires m' in job.batch && m' in Run(job, Start(job), actions).queue
    ensures !SameId(m, m')
  {
    BackfillKeepsEachOrder(job, actions);
    var all := job.snapshot + job.batch + Lives(actions);
    var i :| 0 <= i < |job.batch| && job.batch[i] == m';
    BatchIsNew(job, Lives(actions), i);
  }

  /** When everything fits, exactly how an id can come to be queued twice. Old messages alone are
      not to blame when they had different ids; what is left is two new messages, a live message
      with an old id, and a filled-in message with the id of an old System message. */
  lemma IdsRepeatExactlyWhen(job: Job, actions: seq<Action>)
    requires job.Startable() && AllDistinct(job, Lives(actions)) && Fits(job, actions)
    ensures var queue := Run(job, Start(job), actions).queue;
      var old_, added, live := job.snapshot, Added(job, actions), Lives(actions);
      CommonId(queue, queue) <==>
        || CommonId(old_, old_) || CommonId(added, added) || CommonId(live, live)
        || CommonId(added, live) || CommonId(old_, live) || SystemIdAdded(old_, added)
  {
    var queue := Run(job, Start(job), actions).queue;
    var before, added, live := job.snapshot, Added(job, actions), Lives(actions);
    BackfillConserves(job, actions);
    MergedMembers(queue, before, added, live);
    AddedAreUnknown(job, actions);
    IdsOfMembers(queue, before, added, live);
  }

  lemma AddedAreUnknown(job: Job, actions: seq<Action>)
    ensures forall m :: m in Added(job, actions) ==> Unknown(job.snapshot, m)
  {
    OnlyUnknowns(job.snapshot, job.batch[..Min(Fills(actions), |job.batch|)]);
  }

  lemma {:induction false} OnlyUnknowns(snapshot: seq<Message>, batch: seq<Message>)
    ensures forall m :: m in Unknowns(snapshot, batch) ==> Unknown(snapshot, m)
  {
    if batch != [] {
      OnlyUnknowns(snapshot, batch[..|batch| - 1]);
    }
  }

  lemma IdsOfMembers(queue: seq<Message>, before: seq<Message>, added: seq<Message>, live: seq<Message>)
    requires forall m :: m in queue <==> m in before || m in added || m in live
    requires forall m' :: m' in added ==> Unknown(before, m')
    ensures CommonId(queue, queue) <==>
      || CommonId(before, before) || CommonId(added, added) || CommonId(live, live)
      || CommonId(added, live) || CommonId(before, live) || SystemIdAdded(before, added)
  {
    if CommonId(queue, queue) {
      var m, m' :| m in queue && m' in queue && SameId(m, m');
      assert SameId(m', m);
      if m in before && m' in added {
        assert IsSystem(m);
      }
      if m' in before && m in added {
        assert IsSystem(m');
      }
    }
  }
}
