/** 7TV emote events, read off the queue emote by emote, over whole runs. */
module EventOrder {
  import opened Sequences
  import opened Messages
  import opened QueueSpec
  import opened Stacking
  import opened ChannelRuns

  /** One reported event: its kind and who did it. */
  datatype Event = Event(kind: set<Flag>, actor: string)

  function EventsOf(x: MessageData, emote: string): seq<Event> {
    if IsEvent(x) && emote in x.emotes then [Event(x.flags * SEVEN_TV_FLAGS, x.loginName)] else []
  }

  /** The events on one emote, read off the queue from oldest to newest. */
  function EventsOn(s: seq<MessageData>, emote: string): seq<Event> {
    if s == [] then [] else EventsOf(s[0], emote) + EventsOn(s[1..], emote)
  }

  lemma {:induction false} EventsConcat(s: seq<MessageData>, t: seq<MessageData>, emote: string)
    ensures EventsOn(s + t, emote) == EventsOn(s, emote) + EventsOn(t, emote)
  {
    if s == [] {
      assert s + t == t;
    } else {
      ConcatTail(s, t);
      EventsConcat(s[1..], t, emote);
      ConcatAssociates(EventsOf(s[0], emote), EventsOn(s[1..], emote), EventsOn(t, emote));
    }
  }

  lemma {:induction false} EventsSame(s: seq<MessageData>, t: seq<MessageData>, emote: string)
    requires |s| == |t| && forall i :: 0 <= i < |s| ==> EventsOf(s[i], emote) == EventsOf(t[i], emote)
    ensures EventsOn(s, emote) == EventsOn(t, emote)
  {
    if s != [] {
      EventsSame(s[1..], t[1..], emote);
    }
  }

  lemma {:induction false} NoEvents(s: seq<MessageData>, emote: string)
    requires forall i :: 0 <= i < |s| ==> EventsOf(s[i], emote) == []
    ensures EventsOn(s, emote) == []
  {
    if s != [] {
      NoEvents(s[1..], emote);
    }
  }

  function EventsReceived(op: Op, emote: string): seq<Event> {
    match op
    case Add(m) => EventsOf(m, emote)
    case AddEvent(m, _) => EventsOf(m, emote)
    case _ => []
  }

  function EventHistory(ops: seq<Op>, emote: string): seq<Event> {
    if ops == [] then []
    else EventHistory(ops[..|ops| - 1], emote) + EventsReceived(ops[|ops| - 1], emote)
  }

  ghost predicate Suffix<T>(a: seq<T>, b: seq<T>) {
    |a| <= |b| && a == b[|b| - |a|..]
  }

  /** History pages consist of chat, not of 7TV events. */
  ghost predicate ChatHistory(ops: seq<Op>) {
    forall op, x :: op in ops && op.AddHistory? && x in op.ms ==> !IsEvent(x)
  }

  lemma PushKeepsSuffix(s: seq<MessageData>, limit: nat, m: MessageData, emote: string)
    requires |s| <= limit
    ensures Suffix(EventsOn(PushedBack(s, limit, m), emote), EventsOn(s, emote) + EventsOf(m, emote))
    ensures |s| < limit ==> EventsOn(PushedBack(s, limit, m), emote) == EventsOn(s, emote) + EventsOf(m, emote)
  {
    var all := s + [m];
    EventsConcat(s, [m], emote);
    assert EventsOn([m], emote) == EventsOf(m, emote);
    var drop := |all| - Min(|all|, limit);
    assert all == all[..drop] + all[drop..] && PushedBack(s, limit, m) == all[drop..];
    EventsConcat(all[..drop], all[drop..], emote);
  }

  lemma EventsAround(front: seq<MessageData>, x: MessageData, back: seq<MessageData>, emote: string)
    ensures EventsOn(front + [x] + back, emote) == EventsOn(front, emote) + EventsOf(x, emote) + EventsOn(back, emote)
  {
    EventsConcat(front + [x], back, emote);
    EventsConcat(front, [x], emote);
    assert EventsOn([x], emote) == EventsOf(x, emote);
  }

  lemma EventsReplaced(s: seq<MessageData>, i: nat, x: MessageData, emote: string)
    requires i < |s|
    ensures EventsOn(s, emote) == EventsOn(s[..i], emote) + EventsOf(s[i], emote) + EventsOn(s[i + 1..], emote)
    ensures EventsOn(s[i := x], emote) == EventsOn(s[..i], emote) + EventsOf(x, emote) + EventsOn(s[i + 1..], emote)
  {
    Sequences.Split(s, i);
    Updated(s, i, x);
    EventsAround(s[..i], s[i], s[i + 1..], emote);
    EventsAround(s[..i], x, s[i + 1..], emote);
  }

  /** Stacking moves the new event forward past messages that do not mention its emotes. */
  lemma StackKeepsOrder(s: seq<MessageData>, m: MessageData, now: int, emote: string)
    requires 0 <= now < DAY && AllWellFormed(s) && WellFormed(m)
    ensures var o := EventOutcome(s, m, now);
      o.ReplaceAt? ==> EventsOn(s[o.index := o.replacement], emote) == EventsOn(s, emote) + EventsOf(m, emote)
  {
    EventOutcomeFacts(s, m, now);
    var o := EventOutcome(s, m, now);
    if o.ReplaceAt? {
      var i, r := o.index, o.replacement;
      assert WellFormed(s[i]) && WellFormed(m);
      assert r.flags * SEVEN_TV_FLAGS == s[i].flags * SEVEN_TV_FLAGS;
      EventsReplaced(s, i, r, emote);
      if emote in m.emotes {
        forall j | i <= j < |s| ensures EventsOf(s[j], emote) == [] {
          assert IsEvent(s[j]) ==> !ShareEmote(s[j].emotes, m.emotes);
        }
        NoEvents(s[i + 1..], emote);
        assert EventsOf(r, emote) == EventsOf(m, emote);
      } else {
        assert emote in r.emotes <==> emote in s[i].emotes;
        assert EventsOf(r, emote) == EventsOf(s[i], emote);
      }
    }
  }

  lemma DisableUserKeepsEvents(s: seq<MessageData>, user: string, emote: string)
    ensures EventsOn(DisableUserIn(s, user), emote) == EventsOn(s, emote)
  {
    var s' := DisableUserIn(s, user);
    forall i | 0 <= i < |s| ensures EventsOf(s[i], emote) == EventsOf(s'[i], emote) {
      assert s'[i].flags * SEVEN_TV_FLAGS == s[i].flags * SEVEN_TV_FLAGS;
    }
    EventsSame(s, s', emote);
  }

  lemma TimeoutKeepsEvents(
    s: seq<MessageData>, limit: nat, m: MessageData, style: TimeoutStackStyle, now: int, emote: string)
    requires |s| <= limit && 0 <= now < DAY && AllWellFormed(s) && !IsEvent(m)
    ensures Suffix(EventsOn(AfterTimeout(s, limit, m, style, now), emote), EventsOn(s, emote))
    ensures |s| < limit ==> EventsOn(AfterTimeout(s, limit, m, style, now), emote) == EventsOn(s, emote)
  {
    DisableUserKeepsEvents(s, m.timeoutUser, emote);
    TimeoutOutcomeFacts(s, m, style, now);
    var o := TimeoutOutcome(s, m, style, now);
    if o.ReplaceAt? {
      assert WellFormed(s[o.index]);
    }
    EventlessOutcome(DisableUserIn(s, m.timeoutUser), limit, m, o, emote);
  }

  lemma EventlessOutcome(s': seq<MessageData>, limit: nat, m: MessageData, o: Outcome, emote: string)
    requires |s'| <= limit && !IsEvent(m)
    requires o.ReplaceAt? ==> o.index < |s'| && !IsEvent(s'[o.index]) && !IsEvent(o.replacement)
    ensures Suffix(EventsOn(Apply(s', limit, m, o), emote), EventsOn(s', emote))
    ensures |s'| < limit ==> EventsOn(Apply(s', limit, m, o), emote) == EventsOn(s', emote)
  {
    match o
    case Append =>
      PushKeepsSuffix(s', limit, m, emote);
      assert EventsOn(s', emote) + EventsOf(m, emote) == EventsOn(s', emote);
    case Drop =>
    case ReplaceAt(k, r) => EventsReplaced(s', k, r, emote);
  }

  lemma DisablingKeepsEvents(s: seq<MessageData>, id: string, emote: string)
    ensures EventsOn(DisableAllIn(s), emote) == EventsOn(s, emote) == EventsOn(Deleted(s, id), emote)
  {
    forall x: MessageData ensures Disable(x).flags * SEVEN_TV_FLAGS == x.flags * SEVEN_TV_FLAGS {}
    EventsSame(s, DisableAllIn(s), emote);
    EventsSame(s, Deleted(s, id), emote);
  }

  lemma StepKeepsEventOrder(s: seq<MessageData>, limit: nat, op: Op, emote: string)
    requires |s| <= limit && op.Valid() && AllWellFormed(s) && WellFormedOp(op)
    requires op.AddHistory? ==> forall x :: x in op.ms ==> !IsEvent(x)
    ensures var now, before := EventsOn(Step(s, limit, op), emote), EventsOn(s, emote) + EventsReceived(op, emote);
      Suffix(now, before) && (|s| + op.Size() <= limit ==> now == before)
  {
    match op
    case Add(m) => PushKeepsSuffix(s, limit, m, emote);
    case AddTimeout(m, style, now) => TimeoutKeepsEvents(s, limit, m, style, now, emote);
    case AddEvent(m, now) =>
      StackKeepsOrder(s, m, now, emote);
      PushKeepsSuffix(s, limit, m, emote);
      EventOutcomeFacts(s, m, now);
    case AddHistory(ms) =>
      var kept := LastN(ms, limit - |s|);
      assert forall x :: x in kept ==> x in ms;
      NoEvents(kept, emote);
      EventsConcat(kept, s, emote);
    case DisableAll => DisablingKeepsEvents(s, "", emote);
    case Delete(id) => DisablingKeepsEvents(s, id, emote);
  }

  lemma OneMoreEvent(s: seq<MessageData>, limit: nat, op: Op, emote: string, all: seq<Event>)
    requires |s| <= limit && op.Valid() && AllWellFormed(s) && WellFormedOp(op)
    requires op.AddHistory? ==> forall x :: x in op.ms ==> !IsEvent(x)
    requires Suffix(EventsOn(s, emote), all)
    ensures var now := EventsOn(Step(s, limit, op), emote); var all' := all + EventsReceived(op, emote);
      Suffix(now, all') && (|s| + op.Size() <= limit && EventsOn(s, emote) == all ==> now == all')
  {
    StepKeepsEventOrder(s, limit, op, emote);
    SuffixTransitive(EventsOn(Step(s, limit, op), emote), EventsOn(s, emote), EventsReceived(op, emote), all);
  }

  lemma SuffixTransitive<T>(a: seq<T>, b: seq<T>, extra: seq<T>, c: seq<T>)
    requires Suffix(a, b + extra) && Suffix(b, c)
    ensures Suffix(a, c + extra)
  {
    assert c + extra == c[..|c| - |b|] + (b + extra);
  }

  /** What the theorem asks of a run. */
  ghost predicate Orderly(ops: seq<Op>) {
    ValidOps(ops) && WellFormedOps(ops) && ChatHistory(ops)
  }

  lemma OrderlyPrefix(ops: seq<Op>)
    requires Orderly(ops) && ops != []
    ensures Orderly(ops[..|ops| - 1]) && ops[|ops| - 1].Valid() && WellFormedOp(ops[|ops| - 1])
    ensures var op := ops[|ops| - 1]; op.AddHistory? ==> forall x :: x in op.ms ==> !IsEvent(x)
  {
    assert forall op :: op in ops[..|ops| - 1] ==> op in ops;
    assert ops[|ops| - 1] in ops;
  }

  /** Over any run, for every emote the add, remove and rename events read off the queue are the
      newest part of what arrived, in arrival order; all of it when nothing can be evicted. */
  lemma {:induction false} StackingNeverReordersEvents(s: seq<MessageData>, limit: nat, ops: seq<Op>, emote: string)
    requires |s| <= limit && AllWellFormed(s) && Orderly(ops)
    ensures Suffix(EventsOn(Run(s, limit, ops), emote), EventsOn(s, emote) + EventHistory(ops, emote))
    ensures Fits(s, limit, ops) ==>
      EventsOn(Run(s, limit, ops), emote) == EventsOn(s, emote) + EventHistory(ops, emote)
  {
    if ops != [] {
      var last := |ops| - 1;
      OrderlyPrefix(ops);
      StackingNeverReordersEvents(s, limit, ops[..last], emote);
      RunWellFormed(s, limit, ops[..last]);
      RunSize(s, limit, ops[..last]);
      var all := EventsOn(s, emote) + EventHistory(ops[..last], emote);
      OneMoreEvent(Run(s, limit, ops[..last]), limit, ops[last], emote, all);
      ConcatAssociates(EventsOn(s, emote), EventHistory(ops[..last], emote), EventsReceived(ops[last], emote));
    }
  }
}
