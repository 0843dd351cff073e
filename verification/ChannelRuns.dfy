/** Whole runs of a channel: any mix of plain messages, timeouts, 7TV events, history pages and
    moderation, as changes to the queued messages. */
module ChannelRuns {
  import opened Sequences
  import opened Messages
  import opened QueueSpec
  import opened Stacking

  datatype Op =
    | Add(m: MessageData)
    | AddTimeout(m: MessageData, style: TimeoutStackStyle, now: int)
    | AddEvent(m: MessageData, now: int)
    | AddHistory(ms: seq<MessageData>)
    | DisableAll
    | Delete(id: string)
  {
    predicate Valid() {
      (AddTimeout? || AddEvent?) ==> 0 <= now < DAY
    }

    /** How many messages the operation can add. */
    function Size(): nat {
      match this
      case Add(_) => 1
      case AddTimeout(_, _, _) => 1
      case AddEvent(_, _) => 1
      case AddHistory(ms) => |ms|
      case _ => 0
    }
  }

  predicate ClearedByModerator(x: MessageData) {
    System !in x.flags && Timeout !in x.flags && Whisper !in x.flags
  }

  function Disable(x: MessageData): MessageData {
    x.(flags := x.flags + {Disabled})
  }

  function DisableAllIn(s: seq<MessageData>): (r: seq<MessageData>)
    ensures |r| == |s|
    ensures forall i :: 0 <= i < |s| ==> r[i] == if ClearedByModerator(s[i]) then Disable(s[i]) else s[i]
  {
    seq(|s|, i requires 0 <= i < |s| => if ClearedByModerator(s[i]) then Disable(s[i]) else s[i])
  }

  /** Index of the newest message with the id, or -1. */
  function LastWithId(s: seq<MessageData>, id: string): (i: int)
    ensures -1 <= i < |s|
    ensures i >= 0 ==> s[i].id == id
    ensures forall j :: i < j < |s| ==> s[j].id != id
  {
    if s == [] then -1
    else if s[|s| - 1].id == id then |s| - 1
    else LastWithId(s[..|s| - 1], id)
  }

  function Deleted(s: seq<MessageData>, id: string): (r: seq<MessageData>)
    ensures |r| == |s|
  {
    var i := LastWithId(s, id);
    if i < 0 then s else s[i := Disable(s[i])]
  }

  function Step(s: seq<MessageData>, limit: nat, op: Op): (r: seq<MessageData>)
    requires |s| <= limit && op.Valid()
    ensures |r| <= limit
    ensures |r| <= |s| + op.Size()
  {
    match op
    case Add(m) => PushedBack(s, limit, m)
    case AddTimeout(m, style, now) => AfterTimeout(s, limit, m, style, now)
    case AddEvent(m, now) => AfterEvent(s, limit, m, now)
    case AddHistory(ms) => PushedFront(s, limit, ms)
    case DisableAll => DisableAllIn(s)
    case Delete(id) => Deleted(s, id)
  }

  ghost predicate ValidOps(ops: seq<Op>) {
    forall op :: op in ops ==> op.Valid()
  }

  ghost function Run(s: seq<MessageData>, limit: nat, ops: seq<Op>): (r: seq<MessageData>)
    requires |s| <= limit && ValidOps(ops)
    ensures |r| <= limit
  {
    if ops == [] then s
    else
      var last := |ops| - 1;
      Step(Run(s, limit, ops[..last]), limit, ops[last])
  }

  function TotalSize(ops: seq<Op>): nat {
    if ops == [] then 0
    else TotalSize(ops[..|ops| - 1]) + ops[|ops| - 1].Size()
  }

  /** Nothing can be evicted: everything ever added fits. */
  predicate Fits(s: seq<MessageData>, limit: nat, ops: seq<Op>) {
    |s| + TotalSize(ops) <= limit
  }

  lemma {:induction false} RunSize(s: seq<MessageData>, limit: nat, ops: seq<Op>)
    requires |s| <= limit && ValidOps(ops)
    ensures |Run(s, limit, ops)| <= |s| + TotalSize(ops)
  {
    if ops != [] {
      RunSize(s, limit, ops[..|ops| - 1]);
    }
  }

  // ---------------------------------------------------------------------------------------
  // Well-formed runs
  // ---------------------------------------------------------------------------------------

  /** Well-formed arrivals: a timeout message is not a 7TV event message, and a message reports
      at most one kind of 7TV event, listing no emote twice. */
  ghost predicate WellFormed(x: MessageData) {
    && !(Timeout in x.flags && IsEvent(x))
    && !(SevenTvAdd in x.flags && SevenTvRemove in x.flags)
    && !(SevenTvAdd in x.flags && SevenTvUpdate in x.flags)
    && !(SevenTvRemove in x.flags && SevenTvUpdate in x.flags)
    && (IsEvent(x) ==> Distinct(x.emotes))
  }

  ghost predicate AllWellFormed(s: seq<MessageData>) {
    forall x :: x in s ==> WellFormed(x)
  }

  ghost predicate WellFormedOp(op: Op) {
    match op
    case Add(m) => WellFormed(m)
    case AddTimeout(m, _, _) => WellFormed(m) && !IsEvent(m)
    case AddEvent(m, _) => WellFormed(m)
    case AddHistory(ms) => forall x :: x in ms ==> WellFormed(x)
    case _ => true
  }

  ghost predicate WellFormedOps(ops: seq<Op>) {
    forall op :: op in ops ==> WellFormedOp(op)
  }

  lemma DistinctConcat(a: seq<string>, b: seq<string>)
    requires Distinct(a) && Distinct(b) && !ShareEmote(a, b)
    ensures Distinct(a + b)
  {
    var c := a + b;
    forall i, j | 0 <= i < j < |c| ensures c[i] != c[j] {
      if i < |a| <= j {
        assert c[i] in a && c[j] in b;
      }
    }
  }

  lemma StackedIsWellFormed(s: seq<MessageData>, m: MessageData, now: int)
    requires AllWellFormed(s) && WellFormed(m) && 0 <= now < DAY
    ensures var o := EventOutcome(s, m, now); o.ReplaceAt? ==> WellFormed(o.replacement)
  {
    EventOutcomeFacts(s, m, now);
    var o := EventOutcome(s, m, now);
    if o.ReplaceAt? {
      assert WellFormed(s[o.index]);
      DistinctConcat(s[o.index].emotes, m.emotes);
    }
  }

  lemma DisablingWellFormed(s: seq<MessageData>, id: string, user: string)
    requires AllWellFormed(s)
    ensures AllWellFormed(DisableAllIn(s)) && AllWellFormed(Deleted(s, id)) && AllWellFormed(DisableUserIn(s, user))
  {
    assert forall i :: 0 <= i < |s| ==> WellFormed(s[i]);
  }

  lemma ApplyWellFormed(s: seq<MessageData>, limit: nat, m: MessageData, o: Outcome)
    requires |s| <= limit && AllWellFormed(s) && WellFormed(m)
    requires o.ReplaceAt? ==> o.index < |s| && WellFormed(o.replacement)
    ensures AllWellFormed(Apply(s, limit, m, o))
  {
    assert o.ReplaceAt? ==> forall x :: x in s[o.index := o.replacement] ==> x in s || x == o.replacement;
  }

  lemma StepWellFormed(s: seq<MessageData>, limit: nat, op: Op)
    requires |s| <= limit && op.Valid() && AllWellFormed(s) && WellFormedOp(op)
    ensures AllWellFormed(Step(s, limit, op))
  {
    match op
    case Add(m) =>
    case AddTimeout(m, style, now) =>
      TimeoutOutcomeFacts(s, m, style, now);
      DisablingWellFormed(s, "", m.timeoutUser);
      ApplyWellFormed(DisableUserIn(s, m.timeoutUser), limit, m, TimeoutOutcome(s, m, style, now));
    case AddEvent(m, now) =>
      StackedIsWellFormed(s, m, now);
      ApplyWellFormed(s, limit, m, EventOutcome(s, m, now));
    case AddHistory(ms) =>
    case DisableAll => DisablingWellFormed(s, "", "");
    case Delete(id) => DisablingWellFormed(s, id, "");
  }

  /** No run ever produces a message that lists an emote twice. */
  lemma {:induction false} RunWellFormed(s: seq<MessageData>, limit: nat, ops: seq<Op>)
    requires |s| <= limit && ValidOps(ops) && AllWellFormed(s) && WellFormedOps(ops)
    ensures AllWellFormed(Run(s, limit, ops))
  {
    if ops != [] {
      var last := |ops| - 1;
      RunWellFormed(s, limit, ops[..last]);
      StepWellFormed(Run(s, limit, ops[..last]), limit, ops[last]);
    }
  }
}
