/** What the timeout and 7TV stacking of src/common/Channel.cpp do to the queued messages,
    oldest first. Both look back over the newest 20 messages and stop at one whose time of day is
    earlier than the time of day 5 seconds ago. */
module Stacking {
  import opened Messages
  import opened QueueSpec

  datatype TimeoutStackStyle = StackHard | DontStackBeyondUserMessage | DontStack

  /** Times of day wrap around at midnight, and so does "5 seconds ago". */
  const DAY: int := 86_400_000

  function MinimumTime(now: int): (t: int)
    requires 0 <= now < DAY
    ensures 0 <= t < DAY && (t == now - 5000 || t == now - 5000 + DAY)
  {
    (now + DAY - 5000) % DAY
  }

  /** Times of day carry no date. For a message received at `t`, seen at `now` and less than a day
      later (in milliseconds since some midnight), the comparison says "more than 5 seconds old"
      correctly exactly when the message was received on the day it was 5 seconds ago. */
  lemma AgeIsRightExactlyWhen(t: int, now: int)
    requires 0 <= t <= now < t + DAY && now >= 5000
    ensures (t % DAY < MinimumTime(now % DAY) <==> now - t > 5000) <==> t / DAY == (now - 5000) / DAY
  {
    var d, e := t / DAY, (now - 5000) / DAY;
    assert t == d * DAY + t % DAY && now - 5000 == e * DAY + (now - 5000) % DAY;
    SameTimeOfDay(now);
    assert -1 <= d - e <= 1;
  }

  lemma SameTimeOfDay(now: int)
    requires now >= 5000
    ensures MinimumTime(now % DAY) == (now - 5000) % DAY
  {
    var d := now / DAY;
    var m := MinimumTime(now % DAY);
    assert now - 5000 == DAY * (if m == now % DAY - 5000 then d else d - 1) + m;
  }

  /** At two seconds past midnight a message of one second ago counts as old; at ten in the morning
      one from three in the afternoon of the day before does not. */
  lemma AgeIsWrongAcrossMidnight()
    ensures (DAY + 1_000) % DAY < MinimumTime((DAY + 2_000) % DAY)
    ensures !(54_000_000 % DAY < MinimumTime((DAY + 36_000_000) % DAY))
  {
  }

  function WindowEnd(length: nat): nat {
    if length < 20 then 0 else length - 20
  }

  /** What the backward search decides for the incoming message. */
  datatype Outcome = Append | Drop | ReplaceAt(index: nat, replacement: MessageData)

  // ---------------------------------------------------------------------------------------
  // Timeouts
  // ---------------------------------------------------------------------------------------

  /** The stacked timeout: a fresh message that takes its user and flags from the incoming one. */
  function StackedTimeout(x: MessageData, m: MessageData, now: int): MessageData {
    MessageData("", 0, now, m.flags, "", m.timeoutUser, x.count + 1, [])
  }

  /** The search gives up at `x`. */
  predicate TimeoutBarrier(x: MessageData, m: MessageData, style: TimeoutStackStyle, minimumTime: int) {
    || x.parseTime < minimumTime
    || (Untimeout in x.flags && x.timeoutUser == m.timeoutUser)
    || (style.DontStackBeyondUserMessage? && x.loginName == m.timeoutUser
        && Disabled !in x.flags && Timeout !in x.flags && Untimeout !in x.flags)
  }

  predicate TimeoutOf(x: MessageData, user: string) {
    Timeout in x.flags && x.timeoutUser == user
  }

  function MeetTimeout(i: nat, x: MessageData, m: MessageData, style: TimeoutStackStyle, now: int): Outcome {
    if PubSub in m.flags && PubSub !in x.flags then ReplaceAt(i, m)
    else if PubSub !in m.flags && PubSub in x.flags then (if style.DontStack? then Append else Drop)
    else ReplaceAt(i, StackedTimeout(x, m, now))
  }

  function TimeoutSearch(s: seq<MessageData>, i: int, m: MessageData, style: TimeoutStackStyle, now: int): Outcome
    requires -1 <= i < |s| && 0 <= now < DAY
    decreases i + 1
  {
    if i < WindowEnd(|s|) || TimeoutBarrier(s[i], m, style, MinimumTime(now)) then Append
    else if TimeoutOf(s[i], m.timeoutUser) then MeetTimeout(i, s[i], m, style, now)
    else TimeoutSearch(s, i - 1, m, style, now)
  }

  predicate ToDisable(x: MessageData, user: string) {
    x.loginName == user && Timeout !in x.flags && Untimeout !in x.flags && Whisper !in x.flags
  }

  function DisableUser(x: MessageData, user: string): MessageData {
    if ToDisable(x, user) then x.(flags := x.flags + {Disabled}) else x
  }

  function DisableUserIn(s: seq<MessageData>, user: string): (r: seq<MessageData>)
    ensures |r| == |s| && forall i :: 0 <= i < |s| ==> r[i] == DisableUser(s[i], user)
  {
    seq(|s|, i requires 0 <= i < |s| => DisableUser(s[i], user))
  }

  function Apply(s: seq<MessageData>, limit: nat, m: MessageData, o: Outcome): (r: seq<MessageData>)
    requires |s| <= limit && (o.ReplaceAt? ==> o.index < |s|)
    ensures |r| <= limit
  {
    match o
    case Append => PushedBack(s, limit, m)
    case Drop => s
    case ReplaceAt(i, replacement) => s[i := replacement]
  }

  // ---- decisions, stated without the search ----

  /** The message at `k` is what the search from `i` on meets: the newest timeout of that user, at
      most 20 messages back in the queue, with no barrier at it or behind it. */
  ghost predicate MeetsFrom(s: seq<MessageData>, k: nat, i: int, m: MessageData, style: TimeoutStackStyle, now: int)
    requires -1 <= i < |s| && 0 <= now < DAY
  {
    && WindowEnd(|s|) <= k <= i && TimeoutOf(s[k], m.timeoutUser)
    && (forall j :: k <= j <= i ==> !TimeoutBarrier(s[j], m, style, MinimumTime(now)))
    && (forall j :: k < j <= i ==> !TimeoutOf(s[j], m.timeoutUser))
  }

  lemma {:induction false} TimeoutSearchDecides(
    s: seq<MessageData>, i: int, m: MessageData, style: TimeoutStackStyle, now: int)
    requires -1 <= i < |s| && 0 <= now < DAY
    ensures forall k: nat :: MeetsFrom(s, k, i, m, style, now) ==>
      TimeoutSearch(s, i, m, style, now) == MeetTimeout(k, s[k], m, style, now)
    ensures (forall k: nat :: !MeetsFrom(s, k, i, m, style, now)) ==> TimeoutSearch(s, i, m, style, now) == Append
    decreases i + 1
  {
    if WindowEnd(|s|) <= i && !TimeoutBarrier(s[i], m, style, MinimumTime(now)) {
      if TimeoutOf(s[i], m.timeoutUser) {
        assert MeetsFrom(s, i, i, m, style, now);
      } else {
        TimeoutSearchDecides(s, i - 1, m, style, now);
        assert forall k: nat :: MeetsFrom(s, k, i, m, style, now) ==> MeetsFrom(s, k, i - 1, m, style, now);
        if TimeoutSearch(s, i - 1, m, style, now) != Append {
          var k: nat :| MeetsFrom(s, k, i - 1, m, style, now);
          assert MeetsFrom(s, k, i, m, style, now);
        }
      }
    }
  }

  function TimeoutOutcome(s: seq<MessageData>, m: MessageData, style: TimeoutStackStyle, now: int): (o: Outcome)
    requires 0 <= now < DAY
    ensures o.ReplaceAt? ==> o.index < |s|
  {
    TimeoutSearchDecides(s, |s| - 1, m, style, now);
    TimeoutSearch(s, |s| - 1, m, style, now)
  }

  ghost predicate Meets(s: seq<MessageData>, k: nat, m: MessageData, style: TimeoutStackStyle, now: int)
    requires 0 <= now < DAY
  {
    MeetsFrom(s, k, |s| - 1, m, style, now)
  }

  /** The queue after `Channel::addOrReplaceTimeout`. */
  function AfterTimeout(s: seq<MessageData>, limit: nat, m: MessageData, style: TimeoutStackStyle, now: int)
    : (r: seq<MessageData>)
    requires |s| <= limit && 0 <= now < DAY
    ensures |r| <= limit
  {
    Apply(DisableUserIn(s, m.timeoutUser), limit, m, TimeoutOutcome(s, m, style, now))
  }

  /** What a caller needs to know about the decision. */
  lemma TimeoutOutcomeFacts(s: seq<MessageData>, m: MessageData, style: TimeoutStackStyle, now: int)
    requires 0 <= now < DAY
    ensures var o := TimeoutOutcome(s, m, style, now);
      && (o.Drop? ==> PubSub !in m.flags)
      && (o.ReplaceAt? ==> TimeoutOf(s[o.index], m.timeoutUser) && o == MeetTimeout(o.index, s[o.index], m, style, now))
  {
    TimeoutSearchDecides(s, |s| - 1, m, style, now);
    var o := TimeoutOutcome(s, m, style, now);
    if !o.Append? {
      var n: nat :| MeetsFrom(s, n, |s| - 1, m, style, now);
      assert o == MeetTimeout(n, s[n], m, style, now);
    }
  }

  /** After a timeout every message of the user that is no timeout, untimeout or whisper, was
      queued and is still there is Disabled, and no other message changed unless it is the replaced
      one. At most the oldest message is gone. */
  lemma TimeoutDisables(s: seq<MessageData>, limit: nat, m: MessageData, style: TimeoutStackStyle, now: int, i: nat)
    requires i < |s| <= limit && 0 <= now < DAY
    ensures var r := AfterTimeout(s, limit, m, style, now); var o := TimeoutOutcome(s, m, style, now);
      var gone := if o.Append? && |s| == limit then 1 else 0;
      var cleared := s[i].loginName == m.timeoutUser && s[i].flags * {Timeout, Untimeout, Whisper} == {};
      && |r| == |s| - gone + (if o.Append? then 1 else 0)
      && (o.Append? ==> r[|r| - 1] == m)
      && (o.ReplaceAt? && o.index == i ==> r[i] == o.replacement)
      && (gone <= i && !(o.ReplaceAt? && o.index == i) && !cleared ==> r[i - gone] == s[i])
      && (gone <= i && !(o.ReplaceAt? && o.index == i) && cleared ==>
            r[i - gone] == s[i].(flags := s[i].flags + {Disabled}))
  {
    ApplyToDisabled(s, limit, m, TimeoutOutcome(s, m, style, now), i);
    assert s[i].flags * {Timeout, Untimeout, Whisper} == {} <==>
      Timeout !in s[i].flags && Untimeout !in s[i].flags && Whisper !in s[i].flags by {
      NoneOfThree(s[i].flags, Timeout, Untimeout, Whisper);
    }
  }

  lemma NoneOfThree(flags: set<Flag>, a: Flag, b: Flag, c: Flag)
    ensures flags * {a, b, c} == {} <==> a !in flags && b !in flags && c !in flags
  {
    if a !in flags && b !in flags && c !in flags {
      assert forall f :: f in flags * {a, b, c} ==> false;
    } else {
      assert a in flags ==> a in flags * {a, b, c};
      assert b in flags ==> b in flags * {a, b, c};
      assert c in flags ==> c in flags * {a, b, c};
    }
  }

  lemma ApplyToDisabled(s: seq<MessageData>, limit: nat, m: MessageData, o: Outcome, i: nat)
    requires i < |s| <= limit && (o.ReplaceAt? ==> o.index < |s|)
    ensures var r := Apply(DisableUserIn(s, m.timeoutUser), limit, m, o);
      var gone := if o.Append? && |s| == limit then 1 else 0;
      && |r| == |s| - gone + (if o.Append? then 1 else 0)
      && (o.Append? ==> r[|r| - 1] == m)
      && (o.ReplaceAt? && o.index == i ==> r[i] == o.replacement)
      && (gone <= i && !(o.ReplaceAt? && o.index == i) ==> r[i - gone] == DisableUser(s[i], m.timeoutUser))
  {
  }

  // ---------------------------------------------------------------------------------------
  // 7TV emote events
  // ---------------------------------------------------------------------------------------

  const SEVEN_TV_FLAGS: set<Flag> := {SevenTvAdd, SevenTvRemove, SevenTvUpdate}

  predicate IsEvent(x: MessageData) {
    SevenTvAdd in x.flags || SevenTvRemove in x.flags || SevenTvUpdate in x.flags
  }

  /** `boost::none` when the message is neither an add nor a remove; it is then just appended. */
  predicate Stackable(m: MessageData) {
    SevenTvAdd in m.flags || SevenTvRemove in m.flags
  }

  function CurrentFlag(m: MessageData): Flag
    requires Stackable(m)
  {
    if SevenTvAdd in m.flags then SevenTvAdd else SevenTvRemove
  }

  predicate ShareEmote(a: seq<string>, b: seq<string>) {
    exists e :: e in a && e in b
  }

  predicate EventBarrier(x: MessageData, m: MessageData, minimumTime: int)
    requires Stackable(m)
  {
    || x.parseTime < minimumTime
    || (CurrentFlag(m) in x.flags && x.loginName != m.loginName)
    || (IsEvent(x) && ShareEmote(x.emotes, m.emotes))
  }

  function StackedEvent(x: MessageData, m: MessageData, now: int): MessageData {
    MessageData("", 0, now, m.flags, m.loginName, "", 1, x.emotes + m.emotes)
  }

  function EventSearch(s: seq<MessageData>, i: int, m: MessageData, now: int): Outcome
    requires -1 <= i < |s| && 0 <= now < DAY && Stackable(m)
    decreases i + 1
  {
    if i < WindowEnd(|s|) || EventBarrier(s[i], m, MinimumTime(now)) then Append
    else if CurrentFlag(m) in s[i].flags then ReplaceAt(i, StackedEvent(s[i], m, now))
    else EventSearch(s, i - 1, m, now)
  }

  /** The message at `k` is what the search from `i` on stacks upon: the newest event of the same
      kind, at most 20 messages back in the queue, with no barrier at it or behind it. */
  ghost predicate StacksFrom(s: seq<MessageData>, k: nat, i: int, m: MessageData, now: int)
    requires -1 <= i < |s| && 0 <= now < DAY && Stackable(m)
  {
    && WindowEnd(|s|) <= k <= i && CurrentFlag(m) in s[k].flags
    && (forall j :: k <= j <= i ==> !EventBarrier(s[j], m, MinimumTime(now)))
    && (forall j :: k < j <= i ==> CurrentFlag(m) !in s[j].flags)
  }

  lemma {:induction false} EventSearchDecides(s: seq<MessageData>, i: int, m: MessageData, now: int)
    requires -1 <= i < |s| && 0 <= now < DAY && Stackable(m)
    ensures forall k: nat :: StacksFrom(s, k, i, m, now) ==>
      EventSearch(s, i, m, now) == ReplaceAt(k, StackedEvent(s[k], m, now))
    ensures (forall k: nat :: !StacksFrom(s, k, i, m, now)) ==> EventSearch(s, i, m, now) == Append
    decreases i + 1
  {
    if WindowEnd(|s|) <= i && !EventBarrier(s[i], m, MinimumTime(now)) {
      if CurrentFlag(m) in s[i].flags {
        assert StacksFrom(s, i, i, m, now);
      } else {
        EventSearchDecides(s, i - 1, m, now);
        assert forall k: nat :: StacksFrom(s, k, i, m, now) ==> StacksFrom(s, k, i - 1, m, now);
        if EventSearch(s, i - 1, m, now) != Append {
          var k: nat :| StacksFrom(s, k, i - 1, m, now);
          assert StacksFrom(s, k, i, m, now);
        }
      }
    }
  }

  function EventOutcome(s: seq<MessageData>, m: MessageData, now: int): (o: Outcome)
    requires 0 <= now < DAY
    ensures o.ReplaceAt? ==> o.index < |s|
  {
    if Stackable(m) then
      EventSearchDecides(s, |s| - 1, m, now);
      EventSearch(s, |s| - 1, m, now)
    else Append
  }

  /** Exactly when and where the search stacks an event: otherwise it is appended, never dropped. */
  lemma EventDecision(s: seq<MessageData>, m: MessageData, now: int, k: nat)
    requires 0 <= now < DAY
    ensures Stackable(m) && StacksFrom(s, k, |s| - 1, m, now) <==>
      EventOutcome(s, m, now).ReplaceAt? && EventOutcome(s, m, now).index == k
    ensures EventOutcome(s, m, now).ReplaceAt? ==>
      EventOutcome(s, m, now).replacement == StackedEvent(s[EventOutcome(s, m, now).index], m, now)
    ensures !EventOutcome(s, m, now).Drop?
  {
    if Stackable(m) {
      EventSearchDecides(s, |s| - 1, m, now);
      if EventOutcome(s, m, now) != Append {
        var n: nat :| StacksFrom(s, n, |s| - 1, m, now);
      }
    }
  }

  /** What a caller needs to know about the decision: the stacked-upon message is an event of
      the same kind by the same actor, and nothing from it on mentions one of the emotes. */
  lemma EventOutcomeFacts(s: seq<MessageData>, m: MessageData, now: int)
    requires 0 <= now < DAY
    ensures var o := EventOutcome(s, m, now);
      && !o.Drop?
      && (o.ReplaceAt? ==>
        && Stackable(m) && CurrentFlag(m) in s[o.index].flags && s[o.index].loginName == m.loginName
        && o.replacement == StackedEvent(s[o.index], m, now)
        && (forall j :: o.index <= j < |s| && IsEvent(s[j]) ==> !ShareEmote(s[j].emotes, m.emotes)))
  {
    var o := EventOutcome(s, m, now);
    if o.ReplaceAt? {
      EventDecision(s, m, now, o.index);
      assert !EventBarrier(s[o.index], m, MinimumTime(now));
    } else {
      EventDecision(s, m, now, 0);
    }
  }

  /** The queue after `Channel::addOrReplaceSevenTvEventAddRemove`. */
  function AfterEvent(s: seq<MessageData>, limit: nat, m: MessageData, now: int): (r: seq<MessageData>)
    requires |s| <= limit && 0 <= now < DAY
    ensures |r| <= limit
  {
    Apply(s, limit, m, EventOutcome(s, m, now))
  }
}
