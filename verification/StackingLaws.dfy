/** What the stacking of timeouts and 7TV events decides, told on the queued messages' own flags,
    names and times and not through the searches. */
module StackingLaws {
  import opened Messages
  import opened QueueSpec
  import opened Stacking
  import opened ChannelRuns

  // ---------------------------------------------------------------------------------------
  // Timeouts
  // ---------------------------------------------------------------------------------------

  /** Nothing from `k` on keeps a timeout of the user from being stacked at `k`: it is among the
      newest 20, and from there on there is no message received before the time of day 5 seconds
      ago, no untimeout of the user and, in DontStackBeyondUserMessage style, no message by the user
      that is neither disabled nor a timeout or untimeout itself. */
  ghost predicate ReachedByTimeout(s: seq<MessageData>, k: nat, m: MessageData, style: TimeoutStackStyle, now: int)
    requires 0 <= now < DAY
  {
    && |s| - 20 <= k < |s|
    && (forall j :: k <= j < |s| ==> MinimumTime(now) <= s[j].parseTime)
    && (forall j :: k <= j < |s| ==> !(Untimeout in s[j].flags && s[j].timeoutUser == m.timeoutUser))
    && (style == DontStackBeyondUserMessage ==>
          forall j :: k <= j < |s| && s[j].loginName == m.timeoutUser ==>
            Disabled in s[j].flags || Timeout in s[j].flags || Untimeout in s[j].flags)
  }

  predicate IsTimeoutOf(x: MessageData, user: string) {
    Timeout in x.flags && x.timeoutUser == user
  }

  ghost predicate IsNewestTimeout(s: seq<MessageData>, k: nat, user: string)
    requires k < |s|
  {
    IsTimeoutOf(s[k], user) && forall j :: k < j < |s| ==> !IsTimeoutOf(s[j], user)
  }

  ghost predicate NewestReached(s: seq<MessageData>, k: nat, m: MessageData, style: TimeoutStackStyle, now: int)
    requires 0 <= now < DAY
  {
    k < |s| && ReachedByTimeout(s, k, m, style, now) && IsNewestTimeout(s, k, m.timeoutUser)
  }

  lemma MeetsExactlyWhen(s: seq<MessageData>, k: nat, m: MessageData, style: TimeoutStackStyle, now: int)
    requires 0 <= now < DAY
    ensures Meets(s, k, m, style, now) <==> NewestReached(s, k, m, style, now)
  {
  }

  /** The whole decision. When the newest timeout of the user is reached: a PubSub timeout takes the
      place of an IRC one; an IRC timeout that meets a PubSub one is dropped, or appended in DontStack
      style; otherwise one more is counted, by a fresh message received now. When it is not reached
      the new timeout is appended. */
  lemma TimeoutLaw(s: seq<MessageData>, m: MessageData, style: TimeoutStackStyle, now: int)
    requires 0 <= now < DAY
    ensures forall k: nat :: NewestReached(s, k, m, style, now) ==>
      TimeoutOutcome(s, m, style, now) ==
        if PubSub in m.flags && PubSub !in s[k].flags then ReplaceAt(k, m)
        else if PubSub !in m.flags && PubSub in s[k].flags then (if style == DontStack then Append else Drop)
        else ReplaceAt(k, MessageData("", 0, now, m.flags, "", m.timeoutUser, s[k].count + 1, []))
    ensures (forall k: nat :: !NewestReached(s, k, m, style, now)) ==> TimeoutOutcome(s, m, style, now) == Append
  {
    TimeoutSearchDecides(s, |s| - 1, m, style, now);
    forall k: nat ensures Meets(s, k, m, style, now) <==> NewestReached(s, k, m, style, now) {
      MeetsExactlyWhen(s, k, m, style, now);
    }
  }

  lemma NewestIsReached(s: seq<MessageData>, k: nat, m: MessageData, style: TimeoutStackStyle, now: int)
    returns (k': nat)
    requires 0 <= now < DAY && k < |s| && ReachedByTimeout(s, k, m, style, now) && IsTimeoutOf(s[k], m.timeoutUser)
    ensures k <= k' && NewestReached(s, k', m, style, now)
    decreases |s| - k
  {
    if IsNewestTimeout(s, k, m.timeoutUser) {
      k' := k;
    } else {
      var j :| k < j < |s| && IsTimeoutOf(s[j], m.timeoutUser);
      k' := NewestIsReached(s, j, m, style, now);
    }
  }

  ghost predicate AnyReached(s: seq<MessageData>, m: MessageData, style: TimeoutStackStyle, now: int)
    requires 0 <= now < DAY
  {
    exists k: nat :: k < |s| && ReachedByTimeout(s, k, m, style, now) && IsTimeoutOf(s[k], m.timeoutUser)
  }

  /** Whether a timeout is appended: exactly when none of the user is reached, or the newest one is
      a PubSub one and the style DontStack spares the IRC one. */
  lemma TimeoutAppendedExactlyWhen(s: seq<MessageData>, m: MessageData, style: TimeoutStackStyle, now: int)
    requires 0 <= now < DAY
    ensures TimeoutOutcome(s, m, style, now) == Append <==>
      forall k: nat :: NewestReached(s, k, m, style, now) ==>
        style == DontStack && PubSub !in m.flags && PubSub in s[k].flags
    ensures style != DontStack && AnyReached(s, m, style, now) ==> TimeoutOutcome(s, m, style, now) != Append
  {
    TimeoutLaw(s, m, style, now);
    if AnyReached(s, m, style, now) {
      var k: nat :| k < |s| && ReachedByTimeout(s, k, m, style, now) && IsTimeoutOf(s[k], m.timeoutUser);
      var k' := NewestIsReached(s, k, m, style, now);
    }
  }

  // ---------------------------------------------------------------------------------------
  // 7TV emote events
  // ---------------------------------------------------------------------------------------

  function Kind(m: MessageData): Flag {
    if SevenTvAdd in m.flags then SevenTvAdd else SevenTvRemove
  }

  /** Nothing from `k` on keeps the event from being stacked at `k`: it is among the newest 20, and
      from there on there is no message received before the time of day 5 seconds ago, no event of
      the same kind by somebody else, and no event on one of the emotes. */
  ghost predicate ReachedByEvent(s: seq<MessageData>, k: nat, m: MessageData, now: int)
    requires 0 <= now < DAY
  {
    && |s| - 20 <= k < |s|
    && (forall j :: k <= j < |s| ==> MinimumTime(now) <= s[j].parseTime)
    && (forall j :: k <= j < |s| && Kind(m) in s[j].flags ==> s[j].loginName == m.loginName)
    && (forall j, e :: k <= j < |s| && e in s[j].emotes && e in m.emotes ==>
          SevenTvAdd !in s[j].flags && SevenTvRemove !in s[j].flags && SevenTvUpdate !in s[j].flags)
  }

  ghost predicate IsNewestOfKind(s: seq<MessageData>, k: nat, m: MessageData)
    requires k < |s|
  {
    Kind(m) in s[k].flags && forall j :: k < j < |s| ==> Kind(m) !in s[j].flags
  }

  ghost predicate NewestOfKindReached(s: seq<MessageData>, k: nat, m: MessageData, now: int)
    requires 0 <= now < DAY
  {
    k < |s| && ReachedByEvent(s, k, m, now) && IsNewestOfKind(s, k, m)
  }

  lemma StacksExactlyWhen(s: seq<MessageData>, k: nat, m: MessageData, now: int)
    requires 0 <= now < DAY && Stackable(m)
    ensures StacksFrom(s, k, |s| - 1, m, now) <==> NewestOfKindReached(s, k, m, now)
  {
    assert Kind(m) == CurrentFlag(m);
    if StacksFrom(s, k, |s| - 1, m, now) {
      forall j, e | k <= j < |s| && e in s[j].emotes && e in m.emotes ensures !IsEvent(s[j]) {
        assert !EventBarrier(s[j], m, MinimumTime(now));
      }
    }
  }

  /** The whole decision. When the newest event of the kind is reached, an add or remove is stacked
      upon it: the emotes are joined in a fresh message received now. Otherwise, and for every other
      message, it is appended. */
  lemma EventLaw(s: seq<MessageData>, m: MessageData, now: int)
    requires 0 <= now < DAY
    ensures SevenTvAdd in m.flags || SevenTvRemove in m.flags ==>
      forall k: nat :: NewestOfKindReached(s, k, m, now) ==>
        EventOutcome(s, m, now)
        == ReplaceAt(k, MessageData("", 0, now, m.flags, m.loginName, "", 1, s[k].emotes + m.emotes))
    ensures (forall k: nat :: !NewestOfKindReached(s, k, m, now)) ==> EventOutcome(s, m, now) == Append
    ensures SevenTvAdd !in m.flags && SevenTvRemove !in m.flags ==> EventOutcome(s, m, now) == Append
  {
    if Stackable(m) {
      forall k: nat | NewestOfKindReached(s, k, m, now)
        ensures EventOutcome(s, m, now) == ReplaceAt(k, StackedEvent(s[k], m, now))
      {
        EventStacked(s, m, now, k);
      }
      if forall k: nat :: !NewestOfKindReached(s, k, m, now) {
        EventAppended(s, m, now);
      }
    }
  }

  lemma EventStacked(s: seq<MessageData>, m: MessageData, now: int, k: nat)
    requires 0 <= now < DAY && Stackable(m) && NewestOfKindReached(s, k, m, now)
    ensures EventOutcome(s, m, now) == ReplaceAt(k, StackedEvent(s[k], m, now))
  {
    StacksExactlyWhen(s, k, m, now);
    EventSearchDecides(s, |s| - 1, m, now);
  }

  lemma EventAppended(s: seq<MessageData>, m: MessageData, now: int)
    requires 0 <= now < DAY && Stackable(m) && forall k: nat :: !NewestOfKindReached(s, k, m, now)
    ensures EventOutcome(s, m, now) == Append
  {
    var last := |s| - 1;
    forall k: nat ensures !StacksFrom(s, k, last, m, now) {
      StacksExactlyWhen(s, k, m, now);
    }
    EventSearchDecides(s, |s| - 1, m, now);
  }

  /** And what that does to the queue. */
  lemma EventEffect(s: seq<MessageData>, limit: nat, m: MessageData, now: int)
    requires |s| <= limit && 0 <= now < DAY
    ensures var o, r := EventOutcome(s, m, now), AfterEvent(s, limit, m, now);
      && (o.ReplaceAt? ==> r == s[o.index := o.replacement])
      && (!o.ReplaceAt? ==> r == LastN(s + [m], limit))
  {
    EventOutcomeFacts(s, m, now);
  }

  // ---------------------------------------------------------------------------------------
  // Moderation
  // ---------------------------------------------------------------------------------------

  /** Clearing the chat disables exactly what is no system message, timeout or whisper. */
  lemma DisableAllLaw(s: seq<MessageData>, i: nat)
    requires i < |s|
    ensures DisableAllIn(s)[i] ==
      if System in s[i].flags || Timeout in s[i].flags || Whisper in s[i].flags then s[i]
      else s[i].(flags := s[i].flags + {Disabled})
  {
  }

  /** Deleting disables the newest message with the id and touches no other one. */
  lemma DeleteLaw(s: seq<MessageData>, id: string, i: nat)
    requires i < |s|
    ensures Deleted(s, id)[i] ==
      if s[i].id == id && forall j :: i < j < |s| ==> s[j].id != id then s[i].(flags := s[i].flags + {Disabled})
      else s[i]
  {
  }
}
