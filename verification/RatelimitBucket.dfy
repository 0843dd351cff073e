/** src/util/RatelimitBucket.cpp with its surroundings: a clock and the pending single-shot timers.
    A timer is named by the number of the callback that started it. */
module RatelimitSpec {
  /** A callback that was made, or a message that was sent, with its time. For a message sent,
      `ahead` is the number of messages that were queued before it. */
  datatype Call = Call(item: string, time: int)
  datatype Sent = Sent(item: string, time: int, ahead: nat)

  datatype State = State(
    now: int,
    budget: int,
    queue: seq<string>,
    pending: set<nat>,
    calls: seq<Call>,
    sends: seq<Sent>)

  datatype Event =
    | Send(item: string)
    | Fire(timer: nat)
    | Wait(until: int)

  function Initial(budget: int, now: int): State {
    State(now, budget, [], {}, [], [])
  }

  /** `handleOne`: takes the first queued message, if any, and starts a timer. */
  function HandleOne(s: State): State {
    if s.queue == [] then s
    else s.(queue := s.queue[1..], budget := s.budget - 1,
            calls := s.calls + [Call(s.queue[0], s.now)],
            pending := s.pending + {|s.calls|})
  }

  function Enqueue(s: State, item: string): State {
    s.(queue := s.queue + [item], sends := s.sends + [Sent(item, s.now, |s.queue|)])
  }

  function Due(s: State, cooldown: int, timer: nat): int {
    if timer < |s.calls| then s.calls[timer].time + cooldown else s.now
  }

  /** No timer fires early, and the clock does not run backwards. Due timers fire in any order. */
  predicate Enabled(s: State, cooldown: int, e: Event) {
    match e
    case Send(_) => true
    case Fire(timer) => timer in s.pending && Due(s, cooldown, timer) <= s.now
    case Wait(until) => s.now <= until
  }

  /** With punctual timers the clock does not pass the due time of a pending timer. */
  ghost predicate Punctual(s: State, cooldown: int, e: Event) {
    e.Wait? ==> forall timer :: timer in s.pending ==> e.until <= Due(s, cooldown, timer)
  }

  /** The state in which a timer has just given its token back. */
  function Released(s: State, timer: nat): State {
    s.(budget := s.budget + 1, pending := s.pending - {timer})
  }

  function Step(s: State, e: Event): State {
    match e
    case Send(item) =>
      var s' := Enqueue(s, item);
      if s'.budget > 0 then HandleOne(s') else s'
    case Fire(timer) => HandleOne(Released(s, timer))
    case Wait(until) => s.(now := until)
  }

  function Run(s: State, events: seq<Event>): State {
    if events == [] then s
    else Step(Run(s, events[..|events| - 1]), events[|events| - 1])
  }

  ghost predicate Possible(s: State, cooldown: int, events: seq<Event>) {
    events == [] ||
    (var last := |events| - 1;
     Possible(s, cooldown, events[..last]) && Enabled(Run(s, events[..last]), cooldown, events[last]))
  }

  ghost predicate PossiblePunctual(s: State, cooldown: int, events: seq<Event>) {
    events == [] ||
    (var last := |events| - 1; var s' := Run(s, events[..last]);
     PossiblePunctual(s, cooldown, events[..last])
     && Enabled(s', cooldown, events[last]) && Punctual(s', cooldown, events[last]))
  }

  lemma {:induction false} PunctualIsPossible(s: State, cooldown: int, events: seq<Event>)
    requires PossiblePunctual(s, cooldown, events)
    ensures Possible(s, cooldown, events)
  {
    if events != [] {
      PunctualIsPossible(s, cooldown, events[..|events| - 1]);
    }
  }

  // ---------------------------------------------------------------------------------------
  // Accounting: nothing is lost or reordered, and no token is created
  // ---------------------------------------------------------------------------------------

  function CalledItems(calls: seq<Call>): (r: seq<string>)
    ensures |r| == |calls| && forall i :: 0 <= i < |calls| ==> r[i] == calls[i].item
  {
    seq(|calls|, i requires 0 <= i < |calls| => calls[i].item)
  }

  function SentItems(sends: seq<Sent>): (r: seq<string>)
    ensures |r| == |sends| && forall i :: 0 <= i < |sends| ==> r[i] == sends[i].item
  {
    seq(|sends|, i requires 0 <= i < |sends| => sends[i].item)
  }

  ghost predicate Accounted(s: State, initial: int) {
    && CalledItems(s.calls) + s.queue == SentItems(s.sends)
    && s.budget + |s.pending| == initial
    && (forall timer :: timer in s.pending ==> timer < |s.calls|)
    && (s.queue != [] ==> s.budget <= 0)
    && (initial >= 0 ==> s.budget >= 0)
  }

  lemma HandleOneAccounted(s: State, initial: int)
    requires CalledItems(s.calls) + s.queue == SentItems(s.sends)
    requires s.budget + |s.pending| == initial
    requires forall timer :: timer in s.pending ==> timer < |s.calls|
    requires initial >= 0 ==> s.budget >= 0
    requires s.budget > 0 ==> |s.queue| <= 1 || s.budget == 1
    requires s.queue != [] && initial >= 0 ==> s.budget > 0
    ensures Accounted(HandleOne(s), initial)
  {
    if s.queue != [] {
      var s' := HandleOne(s);
      assert CalledItems(s'.calls) + s'.queue == CalledItems(s.calls) + s.queue;
    }
  }

  lemma StepAccounted(s: State, initial: int, cooldown: int, e: Event)
    requires Accounted(s, initial) && Enabled(s, cooldown, e)
    ensures Accounted(Step(s, e), initial)
  {
    match e
    case Send(item) =>
      var s' := Enqueue(s, item);
      assert CalledItems(s'.calls) + s'.queue == SentItems(s'.sends);
      if s'.budget > 0 { HandleOneAccounted(s', initial); }
    case Fire(timer) =>
      HandleOneAccounted(Released(s, timer), initial);
    case Wait(until) =>
  }

  /** Over every run, for every order in which due timers fire: the callbacks made followed by
      the queue are exactly the messages sent, in order; budget and pending timers add up to the
      initial budget; and messages wait only while the budget is used up. */
  lemma {:induction false} FifoLosslessWorkConserving(budget: int, start: int, cooldown: int, events: seq<Event>)
    requires Possible(Initial(budget, start), cooldown, events)
    ensures Accounted(Run(Initial(budget, start), events), budget)
  {
    if events != [] {
      var last := |events| - 1;
      FifoLosslessWorkConserving(budget, start, cooldown, events[..last]);
      StepAccounted(Run(Initial(budget, start), events[..last]), budget, cooldown, events[last]);
    }
  }

  // ---------------------------------------------------------------------------------------
  // Rate
  // ---------------------------------------------------------------------------------------

  ghost predicate Limited(s: State, initial: int, cooldown: int)
    requires initial > 0
  {
    && (forall i, j :: 0 <= i < j < |s.calls| ==> s.calls[i].time <= s.calls[j].time)
    && (forall i :: 0 <= i < |s.calls| ==> s.calls[i].time <= s.now)
    && (forall i :: 0 <= i < |s.calls| && i !in s.pending ==> s.calls[i].time + cooldown <= s.now)
    && (forall i :: 0 <= i < |s.calls| - initial ==> s.calls[i].time + cooldown <= s.calls[i + initial].time)
  }

  /** A set of numbers below `hi` that are all at least `lo` has at most `hi - lo` elements. */
  lemma {:induction false} BoundedSet(p: set<nat>, lo: int, hi: int)
    requires lo <= hi && forall x :: x in p ==> lo <= x < hi
    ensures |p| <= hi - lo
    decreases hi - lo
  {
    if lo < hi {
      BoundedSet(p - {hi - 1}, lo, hi - 1);
    } else {
      assert p == {};
    }
  }

  lemma {:induction false} FullInterval(p: set<nat>, lo: nat, hi: nat)
    requires lo <= hi && forall x :: lo <= x < hi ==> x in p
    ensures |p| >= hi - lo
    decreases hi - lo
  {
    if lo < hi {
      FullInterval(p - {hi - 1}, lo, hi - 1);
      assert |p - {hi - 1}| == |p| - 1;
    }
  }

  /** With a token in hand, the timer of one of the last `initial` callbacks has fired. */
  lemma SomeTimerFired(s: State, initial: int, cooldown: int)
    requires initial > 0 && Limited(s, initial, cooldown) && |s.pending| < initial <= |s.calls|
    ensures s.calls[|s.calls| - initial].time + cooldown <= s.now
  {
    var n := |s.calls|;
    if forall x :: n - initial <= x < n ==> x in s.pending {
      FullInterval(s.pending, n - initial, n);
      assert false;
    }
    var j :| n - initial <= j < n && j !in s.pending;
    assert s.calls[n - initial].time <= s.calls[j].time;
  }

  lemma HandleOneLimited(s: State, initial: int, cooldown: int)
    requires initial > 0 && Limited(s, initial, cooldown)
    requires s.queue != [] ==> |s.pending| < initial
    ensures Limited(HandleOne(s), initial, cooldown)
  {
    if s.queue != [] {
      if initial <= |s.calls| {
        SomeTimerFired(s, initial, cooldown);
      }
      CallLimited(s, initial, cooldown);
    }
  }

  lemma CallLimited(s: State, initial: int, cooldown: int)
    requires initial > 0 && Limited(s, initial, cooldown) && s.queue != []
    requires initial <= |s.calls| ==> s.calls[|s.calls| - initial].time + cooldown <= s.now
    ensures Limited(HandleOne(s), initial, cooldown)
  {
    var s' := HandleOne(s);
    forall i | 0 <= i < |s'.calls| - initial
      ensures s'.calls[i].time + cooldown <= s'.calls[i + initial].time
    {
      assert i + initial < |s.calls| ==> s.calls[i].time + cooldown <= s.calls[i + initial].time;
    }
  }

  lemma ReleaseLimited(s: State, initial: int, cooldown: int, timer: nat)
    requires initial > 0 && Limited(s, initial, cooldown) && timer in s.pending && timer < |s.calls|
    requires Due(s, cooldown, timer) <= s.now
    ensures Limited(Released(s, timer), initial, cooldown)
  {
    var s' := Released(s, timer);
    forall i | 0 <= i < |s'.calls| && i !in s'.pending ensures s'.calls[i].time + cooldown <= s'.now {
      assert i == timer || i !in s.pending;
    }
  }

  lemma SendLimited(s: State, initial: int, cooldown: int, item: string)
    requires initial > 0 && Accounted(s, initial) && Limited(s, initial, cooldown)
    ensures Limited(Step(s, Send(item)), initial, cooldown)
  {
    var s' := Enqueue(s, item);
    assert Limited(s', initial, cooldown);
    if s'.budget > 0 { HandleOneLimited(s', initial, cooldown); }
  }

  lemma FireLimited(s: State, initial: int, cooldown: int, timer: nat)
    requires initial > 0 && Accounted(s, initial) && Limited(s, initial, cooldown) && Enabled(s, cooldown, Fire(timer))
    ensures Limited(Step(s, Fire(timer)), initial, cooldown)
  {
    ReleaseLimited(s, initial, cooldown, timer);
    HandleOneLimited(Released(s, timer), initial, cooldown);
  }

  lemma StepLimited(s: State, initial: int, cooldown: int, e: Event)
    requires initial > 0 && Accounted(s, initial) && Limited(s, initial, cooldown) && Enabled(s, cooldown, e)
    ensures Limited(Step(s, e), initial, cooldown)
  {
    match e
    case Send(item) => SendLimited(s, initial, cooldown, item);
    case Fire(timer) => FireLimited(s, initial, cooldown, timer);
    case Wait(until) => assert Limited(s.(now := until), initial, cooldown);
  }

  lemma {:induction false} RunLimited(budget: int, start: int, cooldown: int, events: seq<Event>)
    requires budget > 0 && Possible(Initial(budget, start), cooldown, events)
    ensures Limited(Run(Initial(budget, start), events), budget, cooldown)
  {
    if events != [] {
      var last := |events| - 1;
      RunLimited(budget, start, cooldown, events[..last]);
      FifoLosslessWorkConserving(budget, start, cooldown, events[..last]);
      StepLimited(Run(Initial(budget, start), events[..last]), budget, cooldown, events[last]);
    }
  }

  /** The sliding-window rate bound: in every run callback i + budget comes at least `cooldown`
      after callback i, whatever the order in which due timers fire. A bucket without budget
      never calls back at all. */
  lemma SlidingWindow(budget: int, start: int, cooldown: int, events: seq<Event>)
    requires Possible(Initial(budget, start), cooldown, events)
    ensures var calls := Run(Initial(budget, start), events).calls;
      if budget <= 0 then calls == []
      else forall i :: 0 <= i < |calls| - budget ==> calls[i].time + cooldown <= calls[i + budget].time
  {
    if budget <= 0 {
      NoBudgetNoCalls(budget, start, cooldown, events);
    } else {
      RunLimited(budget, start, cooldown, events);
    }
  }

  lemma {:induction false} NoBudgetNoCalls(budget: int, start: int, cooldown: int, events: seq<Event>)
    requires budget <= 0 && Possible(Initial(budget, start), cooldown, events)
    ensures var s := Run(Initial(budget, start), events);
      s.calls == [] && s.pending == {} && s.budget == budget
  {
    if events != [] {
      NoBudgetNoCalls(budget, start, cooldown, events[..|events| - 1]);
    }
  }

  // ---------------------------------------------------------------------------------------
  // Latency with punctual timers
  // ---------------------------------------------------------------------------------------

  /** One cooldown for every full budget of messages ahead, and one more. */
  function Delay(p: nat, budget: int, cooldown: int): int
    requires budget > 0
  {
    cooldown + if p < budget then 0 else Delay(p - budget, budget, cooldown)
  }

  lemma {:induction false} DelayIsRounds(p: nat, budget: int, cooldown: int)
    requires budget > 0
    ensures Delay(p, budget, cooldown) == (p / budget + 1) * cooldown
  {
    if p < budget {
      Quotient(p, budget, 0, p);
    } else {
      DelayIsRounds(p - budget, budget, cooldown);
      var q := (p - budget) / budget;
      assert q * budget + (p - budget) % budget == p - budget;
      Quotient(p, budget, q + 1, (p - budget) % budget);
      assert (q + 1 + 1) * cooldown == (q + 1) * cooldown + cooldown;
    }
  }

  lemma Quotient(p: nat, b: int, q: int, r: int)
    requires b > 0 && 0 <= r < b && p == q * b + r
    ensures p / b == q
  {
    var d := p / b - q;
    assert p == p / b * b + p % b;
    assert d * b == r - p % b;
    MultipleBounds(d, b);
  }

  lemma MultipleBounds(d: int, b: int)
    requires b > 0
    ensures d >= 1 ==> d * b >= b
    ensures d <= -1 ==> d * b <= -b
  {
    if d >= 1 {
      assert d * b == b + (d - 1) * b;
    } else if d <= -1 {
      assert d * b == -b - (-d - 1) * b;
    }
  }

  lemma {:induction false} DelayGrows(a: nat, b: nat, budget: int, cooldown: int)
    requires a <= b && budget > 0 && cooldown >= 0
    ensures cooldown <= Delay(a, budget, cooldown) <= Delay(b, budget, cooldown)
    decreases b
  {
    if a >= budget {
      DelayGrows(a - budget, b - budget, budget, cooldown);
    } else if b >= budget {
      DelayGrows(b - budget, b - budget, budget, cooldown);
    }
  }

  /** `calledThen(n)`: how many callbacks had been made when message n was sent. */
  function CalledThen(n: nat, sent: Sent): int {
    n - sent.ahead
  }

  /** Callback i, made on or after message n was sent and no later than that message's own
      callback, was made in time. */
  ghost predicate InTime(s: State, budget: int, cooldown: int, n: nat, time: int, i: nat)
    requires budget > 0 && n < |s.sends| && CalledThen(n, s.sends[n]) <= i
  {
    time <= s.sends[n].time + Delay(i - CalledThen(n, s.sends[n]), budget, cooldown)
  }

  ghost predicate Timely(s: State, budget: int, cooldown: int)
    requires budget > 0
  {
    && (forall timer :: timer in s.pending ==> s.now <= Due(s, cooldown, timer))
    && (forall n :: 0 <= n < |s.sends| ==> 0 <= CalledThen(n, s.sends[n]) <= |s.calls| && s.sends[n].time <= s.now)
    && (forall n, i :: 0 <= n < |s.sends| && 0 <= i < CalledThen(n, s.sends[n]) ==> s.calls[i].time <= s.sends[n].time)
    && (forall n, i :: 0 <= n < |s.sends| && CalledThen(n, s.sends[n]) <= i < |s.calls| && i <= n
          ==> InTime(s, budget, cooldown, n, s.calls[i].time, i))
  }

  /** While messages wait, all tokens are out, so the timer `budget` callbacks back or an older
      one is still pending. */
  lemma OldestToken(s: State, budget: int, cooldown: int)
    requires budget > 0 && Accounted(s, budget) && Limited(s, budget, cooldown) && s.queue != []
    requires forall timer :: timer in s.pending ==> s.now <= Due(s, cooldown, timer)
    ensures budget <= |s.calls| && s.now <= s.calls[|s.calls| - budget].time + cooldown
  {
    var lo := |s.calls| - budget;
    if forall x :: x in s.pending ==> lo < x {
      if lo + 1 <= |s.calls| {
        BoundedSet(s.pending, lo + 1, |s.calls|);
      }
      assert false;
    }
    var x :| x in s.pending && x <= lo;
  }

  /** Hence the next callback is still in time for every waiting message. */
  lemma NextIsInTime(s: State, budget: int, cooldown: int, n: nat)
    requires budget > 0 && cooldown >= 0
    requires Accounted(s, budget) && Limited(s, budget, cooldown) && Timely(s, budget, cooldown)
    requires s.queue != [] && |s.calls| <= n < |s.sends|
    ensures InTime(s, budget, cooldown, n, s.now, |s.calls|)
  {
    OldestToken(s, budget, cooldown);
    var c := CalledThen(n, s.sends[n]);
    var i := |s.calls|;
    if i - budget < c {
      assert s.calls[i - budget].time <= s.sends[n].time;
      DelayGrows(i - c, i - c, budget, cooldown);
    } else {
      assert InTime(s, budget, cooldown, n, s.calls[i - budget].time, i - budget);
    }
  }

  lemma HandleOneTimely(s: State, budget: int, cooldown: int)
    requires budget > 0 && cooldown >= 0 && Timely(s, budget, cooldown)
    requires |s.sends| == |s.calls| + |s.queue|
    requires s.queue != [] ==>
      forall n :: |s.calls| <= n < |s.sends| ==> InTime(s, budget, cooldown, n, s.now, |s.calls|)
    ensures Timely(HandleOne(s), budget, cooldown)
  {
    var s' := HandleOne(s);
    if s.queue != [] {
      forall n, i | 0 <= n < |s'.sends| && CalledThen(n, s'.sends[n]) <= i < |s'.calls| && i <= n
        ensures InTime(s', budget, cooldown, n, s'.calls[i].time, i)
      {
        if i < |s.calls| {
          assert InTime(s, budget, cooldown, n, s.calls[i].time, i);
        } else {
          assert InTime(s, budget, cooldown, n, s.now, |s.calls|);
        }
      }
    }
  }

  lemma EnqueueTimely(s: State, budget: int, cooldown: int, item: string)
    requires budget > 0 && cooldown >= 0 && Timely(s, budget, cooldown) && Limited(s, budget, cooldown)
    requires |s.sends| == |s.calls| + |s.queue|
    ensures Timely(Enqueue(s, item), budget, cooldown)
  {
    var s' := Enqueue(s, item);
    forall n, i | 0 <= n < |s'.sends| && CalledThen(n, s'.sends[n]) <= i < |s'.calls| && i <= n
      ensures InTime(s', budget, cooldown, n, s'.calls[i].time, i)
    {
      assert InTime(s, budget, cooldown, n, s.calls[i].time, i);
    }
  }

  lemma SendTimely(s: State, budget: int, cooldown: int, item: string)
    requires budget > 0 && cooldown >= 0
    requires Accounted(s, budget) && Timely(s, budget, cooldown) && Limited(s, budget, cooldown)
    ensures Timely(Step(s, Send(item)), budget, cooldown)
  {
    var s' := Enqueue(s, item);
    LengthsAgree(s, budget);
    EnqueueTimely(s, budget, cooldown, item);
    if s'.budget > 0 {
      assert s.queue == [];
      DelayGrows(0, 0, budget, cooldown);
      HandleOneTimely(s', budget, cooldown);
    }
  }

  lemma LengthsAgree(s: State, initial: int)
    requires Accounted(s, initial)
    ensures |s.sends| == |s.calls| + |s.queue|
  {
    assert |CalledItems(s.calls) + s.queue| == |SentItems(s.sends)|;
  }

  lemma ReleaseTimely(s: State, budget: int, cooldown: int, timer: nat)
    requires budget > 0 && Timely(s, budget, cooldown)
    ensures Timely(Released(s, timer), budget, cooldown)
  {
    var s' := Released(s, timer);
    forall n, i | 0 <= n < |s'.sends| && CalledThen(n, s'.sends[n]) <= i < |s'.calls| && i <= n
      ensures InTime(s', budget, cooldown, n, s'.calls[i].time, i)
    {
      assert InTime(s, budget, cooldown, n, s.calls[i].time, i);
    }
  }

  lemma NextAllInTime(s: State, budget: int, cooldown: int, timer: nat)
    requires budget > 0 && cooldown >= 0
    requires Accounted(s, budget) && Limited(s, budget, cooldown) && Timely(s, budget, cooldown)
    requires s.queue != []
    ensures forall n :: |s.calls| <= n < |s.sends| ==> InTime(Released(s, timer), budget, cooldown, n, s.now, |s.calls|)
  {
    forall n | |s.calls| <= n < |s.sends| ensures InTime(Released(s, timer), budget, cooldown, n, s.now, |s.calls|) {
      NextIsInTime(s, budget, cooldown, n);
    }
  }

  lemma FireTimely(s: State, budget: int, cooldown: int, timer: nat)
    requires budget > 0 && cooldown >= 0
    requires Accounted(s, budget) && Timely(s, budget, cooldown) && Limited(s, budget, cooldown)
    requires timer in s.pending
    ensures Timely(Step(s, Fire(timer)), budget, cooldown)
  {
    if s.queue == [] {
      ReleaseTimely(s, budget, cooldown, timer);
    } else {
      LengthsAgree(s, budget);
      NextAllInTime(s, budget, cooldown, timer);
      CallTimely(s, budget, cooldown, timer);
    }
  }

  lemma CallTimely(s: State, budget: int, cooldown: int, timer: nat)
    requires budget > 0 && cooldown >= 0 && Timely(s, budget, cooldown)
    requires |s.sends| == |s.calls| + |s.queue|
    requires forall n :: |s.calls| <= n < |s.sends| ==>
      InTime(Released(s, timer), budget, cooldown, n, s.now, |s.calls|)
    ensures Timely(HandleOne(Released(s, timer)), budget, cooldown)
  {
    ReleaseTimely(s, budget, cooldown, timer);
    HandleOneTimely(Released(s, timer), budget, cooldown);
  }

  lemma WaitTimely(s: State, budget: int, cooldown: int, until: int)
    requires budget > 0 && Timely(s, budget, cooldown)
    requires Enabled(s, cooldown, Wait(until)) && Punctual(s, cooldown, Wait(until))
    requires forall timer :: timer in s.pending ==> timer < |s.calls|
    ensures Timely(Step(s, Wait(until)), budget, cooldown)
  {
    var s' := s.(now := until);
    forall n, i | 0 <= n < |s'.sends| && CalledThen(n, s'.sends[n]) <= i < |s'.calls| && i <= n
      ensures InTime(s', budget, cooldown, n, s'.calls[i].time, i)
    {
      assert InTime(s, budget, cooldown, n, s.calls[i].time, i);
    }
    forall timer | timer in s'.pending ensures s'.now <= Due(s', cooldown, timer) {
      assert s.now <= until <= Due(s, cooldown, timer);
    }
  }

  lemma {:induction false} RunTimely(budget: int, start: int, cooldown: int, events: seq<Event>)
    requires budget > 0 && cooldown >= 0 && PossiblePunctual(Initial(budget, start), cooldown, events)
    ensures Timely(Run(Initial(budget, start), events), budget, cooldown)
  {
    if events != [] {
      var last := |events| - 1;
      var s := Run(Initial(budget, start), events[..last]);
      PunctualIsPossible(Initial(budget, start), cooldown, events[..last]);
      RunTimely(budget, start, cooldown, events[..last]);
      FifoLosslessWorkConserving(budget, start, cooldown, events[..last]);
      RunLimited(budget, start, cooldown, events[..last]);
      match events[last]
      case Send(item) => SendTimely(s, budget, cooldown, item);
      case Fire(timer) => FireTimely(s, budget, cooldown, timer);
      case Wait(until) => WaitTimely(s, budget, cooldown, until);
    }
  }

  lemma DispatchedWithin(s: State, budget: int, cooldown: int, n: nat)
    requires budget > 0 && cooldown >= 0 && n < |s.sends|
    requires Accounted(s, budget) && Limited(s, budget, cooldown) && Timely(s, budget, cooldown)
    ensures (if n < |s.calls| then s.calls[n].time else s.now)
      <= s.sends[n].time + Delay(s.sends[n].ahead, budget, cooldown)
  {
    LengthsAgree(s, budget);
    if n < |s.calls| {
      assert InTime(s, budget, cooldown, n, s.calls[n].time, n);
    } else {
      NextIsInTime(s, budget, cooldown, n);
      DelayGrows(|s.calls| - CalledThen(n, s.sends[n]), s.sends[n].ahead, budget, cooldown);
    }
  }

  lemma DispatchedWithinRun(budget: int, start: int, cooldown: int, events: seq<Event>, n: nat)
    requires budget > 0 && cooldown >= 0 && PossiblePunctual(Initial(budget, start), cooldown, events)
    requires n < |Run(Initial(budget, start), events).sends|
    ensures var s := Run(Initial(budget, start), events);
      (if n < |s.calls| then s.calls[n].time else s.now)
        <= s.sends[n].time + Delay(s.sends[n].ahead, budget, cooldown)
  {
    PunctualIsPossible(Initial(budget, start), cooldown, events);
    RunTimely(budget, start, cooldown, events);
    FifoLosslessWorkConserving(budget, start, cooldown, events);
    RunLimited(budget, start, cooldown, events);
    DispatchedWithin(Run(Initial(budget, start), events), budget, cooldown, n);
  }

  /** With punctual timers, in every run a message with p messages queued before it is dispatched
      no later than (p / budget + 1) * cooldown after it was sent: its callback came by then, or
      it is still queued and that time has not passed. */
  lemma DispatchedInTime(budget: int, start: int, cooldown: int, events: seq<Event>, n: nat)
    requires budget > 0 && cooldown >= 0 && PossiblePunctual(Initial(budget, start), cooldown, events)
    requires n < |Run(Initial(budget, start), events).sends|
    ensures var s := Run(Initial(budget, start), events);
      (if n < |s.calls| then s.calls[n].time else s.now)
        <= s.sends[n].time + (s.sends[n].ahead / budget + 1) * cooldown
  {
    DispatchedWithinRun(budget, start, cooldown, events, n);
    DelayIsRounds(Run(Initial(budget, start), events).sends[n].ahead, budget, cooldown);
  }
}

/** The bucket itself, with the timers and the clock it lives among. */
module RatelimitBuckets {
  import opened RatelimitSpec

  class RatelimitBucket {
    var budget: int
    const cooldown: int
    var queue: seq<string>
    // surroundings: the clock, the pending single-shot timers, the callbacks made so far
    var now: int
    var pending: set<nat>
    var calls: seq<Call>
    ghost var sends: seq<Sent>

    ghost function Model(): State
      reads this
    {
      State(now, budget, queue, pending, calls, sends)
    }

    constructor (budget: int, cooldown: int, now: int)
      ensures Model() == Initial(budget, now) && this.cooldown == cooldown
    {
      this.budget, this.cooldown, this.now := budget, cooldown, now;
      queue, pending, calls, sends := [], {}, [], [];
    }

    method Send(channel: string)
      modifies this
      ensures Model() == Step(old(Model()), Event.Send(channel))
    {
      sends := sends + [Sent(channel, now, |queue|)];
      queue := queue + [channel];
      if budget > 0 {
        HandleOne();
      }
    }

    method HandleOne()
      modifies this
      ensures Model() == RatelimitSpec.HandleOne(old(Model()))
    {
      if queue == [] { return; }
      var item := queue[0];
      queue := queue[1..];
      budget := budget - 1;
      calls := calls + [Call(item, now)];
      pending := pending + {|calls| - 1};
    }

    /** A due timer fires: its callback gives the token back and handles the next message. */
    method TimerFired(timer: nat)
      requires Enabled(Model(), cooldown, Fire(timer))
      modifies this
      ensures Model() == Step(old(Model()), Fire(timer))
    {
      pending := pending - {timer};
      budget := budget + 1;
      HandleOne();
    }

    method TimePasses(until: int)
      requires Enabled(Model(), cooldown, Wait(until))
      modifies this
      ensures Model() == Step(old(Model()), Wait(until))
    {
      now := until;
    }
  }
}
