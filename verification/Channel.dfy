/** src/common/Channel.cpp: the operations on a channel's message history. What each operation
    does to the message contents is the function that ChannelRuns.Step uses for it; back-fill is
    a run of the step machine (Backfill.Run). */
module Channels {
  import opened Options
  import opened Sequences
  import opened Messages
  import opened QueueSpec
  import opened LimitedQueues
  import opened Stacking
  import opened ChannelRuns
  import B = Backfill

  class Channel {
    const messages: LimitedQueue<Message>

    ghost predicate Valid()
      reads messages, messages.Repr()
    {
      messages.Valid() && messages.limit > 0 && Distinct(messages.Contents())
    }

    ghost function History(): seq<Message>
      requires Valid()
      reads messages, messages.Repr()
    {
      messages.Contents()
    }

    /** The contents of the queued messages, oldest first. */
    ghost function Shown(): (s: seq<MessageData>)
      requires Valid()
      reads messages, messages.Repr(), messages.Contents()
      ensures |s| <= messages.limit
    {
      Views(messages.Contents())
    }

    constructor ()
      ensures Valid() && History() == [] && messages.limit == 1000
    {
      messages := new LimitedQueue(1000);
    }

    static lemma AppendKeepsDistinct(s: seq<Message>, limit: nat, m: Message)
      requires Distinct(s) && m !in s && |s| <= limit
      ensures Distinct(PushedBack(s, limit, m))
    {
      assert (s + [m])[..|s|] == s;
      LaterIsDistinct(s + [m], |s + [m]| - |PushedBack(s, limit, m)|);
    }

    static lemma LaterIsDistinct(s: seq<Message>, from: nat)
      requires Distinct(s) && from <= |s|
      ensures Distinct(s[from..])
    {
    }

    static lemma ReplacedIsDistinct(s: seq<Message>, message: Message, m: Message)
      requires Distinct(s) && m !in s
      ensures Distinct(Replaced(s, message, m))
    {
    }

    static lemma ViewsOfAppend(s: seq<Message>, limit: nat, m: Message)
      requires |s| <= limit
      ensures Views(PushedBack(s, limit, m)) == PushedBack(Views(s), limit, m.View())
    {
      var all, views := s + [m], Views(s) + [m.View()];
      assert forall i :: 0 <= i < |all| ==> all[i].View() == views[i];
    }

    method AddMessage(message: Message) returns (deleted: Option<Message>)
      requires Valid() && message !in History()
      modifies messages.Repr()
      ensures Valid() && History() == PushedBack(old(History()), messages.limit, message)
      ensures Shown() == PushedBack(old(Shown()), messages.limit, old(message.View()))
      ensures deleted == if |old(History())| == messages.limit then Some(old(History())[0]) else None
    {
      ghost var before := History();
      deleted := PushMessage(message);
      ViewsOfAppend(before, messages.limit, message);
    }

    method PushMessage(message: Message) returns (deleted: Option<Message>)
      requires Valid() && message !in History()
      modifies messages.Repr()
      ensures Valid() && History() == PushedBack(old(History()), messages.limit, message)
      ensures deleted == if |old(History())| == messages.limit then Some(old(History())[0]) else None
    {
      AppendKeepsDistinct(History(), messages.limit, message);
      var full;
      full, deleted := messages.PushBack(message);
    }

    method AddMessagesAtStart(page: seq<Message>) returns (added: seq<Message>)
      requires Valid() && Distinct(page) && forall m :: m in page ==> m !in History()
      modifies messages.Repr()
      ensures Valid() && History() == PushedFront(old(History()), messages.limit, page)
      ensures Shown() == PushedFront(old(Shown()), messages.limit, old(Views(page)))
      ensures added == LastN(page, messages.limit - |old(History())|)
    {
      ghost var before := History();
      added := PushPage(page);
      ViewsOfPage(before, messages.limit, page);
    }

    method PushPage(page: seq<Message>) returns (added: seq<Message>)
      requires Valid() && Distinct(page) && forall m :: m in page ==> m !in History()
      modifies messages.Repr()
      ensures Valid() && History() == PushedFront(old(History()), messages.limit, page)
      ensures added == LastN(page, messages.limit - |old(History())|)
    {
      FrontIsDistinct(page, History(), messages.limit - |History()|);
      added := messages.PushFront(page);
    }

    static lemma FrontIsDistinct(page: seq<Message>, s: seq<Message>, n: nat)
      requires Distinct(page) && Distinct(s) && forall m :: m in page ==> m !in s
      ensures Distinct(LastN(page, n) + s)
    {
      var front := LastN(page, n);
      var all := front + s;
      assert forall i :: 0 <= i < |front| ==> front[i] == page[|page| - |front| + i] && front[i] in page;
      forall i, j | 0 <= i < j < |all| ensures all[i] != all[j] {
        if i < |front| <= j {
          assert all[j] == s[j - |front|];
        }
      }
    }

    static lemma ViewsOfPage(s: seq<Message>, limit: nat, page: seq<Message>)
      requires |s| <= limit
      ensures Views(PushedFront(s, limit, page)) == PushedFront(Views(s), limit, Views(page))
    {
      var a, b := Views(PushedFront(s, limit, page)), PushedFront(Views(s), limit, Views(page));
      assert |a| == |b| && forall i :: 0 <= i < |a| ==> a[i] == b[i];
    }

    /** `replaceMessage`: swaps a message for another one at the same place; nothing happens when
        it is no longer queued. */
    method ReplaceMessage(message: Message, replacement: Message)
      requires Valid() && replacement !in History()
      modifies messages.Repr()
      ensures Valid() && History() == Replaced(old(History()), message, replacement)
    {
      ReplacedIsDistinct(History(), message, replacement);
      var _ := messages.ReplaceItem(message, replacement);
    }

    /** The same for a message just found in the snapshot. */
    method ReplaceQueued(message: Message, replacement: Message, ghost k: nat)
      requires Valid() && replacement !in History() && k < |History()| && History()[k] == message
      modifies messages.Repr()
      ensures Valid() && History() == old(History())[k := replacement]
      ensures Shown() == old(Shown())[k := replacement.View()]
    {
      IndexOfDistinct(History(), k);
      ReplaceMessage(message, replacement);
    }

    static lemma IndexOfDistinct(s: seq<Message>, k: nat)
      requires Distinct(s) && k < |s|
      ensures IndexOf(s, s[k]) == k
    {
    }

    /** The backward search of addOrReplaceTimeout: what is to happen to the incoming message. */
    static method SearchTimeout(snapshot: seq<Message>, message: Message, style: TimeoutStackStyle, now: int)
      returns (outcome: Outcome)
      requires 0 <= now < DAY
      ensures outcome == TimeoutOutcome(Views(snapshot), message.View(), style, now)
    {
      ghost var shown := Views(snapshot);
      var m := message.View();
      var i := |snapshot| - 1;
      var end := if |snapshot| < 20 then 0 else |snapshot| - 20;
      var minimumTime := MinimumTime(now);
      while i >= end
        invariant end - 1 <= i < |snapshot| && i >= -1
        invariant TimeoutOutcome(shown, m, style, now) == TimeoutSearch(shown, i, m, style, now)
      {
        var s := snapshot[i].View();
        if s.parseTime < minimumTime { return Append; }
        if Untimeout in s.flags && s.timeoutUser == m.timeoutUser { return Append; }
        if style == DontStackBeyondUserMessage {
          if s.loginName == m.timeoutUser &&
             Disabled !in s.flags && Timeout !in s.flags && Untimeout !in s.flags { return Append; }
        }
        if Timeout in s.flags && s.timeoutUser == m.timeoutUser {
          if PubSub in m.flags && PubSub !in s.flags {
            return ReplaceAt(i, m);
          }
          if PubSub !in m.flags && PubSub in s.flags {
            if style == DontStack { return Append; }
            return Drop;
          }
          var count := s.count + 1;
          return ReplaceAt(i, MessageData("", 0, now, m.flags, "", m.timeoutUser, count, []));
        }
        i := i - 1;
      }
      return Append;
    }

    method DisableMessagesOf(snapshot: seq<Message>, user: string)
      requires Distinct(snapshot)
      modifies snapshot
      ensures Views(snapshot) == DisableUserIn(old(Views(snapshot)), user)
    {
      for i := 0 to |snapshot|
        invariant forall j :: 0 <= j < i ==> snapshot[j].View() == DisableUser(old(snapshot[j].View()), user)
        invariant forall j :: i <= j < |snapshot| ==> snapshot[j].View() == old(snapshot[j].View())
      {
        var s := snapshot[i].View();
        if s.loginName == user && Timeout !in s.flags && Untimeout !in s.flags && Whisper !in s.flags {
          snapshot[i].disabled := true;
        }
      }
    }

    method AddOrReplaceTimeout(message: Message, style: TimeoutStackStyle, now: int)
      requires Valid() && message !in History() && 0 <= now < DAY
      modifies messages.Repr(), History()
      ensures Valid()
      ensures Shown() == AfterTimeout(old(Shown()), messages.limit, old(message.View()), style, now)
    {
      var snapshot := messages.GetSnapshot();
      var outcome := SearchTimeout(snapshot, message, style, now);
      TimeoutOutcomeFacts(Shown(), message.View(), style, now);
      ReplaceAndDisable(snapshot, message, outcome, style, now);
      if outcome.Append? {
        var _ := AddMessage(message);
      }
    }

    method ReplaceAndDisable(
      snapshot: seq<Message>, message: Message, outcome: Outcome, style: TimeoutStackStyle, now: int)
      requires Valid() && snapshot == History() && message !in snapshot && 0 <= now < DAY
      requires outcome.ReplaceAt? ==> outcome.index < |snapshot|
      requires outcome.ReplaceAt? ==>
        MeetTimeout(outcome.index, snapshot[outcome.index].View(), message.View(), style, now) == outcome
      modifies messages.Repr(), snapshot
      ensures Valid() && message.View() == old(message.View())
      ensures !outcome.ReplaceAt? ==> History() == snapshot
      ensures Shown() == WithOutcome(DisableUserIn(old(Shown()), message.data.timeoutUser), outcome)
    {
      ghost var shown := Shown();
      if outcome.ReplaceAt? {
        ReplaceByTimeout(snapshot, outcome.index, message, outcome.replacement, style, now);
        DisableMessagesOf(snapshot, message.data.timeoutUser);
        ShownAfterDisabling(snapshot, shown, message.data.timeoutUser, outcome.index, outcome.replacement);
      } else {
        DisableMessagesOf(snapshot, message.data.timeoutUser);
      }
    }

    static ghost function WithOutcome(s: seq<MessageData>, outcome: Outcome): seq<MessageData>
      requires outcome.ReplaceAt? ==> outcome.index < |s|
    {
      if outcome.ReplaceAt? then s[outcome.index := outcome.replacement] else s
    }

    lemma ShownAfterDisabling(snapshot: seq<Message>, shown: seq<MessageData>, user: string, k: nat, r: MessageData)
      requires Valid() && k < |History()| == |snapshot| == |shown| && Views(snapshot) == DisableUserIn(shown, user)
      requires History() == snapshot[k := History()[k]] && History()[k].View() == r
      ensures Shown() == DisableUserIn(shown, user)[k := r]
    {
      assert forall i :: 0 <= i < |snapshot| && i != k ==> Shown()[i] == Views(snapshot)[i];
    }

    /** A PubSub message takes the place of an IRC one itself; otherwise a fresh message does. */
    method ReplaceByTimeout(
      snapshot: seq<Message>, k: nat, message: Message, r: MessageData, style: TimeoutStackStyle, now: int)
      requires Valid() && snapshot == History() && message !in History() && k < |snapshot|
      requires MeetTimeout(k, snapshot[k].View(), message.View(), style, now) == ReplaceAt(k, r)
      modifies messages.Repr()
      ensures Valid() && |History()| == |snapshot| && History() == snapshot[k := History()[k]]
      ensures History()[k] !in snapshot && History()[k].View() == r
    {
      var replacement := message;
      if !(PubSub in message.View().flags && PubSub !in snapshot[k].View().flags) {
        replacement := new Message(r);
      }
      ReplaceQueued(snapshot[k], replacement, k);
    }

    /** The backward search of addOrReplaceSevenTvEventAddRemove. */
    static method SearchEvent(snapshot: seq<Message>, message: Message, now: int) returns (outcome: Outcome)
      requires 0 <= now < DAY
      ensures outcome == EventOutcome(Views(snapshot), message.View(), now)
    {
      ghost var shown := Views(snapshot);
      var m := message.View();
      var currentFlag := SevenTvAdd;
      if SevenTvAdd !in m.flags {
        if SevenTvRemove !in m.flags { return Append; }
        currentFlag := SevenTvRemove;
      }
      var i := |snapshot| - 1;
      var end := if |snapshot| < 20 then 0 else |snapshot| - 20;
      var minimumTime := MinimumTime(now);
      while i >= end
        invariant end - 1 <= i < |snapshot| && i >= -1
        invariant EventOutcome(shown, m, now) == EventSearch(shown, i, m, now)
      {
        var s := snapshot[i].View();
        if s.parseTime < minimumTime { return Append; }
        if currentFlag in s.flags && s.loginName != m.loginName { return Append; }
        if SevenTvAdd in s.flags || SevenTvRemove in s.flags || SevenTvUpdate in s.flags {
          var anyMatchingEmote := AnyCommon(s.emotes, m.emotes);
          if anyMatchingEmote { return Append; }
        }
        if currentFlag in s.flags {
          var emotes := s.emotes;
          for k := 0 to |m.emotes|
            invariant emotes == s.emotes + m.emotes[..k]
          {
            emotes := emotes + [m.emotes[k]];
          }
          return ReplaceAt(i, MessageData("", 0, now, m.flags, m.loginName, "", 1, emotes));
        }
        i := i - 1;
      }
      return Append;
    }

    static method AnyCommon(a: seq<string>, b: seq<string>) returns (found: bool)
      ensures found <==> ShareEmote(a, b)
    {
      for i := 0 to |a|
        invariant forall j :: 0 <= j < i ==> a[j] !in b
      {
        if a[i] in b { return true; }
      }
      return false;
    }

    method AddOrReplaceSevenTvEventAddRemove(message: Message, now: int)
      requires Valid() && message !in History() && 0 <= now < DAY
      modifies messages.Repr()
      ensures Valid()
      ensures Shown() == AfterEvent(old(Shown()), messages.limit, old(message.View()), now)
    {
      var snapshot := messages.GetSnapshot();
      var outcome := SearchEvent(snapshot, message, now);
      if outcome.ReplaceAt? {
        ReplaceByEvent(snapshot, outcome.index, outcome.replacement);
      } else {
        NeverDropped(Shown(), message.View(), now);
        var _ := AddMessage(message);
      }
    }

    static lemma NeverDropped(s: seq<MessageData>, m: MessageData, now: int)
      requires 0 <= now < DAY
      ensures !EventOutcome(s, m, now).Drop?
    {
      EventOutcomeFacts(s, m, now);
    }

    method ReplaceByEvent(snapshot: seq<Message>, k: nat, r: MessageData)
      requires Valid() && snapshot == History() && k < |snapshot|
      modifies messages.Repr()
      ensures Valid() && Shown() == old(Shown())[k := r]
    {
      var replacement := new Message(r);
      ReplaceQueued(snapshot[k], replacement, k);
    }

    method DisableAllMessages()
      requires Valid()
      modifies History()
      ensures Valid() && History() == old(History())
      ensures Shown() == DisableAllIn(old(Shown()))
    {
      var snapshot := messages.GetSnapshot();
      for i := 0 to |snapshot|
        invariant forall j :: 0 <= j < i ==>
          snapshot[j].View() == old(
            if ClearedByModerator(snapshot[j].View()) then Disable(snapshot[j].View()) else snapshot[j].View())
        invariant forall j :: i <= j < |snapshot| ==> snapshot[j].View() == old(snapshot[j].View())
      {
        var flags := snapshot[i].View().flags;
        if System in flags || Timeout in flags || Whisper in flags { continue; }
        snapshot[i].disabled := true;
      }
    }

    method FindMessage(id: string) returns (res: Option<Message>)
      requires Valid()
      ensures var i := LastWithId(Shown(), id);
        res == if i < 0 then None else Some(History()[i])
    {
      res := messages.Rfind((msg: Message) => msg.data.id == id);
      ghost var shown, i := Shown(), LastWithId(Shown(), id);
      assert forall j :: 0 <= j < |shown| ==> shown[j].id == History()[j].data.id && History()[j] in History();
      if res.Some? {
        ghost var k :| 0 <= k < |shown| && History()[k] == res.value && shown[k].id == id
          && forall j :: k < j < |shown| ==> shown[j].id != id;
        assert i == k;
      }
    }

    method DeleteMessage(id: string)
      requires Valid()
      modifies History()
      ensures Valid() && History() == old(History())
      ensures Shown() == Deleted(old(Shown()), id)
    {
      var msg := FindMessage(id);
      if msg.Some? {
        DisableOne(LastWithId(Shown(), id), msg.value);
      }
    }

    method DisableOne(ghost i: nat, message: Message)
      requires Valid() && i < |History()| && History()[i] == message
      modifies message
      ensures Valid() && History() == old(History())
      ensures Shown() == old(Shown())[i := Disable(old(Shown())[i])]
    {
      message.disabled := true;
    }

    // -------------------------------------------------------------------------------------
    // Back-fill
    // -------------------------------------------------------------------------------------

    /** What other threads append: `live[n]` before the n-th batch message is handled. Any
        interleaving is of this form, as each batch message takes at most one queue operation. */
    static ghost function Schedule(batch: seq<Message>, live: seq<seq<Message>>): seq<B.Action>
      requires |live| == |batch|
    {
      if batch == [] then []
      else
        var last := |batch| - 1;
        Schedule(batch[..last], live[..last]) + Appends(live[last]) + [B.Fill]
    }

    static ghost function Appends(live: seq<Message>): seq<B.Action> {
      seq(|live|, i requires 0 <= i < |live| => B.Live(live[i]))
    }

    /** One of the first `n` batch messages has an id that was not in the snapshot. */
    static ghost predicate AnyNew(snapshot: seq<Message>, batch: seq<Message>, n: nat)
      requires n <= |batch|
    {
      exists k :: 0 <= k < n && B.Unknown(snapshot, batch[k])
    }

    /** Whether any message was new; `live` is the schedule of concurrent appends. */
    method FillInMissingMessages(batch: seq<Message>, live: seq<seq<Message>>) returns (anyInserted: bool)
      requires Valid() && History() != [] && |live| == |batch|
      modifies messages.Repr()
      ensures messages.Valid()
      ensures var job := B.Job(messages.limit, old(History()), batch);
        messages.Contents() == B.Run(job, B.Start(job), Schedule(batch, live)).queue
      ensures B.AllDistinct(B.Job(messages.limit, old(History()), batch), B.Lives(Schedule(batch, live))) ==> Valid()
      ensures anyInserted <==> (exists k ::
        && 0 <= k < |batch|
        && (batch[k].data.id == ""
            || forall m :: m in old(History()) && System !in m.data.flags ==> m.data.id != batch[k].data.id))
    {
      var snapshot := messages.GetSnapshot();
      ghost var job := B.Job(messages.limit, snapshot, batch);
      var existingMessageIds := CollectIds(snapshot);
      anyInserted := false;
      var lastMsg := snapshot[|snapshot| - 1];
      for n := 0 to |batch|
        invariant messages.Valid()
        invariant B.Run(job, B.Start(job), Schedule(batch[..n], live[..n])) == B.State(messages.Contents(), n, lastMsg)
        invariant anyInserted <==> AnyNew(snapshot, batch, n)
      {
        ghost var before := Schedule(batch[..n], live[..n]);
        OthersAppend(job, n, lastMsg, before, live[n]);
        ghost var s := B.State(messages.Contents(), n, lastMsg);
        if batch[n].data.id !in existingMessageIds {
          anyInserted := true;
          lastMsg := FillOne(job, snapshot, batch[n], n, lastMsg);
        }
        OneMoreFill(job, s, batch, live, n);
      }
      assert batch[..|batch|] == batch && live[..|live|] == live;
      NewMeans(snapshot, batch);
      if B.AllDistinct(job, B.Lives(Schedule(batch, live))) {
        B.BackfillKeepsEachOrder(job, Schedule(batch, live));
      }
    }

    static lemma NewMeans(snapshot: seq<Message>, batch: seq<Message>)
      ensures AnyNew(snapshot, batch, |batch|) <==> (exists k ::
        && 0 <= k < |batch|
        && (batch[k].data.id == ""
            || forall m :: m in snapshot && System !in m.data.flags ==> m.data.id != batch[k].data.id))
    {
      forall k | 0 <= k < |batch|
        ensures B.Unknown(snapshot, batch[k]) <==> (batch[k].data.id == ""
          || forall m :: m in snapshot && System !in m.data.flags ==> m.data.id != batch[k].data.id)
      {
        B.UnknownExactlyWhen(snapshot, batch[k]);
      }
    }

    static method CollectIds(snapshot: seq<Message>) returns (ids: set<string>)
      ensures ids == B.KnownIds(snapshot)
    {
      ids := {};
      for i := 0 to |snapshot|
        invariant ids == B.KnownIds(snapshot[..i])
      {
        var msg := snapshot[i];
        assert snapshot[..i + 1] == snapshot[..i] + [msg];
        if System in msg.data.flags || msg.data.id == "" { continue; }
        ids := ids + {msg.data.id};
      }
      assert snapshot[..|snapshot|] == snapshot;
    }

    static lemma OneMoreFill(job: B.Job, s: B.State, batch: seq<Message>, live: seq<seq<Message>>, n: nat)
      requires |live| == |batch| && n < |batch| && job.Startable() && job.batch == batch
      requires s == B.Run(job, B.Start(job), Schedule(batch[..n], live[..n]) + Appends(live[n])) && s.next == n
      ensures B.Run(job, B.Start(job), Schedule(batch[..n + 1], live[..n + 1])) == B.FillStep(job, s)
    {
      assert batch[..n + 1][..n] == batch[..n] && live[..n + 1][..n] == live[..n];
      B.RunLast(job, B.Start(job), Schedule(batch[..n], live[..n]) + Appends(live[n]), B.Fill);
    }

    /** Places one new message: before the first later user message of the snapshot, or at the
        end of the history, which is not the end of the queue when live messages came in. */
    method FillOne(ghost job: B.Job, snapshot: seq<Message>, msg: Message, ghost n: nat, lastMsg: Message)
      returns (lastMsg': Message)
      requires messages.Valid() && job.Startable() && job.limit == messages.limit && job.snapshot == snapshot
      requires n < |job.batch| && job.batch[n] == msg && B.Unknown(snapshot, msg)
      modifies messages.Repr()
      ensures messages.Valid()
      ensures B.State(messages.Contents(), n + 1, lastMsg')
           == B.FillStep(job, B.State(old(messages.Contents()), n, lastMsg))
    {
      for k := 0 to |snapshot|
        invariant unchanged(messages.Repr())
        invariant forall j :: 0 <= j < k ==> !B.ComesAfter(snapshot[j], msg.data.serverReceivedTime)
      {
        var snapshotMsg := snapshot[k];
        if System in snapshotMsg.data.flags { continue; }
        if msg.data.serverReceivedTime < snapshotMsg.data.serverReceivedTime {
          var _ := messages.InsertBefore(snapshotMsg, msg);
          return lastMsg;
        }
      }
      var _ := messages.InsertAfter(lastMsg, msg);
      return msg;
    }

    /** Appends of other threads that happen to fall between two back-fill steps. */
    method OthersAppend(
      ghost job: B.Job, ghost n: nat, ghost lastMsg: Message, ghost before: seq<B.Action>, live: seq<Message>)
      requires messages.Valid() && job.Startable() && job.limit == messages.limit
      requires B.Run(job, B.Start(job), before) == B.State(messages.Contents(), n, lastMsg)
      modifies messages.Repr()
      ensures messages.Valid()
      ensures B.Run(job, B.Start(job), before + Appends(live)) == B.State(messages.Contents(), n, lastMsg)
    {
      assert before + Appends(live[..0]) == before;
      for i := 0 to |live|
        invariant messages.Valid()
        invariant B.Run(job, B.Start(job), before + Appends(live[..i])) == B.State(messages.Contents(), n, lastMsg)
      {
        OneMoreAppend(job, before, live, i);
        var _, _ := messages.PushBack(live[i]);
      }
      assert live[..|live|] == live;
    }

    static lemma OneMoreAppend(job: B.Job, before: seq<B.Action>, live: seq<Message>, i: nat)
      requires job.Startable() && i < |live|
      ensures B.Run(job, B.Start(job), before + Appends(live[..i + 1]))
           == B.Step(job, B.Run(job, B.Start(job), before + Appends(live[..i])), B.Live(live[i]))
    {
      AppendsSnoc(before, live, i);
      B.RunLast(job, B.Start(job), before + Appends(live[..i]), B.Live(live[i]));
    }

    static lemma AppendsSnoc(before: seq<B.Action>, live: seq<Message>, i: nat)
      requires i < |live|
      ensures before + Appends(live[..i + 1]) == before + Appends(live[..i]) + [B.Live(live[i])]
    {
    }
  }
}
