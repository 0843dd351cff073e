# Chatterino's stateful core, modelled and proved in Dafny

A Qt chat client keeps a good deal of small mutable state that has to stay consistent over long
sessions: message histories that are filled from two sides at once, tables kept in step with
vectors, caches, rate limiters. This project models those components and proves what they promise,
over every run and every input. The models are written the way the C++ is: classes whose methods
change fields and arrays, loops with invariants, and beside each of them a mathematical description
of what the state means. Every method is proved to do exactly what the description says, and the
main theorems are proved about the description.

| file | component |
|---|---|
| `LimitedQueue.dfy` | the bounded queue over a ring buffer that behaves as `boost::circular_buffer` documents |
| `Messages.dfy` | a message: fixed data, and the one flag that is set later (Disabled) |
| `Backfill.dfy` | filling in missing history while other threads append, as a step machine, and the order it keeps |
| `Conservation.dfy` | which messages back-fill adds, keeps and loses, and which ids it lets repeat |
| `Stacking.dfy`, `StackingLaws.dfy` | stacking of timeouts and of 7TV emote events, one call: the searches, and what they decide told on the messages |
| `ChannelRuns.dfy`, `TimeoutCounts.dfy`, `EventOrder.dfy` | whole runs of a channel: counts of timeouts, order of 7TV events |
| `Channel.dfy` | the channel itself over the queue |
| `RatelimitBucket.dfy` | the token bucket with a clock and pending timers |
| `SignalVectorModel.dfy`, `TableLaws.dfy` | the vector that emits events and the table model that follows it; what each operation does to items and rows |
| `LruCache.dfy` | the LRU cache (list and map of list iterators) and the chatter set on top of it |
| `Text.dfy`, `CommandLines.dfy` | `splitCommand` and `parseTagString`; what splitting a command line means |
| `CommandIndex.dfy` | the user-command map, its cached bound and the multi-word lookup |
| `WindowLayout.dfy`, `LayoutFormat.dfy` | saving and loading the window layout; the file's format key by key |
| `Frames.dfy` | animation frame position |
| `Sequences.dfy` | facts about sequences shared by the others |

`dafny verify dfyconfig.toml` checks all of it.

## How to read the theorems

*Back-fill.* `Backfill.Run` takes any list of actions, each either one iteration of the loop over
the batch or one live append, so a theorem about every list is a theorem about every interleaving
and about the state after every step. `Channels.Channel.FillInMissingMessages` is the loop itself,
with the appends of other threads handed in as a schedule, and is proved to end in the state of such
a run. The proof of order rests on `Backfill.Reachable`: every message in the queue has an origin,
and the origins are strictly increasing along the queue, even while a full queue evicts. What is
kept and lost is in `Conservation`: whatever the limit, the queue is the newest part of the complete
merge (`Conservation.QueueIsNewestOfMerge`), and that merge is itself a run, on a queue that never
gets full, so the theorems about order hold of it as well.

*Two descriptions.* A method is proved to compute a function that follows it closely. What the
function means is then proved separately, in terms of the data alone: `StackingLaws`, `TableLaws`,
`CommandLines` and `LayoutFormat` use neither the searches, nor the index translations, nor the
scanner, nor the decoders in what they state, only the messages, rows, characters and keys.

*Where the code differs from its own comments.* `insertBefore` is documented to return true if an
insertion took place. It returns true whenever the needle is queued, but a full ring refuses an
insertion at its very beginning: `QueueSpec.InsertBeforeExactlyWhen` says exactly when an insertion
does take place, and `QueueSpec.FullQueueRefusesInsertBefore` is an input on which it does not.
The searches for something to stack upon look for messages of the last 5 seconds, but compare times
of day, without a date: `Stacking.AgeIsRightExactlyWhen` says when that is right, and
`Stacking.AgeIsWrongAcrossMidnight` gives inputs for both kinds of error. `DontStack` only matters
when an IRC timeout meets a PubSub one. A PubSub timeout that meets a stack of IRC timeouts discards
their count (`TimeoutCounts.MixedSourcesLoseCounts`): `TimeoutCounts.TimeoutLedger` gives the exact
change by one timeout in every case, and `TimeoutCounts.CountsAddUpExactlyWhen` the exact condition
under which the counts of a whole run add up. A second back-fill of the same batch adds nothing when
everything fitted; on a full queue it can (`Conservation.SecondRunOnFullQueue`), and
`Conservation.ChangesNothingExactlyWhen` is the exact condition. `parseTagString` looks only at the
low byte of the escaped character and keeps a lone backslash at the end, where section "Escaping
values" of the IRCv3 Message Tags specification drops it; `TagStrings.StandardExactlyWhenOrdinary`
says for exactly which strings it follows the specification. New copies of an animation start in
phase with old ones except where the start offset is capped at a minute
(`FrameSpec.CopiesInStepExactlyWhen`).

*Rate limiting.* `RatelimitSpec` adds a clock and the pending timers to the bucket. Timers may fire
late and in any order, never early; only the latency theorem asks for punctual ones. The methods of
`RatelimitBuckets.RatelimitBucket` are proved to perform exactly the steps of its runs.

*Layouts.* The methods of `Encoding`, `Decoding` and `LayoutFiles` that build or read JSON are proved
equal to the functions that the round-trip theorems are about.

## Model

| member | source | states |
|---|---|---|
| CircularBuffers.CircularBuffer.PushBack | src/messages/LimitedQueue.hpp:128-139 | the ring behaves as `boost::circular_buffer::push_back`: appends, overwriting exactly the first item when full |
| CircularBuffers.CircularBuffer.PushFront | src/messages/LimitedQueue.hpp:176-180 | with room left, the ring gains one item at the front and keeps the rest |
| CircularBuffers.CircularBuffer.Insert | src/messages/LimitedQueue.hpp:238-281 | the ring's insertion: with room the item lands at the position; when full the first item is dropped, except at the very beginning, where nothing happens |
| LimitedQueues.LimitedQueue.constructor | src/messages/LimitedQueue.hpp:19-23 | a new queue is empty and has the given limit |
| LimitedQueues.LimitedQueue.Clear | src/messages/LimitedQueue.hpp:114-119 | empties the queue |
| LimitedQueues.LimitedQueue.Get | src/messages/LimitedQueue.hpp:65-75 | the item at an index, none exactly when the index is past the end |
| LimitedQueues.LimitedQueue.First | src/messages/LimitedQueue.hpp:82-92 | the oldest item, none exactly when empty |
| LimitedQueues.LimitedQueue.Last | src/messages/LimitedQueue.hpp:99-109 | the newest item, none exactly when empty |
| LimitedQueues.LimitedQueue.PushBack | src/messages/LimitedQueue.hpp:128-154 | appends; reports true and hands out the oldest item exactly when the queue was full, and only that item is gone |
| LimitedQueues.LimitedQueue.PushFront | src/messages/LimitedQueue.hpp:166-183 | prepends the last items that fit, in order, returns exactly those, evicts nothing |
| LimitedQueues.LimitedQueue.ReplaceItem | src/messages/LimitedQueue.hpp:193-208 | replaces the first occurrence only and returns its index, or -1 and no change |
| LimitedQueues.LimitedQueue.ReplaceAt | src/messages/LimitedQueue.hpp:217-228 | replaces at an index, refusing exactly the indices past the end |
| LimitedQueues.LimitedQueue.InsertBefore | src/messages/LimitedQueue.hpp:238-254 | true iff the needle is queued; the item is placed in front of its first occurrence under the ring's rule for full buffers |
| LimitedQueues.LimitedQueue.InsertAfter | src/messages/LimitedQueue.hpp:264-281 | true iff the needle is queued; the item is placed behind its first occurrence under the ring's rule for full buffers |
| QueueSpec.InsertBeforeExactlyWhen | src/messages/LimitedQueue.hpp:236-254 | with the needle queued and the item new, `insertBefore` inserts exactly when it is not the case that the queue is full and the needle is its oldest item; in that case nothing changes although the call returns true |
| QueueSpec.FullQueueRefusesInsertBefore | src/messages/LimitedQueue.hpp:236-254 | an input on which the documented "true if an insertion took place" fails |
| QueueSpec.InsertAfterInserts | src/messages/LimitedQueue.hpp:262-281 | `insertAfter` always inserts when the needle is queued, on full queues too |
| LimitedQueues.LimitedQueue.GetSnapshot | src/messages/LimitedQueue.hpp:283-287 | the queued items, oldest first |
| LimitedQueues.LimitedQueue.Find | src/messages/LimitedQueue.hpp:302-316 | the first match from the oldest item on, none iff nothing matches |
| LimitedQueues.LimitedQueue.Rfind | src/messages/LimitedQueue.hpp:329-343 | the first match from the newest item back, none iff nothing matches |
| QueueSpec.AppendsKeepTheNewest | src/messages/LimitedQueue.hpp:121-139 | after any number of appends the queue is exactly the newest items, in order |
| QueueSpec.PushFrontKeepsEverything | src/messages/LimitedQueue.hpp:156-183 | filling the front never evicts, and the result is the newest part of the whole history |
| QueueSpec.FrontThenBack | src/messages/LimitedQueue.hpp:128-183 | filling the front and then appending gives the newest items of the unbounded history |
| Backfill.Reachable | src/common/Channel.cpp:333-405 | in every reachable state every queued message has an origin (old, filled in, live) and the origins are strictly increasing, also when the queue is full and evicting |
| Backfill.BackfillIsChronological | src/common/Channel.cpp:333-405 | for every interleaving with live appends no older than the batch, old user messages, inserted and live messages are in non-decreasing time order after every step |
| Backfill.BackfillKeepsEachOrder | src/common/Channel.cpp:333-405 | no message is duplicated or invented, old and live messages keep their order, and so do inserted ones when the batch is in time order |
| Backfill.FilledAmongOld | src/common/Channel.cpp:370-396 | told on the messages' own times and flags, with no assumption on order: an inserted message stands before an old one exactly when an old user message up to that one is later; messages of the same time stay in front of it |
| Backfill.FilledAmongFilled | src/common/Channel.cpp:358-397 | of two inserted messages the one handled later stands behind, unless an old user message is later than it, but neither that one nor any before it is later than the other |
| Backfill.LiveComeLast | src/common/Channel.cpp:353-357 | live messages stand behind all old and all inserted ones |
| Conservation.RunFollows | src/common/Channel.cpp:333-405 | for every interleaving, a queue of any limit is at every moment what a queue that never gets full would hold, less some oldest messages, and those only if it is full |
| Conservation.QueueIsNewestOfMerge | src/common/Channel.cpp:333-405 | for every queue and interleaving, the queue is exactly the newest part of the complete merge: the old messages, the handled batch messages of unknown id and the live ones, each once, old and live ones as subsequences |
| Conservation.MergedExactlyWhen | src/common/Channel.cpp:337-364 | told on the messages' own ids and flags: a batch message is in the complete merge exactly when it was handled and has no id, or no old user message has that id |
| Conservation.BackfillConserves | src/common/Channel.cpp:333-405 | nothing at all is lost exactly when old messages, batch messages of unknown id and live messages fit together |
| Conservation.KnownBatchChangesNothing | src/common/Channel.cpp:360-364 | a batch of known ids lets only the live appends through, on a queue of any fill |
| Conservation.BackfillIsIdempotent | src/common/Channel.cpp:337-364 | after a complete run in which everything fitted, filling in the same batch of user messages with ids again adds nothing |
| Conservation.ChangesNothingExactlyWhen | src/common/Channel.cpp:337-397 | on a queue of any fill, a batch of identified user messages without live appends leaves the queue as it was exactly when each has a known id or belongs in front of everything in a full queue |
| Conservation.SecondRunOnFullQueue | src/common/Channel.cpp:337-397 | a family on which a second run of the same batch on a full queue does change it |
| Conservation.OldIdsAreNotAdded | src/common/Channel.cpp:337-364 | an old user message and a filled-in one never share an id, on a queue of any fill |
| Conservation.IdsRepeatExactlyWhen | src/common/Channel.cpp:337-364 | as the ids are collected only once: exactly when an id can be queued twice |
| Channels.Channel.constructor | src/messages/LimitedQueue.hpp:19-23 | a new channel has an empty history with limit 1000 |
| Channels.Channel.AddMessage | src/common/Channel.cpp:105-108 | appends, evicting and reporting the oldest message exactly when full; no other message changes |
| Channels.Channel.AddMessagesAtStart | src/common/Channel.cpp:322-331 | prepends the newest messages of the page that fit and announces exactly those |
| Channels.Channel.ReplaceMessage | src/common/Channel.cpp:407-415 | the message gives way to the other one at the same place; nothing happens when it is not queued |
| Channels.Channel.FillInMissingMessages | src/common/Channel.cpp:333-405 | ends in the state of a run of the back-fill machine with the given appends in between; returns whether some batch message has no id or an id that no old user message has |
| Channels.Channel.FillOne | src/common/Channel.cpp:366-396 | the search over the snapshot and the insertion are one step of the back-fill machine |
| Channels.Channel.AddOrReplaceTimeout | src/common/Channel.cpp:113-206 | the queue afterwards, contents and flags, is that described by `Stacking.AfterTimeout` |
| Channels.Channel.DisableMessagesOf | src/common/Channel.cpp:185-197 | sets Disabled on exactly the user's messages that are no timeout, untimeout or whisper |
| Stacking.MinimumTime | src/common/Channel.cpp:122 | the time of day five seconds before the given one, wrapping at midnight |
| Stacking.AgeIsRightExactlyWhen | src/common/Channel.cpp:131-134 | for a message less than a day old, the comparison of times of day means "more than 5 seconds old" exactly when the message was received on the day it was 5 seconds ago |
| Stacking.AgeIsWrongAcrossMidnight | src/common/Channel.cpp:131-134 | two inputs, one for each direction, on which it does not |
| StackingLaws.TimeoutLaw | src/common/Channel.cpp:113-183 | the whole decision, told on flags, names and times. The newest timeout of the user is reached when it is among the newest 20 and from it on no message is before the time of day 5 seconds ago, none is an untimeout of the user and, in DontStackBeyondUserMessage style, none is an ordinary un-disabled message of the user; then it is replaced by the PubSub one, or swallows the IRC one (appended in DontStack), or counts one more in a fresh message; otherwise the timeout is appended |
| StackingLaws.TimeoutAppendedExactlyWhen | src/common/Channel.cpp:120-183 | a timeout is appended exactly when no newest timeout of the user is reached or DontStack spares it; with any timeout of the user reached and another style it is not |
| Stacking.TimeoutDisables | src/common/Channel.cpp:185-202 | told on flags and names: afterwards every message of the user that is no timeout, untimeout or whisper is Disabled, all others are untouched but for the replaced one, and at most the oldest message is gone |
| TimeoutCounts.TimeoutLedger | src/common/Channel.cpp:152-182 | the exact change of a user's total count by one timeout, in every case and on a queue of any fill |
| TimeoutCounts.CountedExactlyWhen | src/common/Channel.cpp:152-182 | eviction aside, one timeout of count 1 adds one to the user's total exactly when the queued timeout it meets is not one of the other source that loses its count (IRC stack met by PubSub) or swallows the new one (PubSub met by IRC, unless DontStack) |
| TimeoutCounts.CountsAddUpExactlyWhen | src/common/Channel.cpp:113-206 | over any run, with timeouts from any source, on a queue of any fill: the counts queued and evicted add up to the timeouts received exactly when no timeout of the run met such a loss |
| TimeoutCounts.TimeoutCountsAreConserved | src/common/Channel.cpp:113-206 | PubSub timeouts of count 1 never meet a loss: over any run of mixed operations the counts queued and evicted add up to the timeouts received; without eviction the queued ones alone do |
| TimeoutCounts.MixedSourcesLoseCounts | src/common/Channel.cpp:155-161 | a PubSub timeout that meets a stack of IRC timeouts of any count leaves a total of 1 |
| Channels.Channel.AddOrReplaceSevenTvEventAddRemove | src/common/Channel.cpp:208-302 | the queue afterwards is that described by `Stacking.AfterEvent` |
| StackingLaws.EventLaw | src/common/Channel.cpp:208-296 | the whole decision, told on flags, names, emotes and times. The newest event of the kind is reached when it is among the newest 20 and from it on no message is before the time of day 5 seconds ago, none is of the kind by somebody else and no event is on one of the emotes; then the emotes are joined in a fresh message received now; otherwise, and for every other message, it is appended |
| StackingLaws.EventEffect | src/common/Channel.cpp:290-301 | what either does to the queue |
| ChannelRuns.RunWellFormed | src/common/Channel.cpp:254-274 | over any run no message ever lists an emote twice |
| EventOrder.StackKeepsOrder | src/common/Channel.cpp:249-294 | stacking an event leaves the events read off the queue, emote by emote, as if it had been appended |
| EventOrder.StackingNeverReordersEvents | src/common/Channel.cpp:208-302 | over any run, for every emote, the add, remove and rename events read off the queue are a suffix of the arrival order, all of it without eviction |
| Channels.Channel.DisableAllMessages | src/common/Channel.cpp:304-320 | sets Disabled on exactly the messages that are not System, Timeout or Whisper, keeping the history |
| StackingLaws.DisableAllLaw | src/common/Channel.cpp:304-320 | told on flags: what is no system message, timeout or whisper becomes Disabled, the rest stays |
| Channels.Channel.FindMessage | src/common/Channel.cpp:434-447 | the newest message with the id, none iff there is none |
| Channels.Channel.DeleteMessage | src/common/Channel.cpp:425-432 | disables the newest message with the id and nothing else |
| StackingLaws.DeleteLaw | src/common/Channel.cpp:425-447 | the newest message with the id becomes Disabled, no other one changes |
| RatelimitSpec.FifoLosslessWorkConserving | src/util/RatelimitBucket.cpp:17-43 | in every run: callbacks then queue equal the sends, budget plus pending timers is the initial budget, and items wait only while the budget is used up |
| RatelimitSpec.SlidingWindow | src/util/RatelimitBucket.cpp:17-43 | for any firing order of due timers, callback i+B comes at least the cooldown after callback i; a budget of 0 or less never calls back |
| RatelimitSpec.DispatchedInTime | src/util/RatelimitBucket.cpp:17-43 | with punctual timers an item with p items ahead is dispatched within (p/B + 1) cooldowns |
| SignalVectors.LowerBound | src/common/SignalVector.hpp:71-73 | the partition point of a sorted vector: smaller items before it, none behind |
| SignalVectors.SignalVector.Insert | src/common/SignalVector.hpp:76-91 | indexed insertion (-1 appends), the matching event, and an up-to-date read-only copy |
| SignalVectors.SignalVector.InsertSorted | src/common/SignalVector.hpp:69-91 | sorted insertion keeps the vector sorted, in front of equal items, with the matching event |
| SignalVectors.SignalVector.RemoveAt | src/common/SignalVector.hpp:106-118 | removes one item, with the matching event |
| SignalVectors.SignalVector.ItemsChanged | src/common/SignalVector.hpp:158-168 | the read-only copy equals the vector again |
| SignalVectorModels.SignalVectorModel.constructor | src/common/SignalVectorModel.hpp:29-61 | initialisation makes one row per vector item, in order |
| SignalVectorModels.SignalVectorModel.GetVectorIndexFromModelIndex | src/common/SignalVectorModel.hpp:446-466 | the translation loop computes the number of item rows before a row |
| SignalVectorModels.SignalVectorModel.GetModelIndexFromVectorIndex | src/common/SignalVectorModel.hpp:470-490 | the translation loop computes the row of a vector item |
| TableSpec.ModelIndexFinds | src/common/SignalVectorModel.hpp:470-490 | row found for vector index v is the v-th item row, the end exactly when there is none |
| TableSpec.TranslationsAreInverse | src/common/SignalVectorModel.hpp:446-490 | on item rows and vector indices the two translations undo each other; elsewhere each answers with the end |
| SignalVectorModels.SignalVectorModel.ItemInserted | src/common/SignalVectorModel.hpp:33-53 | own events are ignored; otherwise a fresh row appears at the translated index |
| SignalVectorModels.SignalVectorModel.ItemRemoved | src/common/SignalVectorModel.hpp:65-87 | own events are ignored; otherwise the row at the translated index goes |
| SignalVectorModels.SignalVectorModel.VectorInserted | src/common/SignalVectorModel.hpp:33-63 | an external insertion changes vector and rows together as one step |
| SignalVectorModels.SignalVectorModel.VectorRemoved | src/common/SignalVectorModel.hpp:65-87 | an external removal changes vector and rows together as one step |
| SignalVectorModels.SignalVectorModel.SetData | src/common/SignalVectorModel.hpp:135-169 | refuses exactly the indices outside the table; otherwise one SetCell step |
| SignalVectorModels.SignalVectorModel.WriteBack | src/common/SignalVectorModel.hpp:159-165 | removing and reinserting the edited item replaces it in place and leaves the rows alone |
| SignalVectorModels.SignalVectorModel.DeleteRow | src/common/SignalVectorModel.hpp:237-241 | one DeleteRow step |
| SignalVectorModels.SignalVectorModel.RemoveRows | src/common/SignalVectorModel.hpp:270-285 | refuses any count but 1; otherwise one DeleteRow step |
| SignalVectorModels.SignalVectorModel.MoveRows | src/common/SignalVectorModel.hpp:243-268 | refuses any count but 1; otherwise one MoveRow step |
| TableLaws.InsertLaw | src/common/SignalVectorModel.hpp:33-53 | an item inserted from outside becomes item v, and a fresh row for it appears where the row of the former item v was, or at the end |
| TableLaws.RemoveLaw | src/common/SignalVectorModel.hpp:65-87 | an item removed from outside takes its row and nothing else with it |
| TableLaws.SetCellLaw | src/common/SignalVectorModel.hpp:135-169 | an edit changes that cell only; for an item row, the one item with as many item rows above is decoded anew from the edited cells and the original; a custom row leaves the vector alone |
| TableLaws.DeleteLaw | src/common/SignalVectorModel.hpp:237-241 | deleting an item row removes its item and that row, nothing else |
| TableLaws.MoveLaw | src/common/SignalVectorModel.hpp:243-268 | with v item rows above the source, and d above the destination once the source is gone (the end for a custom row or past the table), item v goes to position d among the others, a fresh row for it goes in front of the destination row, all else keeps its order |
| TableLaws.MoveOfTwo | src/common/SignalVectorModel.hpp:243-268 | in a table of two items, dragging the first behind the second swaps them |
| TableLaws.CustomLaw | src/common/SignalVectorModel.hpp:383-401 | custom rows come and go without touching the vector or another row |
| TableSpec.StepAgrees | src/common/SignalVectorModel.hpp:29-90 | every operation keeps rows and vector in agreement, and the vector's own changes, row deletes and moves leave the custom rows as they are |
| TableSpec.ModelAndVectorAgree | src/common/SignalVectorModel.hpp:29-285 | after any run of operations the k-th item row decodes to vector item k, and the translations meet there |
| LruCaches.LruCache.constructor | lib/lrucache/lrucache/lrucache.hpp:25-28 | a new cache is empty |
| LruCaches.LruCache.Put | lib/lrucache/lrucache/lrucache.hpp:54-72 | list and map of iterators stay in agreement, keys distinct, size within the limit (also 0), and the pairs are those of a bounded move-to-front |
| LruCaches.LruCache.Get | lib/lrucache/lrucache/lrucache.hpp:74-87 | returns the stored value and moves its pair to the front; fails without change exactly on an absent key |
| LruCaches.LruCache.Exists | lib/lrucache/lrucache/lrucache.hpp:89-92 | whether the key is listed; changes nothing |
| LruCaches.LruCache.Size | lib/lrucache/lrucache/lrucache.hpp:94-97 | the number of listed pairs, never above the limit |
| LruSpec.LruTrace | lib/lrucache/lrucache/lrucache.hpp:54-87 | after any run of puts and successful gets the list is exactly the most recently used distinct keys, newest first, each with its last put value |
| LruSpec.SmallerIsPrefix | lib/lrucache/lrucache/lrucache.hpp:54-87 | on the same run a smaller cache that never misses lists a prefix of a larger one's list; put-only runs never miss |
| ChatterSets.ChatterSet.constructor | src/common/ChatterSet.cpp:8-11 | a new chatter set is empty |
| ChatterSets.ChatterSet.AddRecentChatter | src/common/ChatterSet.cpp:13-16 | puts the name under its lower-case form, and every key stays the lower-case form of its name |
| ChatterSets.ChatterSet.UpdateOnlineChatters | src/common/ChatterSet.cpp:18-37 | for every order of the users, keeps exactly the whole online set when it is below the limit and otherwise the online users already known, known users with their casing; nobody is evicted |
| ChatterSets.ChatterSet.KeptExactlyWhen | src/common/ChatterSet.cpp:26-34 | a user is kept exactly when online and known, or online with fewer than 2000 online; known users keep their casing |
| ChatterSets.ChatterSet.CarryOver | src/common/ChatterSet.cpp:28-33 | one user: carried over if known, added if there are few, else skipped |
| ChatterSets.ChatterSet.SizeOfUpdate | src/common/ChatterSet.cpp:26-34 | what is to be kept always fits |
| ChatterSets.ChatterSet.Contains | src/common/ChatterSet.cpp:39-42 | whether the lower-case form is a key |
| ChatterSets.ChatterSet.FilterByPrefix | src/common/ChatterSet.cpp:44-56 | the matching names, most recent first |
| ChatterSets.MatchingConcat | src/common/ChatterSet.cpp:49-53 | matches come in the order of the entries |
| ChatterSets.MatchingIsExact | src/common/ChatterSet.cpp:44-56 | a name is found iff it is stored and its lower-case form starts with the lower-case prefix |
| SplitCommands.SplitCommand | src/util/SplitCommand.cpp:47-93 | the loop computes the scanner that the laws below are about |
| CommandLines.SplitReadsMarks | src/util/SplitCommand.cpp:47-93 | on every text: a run of n quotes stands for n / 3 quote characters and opens or closes a quotation when one is left over; the arguments are the non-empty stretches between the spaces outside quotations |
| CommandLines.SplitReadsWords | src/util/SplitCommand.cpp:47-93 | words written bare, quoted, or glued from bare and quoted pieces, with any spaces between and around them, split into the arguments they stand for, of which empty ones vanish |
| SplitCommands.SplitUndoesQuoting | src/util/SplitCommand.cpp:47-93 | arguments wrapped in quotes, inner quotes tripled, joined by spaces, split into the same list, but for empty ones, which vanish |
| SplitCommands.NoEmptyToken | src/util/SplitCommand.cpp:78-90 | no input yields an empty token |
| TagStrings.ParseTagString | src/util/IrcHelpers.hpp:8-59 | editing in place with a shrinking length equals a one-pass recursive unescape, on every string |
| TagStrings.EscapesDecode | src/util/IrcHelpers.hpp:21-52 | in code units, what each escape stands for, what becomes of a backslash before any other character, and of one at the end |
| TagStrings.UnescapeUndoesEscape | src/util/IrcHelpers.hpp:19-52 | unescaping is a left inverse of the escaping in section "Escaping values" of the IRCv3 Message Tags specification, on every string |
| TagStrings.StandardExactlyWhenOrdinary | src/util/IrcHelpers.hpp:15-51 | the decoder agrees with the specification iff the string has no lone trailing backslash and no escaped character whose low byte alone is a named one |
| TagStrings.DeparturesFromStandard | src/util/IrcHelpers.hpp:15-51 | the smallest inputs of both kinds on which it does not |
| CommandIndex.CommandController.AddFirstMatchToMap | src/controllers/commands/CommandController.cpp:396-420 | whatever the old entry of one name and the old bound were, afterwards the map agrees with a scan for every name and the bound is the maximum |
| CommandIndex.CommandController.Insert | src/controllers/commands/CommandController.cpp:421-421 | an insertion keeps map and bound in agreement with the list |
| CommandIndex.CommandController.RemoveAt | src/controllers/commands/CommandController.cpp:422-422 | a removal keeps map and bound in agreement with the list |
| CommandIndex.OtherNamesKeep | src/controllers/commands/CommandController.cpp:396-406 | adding or removing a command does not change the first match of any other name |
| CommandIndex.FirstNamedExactlyWhen | src/controllers/commands/CommandController.cpp:399-406 | the command looked up under a name is the first one in the list with it, none when there is none |
| CommandIndex.MaxSpacesIsReached | src/controllers/commands/CommandController.cpp:408-419 | the bound is the greatest number of spaces in a name, no more and no less |
| CommandIndex.PrefixHoldsWord | src/controllers/commands/CommandController.cpp:1276-1279 | the name looked up holds each of the first words in turn, single spaces between them |
| CommandIndex.BeyondTheBound | src/controllers/commands/CommandController.cpp:408-419 | no command is named by a prefix with more joins than the bound, whatever spaces the words hold |
| CommandIndex.CommandController.FindMultiWord | src/controllers/commands/CommandController.cpp:1276-1286 | the cut-off loop returns the command named by the shortest multi-word prefix, and none only if no prefix at all names one |
| RoundTrips.ChannelRoundTrip | src/singletons/WindowManager.cpp:585-672 | a split comes back with flex values, moderation mode, filters and channel (an IRC channel without server with server -1) |
| RoundTrips.TreeRoundTrip | src/singletons/WindowManager.cpp:545-637 | every tree of splits and containers comes back with the same shape, orientation, flex values and splits |
| RoundTrips.TabRoundTrip | src/common/WindowDescriptors.cpp:113-147 | a saved tab comes back with title, selection, highlight switch and tree; no root node exactly when it had no splits |
| LayoutFormat.SplitFormat | src/common/WindowDescriptors.cpp:31-44 | what a split is read from, key by key, in any JSON object, with the default for each missing or ill-typed entry |
| LayoutFormat.FiltersFormat | src/common/WindowDescriptors.cpp:76-91 | the same for filters |
| LayoutFormat.ContainerFormat | src/common/WindowDescriptors.cpp:46-74 | the same for containers and their items |
| LayoutFormat.TabFormat | src/common/WindowDescriptors.cpp:113-129 | the same for tabs: not selected and highlights on unless they say so |
| LayoutFormat.RootFormat | src/common/WindowDescriptors.cpp:131-144 | a root node is read from a split or container and from nothing else |
| LayoutFormat.WindowFormat | src/common/WindowDescriptors.cpp:162-198 | the same for windows and the popup position |
| LayoutFormat.FileFormat | src/common/WindowDescriptors.cpp:149-230 | all windows in order, of which only the first that claims to be the main one is, and the popup position of the last |
| LayoutFormat.LoadedTabFormat | src/common/WindowDescriptors.cpp:200-219 | all tabs as decoded, of which only the first selected one stays selected |
| LayoutFormat.ChannelFormat | src/singletons/WindowManager.cpp:585-626 | what is written for each kind of channel |
| LayoutFiles.LoadTabs | src/common/WindowDescriptors.cpp:200-219 | all tabs in order, each as decoded, only the first selected one still selected |
| LayoutFiles.LoadWindow | src/common/WindowDescriptors.cpp:158-226 | a window as described, the main one only if it is the first to claim so |
| LayoutFiles.LoadFromFile | src/common/WindowDescriptors.cpp:149-230 | all windows in order, and the popup position of the last one |
| LayoutFiles.OneMainWindow | src/common/WindowDescriptors.cpp:166-178 | whatever the file says, at most one loaded window is the main one, and one is if any claims to be |
| LayoutFiles.OneSelectedTab | src/common/WindowDescriptors.cpp:200-219 | whatever the file says, at most one loaded tab of a window is selected, and one is if any claims to be |
| LayoutFiles.LayoutRoundTrip | src/singletons/WindowManager.cpp:421-480 | saving and loading any windows of which at most one is the main one gives the same windows, tabs, selection, geometry and popup position |
| LayoutFiles.SaveAndLoad | src/common/WindowDescriptors.cpp:149-230 | the saving and the loading method, one after the other, give the same layout |
| FrameSpec.FrameDuration | src/messages/Image.cpp:152-155 | delays of at most 10 become 100, those of 11 to 19 become 20, others stay |
| FramesModel.Frames.constructor | src/messages/Image.cpp:54-73 | starts at the global timer's phase (at most a minute in), settled into a frame |
| FramesModel.Frames.ProcessOffset | src/messages/Image.cpp:94-115 | the loop ends, and where it ends is the settled position |
| FramesModel.Frames.Advance | src/messages/Image.cpp:88-92 | one tick forward, settled, with the offset within the current frame |
| FrameSpec.PlaybackNeverDrifts | src/messages/Image.cpp:88-115 | after k ticks the time played is start + k ticks modulo the total length, with 0 <= offset <= the frame's duration |
| FrameSpec.FrameShown | src/messages/Image.cpp:88-127 | which frame is shown once playback has started: at an instant within the n-th frame, its end included, it is the n-th one, with the time since its start as offset |
| FrameSpec.CopiesInStepExactlyWhen | src/messages/Image.cpp:54-73 | a copy of an image created k ticks later is in phase with the first one exactly when the cap of a minute makes both lag alike; for animations of at most a minute it always is |
| FrameSpec.StartPhase | src/messages/Image.cpp:60-71 | a new copy starts at the phase of the global timer, less exactly what the timer's phase exceeds a minute by |
| FrameSpec.InStep | src/messages/Image.cpp:88-115 | copies of an image that are in phase once stay in phase |

## Left out

- Widgets, themes, fonts, painting, the creation of windows, network requests, files, keychain, IPC and settings storage: interface and I/O. The clock, settings, live appends and parsed JSON are parameters.
- Mutexes, `UniqueAccess`, thread posting: each locked queue operation is one atomic step. Only back-fill is modelled with other threads in between; stacking of timeouts and 7TV events takes its snapshot and acts on it without appends in between.
- Message text and elements, logging and signals inside `Channel`: a message is its id, times, flags, login name, timeout user, count and emote list.
- Message objects are assumed pairwise different and each to be queued once; `Disabled` is the only flag set after construction.
- Back-fill of an empty history: the code reads the last item of the snapshot and needs one (src/common/Channel.cpp:357).
- A queue of limit 0: `pushBack` reads the first item of the full ring, and none exists. Channels use 1000.
- The width of machine integers (message counts, indices, timer positions, millisecond times) and their overflow.
- `boost::circular_buffer` is modelled by its documented contract; its own code is not part of this model.
- RatelimitBuckets.RatelimitBucket.HandleOne: a callback that calls back into the bucket is not modelled.
- Vectors with a comparator below a table model, and models that override `beforeInsert`, `afterRemoved`, `afterInit` or `customRowSetData`: such a model may place rows as it likes. The sorted vector itself is modelled.
- Begin and end notifications of the table model, header data, drag-and-drop data and item flags: interface.
- `deleteRow` and `moveRows` of a custom row: the code has no vector item to remove there.
- List iterators of the LRU cache are modelled as identities of nodes in a sequence; moving a whole cache is a reference assignment.
- Unicode case folding: any function on characters stands for `toLower`, and any predicate true of the plain space for `isSpace`.
- `QUuid` text conversion: a filter id is its text.
- Doubles in JSON are real numbers; the text of a JSON document is not modelled.
- FramesModel.Frames.constructor: asks for positive durations, as `readFrames` produces them; an animation of total length 0 would loop forever once advanced.
- Frame images, and the subscription to the global timer of animated images only.
- `execCustomCommand`, the built-in commands and the lookup of single-word commands before the multi-word search.
- `AccountController`, `AccountModel`, `Credentials`, `ExponentialBackoff`, time formatting, version comparison and flag wrappers.
