# Anonymous chat matcher: verified model of the server core

This is a Dafny model of the server that pairs anonymous visitors for a
one-to-one chat. It keeps its state in memory, in four places:

* **The conversation and message store** (`StorageService`). It has three
  linked maps: conversation records, the participant index (socket id →
  conversation id) and per-conversation message buffers. It also keeps an id
  counter.
* **The waiting queue and matcher.** A connection that asks for a partner is
  queued once. The matcher then pairs the two oldest connected entries through
  the store. It stops when fewer than two entries remain or a pairing fails.
  A disconnecting socket leaves the queue, and its conversation is ended.
* **The idle reaper and its monitor.** Every tick, the reaper ends the
  conversations that have been idle too long. The monitor then sends
  `conversation-timeout` to each of their participants that is still
  connected. The monitor is a start/stop switch over one interval timer.
* **The HTTP fixed-window rate limiter.** It keeps one record per client key
  with a count, a window end and an optional block-until time. It resets
  windows lazily and sweeps out stale records periodically.

Messages pass a **validator and sanitizer**. URLs are masked as `[URL_i]`
placeholders. The masked text then goes through an ordered chain of rejection
checks, or through a clean-up pipeline after which the URLs are put back.

One Dafny module per source file:

| module | file |
|---|---|
| `Common` | common.dfy |
| `Storage` | storage.dfy |
| `FindPartner` | find_partner.dfy |
| `DisconnectUser` | disconnect_user.dfy |
| `Timeout` | timeout.dfy |
| `ConversationMonitor` | conversation_monitor.dfy |
| `RateLimiter` | rate_limiter.dfy |
| `Text` | text.dfy (the JavaScript string facilities the validator uses) |
| `UrlMasking` | url_masking.dfy |
| `MessageValidator` | message_validator.dfy |

How the source maps onto the model:

* **State that the source updates in place** becomes class fields, changed
  by methods with `modifies` clauses. These are `Storage.StorageService`,
  `FindPartner.WaitingRoom` (the waiting queue and the socket store),
  `RateLimiter.IpStore` and `ConversationMonitor.Monitor`.
* **Each loop of the source** is a `while` or `for` loop with invariants. It
  is proved against a specification function, and the properties are proved
  about those functions.
* **Time** is an explicit `now` argument, in milliseconds.
* **Connection liveness** is a set of connected socket ids.
* **Events** the server emits (`waiting`, `matched`, `error`,
  `partner-disconnected`, `conversation-timeout`) are returned as a sequence
  of `Common.Event` values.
* **Ids.** An id `"<timestamp>-<counter>"` is the pair `Id(stamp, serial)`.
* **Map order.** The insertion order of the conversation map is kept in an
  extra field, `order`.
* **Strings** are sequences of code points. `length`, `slice` and `trim`
  follow JavaScript's UTF-16 rules (`Text`).
* **Unicode data.** The Unicode general category of a non-ASCII character, and
  `toLowerCase`, are given to the validator as the `Text.Unicode` value `u`.
* **Regular expressions.** Each one the validator uses is written out as a
  function over sequences, with the JavaScript semantics:
  * the `\s` class, and the line terminators `.` does not match;
  * ASCII case-insensitive `https?`, greedy up to the next white space;
  * `split(/\s+/)` with its empty end tokens;
  * `String.replace` with a string pattern, which replaces only the first
    occurrence and expands `$`-patterns in the replacement.

Behaviour of the code a reader may not expect:

* A run of repeated characters inside a URL is part of the URL (`[^\s]+`).
  The sanitizer does not shorten it, because the clean-up runs on the masked
  text.
* `$ + < = > ^` `` ` `` `| ~`, the line terminators and the other control
  characters, such as tab, are outside the allowed character class. A message containing them outside a URL is
  rejected; inside a URL they are masked before the class check.
* The placeholder `[URL_i]` begins with `[`, so a run of `[` just before a
  URL joins the placeholder's in the masked text. `[[[[[http://x` holds five
  `[` but is rejected for excessive repeats
  (`MessageValidator.BracketRunJoinsPlaceholder`). The sanitizer's run
  collapse sees the same joined run.
* `endConversation` on an already ended conversation clears the index
  entries of its participants again. This happens even when those
  participants have since joined a new conversation. The completeness of the
  participant index (`Storage.StorageService.Paired`) is therefore kept only
  when an active conversation is ended.

## Model

| member | source | states |
|---|---|---|
| Storage.StorageService.constructor | server/src/services/storage/repository.ts:49-54 | the store starts with all three maps empty and the counter at 0, and the map invariants hold |
| Storage.StorageService.GenerateId | server/src/services/storage/repository.ts:60-63 | the counter goes up by exactly one and the id carries the new counter value, so no id is issued twice |
| Storage.StorageService.CreateConversation | server/src/services/storage/repository.ts:71-108 | the errors come in the source's order: wrong participant count, then the first participant already indexed, then the second; an error changes nothing. On success there is a fresh id with counter + 1, a record that is active with last activity and creation both `now`, both participants indexed to it, an empty buffer, and the id appended to the map order; the links between the maps are kept and a complete index stays complete |
| Storage.StorageService.Insert | server/src/services/storage/repository.ts:87-107 | the new record has the fresh id from the counter, the two participants, is active and has both timestamps at `now`; the id was not yet recorded; it is appended to the map order, both participants are indexed to it, it gets an empty message buffer, and nothing else changes; the invariants and a complete index are kept |
| Storage.StorageService.FindConversationByParticipant | server/src/services/storage/repository.ts:114-128 | an unindexed socket gives null; an index entry whose record is missing gives null and is deleted; an indexed record gives itself when active and null when inactive, with no pruning; on a valid store the result is the stored active record that lists the socket |
| Storage.StorageService.UpdateConversationActivity | server/src/services/storage/repository.ts:134-139 | a known conversation's last activity becomes `now` and nothing else changes; an unknown id changes nothing |
| Storage.StorageService.SaveMessage | server/src/services/storage/repository.ts:147-180 | the errors come in the source's order: not found, not active, not a participant; an error changes nothing. Otherwise the one new message is appended at the end of that conversation's buffer with a fresh id, and last activity becomes `now` |
| Storage.StorageService.GetMessagesByConversation | server/src/services/storage/repository.ts:186-188 | the buffer in insertion order, or empty; every message in it belongs to that conversation and was sent by one of its participants |
| Storage.StorageService.EndConversation | server/src/services/storage/repository.ts:197-218 | false and no change for an unknown id; otherwise true, the record is kept but inactive, its participants' index entries and its buffer are deleted, and the order and counter are unchanged; a complete index stays complete when the conversation was active |
| Storage.StorageService.FindIdleConversations | server/src/services/storage/repository.ts:226-236 | the result is exactly the records of `IdleIds`: the active conversations with last activity strictly before the threshold, in map insertion order |
| Storage.StorageService.GetStats | server/src/services/storage/repository.ts:242-258 | total = number of records; active = size of the set of active records = number of buffers; messages = sum of the buffer lengths; participants = size of the index |
| Storage.StorageService.Clear | server/src/services/storage/repository.ts:264-269 | all three maps are empty and the counter is 0, so the invariants hold and all statistics are zero |
| Storage.IdleIds | server/src/services/storage/repository.ts:226-236 | an id is listed iff it is in the map order, its record is active and its last activity is strictly before the threshold; no id is listed twice |
| Storage.AtMostOneActiveConversation | server/src/services/storage/repository.ts:79-85 | with a complete index, no socket takes part in two different active conversations |
| Storage.CreateKeepsLinks | server/src/services/storage/repository.ts:88-107 | creating a conversation for two unindexed sockets uses an id not yet in the map and keeps the links between the three maps |
| Storage.EndKeepsLinks | server/src/services/storage/repository.ts:203-212 | ending a recorded conversation keeps the links; it keeps a complete index complete when the conversation was still active |
| Storage.CountActiveIsCardinality | server/src/services/storage/repository.ts:243-245 | counting the active records along the map order gives the size of the set of active records |
| Storage.TotalMessagesAfterRemove | server/src/services/storage/repository.ts:247-250 | dropping one buffer lowers the message total by exactly that buffer's length |
| FindPartner.Requeue | server/src/application/commands/find_partner.command.ts:56-59 | when one of the two head entries is disconnected, at most one of them goes back, so the queue shrinks |
| FindPartner.RequeueKeepsLive | server/src/application/commands/find_partner.command.ts:56-59 | the connected entries after requeueing are the connected ones of the two head entries, in their order, followed by those of the rest |
| FindPartner.Step | server/src/application/commands/find_partner.command.ts:51-69 | a loop round that does not break shrinks the queue, so the loop terminates |
| FindPartner.RequeueRound | server/src/application/commands/find_partner.command.ts:56-59 | with a disconnected head entry, the round drops the dead entries, puts the connected one back at the head and changes nothing else |
| FindPartner.FailedRound | server/src/application/commands/find_partner.command.ts:62-67 | when the store refuses the pair, both sides get `error`, the queue becomes the second, then the first, then the rest, and the loop breaks |
| FindPartner.PairedRound | server/src/application/commands/find_partner.command.ts:62-64 | when the store accepts the pair, both leave the queue, both are marked matched, the pair count and counter rise by one, and each side gets `matched` with the new id and the other's id |
| FindPartner.StepKeepsDistinct | server/src/application/commands/find_partner.command.ts:51-70 | a round never makes a repetition-free queue hold an entry twice |
| FindPartner.FinishIsPass | server/src/application/commands/find_partner.command.ts:51-70 | running the loop to its end gives the queue, pairs, events and socket store that the recursive `MatchPass` describes, and it breaks exactly when `MatchPass` reports a failure |
| FindPartner.MatchPassKeepsArrivalOrder | server/src/application/commands/find_partner.command.ts:51-70 | the pairs read left to right, then the failed pair if any, then the connected entries left over, are the connected entries of the queue in arrival order; without a failure fewer than two entries are left, and after a failure the failed pair is back at the head in swapped order |
| FindPartner.MatchPassKeepsEntries | server/src/application/commands/find_partner.command.ts:51-70 | the queue left over holds only entries of the queue it started from, and no entry twice |
| FindPartner.OldestLivePairMatchedFirst | server/src/application/commands/find_partner.command.ts:51-64 | if the two oldest connected entries are free, they form the first pair |
| FindPartner.MatchPassPairsFresh | server/src/application/commands/find_partner.command.ts:51-70 | no socket is paired twice in a pass, and every paired socket was queued and not yet in a conversation |
| FindPartner.FreeArrivalsPairedInOrder | server/src/application/commands/find_partner.command.ts:47-75 | when every queued socket is connected, free and queued once, the pass pairs entries 0 and 1, 2 and 3, and so on, in arrival order; no pair fails, and an odd last entry keeps waiting |
| FindPartner.NewIds | server/src/services/storage/repository.ts:60-63 | the ids issued for n conversations after counter value c0 are c0 + 1 … c0 + n, in order |
| FindPartner.LinkedIssuedBelow | server/src/services/storage/repository.ts:60-63 | every id the store holds was issued by its counter |
| FindPartner.GrowExtends | server/src/application/commands/find_partner.command.ts:77-82 | creating the conversations of distinct, unindexed sockets gives each pair its own fresh, active, empty, indexed conversation in pair order, and changes no other record, buffer or index entry |
| FindPartner.MatchPassEffect | server/src/application/commands/find_partner.command.ts:51-102 | after a pass the store is what it was plus one fresh conversation per formed pair, and nothing else |
| FindPartner.WaitingRoom.constructor | server/src/application/commands/find_partner.command.ts:10 | the queue starts empty |
| FindPartner.WaitingRoom.Execute | server/src/application/commands/find_partner.command.ts:20-45 | a socket already queued gives false and changes nothing; otherwise true, `waiting` is emitted, the socket is marked waiting and appended, and a full matching pass runs over the queue; the queue never holds an id twice |
| FindPartner.WaitingRoom.MatchAllWaitingUsers | server/src/application/commands/find_partner.command.ts:47-75 | the queue, socket store, events and matched count are those of `Finish` from the current state, and the store grows by exactly the formed pairs |
| FindPartner.WaitingRoom.MatchHead | server/src/application/commands/find_partner.command.ts:52-69 | one loop round has exactly the effect that `Step` describes, on the queue, the socket store, the store and the events |
| FindPartner.WaitingRoom.MatchUsers | server/src/application/commands/find_partner.command.ts:77-109 | success iff neither socket is indexed in the store; on success there is one new conversation, both sides get `matched` with its id and the other's id, and both are marked matched; on failure both get `error` and nothing changes |
| DisconnectUser.FirstIndex | server/src/application/commands/disconnect_user.command.ts:22 | none iff the socket is not queued; otherwise the position of its first occurrence |
| DisconnectUser.RemoveAt | server/src/application/commands/disconnect_user.command.ts:24 | removing one position shortens the queue by one |
| DisconnectUser.RemoveAtShifts | server/src/application/commands/disconnect_user.command.ts:24 | entries before the removed position stay in place and the later ones move up by one, in order |
| DisconnectUser.RemoveFirstCount | server/src/application/commands/disconnect_user.command.ts:22-26 | an unqueued socket leaves the queue as it is; otherwise exactly one occurrence is removed |
| DisconnectUser.RemoveFirstDistinct | server/src/application/commands/disconnect_user.command.ts:22-26 | from a repetition-free queue the socket is gone altogether |
| DisconnectUser.FirstOther | server/src/application/commands/disconnect_user.command.ts:31 | none iff every participant is the socket itself; otherwise a participant other than the socket |
| DisconnectUser.PartnerOfPair | server/src/application/commands/disconnect_user.command.ts:31 | in a two-person conversation the partner is the other participant |
| DisconnectUser.EndedUnindexes | server/src/application/commands/disconnect_user.command.ts:45 | after the conversation is ended, none of its participants resolves to an active conversation |
| DisconnectUser.Execute | server/src/application/commands/disconnect_user.command.ts:17-61 | the first queue entry of the socket is removed and the rest keep their order; with an active conversation the partner gets `partner-disconnected` and is marked waiting, and the conversation is ended so that neither side resolves to it; without one the store is unchanged; the socket's presence entry is deleted; the partner is not queued again |
| Timeout.EndedAllRecords | server/src/services/conversation/timeout.ts:47-64 | ending a list of conversations keeps every record and the order, marks exactly the listed records inactive, and leaves every other record as it was |
| Timeout.NoIdleLeft | server/src/services/conversation/timeout.ts:36-64 | after the candidates at a threshold are ended, no active conversation is idle at that threshold, so a second sweep finds none |
| Timeout.Notices | server/src/services/conversation/timeout.ts:50-53 | the report has one entry per ended id |
| Timeout.EndedAllStep | server/src/services/conversation/timeout.ts:47-58 | each candidate is still in its original state when its turn comes |
| Timeout.ReportsGrow | server/src/services/conversation/timeout.ts:50-53 | recording the next candidate extends the report by that candidate's id and participants |
| Timeout.EndCandidate | server/src/services/conversation/timeout.ts:55-58 | ending the next candidate is one more step of `EndedAll` and keeps the store's invariants |
| Timeout.EndEach | server/src/services/conversation/timeout.ts:47-64 | every candidate is recorded and then ended, in order, and the store ends as `EndedAll` of the candidates |
| Timeout.TimeoutIdleConversations | server/src/services/conversation/timeout.ts:33-69 | the threshold is `now - idleTimeoutMs`; the candidates are exactly `IdleIds` at that threshold; the report lists them in order with their participants; the store ends with exactly those conversations ended and everything else as it was |
| ConversationMonitor.Started | server/src/utils/conversation_monitor.ts:30-40 | starting clears the old interval and schedules a fresh one, which is then the only live interval |
| ConversationMonitor.Stopped | server/src/utils/conversation_monitor.ts:45-51 | stopping leaves no live interval and a null handle; stopping a stopped monitor changes nothing |
| ConversationMonitor.AtMostOneLive | server/src/utils/conversation_monitor.ts:30-51 | after any sequence of starts and stops, at most one interval is live, and it is the one the handle names |
| ConversationMonitor.NoticesForExact | server/src/utils/conversation_monitor.ts:66-75 | the events for one conversation go exactly to its connected participants and carry its id |
| ConversationMonitor.TimeoutNoticesExact | server/src/utils/conversation_monitor.ts:65-76 | a tick emits a `conversation-timeout` to a socket carrying id c iff the socket is connected and is a participant of the reported conversation c |
| ConversationMonitor.Monitor.constructor | server/src/utils/conversation_monitor.ts:21-25 | a new monitor has no interval |
| ConversationMonitor.Monitor.Start | server/src/utils/conversation_monitor.ts:30-40 | the new state is `Started` of the old one |
| ConversationMonitor.Monitor.Stop | server/src/utils/conversation_monitor.ts:45-51 | the new state is `Stopped` of the old one |
| ConversationMonitor.Monitor.CheckIdleConversations | server/src/utils/conversation_monitor.ts:57-80 | one tick with the one-minute timeout ends exactly the conversations idle since before `now - 60000`, and the events are the timeout notices for their participants who are still connected |
| ConversationMonitor.Monitor.Notify | server/src/utils/conversation_monitor.ts:65-76 | the nested loops emit exactly `TimeoutNotices` of the report |
| RateLimiter.CeilDiv | server/src/middleware/rate_limiter.ts:53 | `Math.ceil(x / d)`: the least integer r with x ≤ d·r |
| RateLimiter.Decide | server/src/middleware/rate_limiter.ts:37-84 | a request is refused as blocked iff `now < blocked_until`, with the record untouched and the wait rounded up to seconds. Otherwise an expired window (strictly `now > reset_time`) restarts at `now`, and the count goes up by exactly one. The headers are the limit, `max(0, limit - count)` and the window end in seconds. The request is refused and the client blocked for the block length iff the count then exceeds the limit |
| RateLimiter.Run | server/src/middleware/rate_limiter.ts:26-85 | one outcome per request |
| RateLimiter.WindowAllowsAtMostRoom | server/src/middleware/rate_limiter.ts:61-82 | while a window lasts, no more requests are let through than the room the window had left |
| RateLimiter.AtMostMaxPerWindow | server/src/middleware/rate_limiter.ts:37-82 | a new key gets at most `max_requests` requests through in its first window |
| RateLimiter.BlockHolds | server/src/middleware/rate_limiter.ts:52-58 | every request before `blocked_until` is refused, and the record does not change |
| RateLimiter.ExceedingBlocks | server/src/middleware/rate_limiter.ts:75-82 | after a request over the limit, every request within the block length is refused |
| RateLimiter.PruningUnobservable | server/src/middleware/rate_limiter.ts:109-117 | deleting an expired entry does not change the outcome, count or window end of any later request of that key |
| RateLimiter.IpStore.constructor | server/src/middleware/rate_limiter.ts:9-13 | the store starts empty |
| RateLimiter.IpStore.Handle | server/src/middleware/rate_limiter.ts:26-85 | an unseen key starts with count 0 and a full window; the key's record becomes `Decide`'s record, no other key changes, and the outcome is `Decide`'s |
| RateLimiter.IpStore.Cleanup | server/src/middleware/rate_limiter.ts:109-117 | the sweep deletes exactly the entries that are not blocked at `now` and whose window ended before `now`, and leaves the others as they were |
| Text.Utf16Length | server/src/validators/message_validator.ts:126 | the UTF-16 length lies between the number of code points and twice that |
| Text.Truncate | server/src/validators/message_validator.ts:183 | `slice(0, 1000)`: the longest prefix whose UTF-16 length is at most the limit |
| Text.LeadingSpace | server/src/validators/message_validator.ts:131 | the leading white space `trim` removes, up to the first other character |
| Text.TrailingSpace | server/src/validators/message_validator.ts:197 | the trailing white space `trim` removes, back to the last other character |
| Text.Trim | server/src/validators/message_validator.ts:131 | empty iff the string is all white space; otherwise the result starts and ends with other characters; it is the part of the string between its leading and its trailing white space, and everything after it is white space |
| UrlMasking.SchemeLength | server/src/validators/message_validator.ts:8 | a match of `https?://`, ignoring ASCII case, has length 7 or 8, ends in `://` and holds no white space |
| UrlMasking.NonSpaceRun | server/src/validators/message_validator.ts:8 | `[^\s]+` taken greedily: the longest run with no white space |
| UrlMasking.UrlLength | server/src/validators/message_validator.ts:8 | a URL match starts with `@` or `h`/`H`, is at least 8 long, holds no white space and ends at white space or at the end |
| UrlMasking.Decimal | server/src/validators/message_validator.ts:80 | the result is a non-empty string of decimal digits, with no leading zero, that denotes the index, so different indices give different placeholders |
| UrlMasking.DecimalInjective | server/src/validators/message_validator.ts:80 | two indices with the same decimal form are equal |
| UrlMasking.Placeholder | server/src/validators/message_validator.ts:80 | `[URL_i]` starts with `[` and ends with `]`, and holds no other `[` |
| UrlMasking.Placeholders | server/src/validators/message_validator.ts:80 | the placeholders for consecutive indexes, in order |
| UrlMasking.ExtractUrls | server/src/validators/message_validator.ts:75-88 | the masked message is empty iff the message is |
| UrlMasking.MaskShape | server/src/validators/message_validator.ts:75-88 | the message is its text pieces interleaved with the URLs found, in order, and the masked message is the same pieces interleaved with `[URL_0]`, `[URL_1]` … |
| UrlMasking.FirstOccurrenceFrom | server/src/validators/message_validator.ts:103 | the position of the first occurrence of the pattern at or after `from`, or none when there is none |
| UrlMasking.RestoreUrls | server/src/validators/message_validator.ts:96-112 | the loop computes `Restored`: the i-th placeholder is replaced by the i-th URL taken literally |
| UrlMasking.RestoreUrlsAsWritten | server/src/validators/message_validator.ts:96-112 | the loop computes `RestoredAsWritten`: the same, with `$`-patterns in the URL expanded as `String.replace` does |
| UrlMasking.ReplaceAfter | server/src/validators/message_validator.ts:103 | a literal replacement hits the placeholder when no earlier copy of it occurs |
| UrlMasking.RestoreOne | server/src/validators/message_validator.ts:103 | each replacement restores exactly its own URL |
| UrlMasking.RestoredStep | server/src/validators/message_validator.ts:98-105 | after i steps, the first i URLs are back and the other placeholders are still in place |
| UrlMasking.RoundTrip | server/src/validators/message_validator.ts:75-112 | restoring the masked message with literal replacement gives back the message, when the message holds no literal `[URL_k]` text |
| UrlMasking.ReplacePlain | server/src/validators/message_validator.ts:103 | the source's replacement agrees with literal replacement when the URL has no `$` |
| UrlMasking.AsWrittenAgreesWithoutDollar | server/src/validators/message_validator.ts:96-112 | the source's restore agrees with the literal one when no URL holds a `$` |
| UrlMasking.DollarPattern | server/src/validators/message_validator.ts:103 | `String.replace` turns the replacement `http://x/$$` into `http://x/$` |
| UrlMasking.DollarUrlIsAltered | server/src/validators/message_validator.ts:75-112 | `http://x/$$` is masked as `[URL_0]`; the source's restore gives `http://x/$`, and the literal restore gives the URL back |
| MessageValidator.HasExcessiveRepeatsIff | server/src/validators/message_validator.ts:33-37 | the test holds iff some character other than a line terminator is directly followed by at least k copies of itself |
| MessageValidator.SplitOnSpace | server/src/validators/message_validator.ts:46 | `split(/\s+/)`: there is at least one token and no token holds white space; only the first and the last may be empty, and the first only when the text starts with white space |
| MessageValidator.SplitOnSpaceRebuilds | server/src/validators/message_validator.ts:46 | the tokens with non-empty runs of white space between them spell the text again |
| MessageValidator.Trailing | server/src/validators/message_validator.ts:58-64 | the length of the run of equal tokens at the end |
| MessageValidator.TokenRunExtend | server/src/validators/message_validator.ts:58-64 | a run of n equal tokens exists after one more token iff it existed before or the trailing run is now n long |
| MessageValidator.NonEmptyAppend | server/src/validators/message_validator.ts:56 | dropping empty tokens distributes over concatenation |
| MessageValidator.WordStep | server/src/validators/message_validator.ts:56-64 | the loop's `current_word`/`repeat_count` update tracks the trailing run of non-empty tokens, and a long enough run has appeared iff the count reaches the bound |
| MessageValidator.HasRepeatedWords | server/src/validators/message_validator.ts:44-68 | the loop returns true iff, after lowercasing and splitting on white space, the non-empty tokens hold a run of more than `max_repeats` equal tokens (at least 2 when `max_repeats` is 0); empty tokens are skipped without breaking a run |
| MessageValidator.ValidateMessage | server/src/validators/message_validator.ts:119-157 | the checks run in the source's order and the first failure decides: invalid content iff the input is not a string or is empty; too long iff non-empty and more than 1000 UTF-16 units; blank iff within the limit and all white space; then, on the URL-masked text, excessive repeats iff some character other than a line terminator is followed by 5 copies of itself, repeated words iff not that and some word occurs more than 3 times in a row, excessive diacritics iff neither and 10 marks occur in a row, invalid characters iff none of these and some character is outside the allowed class; the message is accepted iff none of the seven applies |
| MessageValidator.IsValidMessage | server/src/validators/message_validator.ts:163-170 | true only for a non-empty string within the length limit that is not all white space |
| MessageValidator.RemoveInvalid | server/src/validators/message_validator.ts:189 | the result holds exactly the characters of the input that are allowed, is no longer than it, and is the input itself when every character is allowed |
| MessageValidator.RemoveInvalidAppend | server/src/validators/message_validator.ts:189 | deleting distributes over concatenation |
| MessageValidator.RemoveInvalidChar | server/src/validators/message_validator.ts:189 | a single character is kept exactly when it is in the allowed class |
| MessageValidator.RunLength | server/src/validators/message_validator.ts:192 | the length of the run of equal characters at the start |
| MessageValidator.CollapseRuns | server/src/validators/message_validator.ts:192 | the result is no longer than the input, starts with the same character and holds exactly the input's characters |
| MessageValidator.CollapseRunsOfRun | server/src/validators/message_validator.ts:192 | a leading run of n copies of a character, not continued by what follows, becomes 5 copies when n > 5 and the character is not a line terminator, and stays n copies otherwise; the rest is collapsed on its own |
| MessageValidator.CollapseRunsBounded | server/src/validators/message_validator.ts:192 | afterwards no character other than a line terminator is followed by 5 copies of itself |
| MessageValidator.CollapseRunsKeepsClean | server/src/validators/message_validator.ts:192 | a text with no run longer than 5 is left as it is |
| MessageValidator.Cleaned | server/src/validators/message_validator.ts:189-192 | the cleaned masked text has no run longer than 5 and holds exactly the allowed characters of its input |
| MessageValidator.CleanedIdempotent | server/src/validators/message_validator.ts:189-192 | cleaning a cleaned text changes nothing |
| MessageValidator.SanitizeWith | server/src/validators/message_validator.ts:177-198 | empty for a non-string or empty input; otherwise the result neither starts nor ends with white space; `MessageValidator.Sanitize` uses it with literal restore, `MessageValidator.SanitizeAsWritten` with the source's `$`-expanding restore |
| MessageValidator.ValidMessageSanitizesToItself | server/src/validators/message_validator.ts:119-198 | a message the validator accepts, with no literal `[URL_k]` text, sanitizes to its own trimmed form |
| MessageValidator.SliceKeeps | server/src/validators/message_validator.ts:197 | a part of a clean text is clean |
| MessageValidator.TrimKeeps | server/src/validators/message_validator.ts:197 | trimming keeps a text clean |
| MessageValidator.SanitizedWithoutUrls | server/src/validators/message_validator.ts:177-198 | without URLs, sanitizing is the trim of the run collapse of the message cut to 1000 units with its disallowed characters deleted; the result has only allowed characters and no run longer than 5 |
| MessageValidator.PlaceholderIsClean | server/src/validators/message_validator.ts:189-192 | the clean-up leaves the placeholder `[URL_0]` alone |
| MessageValidator.DollarUrlSanitized | server/src/validators/message_validator.ts:177-198 | the source's sanitizer turns `http://x/$$` into `http://x/$`; with literal restore the message comes back unchanged |
| MessageValidator.BracketRunJoinsPlaceholder | server/src/validators/message_validator.ts:119-157 | `[[[[[http://x` has no character six times in a row, yet the validator rejects it for excessive repeats, because its masked form starts with six `[` |
| MessageValidator.DollarMessageAccepted | server/src/validators/message_validator.ts:119-157 | with `toLowerCase` as JavaScript has it on `[URL_0]`, the validator accepts `http://x/$$` |
| MessageValidator.TrimUnspaced | server/src/validators/message_validator.ts:197 | `trim` leaves a string alone when it neither starts nor ends with white space |

## Left out

- Real timers and clocks. `setInterval`, `clearInterval` and `Date.now()`/`new Date()` become an explicit `now` argument, and a tick is a method call. The runtime's timers are modelled by the monitor's set of live handles.
- Socket I/O. `emit`, `join`, rooms and `io.to(...)` become returned `Common.Event` values. The `error` payload text, the `conversation-timeout` message text and the HTTP status/`ApiError` texts are not modelled; each error is a distinct constructor.
- Logging (`logger`, `console.log`). It has no effect on state.
- Concurrency. `async`/`await` are modelled as sequential calls. Nothing here awaits anything that could interleave, because every store operation is synchronous.
- The `try`/`catch` blocks in `timeoutIdleConversations`, `check_idle_conversations` and `match_users`. In the model, ending a known conversation cannot throw. Pairing fails exactly when the store throws, which is when a socket is already indexed.
- The id format. `"<timestamp>-<counter>"` is kept as the pair of its parts, not as a string.
- The `matchUsers` usecase between the matcher and the store. It is a log-and-forward wrapper; the model calls `CreateConversation` directly.
- `update_user_state` broadcasting. Only its effect on the socket store (waiting, matched, deleted) is modelled.
- Socket lookup by id (`io.sockets.sockets.get`, `socket.connected`). It is modelled by a set of connected ids.
- Unicode tables. The general category of a non-ASCII character and `toLowerCase` (including its context-dependent final sigma) are parameters. The ASCII range is spelled out.
- Lone surrogates. Strings are sequences of code points. A string whose UTF-16 form has an unpaired surrogate is not representable. `slice(0, 1000)` that would cut a surrogate pair is modelled as cutting before the pair.
- JavaScript numbers. Counts and times are unbounded integers; doubles and their rounding are not modelled.
- The `!client_data` branch of the rate limiter (server/src/middleware/rate_limiter.ts:46-49). It cannot be taken, because the entry was just inserted.
- The `typeof url !== 'string'` guard of `restore_urls`. Every element of the URL list is a string.
- The `extract_urls` callback. It pushes into `urls` in match order; the model computes the same list and masked text as one recursive function, `UrlMasking.ExtractUrls`.
- The `typeof message !== 'string'` check. It is modelled by the input datatype `MessageValidator.Input` (`NotAString`).
- The duplicated older controllers, the usecase wrappers, the command and query buses, the HTTP routes, the socket server setup, and the compiled copies of an older design. They are not part of this model.
- FindPartner.Requeue: its own contract states only that the queue shrinks. Its full effect on the connected entries is stated by `FindPartner.RequeueKeepsLive` and `FindPartner.RequeueRound`.
- MessageValidator.SanitizeWith: its own contract states only the empty-input case and the trimmed ends. The steps in between are characterised on their own: `MessageValidator.RemoveInvalidAppend` and `MessageValidator.RemoveInvalidChar` determine the deletion, and `MessageValidator.CollapseRunsOfRun` determines the run collapse. `MessageValidator.SanitizedWithoutUrls` gives the whole result for a message without URLs, and `MessageValidator.ValidMessageSanitizesToItself` gives it for an accepted message. For other messages with URLs, the clean-up cannot be stated piece by piece between the URLs, because a run can reach across a placeholder.
- MessageValidator.IsValidMessage: states only what a true answer implies. The converse follows from `ValidateMessage` and is not restated.

## Findings

| source | as written | input that shows it | evidently intended | confidence | as-written member | corrected member |
|---|---|---|---|---|---|---|
| server/src/validators/message_validator.ts:103 | `restored.replace(placeholder, url)` passes the URL as a replacement string, so `$$`, `$&`, `` $` `` and `$'` in it are expanded as substitution patterns | the message `http://x/$$` is masked as `[URL_0]`, and the sanitizer returns `http://x/$` | each placeholder is replaced by its URL taken literally, so that masking and restoring give the message back | not executed | UrlMasking.RestoreUrlsAsWritten, UrlMasking.DollarUrlIsAltered, MessageValidator.DollarUrlSanitized | UrlMasking.RestoreUrls, UrlMasking.RoundTrip, MessageValidator.ValidMessageSanitizesToItself |
