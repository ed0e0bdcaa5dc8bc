# Wall, notes and chats: a Dafny model

This project models the three in-memory services of the social-network exercise in
`src/main/kotlin/main.kt`:

- **WallService**: an array of posts, each holding its comments. It has two counters, one for post ids and one
  for comment ids.
- **NoteService**: two tables, notes and note comments, each with its own id counter. Deleting a note
  tombstones its comments. A comment can be restored only while its note still exists.
- **ChatService**: chats with one participant each, plus one table of messages. Reading a chat
  (`getMessages`) marks the shown messages read. `getUnreadChatsCount`, `getLastMessages` and
  `getUnreadMessages` summarise the chats.

The Kotlin services are singleton objects that update their fields. Here each one is a `class` with
those fields and a `Valid()` invariant that every method keeps. An updating operation
`modifies this`, and also the post array when it writes into that array (`Wall.WallService.Update`
writes only into the array, so it `modifies posts` alone). Queries are functions with `reads this`.

Kotlin's `mutableMapOf()` iterates in insertion order, so the note and chat tables are a
`LinkedMap` (`linked_map.dfy`). A `LinkedMap` is a key list plus a map. Re-putting a key keeps its
place, and removing a key keeps the order of the others. `sortedBy` and `sortedByDescending` are
stable sorts. They are modelled as an insertion sort (`sequences.dfy`). That sort is proved to be
*the* stable sort: the unique ordered arrangement that keeps every run of equal keys in its
original order.

Each exception class the services throw is an `Error` value (`errors.dfy`), and every operation
that can throw returns a `Result`. The error checks happen in the source's order, with the
source's exception for each case.

A Kotlin `Chat` holds the very `Message` objects that are also in the message table. Setting
`isRead` or `isDeleted` through one is therefore seen through the other. The model keeps this
sharing explicit. A chat lists message ids, and reading a chat resolves them through the table.
`Consistent` (chat.dfy) is the invariant that ties the two sides together:

- every message is listed by the chat it names;
- every listed id is stored and names that chat;
- no two chats share a participant;
- ids come from the counters.

The clock (`System.currentTimeMillis()`) is an explicit `now` parameter of the operations that
stamp a date or timestamp.

## Model

| member | source | states |
|---|---|---|
| Sequences.Filter | src/main/kotlin/main.kt:419-421 | the result holds exactly the elements of the input that satisfy the predicate, and is no longer than the input |
| Sequences.FilterIsFilterOf | src/main/kotlin/main.kt:419-421 | `filter` picks the satisfying positions of the input in increasing order: the result keeps their order and multiplicity (`IsFilterOf`) |
| Sequences.PicksConsKept | src/main/kotlin/main.kt:419-421 | a satisfying element put in front of the input is put in front of the selection |
| Sequences.PicksConsSkipped | src/main/kotlin/main.kt:419-421 | an element failing the predicate put in front of the input leaves the selection as it is |
| Sequences.PicksUnconsKept | src/main/kotlin/main.kt:419-421 | a selection from `[x] + s`, with `x` satisfying the predicate, starts with `x` and the rest is a selection from `s` |
| Sequences.PicksUnconsSkipped | src/main/kotlin/main.kt:419-421 | a selection from `[x] + s`, with `x` failing the predicate, is a selection from `s` |
| Sequences.FilterPositions | src/main/kotlin/main.kt:419-421 | the increasing list of input positions that `filter` keeps |
| Sequences.PicksAtIsFilter | src/main/kotlin/main.kt:419-421 | a selection of every satisfying position, in increasing order, yields exactly the result of `filter` |
| Sequences.FilterOfIsUnique | src/main/kotlin/main.kt:419-421 | anything that keeps the satisfying elements in order and multiplicity is the result of `filter` |
| Sequences.Without | src/main/kotlin/main.kt:354 | removing keys from the key order: the result holds exactly the old keys not removed; distinct keys stay distinct; removing keys that are absent changes nothing |
| Sequences.WithoutIsFilter | src/main/kotlin/main.kt:354 | removing keys keeps the remaining keys in their order and multiplicity: it is `filter` with the keys outside the removed set |
| Sequences.WithoutTwice | src/main/kotlin/main.kt:571-575 | removing two key sets one after the other is removing their union |
| Sequences.DistinctCardinality | src/main/kotlin/main.kt:495 | a sequence without repeats has as many distinct elements as positions |
| Sequences.InsertPermutes | src/main/kotlin/main.kt:424 | inserting into a sorted list adds exactly the inserted element (multiset) |
| Sequences.InsertLowerBound | src/main/kotlin/main.kt:424 | inserting keeps a lower bound that the new element and every old element respect |
| Sequences.InsertKeepsAscending | src/main/kotlin/main.kt:424 | inserting into an ascending list keeps it ascending |
| Sequences.KeyRunCons | src/main/kotlin/main.kt:424 | the run of a key in `[y] + t` is `y`, when it has that key, followed by the run in `t` |
| Sequences.InsertKeyRun | src/main/kotlin/main.kt:424 | insertion puts the new element before every element with the same key |
| Sequences.SortBy | src/main/kotlin/main.kt:424 | `sortedBy`, as an insertion sort: a permutation of its input; the rest of what it promises is stated by `SortByIsStableSort` (ascending, a permutation, stable) and `StableSortIsUnique` (the only such result) |
| Sequences.SortByDescending | src/main/kotlin/main.kt:425 | `sortedByDescending`, as `SortBy` on the negated key: a permutation of its input; the rest is stated by `SortByDescendingIsStableSort` and `StableSortDescendingIsUnique` |
| Sequences.SortByIsStableSort | src/main/kotlin/main.kt:424 | `sortedBy`: the result is ascending, a permutation of the input, and keeps equal keys in input order |
| Sequences.KeyRunNegated | src/main/kotlin/main.kt:425 | the run of key k under the negated key is the run of key k under the key |
| Sequences.SortByDescendingIsStableSort | src/main/kotlin/main.kt:425 | `sortedByDescending`: the result is descending, a permutation of the input, and keeps equal keys in input order |
| Sequences.KeyRunOfFirst | src/main/kotlin/main.kt:424 | the key of the first element has a non-empty run |
| Sequences.SameRunsSame | src/main/kotlin/main.kt:424 | two ascending lists with the same run for every key are equal |
| Sequences.KeyRunHasKey | src/main/kotlin/main.kt:424 | in an ascending list every key that occurs is at least the first element's key |
| Sequences.StableSortIsUnique | src/main/kotlin/main.kt:436 | any stable ascending arrangement of a list is the one `sortedBy` returns |
| Sequences.StableSortDescendingIsUnique | src/main/kotlin/main.kt:437 | any stable descending arrangement of a list is the one `sortedByDescending` returns |
| Sequences.PrefixOfDescendingIsGreatest | src/main/kotlin/main.kt:510-511 | an element left out of a prefix of a descending list has a key no greater than any key in the prefix |
| LinkedMaps.LinkedMap.Put | src/main/kotlin/main.kt:323 | `map[k] = v` keeps the key list a repeat-free listing of the map's keys |
| LinkedMaps.LinkedMap.RemoveKeys | src/main/kotlin/main.kt:573 | removing keys keeps the key list a repeat-free listing of the remaining keys |
| LinkedMaps.LinkedMap.Remove | src/main/kotlin/main.kt:354 | `map.remove(k)` keeps the key list a repeat-free listing of the remaining keys |
| LinkedMaps.LinkedMap.Values | src/main/kotlin/main.kt:419 | `values` lists each stored value once, in key order, and every stored value occurs |
| LinkedMaps.LinkedMap.SizeIsKeyCount | src/main/kotlin/main.kt:495 | the map holds as many entries as the key list has keys |
| LinkedMaps.Empty | src/main/kotlin/main.kt:463-464 | a fresh map is well formed and has no values |
| LinkedMaps.PutTwice | src/main/kotlin/main.kt:537-538 | putting a key twice equals putting the second value once |
| LinkedMaps.RemoveKeysTwice | src/main/kotlin/main.kt:571-575 | two rounds of removal equal one removal of both key sets |
| Wall.IndexOfId | src/main/kotlin/main.kt:272 | `indexOfFirst`: -1 exactly when no post has the id; otherwise the first position holding it |
| Wall.WallService.constructor | src/main/kotlin/main.kt:261-264 | an empty wall with both counters at 1 |
| Wall.WallService.FindById | src/main/kotlin/main.kt:277-278 | PostNotFound exactly when no stored post has the id; otherwise a stored post with that id |
| Wall.WallService.Add | src/main/kotlin/main.kt:280-284 | the post is appended with the next post id, whatever id it had; the post counter advances and the comment counter stays |
| Wall.WallService.CreateComment | src/main/kotlin/main.kt:266-275 | PostNotFound changes nothing; otherwise the comment gets the next comment id and is appended to that post, and no other post changes |
| Wall.WallService.Update | src/main/kotlin/main.kt:286-294 | true exactly when some post has that id; the first such post is replaced and keeps its stored id; all other posts stay; false changes nothing |
| Wall.WallService.Clear | src/main/kotlin/main.kt:298-301 | no posts and the post counter back at 1; the comment counter is not reset |
| Wall.NumberingAfterClear | src/main/kotlin/main.kt:280-301 | after `clear`, posts are numbered 1 and 2 again, while comment ids continue |
| Notes.Ordered | src/main/kotlin/main.kt:423-427 | the `sort` rule: 0 is a stable ascending sort, 1 a stable descending sort, other values keep the order; always a permutation |
| Notes.TombstoneStep | src/main/kotlin/main.kt:350-352 | visiting one more comment in the tombstoning pass marks it deleted if it belongs to the note, giving the table `Tombstoned` over one more visited id |
| Notes.NoteService.constructor | src/main/kotlin/main.kt:304-308 | empty tables, both counters at 1 |
| Notes.NoteService.Add | src/main/kotlin/main.kt:317-325 | a new note under the next note id, owned by 0, with no comments; that id was not in use |
| Notes.NoteService.CreateComment | src/main/kotlin/main.kt:327-344 | NoteNotFound changes nothing; otherwise the comment is stored under the given id, or the next counter id when none is given; the counter advances only in that case; the note's comment counter goes up by one |
| Notes.NoteService.TombstoneComments | src/main/kotlin/main.kt:350-352 | the tombstoning pass: afterwards exactly the comments of the note are marked deleted (the table `Tombstoned` builds over all stored ids), every other comment is unchanged and the key order is the same |
| Notes.NoteService.Delete | src/main/kotlin/main.kt:346-356 | NoteNotFound changes nothing; otherwise the note is removed, every comment of the note is marked deleted, and every other comment is unchanged |
| Notes.NoteService.DeleteComment | src/main/kotlin/main.kt:358-372 | CommentNotFound, then IllegalArgument for another owner, then CommentDeleted when already deleted; errors change nothing; otherwise only the flag is set and the notes are untouched, so the note's counter does not drop |
| Notes.NoteService.Edit | src/main/kotlin/main.kt:374-383 | NoteNotFound changes nothing; otherwise title and text are replaced, while id, owner, date and comment counter are kept |
| Notes.NoteService.EditComment | src/main/kotlin/main.kt:385-400 | the same checks as deleteComment; otherwise only the message changes |
| Notes.NoteService.GetById | src/main/kotlin/main.kt:402-410 | Ok exactly when the note exists and belongs to the owner; otherwise NoteNotFound, or IllegalArgument for another owner |
| Notes.NoteService.ActiveComments | src/main/kotlin/main.kt:419-421 | exactly the stored, non-deleted comments of the note, in storage (key) order and each once: the `filter` of the table's values |
| Notes.NoteService.GetComments | src/main/kotlin/main.kt:412-428 | errors as getById; otherwise exactly the note's non-deleted comments, arranged by the `sort` rule |
| Notes.NoteService.NotesOf | src/main/kotlin/main.kt:431-433 | exactly the stored notes of the owner, in storage (key) order and each once: the `filter` of the table's values |
| Notes.NoteService.Get | src/main/kotlin/main.kt:430-440 | never fails; exactly the owner's notes, arranged by the `sort` rule |
| Notes.NoteService.RestoreComment | src/main/kotlin/main.kt:442-460 | CommentNotFound, then IllegalArgument, then CommentDeleted when the comment is not deleted, then NoteDeleted when its note is gone; errors change nothing; otherwise only the flag is cleared |
| Notes.NoteService.Clear | src/main/kotlin/main.kt:462-467 | empty tables, both counters back at 1 |
| Notes.RestoreUndoesDelete | src/test/kotlin/NoteServiceTests.kt:268-281 | deleting a comment and restoring it returns the comment table to its former state |
| Notes.RestoreAfterNoteDeleted | src/test/kotlin/NoteServiceTests.kt:291-300 | after its note is deleted, restoring a comment of that note fails with NoteDeleted |
| Notes.DeletedCommentIsHidden | src/test/kotlin/NoteServiceTests.kt:238-247 | a deleted comment is no longer listed by getComments |
| Chats.FindByParticipant | src/main/kotlin/main.kt:478-479 | `firstOrNull`: None exactly when no chat has the participant; otherwise the first chat that has it |
| Chats.LatestIndex | src/main/kotlin/main.kt:484-485 | `maxByOrNull` over the non-deleted messages: -1 exactly when all are deleted; otherwise a non-deleted message with the greatest timestamp, the first of any ties |
| Chats.LastNonDeletedMessage | src/main/kotlin/main.kt:483-487 | "нет сообщений" when every message is deleted (or there are none); otherwise the text of the first non-deleted message with the greatest timestamp, as `maxByOrNull` picks it |
| Chats.CountUnread | src/main/kotlin/main.kt:490-492 | the count of chats with an unread message is at most the number of chats; `CountUnreadIsSetSize` shows that it is the size of `UnreadIdsOf` |
| Chats.UnreadIdsOf | src/main/kotlin/main.kt:490-492 | exactly the ids of the listed chats holding a message neither read nor deleted |
| Chats.CountUnreadIsSetSize | src/main/kotlin/main.kt:490-492 | with distinct chat ids, counting unread chats equals the number of their ids |
| Chats.SameUnreadIds | src/main/kotlin/main.kt:490-492 | listing the chat table in key order finds the same unread chats as the table itself |
| Chats.IdsOfStep | src/main/kotlin/main.kt:512 | the ids of one more element are the old ids plus its id |
| Chats.Take | src/main/kotlin/main.kt:511 | `take(n)`: a prefix of the input, of length n, or the whole input when it is shorter |
| Chats.ReadingChatClearsIt | src/main/kotlin/main.kt:503-517 | reading every non-deleted message of one chat takes that chat, and only that chat, off the unread chats |
| Chats.OpenChatKeepsConsistent | src/main/kotlin/main.kt:521-527 | opening a chat for a participant without one keeps the invariant |
| Chats.AddMessageKeepsConsistent | src/main/kotlin/main.kt:530-540 | storing a message under the next id and listing it in its chat keeps the invariant |
| Chats.ReplaceMessageKeepsConsistent | src/main/kotlin/main.kt:544-564 | replacing a message by one with the same id and chat keeps the invariant |
| Chats.MarkReadKeepsConsistent | src/main/kotlin/main.kt:512 | marking messages read (the table `MarkRead` builds) keeps the invariant |
| Chats.RemoveChatKeepsConsistent | src/main/kotlin/main.kt:566-577 | removing a chat together with all of its messages keeps the invariant |
| Chats.ChatService.constructor | src/main/kotlin/main.kt:470-475 | no chats, no messages, both counters at 1 |
| Chats.ChatService.FindChat | src/main/kotlin/main.kt:478-479 | None exactly when no chat has the participant; otherwise the stored chat with it, which is the only one |
| Chats.ChatService.HasChat | src/main/kotlin/main.kt:580 | true exactly when some chat has the participant |
| Chats.ChatService.GetChats | src/main/kotlin/main.kt:495 | every stored chat exactly once, in creation order |
| Chats.ChatService.ChatMessages | src/main/kotlin/main.kt:25-29 | the chat's messages in sending order: position i holds the stored message under the chat's i-th listed id; each names the chat (the lookup is `Resolve`, proved position by position) |
| Chats.ChatService.GetUnreadChatsCount | src/main/kotlin/main.kt:490-492 | the number of chats holding a message neither read nor deleted |
| Chats.ChatService.GetLastMessages | src/main/kotlin/main.kt:498-500 | one entry per chat, in creation order: that chat's LastNonDeletedMessage |
| Chats.ChatService.LastTexts | src/main/kotlin/main.kt:498-500 | the per-chat mapping of getLastMessages, position by position |
| Chats.ChatService.VisibleMessages | src/main/kotlin/main.kt:509 | exactly the chat's messages that are not deleted |
| Chats.ChatService.VisibleInSendingOrder | src/main/kotlin/main.kt:509 | the visible messages are in sending order and each appears once: they are the `filter` of ChatMessages |
| Chats.ChatService.GetUnreadMessages | src/main/kotlin/main.kt:583-589 | ChatNotFound exactly when the participant has no chat; otherwise exactly that chat's messages neither read nor deleted, in sending order and each once: the `filter` of ChatMessages |
| Chats.ChatService.SendMessage | src/main/kotlin/main.kt:519-541 | a new unread message from the current user under the next message id, appended to the participant's chat; a chat is opened under the next chat id only when there was none; afterwards the participant's chat is the one holding it |
| Chats.ChatService.Newest | src/main/kotlin/main.kt:507-511 | at most `count` non-deleted messages, newest first, ties in sending order; no message left out is newer than one shown; a count covering the chat shows all of it |
| Chats.ChatService.NewestAreStored | src/main/kotlin/main.kt:507-512 | every message `getMessages` shows is the stored message under its own id |
| Chats.ChatService.ShowingAllCoversChat | src/main/kotlin/main.kt:507-511 | when the count covers the chat, the shown ids are exactly its non-deleted messages |
| Chats.ChatService.GetMessages | src/main/kotlin/main.kt:503-517 | ChatNotFound, then IllegalArgument for a negative count; errors change nothing; otherwise returns the Newest messages marked read (`MarkedRead`) and marks exactly those read in the table (`MarkRead` over their `IdsOf`); reading a whole chat takes it off the unread chats |
| Chats.ChatService.MarkAllRead | src/main/kotlin/main.kt:512-513 | marks each shown message read in turn; returns them as marked |
| Chats.ChatService.DeleteMessage | src/main/kotlin/main.kt:544-551 | MessageNotFound changes nothing; otherwise only that message is flagged deleted |
| Chats.ChatService.EditMessage | src/main/kotlin/main.kt:553-564 | MessageNotFound for an unknown or a deleted message, changing nothing; otherwise only the text changes |
| Chats.ChatService.DeleteChat | src/main/kotlin/main.kt:566-577 | ChatNotFound changes nothing; otherwise the chat and exactly the messages naming it are removed; afterwards the participant has no chat |
| Chats.ChatService.RemoveAll | src/main/kotlin/main.kt:571-573 | removing the given messages one by one removes exactly their ids |
| Chats.ChatService.Clear | src/main/kotlin/main.kt:591-596 | no chats, no messages, both counters back at 1 |
| Chats.ReadOneMore | src/main/kotlin/main.kt:512 | marking one more shown message read extends both the table update and the returned list |
| Chats.DoomedIds | src/main/kotlin/main.kt:571-573 | the messages gathered for removal are exactly those naming the chat |
| Chats.ShownAreNewest | src/main/kotlin/main.kt:510-511 | a prefix of a stable descending sort is descending; it shows only visible messages, and none left out is newer |
| Chats.DeletedChatForgetsMessages | src/test/kotlin/ChatServiceTests.kt:168-179 | after deleteChat the participant has no chat, and a former message of it is not found even by id |
| Chats.TiedPairKeepsSendingOrder | src/main/kotlin/main.kt:510 | two messages with equal timestamps keep their sending order when sorted newest first |
| Chats.TwoMessagesToOne | src/test/kotlin/ChatServiceTests.kt:23-32 | after clear, two messages to one participant share chat 1, with message ids 1 and 2 |
| Chats.FirstMessageAfterClear | src/test/kotlin/ChatServiceTests.kt:14-20 | after clear, the first message is message 1, unread, and opens chat 1 for its participant |
| Chats.NumberingAfterClear | src/test/kotlin/ChatServiceTests.kt:228-236 | message ids 1, 2, 3 and chat ids 1, 1, 2 in the order of sending |
| Chats.OneMessageEachToTwo | src/test/kotlin/ChatServiceTests.kt:46-47 | one message to each of two participants opens chats 1 and 2, each with one unread message |
| Chats.TwoUnreadChats | src/test/kotlin/ChatServiceTests.kt:46-47 | those two chats are both unread |
| Chats.OneMessageEachToThree | src/test/kotlin/ChatServiceTests.kt:239-247 | one message to each of participants 2, 3 and 4 opens chats 1, 2 and 3, in that order, each with one unread message |
| Chats.ThreeUnreadChats | src/test/kotlin/ChatServiceTests.kt:35-42 | those three chats are all unread |
| Chats.ThreeUnreadCount | src/test/kotlin/ChatServiceTests.kt:35-42 | getUnreadChatsCount is 3 after one message to each of three participants |
| Chats.TwoUnreadCount | src/test/kotlin/ChatServiceTests.kt:46-47 | getUnreadChatsCount is 2 after one message to each of two participants |
| Chats.ReadingEveryChat | src/test/kotlin/ChatServiceTests.kt:46-55 | two unread chats before reading; none after `getMessages(p, 10)` on each |
| Chats.ReadBothChats | src/test/kotlin/ChatServiceTests.kt:46-55 | reading both chats in full leaves no chat unread |
| Chats.ReadWholeChat | src/test/kotlin/ChatServiceTests.kt:46-55 | `getMessages(p, 10)` on a chat of at most ten messages takes just that chat off the unread chats |
| Chats.SimultaneousMessages | src/test/kotlin/ChatServiceTests.kt:186-195 | with equal timestamps, `getMessages(2, 1)` reads the first message, and `getUnreadMessages(2)` then returns exactly the list holding the second |
| Chats.NewestOfTiedPair | src/test/kotlin/ChatServiceTests.kt:186-195 | with two messages of equal timestamp in one chat, `getMessages(2, 1)` shows the first one sent |
| Chats.ReadOneOfTied | src/test/kotlin/ChatServiceTests.kt:186-195 | `getMessages(2, 1)` on two tied messages returns the first one, marked read, and marks only it in the table |
| Chats.MarkFirstOfTwo | src/test/kotlin/ChatServiceTests.kt:186-195 | marking message 1 read in a two-message table leaves message 2 as it was |

## Left out

- Attachments (photo, video, audio, document, link): only their type tag is kept; their payloads and the
  structural `equals`/`hashCode` of `Post` and `Comment` (main.kt 74-105, 216-258) are not modelled.
- The wall clock: dates and timestamps are parameters, so two messages may carry any timestamps,
  including equal ones.
- Kotlin `Int` counters wrap around after 2^31 - 1 ids; the counters here are unbounded integers.
- Exception messages are not modelled, only which exception class is thrown.
- The services are process-wide singletons; here each is an object the caller passes in.
- `unreadCount` (main.kt 481) is a private helper that nothing calls; it is not modelled.
- `removeById` on the wall is commented out in the source and is not modelled.
- `ChatAlreadyExistsException` is declared but never thrown, so it has no error value.
- The services hand out their stored objects themselves, so a caller who changes a returned
  object changes the store:
  - `getMessages` and `getUnreadMessages` return the stored `Message` objects;
  - `getChats` returns the stored `Chat` objects with their `MutableList` of messages;
  - `getComments` and `get` return the stored `NoteComment` and `Note` objects, and
    `NoteComment.isDeleted` is a `var` (main.kt 47);
  - the wall's `add` and `findById` return the stored `Post`, with its `Array<Comment>`.

  The model returns values, so that aliasing is not captured. Within the service, the sharing between a chat and the message table is modelled (see above).
- The ownership errors (another owner) are `IllegalArgumentException` in the source and
  `IllegalArgument` here. The same error value covers `take` with a negative count in
  `getMessages`, which Kotlin's `Sequence.take` rejects with that exception. The
  source also throws `CommentDeletedException` both for "already deleted" and for "not deleted".
  `editMessage` on a deleted message throws `MessageNotFoundException`. The model follows the code in each of these cases.
- `NoteService.checkExists` throws the nested `NoteService.NotFoundException`; it is `NoteNotFound` here.
- `main` (main.kt 599-600) is empty and is not modelled.
