# Verified models of the Open WebUI backend

Dafny models of the stateful parts of the Open WebUI backend, with proofs of what those parts
keep. Verify everything with `dafny verify dfyconfig.toml`.

Tables, Redis structures and the configuration dictionary are modelled as maps, sets and
lists; one committed transaction or one Redis pipeline is one step. Code that changes state is
a class whose methods state the whole new state as a function of the old one. The theorems
are about those functions, mostly over whole runs. Fresh ids, clocks and the answers of
queries whose order is not fixed are parameters.

| files | what they cover |
|---|---|
| `Basics.dfy`, `Forest.dfy` | shared vocabulary; trees stored as parent pointers |
| `ChatMessages.dfy`, `Chats.dfy` | a chat's history in two forms: embedded JSON and one row per message |
| `Healing.dfy`, `MessagePath.dfy` | repair of missing rows from the embedded history; the path to a message |
| `ChatEndpoint.dfy`, `ChatForest.dfy` | how the chat endpoint grows a history, and why it stays a doubly linked forest |
| `ChatContent.dfy` | what the messages and rows say after an upsert, a lookup, a new chat and a turn |
| `Glob.dfy` | file name globs as SQL LIKE patterns |
| `PromptHistory.dfy`, `Folders.dfy` | delete-and-reparent; recursive deletion, listing and search of folders |
| `Tasks.dfy`, `RedisTasks.dfy` | the task registry of one process; the task index shared by processes |
| `Automations.dfy` | workers that claim due rows under row locks |
| `AccessQueries.dfy`, `AccessControl.dfy`, `GrantTable.dfy` | every access query against one predicate; the two forms of grants; the grant table |
| `Channels.dfy`, `GroupSync.dfy`, `Config.dfy` | direct-message lookup by counting; group membership from names; nested configuration |

## What the proofs found

Several comments and names in the source promise more than the code does. The model follows
the code; lemmas show failing inputs and state exactly when the promise holds.

* The update branch of `upsert_message` looks only at `parent_id`. Moving a stored message by
  its usual key `parentId` changes the embedded history and not the row (`Chats.ReparentIsLost`).
  A null role is refused by the table, the error is swallowed, and the embedded history keeps it
  (`Chats.NullRoleIsLost`). Exact condition of both: `Chats.UpsertInSyncIff`. When a new chat is
  inserted, one refused message keeps all later ones out of the table (`Chats.RefusalEndsWriting`,
  exactly: `Chats.NewChatInSyncIff`).
* Two chats can share a row key `{chat}-{message}` (`ChatMessages.CompositeIdsCollide`), exactly
  when one prefix begins the other (`ChatMessages.CompositeIdsCollideIff`).
* One lookup does not heal a gap of two generations (`Healing.OneLookupIsNotEnough`; exactly when
  it does: `Healing.OneLookupIsEnoughIff`).
* A client can break the forest of a new chat by repeating an answer id
  (`ChatForest.RepeatedAnswerBreaksForest`), by using the message's own id for an answer, or by
  placing the first message under a new one; nothing else breaks it (`ChatForest.NewChatForestIff`).
  On an existing chat it is the user message that has to fit (`ChatForest.TurnForestIff`).
* Moving a folder is not checked for cycles (`Folders.TwoMovesMakeCycle`, `Folders.MoveKeepsTreeIff`),
  and for a folder on a cycle deletion and listing give up at the interpreter's limit
  (`Folders.CycleIsNotShallow`, `Folders.OffCycleIsShallow`).
* Without Redis, stopping all tasks of an item walks a list that shrinks under it and passes over
  tasks (`Tasks.ChatTasksMissed`, `Tasks.CallbackTasksMissed`, exactly:
  `Tasks.LiveWalkStopsAllIff`). A task created without an item id stays listed after it is done
  (`Tasks.ListedAfterCallbackIff`).
* With Redis, a key deleted after the size check can take a later save with it
  (`RedisTasks.LateDeletionLosesTask`), and a stop that looked a task up before its save leaves it
  in a set only (`RedisTasks.StaleStopBreaksAgreement`). Exactly when a run is spared both:
  `RedisTasks.RunAgreesIff`. A save after the clean-ups is never undone
  (`RedisTasks.SaveAfterCleanStaysListed`; who stays listed: `RedisTasks.RunReflects`).
* Row locks are taken on PostgreSQL only. With them no due time is claimed twice
  (`Automations.NoDoubleClaim`); without them any due row can be
  (`Automations.WithoutLocksDoubleClaim`), although the docstring says it never is.
* The read-only filter ignores the wildcard for writing (`AccessQueries.ReadOnlyShowsWritable`)
  and does not filter by principal for a request that names nobody
  (`AccessQueries.AnonymousIsShown`); exactly: `AccessQueries.ReadOnlyIff`. The wildcard admits
  pending users whom the reverse query leaves out (`AccessQueries.WildcardAdmitsPending`).
* The structured form of grants cannot express any other grant beside public reading, and turns
  missing lists into empty ones (`AccessControl.StructuredRoundTripIff`, `AccessControl.GrantsRoundTripIff`).
  A repeated id makes the table refuse the whole form (`GrantTable.AccessGrantsTable.SetAccessControl`).
* A repeated membership row makes the counting query match a channel that lacks a wanted user
  (`Channels.RepetitionFoolsCounts`, exactly: `Channels.CountingIsEqualityIff`); two concurrent
  joins make one (`Channels.TwoJoinsRepeat`, exactly: `Channels.RunUniqueIff`).

## Model

| member | source | states |
|---|---|---|
| `ChatMessages.ChatMessageTable.UpsertMessage` | backend/open_webui/models/chat_messages.py:151-229 | The table after an upsert differs in at most one row: updated field by field when the composite key is stored, inserted with the defaults otherwise, and unchanged when a value does not fit its column or the role is null; the answer says which. |
| `ChatMessages.UpdateExisting` | backend/open_webui/models/chat_messages.py:168-202 | Assigning the present fields one after the other gives the updated row that the agreement theorems reason about. |
| `ChatContent.ExistingRowShows` | backend/open_webui/models/chat_messages.py:168-202 | Column by column: an existing row takes the value given under the key and keeps its own otherwise, keeps its chat, owner and time, and takes a parent over under the snake-case key only. |
| `ChatContent.NewRowShows` | backend/open_webui/models/chat_messages.py:203-225 | A new row belongs to the given chat and owner, says what the message says in every field, has the role of a user when the message has none, and the message's time or the present one. |
| `ChatMessages.ChatMessageTable.GetMessagesMapByChatId` | backend/open_webui/models/chat_messages.py:254-315 | For every table: nothing exactly when the chat has no rows; otherwise one entry per message id, showing the columns of a row with that id, in which every message lists exactly the messages naming it as parent, once each. |
| `ChatMessages.LinkChildren` | backend/open_webui/models/chat_messages.py:298-313 | Whatever the order in which messages are handed to their parents, the lists of children are duplicate-free and are the inverse of the parent links; nothing else changes. |
| `ChatMessages.RowMsgFields` | backend/open_webui/models/chat_messages.py:277-294 | What a reader of a rebuilt message sees in each field: the column, with empty text for missing content, and no list of children yet. |
| `ChatMessages.CompositeIdsInjective` | backend/open_webui/models/chat_messages.py:164-167 | With chat ids of one length, two messages share a row key only when chat and message are the same. |
| `ChatMessages.CompositeIdsCollide` | backend/open_webui/models/chat_messages.py:164-167 | With chat ids of different lengths two messages of two chats can share a row. |
| `ChatMessages.CompositeIdsCollideIff` | backend/open_webui/models/chat_messages.py:164-167 | Two chats have messages that share a row key exactly when the prefix of one begins the prefix of the other. |
| `ChatMessages.RowIdIff` | backend/open_webui/models/chat_messages.py:271-277 | A message id is obtained from a row exactly when its composite key is stored for the chat, or a stray row of the chat is stored under the bare id, which lacks the prefix. |
| `ChatMessages.RebuiltRow` | backend/open_webui/models/chat_messages.py:271-296 | Where every row has its chat's prefix, that row is the one under the composite key. |
| `ChatContent.RebuiltShowsPlain` | backend/open_webui/models/chat_messages.py:276-296 | In agreement, a rebuilt message has its id, and the fields of the embedded message wherever that one uses the usual keys. |
| `ChatMessages.ChildInOneList` | backend/open_webui/models/chat_messages.py:298-308 | No message is in the lists of two parents. |
| `ChatMessages.ListLengthsSum` | backend/open_webui/models/chat_messages.py:298-313 | The lengths of the lists of any group of messages add up to the number of messages whose parent is in that group. |
| `Chats.ChatTable.InsertNewChat` | backend/open_webui/models/chats.py:295-333 | The new chat is stored; its messages with a role are written in dictionary order up to the first that the table refuses, whose error ends the loop; no other chat changes. |
| `ChatContent.NewChatStored` | backend/open_webui/models/chats.py:295-333 | For every order of the messages: the chat has the given history and owner and no other chat changes; a message has a row exactly when it is storable and none before it is refused, and the row agrees with it in every field. |
| `Chats.RefusalEndsWriting` | backend/open_webui/models/chats.py:319-331 | When the first message is refused, no message of the new chat is written. |
| `Chats.ChatTable.BackfillMessagesByChatId` | backend/open_webui/models/chats.py:474-489 | Every message with a role whose row is accepted is written, none of the others, whatever the order of the dictionary. |
| `Chats.WrittenNew` | backend/open_webui/models/chats.py:474-489 | Of messages without rows, exactly those with a role and fields that fit the columns are written. |
| `Chats.ChatTable.UpsertMessageToChatByIdAndMessageId` | backend/open_webui/models/chats.py:551-589 | The embedded message is merged or added, becomes current, and the merged message is written to its row; nothing happens without the chat. |
| `ChatContent.UpsertedFields` | backend/open_webui/models/chats.py:563-576 | After an upsert the message has every field given, every other field is as stored before (or absent), every other message, chat and owner is unchanged, and the message is current. |
| `Chats.ChatTable.Enrich` | backend/open_webui/models/chats.py:503-529 | The answer is the rebuilt map plus the unresolved parents found in the embedded history, whose fields `ChatContent.LookupAnswers` states, and the storable ones are persisted. |
| `Chats.ChatTable.GetMessagesMapByChatId` | backend/open_webui/models/chats.py:491-542 | All branches: nothing for an unknown chat without rows, the embedded history without rows, else the rebuilt map completed by the missing messages; the rows afterwards are the healed ones. |
| `ChatContent.LookupAnswers` | backend/open_webui/models/chats.py:503-529 | A lookup of a chat with rows answers exactly the messages with rows and the unresolved parents that the embedded history has: the former as rebuilt, the latter field for field as embedded. |
| `ChatContent.LookupPersists` | backend/open_webui/models/chats.py:523-527 | Each of those parents that is storable had no row before and has one afterwards, which agrees with the embedded message in every field. |
| `ChatContent.FirstLookupPersists` | backend/open_webui/models/chats.py:531-542 | Without rows, each storable message of the embedded history gets a row that agrees with it in every field. |
| `Chats.ChatTable.GetMessageByIdAndMessageId` | backend/open_webui/models/chats.py:544-549 | Nothing without the chat, an empty message for an unknown id, else the embedded message. |
| `Chats.GetUnresolvedParentIds` | backend/open_webui/models/chats.py:463-472 | The parents that are named and not in the map, as the healing theorems understand them. |
| `Chats.UpsertInSyncIff` | backend/open_webui/models/chats.py:551-589 | From agreement of both representations, an upsert ends in agreement exactly when the merged message has a role, the table accepts its row, and a stored message is not moved (or carries the snake-case key). |
| `Chats.UpsertedRowAgreesIff` | backend/open_webui/models/chat_messages.py:168-225 | One row agrees with the merged message after an upsert exactly under that condition, for the insert and the update branch. |
| `Chats.ReparentIsLost` | backend/open_webui/models/chat_messages.py:172-173 | Moving a stored message by `parentId` changes the embedded history, keeps the row's parent, and ends the agreement. |
| `Chats.NullRoleIsLost` | backend/open_webui/models/chats.py:578-587 | An upsert with a null role leaves the table as it was, keeps the null in the embedded history, and ends the agreement. |
| `Chats.NewChatInSyncIff` | backend/open_webui/models/chats.py:318-331 | In every order of the messages, inserting a chat keeps agreement of all chats exactly when each initial message has a role and fields that fit the columns. |
| `Chats.UpsertRowIds` | backend/open_webui/models/chats.py:578-585 | An upsert adds at most its own message to its own chat's rows, exactly when the table accepts the row, and leaves every other row of every known chat as it was. |
| `Chats.RebuiltAgrees` | backend/open_webui/models/chat_messages.py:270-296 | In agreement, the map rebuilt from rows has the same ids as the embedded history and shows the same role, content, model, parent and other fields. |
| `Chats.RunKeepsInSync` | backend/open_webui/models/chats.py:318-331 | Any run of chat insertions and upserts that meet the exact conditions keeps the two representations of every chat in agreement. |
| `Healing.LookupIsHealStep` | backend/open_webui/models/chats.py:491-542 | On parent links a lookup is one abstract healing step; existing rows and other chats are untouched. |
| `Healing.HealStepProgress` | backend/open_webui/models/chats.py:503-529 | A lookup changes nothing exactly when no unresolved parent is in the legacy history; otherwise it adds a legacy message and alters no row. |
| `Healing.HealingConverges` | backend/open_webui/models/chats.py:500-529 | After at most as many lookups as legacy messages lack a row, the table is settled and holds exactly the rows and their legacy ancestors. |
| `Healing.SelfHealing` | backend/open_webui/models/chats.py:491-529 | The same for the real table of a chat: enough lookups give every row all its legacy ancestors that can be stored, nothing else, and later lookups write nothing. |
| `Healing.EmptyTableHealsAtOnce` | backend/open_webui/models/chats.py:531-542 | Without rows one lookup writes the whole legacy history and is settled. |
| `Healing.OneLookupIsNotEnough` | backend/open_webui/models/chats.py:503-529 | A gap of two generations is not healed by one lookup. |
| `Healing.OneLookupIsEnoughIff` | backend/open_webui/models/chats.py:503-529 | One lookup settles a table exactly when every stored parent of a message it takes over has a row already or is taken over with it. |
| `Healing.SettledWritesNothing` | backend/open_webui/models/chats.py:503-506 | On a settled chat a lookup leaves every row as it was. |
| `Healing.InSyncNeedsNoHealing` | backend/open_webui/models/chats.py:503-506 | Where dual writing kept the representations in agreement, a lookup repairs nothing. |
| `MessagePath.GetMessageList` | backend/open_webui/utils/misc.py:71-108 | The loop returns, root first, the messages of the walk up the parent links, also on cyclic or dangling histories. |
| `MessagePath.WalkIsChain` | backend/open_webui/utils/misc.py:92-108 | Each message but the first is the child of the one before it, the last is the one asked for, none occurs twice, and the walk ends only at a root, a missing parent or a repetition. |
| `MessagePath.WalkReachesRoot` | backend/open_webui/utils/misc.py:92-108 | In a forest without missing parents the list starts at a root. |
| `MessagePath.HealedPathIsComplete` | backend/open_webui/models/chats.py:500-529 | Once settled, the path of every row is the path in rows and legacy history taken together. |
| `MessagePath.HealedListIsComplete` | backend/open_webui/models/chats.py:491-529 | After enough lookups every message with a row has its complete path, from the rows alone. |
| `ChatEndpoint.StartChat` | backend/open_webui/main.py:1802-1850 | A new chat is inserted with the user message, one placeholder per given answer id, and the first answer (or the user message) as current. |
| `ChatEndpoint.SaveTurn` | backend/open_webui/main.py:1887-1960 | A turn performs exactly the upserts of the turn in order, each computed from the history the earlier ones left; without the chat nothing changes. |
| `ChatEndpoint.SaveUserMessage` | backend/open_webui/main.py:1887-1906 | The user message is saved and its parent lists it, unless the parent is unknown, empty or lists it already. |
| `ChatEndpoint.SaveAnswers` | backend/open_webui/main.py:1926-1960 | The user message lists the answers it lacked, then each answer gets a placeholder. |
| `ChatEndpoint.UpsertAllMessages` | backend/open_webui/models/chats.py:551-589 | A sequence of upserts merges exactly those messages into the one chat and makes the last one current. |
| `ChatContent.TurnContent` | backend/open_webui/main.py:1887-1960 | After a turn with fresh distinct answer ids each answer is an empty, unfinished message of the assistant under the user message with the model of its slot and the given time; the user message says what the request says and keeps what it said besides; every other message keeps all its fields but the list of children. |
| `ChatContent.NewChatContent` | backend/open_webui/main.py:1802-1824 | The same of the answers and the user message of a new chat. |
| `ChatContent.NewChatCurrent` | backend/open_webui/main.py:1835-1837 | The current message of a new chat is the answer of the first slot that has an id, or the user message when none has. |
| `ChatContent.AppendedInOrder` | backend/open_webui/main.py:1931-1943 | New children come after those listed already, in the order of the answers. |
| `ChatForest.TurnKeepsForest` | backend/open_webui/main.py:1887-1960 | A turn with fresh distinct answers and a new or consistent user message keeps the doubly linked forest, adds exactly those messages, and writes nothing that ends the agreement with the rows. |
| `ChatForest.TurnForestIff` | backend/open_webui/main.py:1887-1960 | With fresh distinct answers, a turn leaves a doubly linked forest exactly when its user message fits: it is none of the answers nor under one, does not leave a stored parent, is not below itself, and lists its stored children once each and besides them at most the answers. |
| `ChatForest.NewChatForestIff` | backend/open_webui/main.py:1802-1850 | For every request, the history of a new chat is a doubly linked forest exactly when it has no user message, or the answer ids are distinct, none is the message's own id, and the message is not placed under itself or an answer. |
| `ChatForest.RepeatedAnswerBreaksForest` | backend/open_webui/main.py:1808-1816 | One answer id given for two models breaks the forest of a new chat with a user message. |
| `ChatForest.NewChatIsGood` | backend/open_webui/main.py:1802-1850 | Under that condition, with a storable user message: the history is a doubly linked forest; if it has messages it has a current one, which is stored; and all its messages are storable. |
| `ChatForest.DoublyLinkedIsTree` | backend/open_webui/main.py:1896-1906 | The invariant of the proofs with no answer pending is the doubly linked acyclic history. |
| `ChatForest.HarmlessKeepInSync` | backend/open_webui/models/chats.py:551-589 | A sequence of upserts whose messages fit the columns and keep their parents preserves agreement of both representations. |
| `ChatForest.RequestKeepsWhole` | backend/open_webui/main.py:1802-1960 | Each new chat, turn or edit keeps, for every chat, the doubly linked forest, a stored current message whenever there are messages, and agreement with the rows. |
| `ChatForest.RunKeepsWhole` | backend/open_webui/main.py:1802-1960 | The same after every run of requests. |
| `ChatForest.RebuiltTreeAgrees` | backend/open_webui/models/chat_messages.py:298-313 | Where the representations agree and a chat's history is a forest, the tree rebuilt from rows is the embedded tree, up to the order of siblings. |
| `Glob.PatternIsCharacterMap` | backend/open_webui/models/files.py:284-289 | The five ordered replacements are one map over characters: no replacement touches what an earlier one wrote. |
| `Glob.TranslationTable` | backend/open_webui/models/files.py:284-289 | `*` and `?` become the wildcards for any text and for one character; the three special characters become patterns that match nothing but themselves. |
| `Glob.LikeIsGlob` | backend/open_webui/models/files.py:284-289 | Matching the mapped pattern under LIKE with escape is matching the glob, for every glob and name. |
| `Glob.TranslationPreservesMeaning` | backend/open_webui/models/files.py:269-289 | A name matches the translated pattern without regard to case exactly when it matches the glob without regard to case. |
| `Glob.LiteralGlob` | backend/open_webui/models/files.py:284-286 | A glob without wildcards matches exactly the name it spells, special characters included. |
| `Glob.OnlyStarSkipsFilter` | backend/open_webui/models/files.py:318-320 | The pattern that skips the filter comes from the glob `*` alone. |
| `Glob.SearchSelectsGlobMatches` | backend/open_webui/models/files.py:312-320 | A search selects exactly the user's files whose name matches the glob, also when it skips the filter. |
| `PromptHistory.PromptHistoryTable.CreateHistoryEntry` | backend/open_webui/models/prompt_history.py:53-78 | One row is added with the given parent, and nothing else changes. |
| `PromptHistory.PromptHistoryTable.DeleteHistoryEntry` | backend/open_webui/models/prompt_history.py:205-227 | The children of the entry get its parent, the entry goes, no other row changes; an unknown id changes nothing. |
| `PromptHistory.DeletionFrame` | backend/open_webui/models/prompt_history.py:211-227 | A deletion removes that entry alone; every other keeps its snapshot, prompt and other fields, and its parent unless that was the entry, in which case it gets the entry's parent. |
| `PromptHistory.PromptHistoryTable.DeleteHistoryByPromptId` | backend/open_webui/models/prompt_history.py:194-203 | Exactly the entries of the prompt go. |
| `PromptHistory.PromptFrame` | backend/open_webui/models/prompt_history.py:194-203 | An entry of another prompt stays as it was. |
| `PromptHistory.DeleteKeepsAncestry` | backend/open_webui/models/prompt_history.py:211-227 | For every table, cyclic or not, one survivor is an ancestor of another exactly when it was before the deletion. |
| `PromptHistory.DeleteDanglesIff` | backend/open_webui/models/prompt_history.py:217-226 | A deletion leaves a dangling parent exactly when the entry was its own parent and had another child. |
| `PromptHistory.StepKeepsAncestry` | backend/open_webui/models/prompt_history.py:53-227 | No creation, deletion or removal of a prompt's history changes the ancestry of two commits that exist before and after it. |
| `PromptHistory.RunKeepsSound` | backend/open_webui/models/prompt_history.py:53-227 | Every run of creations naming an existing commit of the prompt (or none) and deletions keeps a forest without dangling parents whose links stay inside one prompt, and the ancestry of all commits that live through the run. |
| `Folders.FolderTable.DeleteFolderByIdAndUserId` | backend/open_webui/models/folders.py:289-320 | For every table and recursion limit: a foreign or unknown folder changes nothing; within the limit exactly the folder and its descendants of that user go, each id is returned once with the folder first, and every other row stays; beyond it nothing is reported, the folder stays, and only whole subtrees off cycles are gone. |
| `Folders.FolderTable.DeleteChildren` | backend/open_webui/models/folders.py:303-314 | The recursion ends within its limit exactly when the subtree is that shallow, and then removes exactly the descendants and lists each once, although every level re-queries a shrinking table; otherwise it leaves a part of the subtree removed. |
| `Folders.RemovalFrame` | backend/open_webui/models/folders.py:303-314 | A removal takes exactly the given folders away and leaves every other as it was. |
| `Folders.FolderTable.GetChildren` | backend/open_webui/models/folders.py:142-146 | Lists exactly the descendants, once each, or runs beyond the limit, exactly when the subtree is deeper. |
| `Folders.FolderTable.GetChildrenFoldersByIdAndUserId` | backend/open_webui/models/folders.py:135-156 | Nothing exactly for a foreign or unknown folder and for one too deep, whose error is swallowed; else its descendants. |
| `Folders.FolderTable.SearchFoldersByNames` | backend/open_webui/models/folders.py:327-356 | Returns exactly the union over the matching folders of the subtree, or of the folder alone where the subtree is too deep, each folder once. |
| `Folders.MatchingIff` | backend/open_webui/models/folders.py:327-356 | A folder is found exactly when it is listed for a folder of the user whose folded name is one of the folded queries. |
| `Folders.FolderTable.UpdateFolderParentIdByIdAndUserId` | backend/open_webui/models/folders.py:193-213 | Changes the parent and time of that folder only, and only for its owner. |
| `Folders.MoveFrame` | backend/open_webui/models/folders.py:193-213 | A moved folder has the given parent and time, and keeps its name, owner and other fields; every other folder is unchanged. |
| `Folders.NextChildUntouched` | backend/open_webui/models/folders.py:304-306 | Deleting the subtrees of earlier children keeps the next child, and off cycles leaves its subtree whole and disjoint from them. |
| `Folders.DescendantsByChild` | backend/open_webui/models/folders.py:303-306 | The descendants are the children and their descendants. |
| `Folders.MoveKeepsTreeIff` | backend/open_webui/models/folders.py:193-213 | The tree stays a tree exactly when the folder is not moved into its own subtree. |
| `Folders.TwoMovesMakeCycle` | backend/open_webui/routers/folders.py:201-220 | Two moves that each name an existing folder of the user close a cycle. |
| `Folders.CycleIsNotShallow` | backend/open_webui/models/folders.py:303-306 | For a folder on a cycle no limit of the recursion is enough. |
| `Folders.OffCycleIsShallow` | backend/open_webui/models/folders.py:303-306 | For any other folder a limit of as many nested calls as it has descendants is enough, so the recursion terminates. |
| `Folders.RunKeepsSound` | backend/open_webui/models/folders.py:88-320 | Any run of insertions, moves outside the subtree, deletions, and deletions that the recursion limit has interrupted keeps every user's folders a forest without missing parents. |
| `Tasks.TaskRegistry.CreateTask` | backend/open_webui/tasks.py:104-124 | The task is registered and appended to its item's list, or starts a list when there is none or an empty one. |
| `Tasks.TaskRegistry.CleanupTask` | backend/open_webui/tasks.py:88-101 | The task leaves the registry and, for a real item, its list, which goes when it becomes empty. |
| `Tasks.TaskRegistry.StopTask` | backend/open_webui/tasks.py:165-179 | A registered task is taken out and its list is left for the callback; an unknown task is reported and nothing changes. |
| `Tasks.TaskRegistry.StopItemTasks` | backend/open_webui/tasks.py:182-195 | Whenever stopped tasks leave the item's list during the walk, the walk stops exactly the tasks it reaches, in order, and leaves exactly the described list, or ends at the first reached task that is not registered. |
| `Tasks.StillListedIff` | backend/open_webui/tasks.py:182-195 | After the walk over the live list a task is still listed exactly when it was listed and did not leave after any stop that came at or after its own. |
| `Tasks.LiveWalkStopsAllIff` | backend/open_webui/tasks.py:136-142 | The live walk stops every task of the item exactly when no task that has been stopped by then leaves the list between the k-th stop and the next read, for every gap before the last read. |
| `Tasks.ChatTasksMissed` | backend/open_webui/tasks.py:98-101 | Of two chat tasks, which clean themselves up while their stop is awaited, the second is missed. |
| `Tasks.CallbackTasksMissed` | backend/open_webui/tasks.py:109-112 | Of three tasks that only their done callbacks clean up, the third is missed: the first leaves while the stop of the second is awaited. |
| `Tasks.SnapshotStopsAllIff` | backend/open_webui/tasks.py:190-195 | A walk over a snapshot stops all of its tasks exactly when each is registered and has not ended by itself before its turn; then exactly what was not cleaned up stays listed, and every other list is as it was. |
| `Tasks.StepKeepsInv` | backend/open_webui/tasks.py:88-179 | Creation, stop, completion and callback each keep the registry invariant: lists non-empty, duplicate-free and disjoint, registered tasks listed, listed tasks registered or pending. |
| `Tasks.RunKeepsInv` | backend/open_webui/tasks.py:88-179 | The invariant holds after every run. |
| `Tasks.ListsAreDisjoint` | backend/open_webui/tasks.py:115-119 | In every reachable state no task is listed twice, in one list or in two. |
| `Tasks.ListedIsRegisteredOrPending` | backend/open_webui/tasks.py:95-101 | In every reachable state a task listed under a real item is registered, or stopped with its callback still to come. |
| `Tasks.DrainedIndexIsInverse` | backend/open_webui/tasks.py:97-101 | Once all callbacks have run, the index of real items is exactly the inverse of task-to-item. |
| `Tasks.ListedAfterCallbackIff` | backend/open_webui/tasks.py:98-119 | After its callback a task is still listed exactly when its item id was missing or empty. |
| `RedisTasks.RedisIndex.SaveTask` | backend/open_webui/tasks.py:49-54 | The hash entry and the set entry are written in one step, the set only for a real item. |
| `RedisTasks.RedisIndex.CleanupTask` | backend/open_webui/tasks.py:57-67 | A clean-up that nothing interrupts removes both entries, and an empty set's key with them. |
| `RedisTasks.RedisIndex.StopTask` | backend/open_webui/tasks.py:149-163 | A stop that nothing interrupts is published, and cleans the task up under the item the hash names. |
| `RedisTasks.RedisIndex.StopItemTasks` | backend/open_webui/tasks.py:182-195 | Without interruption, a stop is published for each task of the snapshot, the item's set is emptied, hash and sets still agree, and other items keep theirs. |
| `RedisTasks.SaveAgreesIff` | backend/open_webui/tasks.py:49-54 | Saving keeps hash and sets in agreement exactly when the task was not saved under another item. |
| `RedisTasks.RemoveAgreesIff` | backend/open_webui/tasks.py:58-61 | The clean-up pipeline alone keeps agreement exactly when it names the item the task was saved under. |
| `RedisTasks.CleanAgreesIff` | backend/open_webui/tasks.py:57-67 | Cleaning up keeps agreement exactly when it names the item the task was saved under. |
| `RedisTasks.KeyDeletionAgreesIff` | backend/open_webui/tasks.py:64-65 | Deleting the key as a step of its own keeps agreement exactly when the set is empty at that moment. |
| `RedisTasks.LateDeletionLosesTask` | backend/open_webui/tasks.py:64-65 | A save between size check and deletion leaves a task in the hash and in no set. |
| `RedisTasks.RunAgreesIff` | backend/open_webui/tasks.py:49-67 | In every interleaving of single requests (save, clean-up pipeline, key deletion, a stop's lookup, a stop's pipeline), hash and sets agree after every request exactly when each key deletion finds its set still empty and each stop's pipeline names the item of a task that is still in the hash. |
| `RedisTasks.StaleStopBreaksAgreement` | backend/open_webui/tasks.py:151-162 | A stop that finds nothing, the task's save, and the stop's pipeline leave the task in its item's set and not in the hash. |
| `RedisTasks.InOrderIsFresh` | backend/open_webui/tasks.py:111-162 | When no task is saved while a stop that looked it up in vain is under way, and no key with members is deleted, every request of the run is fresh. |
| `RedisTasks.RunReflects` | backend/open_webui/tasks.py:49-67 | After every fresh interleaving of single requests the index lists exactly the tasks whose own last step is a save, under their items. |
| `RedisTasks.SameLastStepsSameState` | backend/open_webui/main.py:2074-2088 | Fresh interleavings in which every task's last step agrees list the same: clean-ups by stop, final block and callback commute and repeat harmlessly. |
| `RedisTasks.StopIsClean` | backend/open_webui/tasks.py:151-162 | A stop's pipeline with a fresh item lists the same afterwards as a clean-up with the right item, also for a task already gone. |
| `RedisTasks.NoFinishedTaskListed` | backend/open_webui/main.py:2074-2088 | In a fresh run, a task whose saves all precede one of its clean-ups or stops is in neither the hash nor any set. |
| `RedisTasks.StopsEmptyItem` | backend/open_webui/tasks.py:182-195 | With other processes at work, when each task that the snapshot held is stopped or cleaned up later and none of the item's is saved, the item's set ends empty. |
| `RedisTasks.SaveAfterCleanStaysListed` | backend/open_webui/tasks.py:111-122 | A save after all clean-ups leaves the task listed. |
| `RedisTasks.Listen` | backend/open_webui/tasks.py:25-41 | A process cancels exactly the commanded tasks that it owns. |
| `Automations.AutomationTable.ClaimDue` | backend/open_webui/models/automations.py:257-300 | Claims exactly the rows of the locking query, at most the limit, re-arms them and no others, and none of them is due any more. |
| `Automations.AutomationTable.UpdateById` | backend/open_webui/models/automations.py:209-229 | Changes the named row only; the active flag only when given; the next run always. |
| `Automations.AutomationTable.Toggle` | backend/open_webui/models/automations.py:231-246 | Flips the active flag and clears the next run when it ends up inactive. |
| `Automations.ToggledRow` | backend/open_webui/models/automations.py:231-246 | A toggle flips the flag; an automation that ends up active has the given next run and any other none; nothing else changes. |
| `Automations.UpdatedRow` | backend/open_webui/models/automations.py:209-229 | An update takes over name, rule and next run, and the flag when it is given; owner and last run stay. |
| `Automations.RearmedRow` | backend/open_webui/models/automations.py:294-296 | A claimed automation has been run at the claiming time and has its next run; it keeps all else, and every other automation is unchanged. |
| `Automations.CommitLogs` | backend/open_webui/models/automations.py:276-300 | A commit appends one claim per automation of the batch, in order, with the due time that the query read. |
| `Automations.BatchExists` | backend/open_webui/models/automations.py:266-277 | For every table, set of unlocked rows, time and limit there is an answer of the query: the earliest due unlocked rows, in order. |
| `Automations.StepKeepsInv` | backend/open_webui/models/automations.py:209-300 | Every step of every worker keeps the locking invariant, with each logged claim older than its row's next due time. |
| `Automations.RunKeepsInv` | backend/open_webui/models/automations.py:209-300 | The invariant holds after every interleaving. |
| `Automations.NoDoubleClaim` | backend/open_webui/models/automations.py:276-300 | With row locks, in every interleaving, the due times claimed for one automation strictly increase until an update or toggle re-arms it. |
| `Automations.OpenBatchesDisjoint` | backend/open_webui/models/automations.py:276-280 | No row is in the open batches of two workers. |
| `Automations.WithoutLocksDoubleClaim` | backend/open_webui/models/automations.py:276-277 | Without row locks any due row can be claimed twice for the same due time. |
| `AccessQueries.HasAccessIffAllowed` | backend/open_webui/models/access_grants.py:499-557 | The check says yes exactly when one of the user, everyone or the user's groups has been granted the permission. |
| `AccessQueries.BatchIsFilter` | backend/open_webui/models/access_grants.py:559-613 | The batch check is the single check on each of the ids. |
| `AccessQueries.FilterSelectsIff` | backend/open_webui/models/access_grants.py:660-767 | The query filter selects exactly owned or allowed documents, and everything for a request with neither user nor groups. |
| `AccessQueries.ReadOnlyIff` | backend/open_webui/models/access_grants.py:769-880 | A document is "readable and not writable" exactly when the read-only filter selects it, the request names a user or a group, and the document is not writable by everyone. |
| `AccessQueries.ReadOnlyShowsWritable` | backend/open_webui/models/access_grants.py:769-880 | The read-only filter selects a document that its reader may write as one of everyone. |
| `AccessQueries.AnonymousIsShown` | backend/open_webui/models/access_grants.py:794-849 | A request that names nobody is shown, as read-only, a document that only some user may read. |
| `AccessQueries.GetUsersWithAccess` | backend/open_webui/models/access_grants.py:615-658 | The loop over grants collects every admitted user under a wildcard, else the users named directly or through a group. |
| `AccessQueries.ReverseIsConverse` | backend/open_webui/models/access_grants.py:629-658 | Without a wildcard the reverse query finds a user exactly when the check admits that user. |
| `AccessQueries.WildcardAdmitsPending` | backend/open_webui/models/access_grants.py:644-658 | With a wildcard the check admits everyone and the reverse query leaves out exactly the pending users. |
| `AccessQueries.GetKnowledgeBasesByUserId` | backend/open_webui/models/knowledge.py:375-395 | The loop returns, in order, exactly the bases that the base's own check admits. |
| `AccessQueries.SelectedIff` | backend/open_webui/models/knowledge.py:358-395 | For every user id the loop selects exactly the bases that the user owns or that the user, everyone or a group of the user has been granted. |
| `AccessQueries.SelectedInOrder` | backend/open_webui/models/knowledge.py:375-395 | The selected bases come in the order of the list. |
| `AccessQueries.LoopAgreesWithFilter` | backend/open_webui/models/knowledge.py:358-395 | The loop over knowledge bases selects what the query filter selects. |
| `AccessControl.AccessControlToGrants` | backend/open_webui/models/access_grants.py:80-144 | The nested loops produce the grants permission by permission, groups before users, and the public grant for nothing except on files. |
| `AccessControl.GrantedIff` | backend/open_webui/models/access_grants.py:80-144 | A grant is among those of a structured form exactly when it is for that resource and the form lists its principal, of that kind, under its permission. |
| `AccessControl.GrantsToAccessControl` | backend/open_webui/models/access_grants.py:234-276 | The loop collects the four lists without repetition, nothing under public reading, and the empty form for no grants. |
| `AccessControl.ListedIff` | backend/open_webui/models/access_grants.py:234-276 | Without public reading, the structured form lists a principal under a permission exactly when a grant gives it. |
| `AccessControl.StructuredRoundTripIff` | backend/open_webui/models/access_grants.py:80-276 | The structured form survives the way to grants and back exactly when it is nothing (not for a file), empty, or has both permissions with both lists, someone named, no public reading and no repetition. |
| `AccessControl.GrantsRoundTripIff` | backend/open_webui/models/access_grants.py:80-276 | Grants survive the way to the structured form and back, as a set, exactly when all fit that form and none is public reading, or public reading is all there is. |
| `GrantTable.NormalizeAccessGrants` | backend/open_webui/models/access_grants.py:147-183 | The loop over submitted grants is the normalization that the next lemmas are about. |
| `GrantTable.NormalizedKeys` | backend/open_webui/models/access_grants.py:157-183 | Normalizing keeps exactly the valid keys of the input, each once. |
| `GrantTable.LastSubmissionWins` | backend/open_webui/models/access_grants.py:157-183 | Each normalized grant is the last valid submission of its key, with that submission's id or a new one. |
| `GrantTable.NormalizeIdempotent` | backend/open_webui/models/access_grants.py:147-183 | Normalizing a normalized list changes nothing, ids and order included. |
| `GrantTable.AccessGrantsTable.GrantAccess` | backend/open_webui/models/access_grants.py:285-322 | The grant is in the table afterwards, once; an existing row is returned and nothing changes. |
| `GrantTable.AccessGrantsTable.RevokeAccess` | backend/open_webui/models/access_grants.py:324-345 | Exactly that grant goes, and the answer says whether it was there. |
| `GrantTable.AccessGrantsTable.RevokeAllAccess` | backend/open_webui/models/access_grants.py:347-362 | Exactly the resource's rows go, and the answer counts them. |
| `GrantTable.AccessGrantsTable.SetAccessGrants` | backend/open_webui/models/access_grants.py:402-437 | The resource's rows are then exactly new rows for the valid keys submitted, once each and in order; every row of other resources stays. |
| `GrantTable.AccessGrantsTable.SetAccessControl` | backend/open_webui/models/access_grants.py:364-400 | The resource's grants are then those of the structured form, unless a repeated id breaks uniqueness, in which case nothing changes. |
| `GrantTable.RunIsMeant` | backend/open_webui/models/access_grants.py:285-437 | Over every run of grants, revocations and replacements from either form, each grant has one row in every state, and the rows are the plain set of grants that the run describes. |
| `Channels.CountsMatchIff` | backend/open_webui/models/channels.py:437-451 | For a channel whose users are not repeated the two counts hold exactly when its member set is the wanted, non-empty set. |
| `Channels.CountingIsEqualityIff` | backend/open_webui/models/channels.py:437-451 | Counting means equality for a channel, whoever is wanted, exactly when none of its users is repeated. |
| `Channels.RepetitionFoolsCounts` | backend/open_webui/models/channels.py:444-450 | A repeated row makes the counts hold for a channel that lacks a wanted user. |
| `Channels.ChannelTable.GetDmChannelByUserIds` | backend/open_webui/models/channels.py:430-464 | A found channel is a direct-message channel with only wanted members, all of them unless its users are repeated; none is found only when no user is named or no such channel without repetition has exactly the wanted members. |
| `Channels.ChannelTable.CollectUniqueUserIds` | backend/open_webui/models/channels.py:273-293 | A user is in the answer exactly when it is the inviter, a named user, or a member of a named group. |
| `Channels.CollectedIff` | backend/open_webui/models/channels.py:273-293 | A user is collected exactly when it is the inviter, is named, or is in one of the groups. |
| `Channels.ChannelTable.InsertNewChannel` | backend/open_webui/models/channels.py:341-373 | The members of a new group or direct-message channel are exactly its creator, the named users and the members of the named groups; any other kind starts with none; no membership is repeated. |
| `Channels.ChannelTable.AddMembersToChannel` | backend/open_webui/models/channels.py:466-490 | The members are then the old ones, the inviter, the named users and the members of the named groups, still once each; the answer is those who were not members; other channels are untouched. |
| `Channels.MissingRowsIff` | backend/open_webui/models/channels.py:476-485 | A call finds exactly the requested users of the channel missing that have no row. |
| `Channels.ChannelTable.JoinChannel` | backend/open_webui/models/channels.py:526-562 | A join that nothing interrupts leaves the user a member, once. |
| `Channels.ChannelTable.RemoveMembersFromChannel` | backend/open_webui/models/channels.py:492-506 | Exactly the named members of that channel go, and the answer counts the deleted rows. |
| `Channels.RunUniqueIff` | backend/open_webui/models/channels.py:341-562 | Over every interleaving of reads, later insertions and removals, no membership is ever repeated exactly when every insertion adds rows that are still missing. |
| `Channels.FreshRunCountsRight` | backend/open_webui/models/channels.py:437-562 | After every such run the counts of every channel mean equality with its member set. |
| `Channels.TwoJoinsRepeat` | backend/open_webui/models/channels.py:526-562 | Two concurrent joins of one user leave that user's row twice. |
| `Config.SaveThenGet` | backend/open_webui/config.py:161-262 | After a save the path reads the saved value. |
| `Config.SaveFrame` | backend/open_webui/config.py:254-260 | A save changes no path that neither leads through the saved one nor is led through by it. |
| `Config.SaveFailsIff` | backend/open_webui/config.py:256-260 | A save raises exactly when a value that is not a dictionary stands on its way. |
| `Config.NestedRefinesFlat` | backend/open_webui/config.py:161-262 | Over any run of saves on a prefix-free set of unblocked paths no save fails and each path reads its last saved value, or what was there before: the nested store is a flat map. |
| `Config.ConfigDict.SaveValue` | backend/open_webui/config.py:254-260 | The in-place walk over shared dictionary objects changes the tree exactly as the abstract save, and leaves it unchanged when it raises. |
| `Config.ConfigDict.GetConfigValue` | backend/open_webui/config.py:161-169 | The cursor ends at the value or sub-dictionary stored at the path, or reports a missing key, or raises on a scalar that cannot be asked, exactly as the abstract lookup says. |
| `Config.PersistentConfig.SaveTo` | backend/open_webui/config.py:251-262 | After saving a setting its path reads its value and no separate path is disturbed. |
| `Config.PersistentConfig.UpdateFrom` | backend/open_webui/config.py:245-249 | A setting takes over the configured value, a sub-dictionary included, and keeps its own when there is none or it is null. |
| `GroupSync.GroupTable.SyncGroupsByGroupNames` | backend/open_webui/models/groups.py:510-561 | The user is then in exactly the existing groups whose names are listed; memberships of other users and all group names stay; a group is marked changed exactly when the user joined or left it; when the groups already fit, nothing changes at all. |

## Left out

- ChatForest.TurnForestIff: the answer ids are new and distinct, as the client makes them; a turn with used ones is not characterised.
- Folders.FolderTable.DeleteFolderByIdAndUserId: the interpreter's recursion limit is a parameter counted in nested calls; other failures of a deletion are no step.
- ChatMessages.ChatMessageTable.UpsertMessage: ids and parents are strings; the usage column, its merging on update and its mirror in the rebuilt message are left out, also from `ChatMessages.UpdateExisting` and `ChatMessages.RowMsgFields`; which values a column refuses follows the PostgreSQL driver, where SQLite would turn some of them into text.
- Chats.ChatTable.UpsertMessageToChatByIdAndMessageId: null bytes are not removed; a lost database connection and a stored chat without a `history.messages` dictionary are not modelled.
- Chats.ChatTable.GetMessagesMapByChatId: asks that every row has its chat's prefix, which every write keeps; the map alone is proved without it.
- RedisTasks.RedisIndex.StopTask: one uninterrupted call, as are `RedisTasks.RedisIndex.CleanupTask` and `RedisTasks.RedisIndex.StopItemTasks`; interruptions by other processes are the subject of the runs of single requests, in which no two requests are merged.
- Channels.ChannelTable.JoinChannel: one uninterrupted call, like the other methods of the table; interruptions are the subject of the runs in `Channels.RunUniqueIff`.
- AccessQueries.LoopAgreesWithFilter: a user with an empty id is excluded, since the filter treats it as no user.
- Tasks.TaskRegistry.StopItemTasks: when stopped tasks leave the list is a parameter; tasks that end by themselves or are created during the walk over the live list, and a task that ignores cancellation, are not modelled.
- Config.ConfigDict.GetConfigValue: a configured list is not modelled.
- Folders.FolderTable.SearchFoldersByNames: the folding of names is a parameter; the result is a list of ids in no promised order.
- Chats.RunKeepsInSync: covers chat insertions and message upserts; writes of a whole chat, of files or of status entries, which bypass the message table, are not among the steps.
- Chats.RebuiltAgrees: row times and the usage column are not part of the agreement, and null bytes are not removed.
- Healing.SelfHealing: every lookup is one step, and all backfill writes succeed.
- MessagePath.GetMessageList: asks that messages have `id` fields and that these tell them apart; the source does not end on a cycle of messages without one.
- ChatEndpoint.StartChat: the title, tags, models and files of the chat, and the files of the user message, are left out; the order of the dictionary of messages is a parameter.
- ChatEndpoint.SaveTurn: the ownership check before it and the chat's list of files are left out.
- Glob.SearchSelectsGlobMatches: order and pagination are left out; lower-casing is a parameter that maps characters one by one and neither makes nor loses a special character.
- RedisTasks.Listen: delivery of messages, malformed commands and the life of a process are left out.
- Automations.AutomationTable.ClaimDue: the next run is a parameter that is null or after the claiming time; rules of recurrence and time zones are left out, and the query's answer is any that the statement allows.
- Automations.NoDoubleClaim: says nothing about a row across an update or toggle, which may set an earlier time.
- AccessQueries.ReverseIsConverse: memberships name stored groups, as the foreign key demands.
- AccessControl.AccessControlToGrants: keys other than the two permissions, and entries that are not lists of ids, are left out.
- GrantTable.AccessGrantsTable.SetAccessGrants: times of rows are left out.
- Config.ConfigDict.SaveValue: recursive where the source loops; the path is given as its parts; values are scalars.
- Config.PersistentConfig.SaveTo: settings whose value is itself a dictionary, and writing the database, are left out.
- GroupSync.GroupTable.SyncGroupsByGroupNames: a failing transaction, which the source rolls back, is no step.
- Leaving channels and the flags of a membership; they do not change which rows exist.
- `sync_models`, `sync_functions`, adding many users to a group: their outcome rests on library behaviour.
- HTTP routes, sockets, sign-in, streaming, model dispatch, environment settings and the frontend.
