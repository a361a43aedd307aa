# remind-bot, modelled in Dafny

A model of the reminder bot in `main.js`: a Telegram group bot that registers group members,
stores daily reminders in three SQLite tables (groups, users, reminders), sends every reminder
whose `HH:mm` time equals the current minute to its group with a mention of every registered
member, answers `/tagall`, and registers a scheduler job whenever a reminder is created
or edited.

The project has five modules, one per file:

- `optional.dfy` (`Optional`): the `Option` datatype.
- `mentions.dfy` (`Mentions`): the broadcast text. Each stored username gets a leading `@` unless
  it has one. Repeats are dropped in first-seen order, as with a JavaScript `Set`. The mentions
  are joined with single spaces, and `filter(Boolean)` drops an empty side before the text is
  appended. `/tagall` falls back to `No members to tag.`
- `clock.dfy` (`Clock`): the sweep's `HH:mm` tick and the `time.split(':').map(Number)` parse of
  a `\d{2}:\d{2}` time argument, proved inverse to each other.
- `tables.dfy` (`Tables`): the row datatypes and the SQL statements the handlers run, each as a
  function over a table held as a sequence in row-id order. These are the lookups, the guarded
  inserts, `UPDATE` and the two `DELETE`s (each also as a method with a loop), and the sweep's
  `SELECT ... WHERE time = ?` plus `forEach`. The module also holds the table invariants and the
  scheduler-job finding.
- `bot.dfy` (`Bot`): the class `Store`. Its fields are the three tables, their AUTOINCREMENT
  counters and the append-only list of registered jobs. Its methods are `saveGroupAndUser`, the
  handlers of `/start`, `/remind`, `/editremind`, `/cancelremind`, `/adduser` and `/removeuser`,
  and the per-minute sweep. `/tagall` changes nothing and is a function of the Store's state.
  Every gated handler checks the member status with `Bot.IsPrivileged` (administrator or creator).

Telegram is abstracted away. The invoker's member status, the sender's username (absent when the
account has none), and the chat's title and handle are inputs. The reply a handler sends and the
deliveries of a sweep are outputs.

`Store.Valid()` is the invariant every handler keeps:
- group `chat_id`s are unique (`UNIQUE(chat_id)`);
- user `(chat_id, username)` pairs are unique (`UNIQUE(chat_id, username)`);
- every id is below its table's counter;
- every reminder names an existing group and holds a `\d{2}:\d{2}` time and a non-empty text.

Groups are never deleted, so the sweep's group lookup always succeeds (`Bot.Store.Sweep`,
`Bot.SweepDeliversEachDueReminder`).

Quirks of the code that the model keeps and proves:
- `saveGroupAndUser` stores `'@' + username`, but `/remind`, `/editremind` and `/cancelremind`
  look the sender up by the bare username. A member registered only through `/start` is therefore
  never found (`Bot.StartRegistrationInvisibleToRemind`, `Bot.StartThenRemind`).
- `/removeuser @bob` deletes the bare `bob` and leaves a row `@bob`
  (`Bot.RemoveUserSparesStartRegistration`).
- `/remind` appends a row without checking for an existing one. `/editremind` rewrites every
  matching row. `/cancelremind` deletes every matching row and leaves the registered jobs alone.
- `/editremind` registers a job and replies even when no row matched.
- `/remind` refuses a non-admin with the text "You do not have permission to cancel reminders.".
- `/tagall` has no permission check.
- A sender without a username is stored as `@undefined` (`Bot.StoredHandle`).
- A time such as `25:00` passes the command pattern but never equals a tick
  (`Clock.OutOfRangeNeverTicks`).

The model departs from `main.js` in the places listed under Left out. The main one is the job
that `/remind` and `/editremind` register: in the model it targets the chat of the group the command
ran in (`Tables.JobFor`), while as written it targets no chat (`Tables.JobAsWritten`); see Findings.

## Model

| member | source | states |
|---|---|---|
| `Mentions.Mention` | main.js:41 | the mention starts with `@`; it equals the username exactly when the username already starts with `@`, otherwise it is `@` followed by the username |
| `Mentions.BareAndPrefixedMentionAlike` | main.js:41 | `alice` and `@alice` give the same mention `@alice` |
| `Mentions.MentionIdempotent` | main.js:41 | mentioning a mention changes nothing |
| `Mentions.Distinct` | main.js:41 | spreading a `Set` gives no repeats, exactly the input's elements, and is no longer than the input |
| `Mentions.DistinctKeepsFirstOccurrenceOrder` | main.js:41 | the kept elements appear in the order of their first occurrence in the input |
| `Mentions.RepeatShortensDistinct` | main.js:41 | an input with a repeated element yields strictly fewer elements |
| `Mentions.MentionAll` | main.js:41 | `rows.map(...)` gives, position by position, the mention of each username |
| `Mentions.MentionsOf` | main.js:41 | the mentions have no repeats and all start with `@`; every username's mention is present and every mention comes from some username; the list is empty exactly when there are no usernames |
| `Mentions.BareAndPrefixedCollapse` | main.js:41 | usernames `alice` and `@alice` together yield the single mention `@alice`, so there are fewer mentions than usernames |
| `Mentions.Join` | main.js:41-42 | `join(' ')` is empty exactly for `[]` or `[""]`, begins with the first part, and holds a space when there are two or more parts |
| `Mentions.SplitJoin` | main.js:41 | splitting a join at single spaces gives back the parts when no part contains a space |
| `Mentions.MentionList` | main.js:41 | the mention text is empty exactly when there are no usernames, and otherwise starts with `@` |
| `Mentions.MentionListTokens` | main.js:41 | when no username contains a space, the space-separated tokens of the mention text are exactly the deduplicated mentions |
| `Mentions.NonEmpty` | main.js:42 | `filter(Boolean)` keeps exactly the non-empty strings, each as often as the input holds it, and keeps everything when none is empty |
| `Mentions.NonEmptyAppend` | main.js:42 | filtering two runs of strings filters each and keeps them in order, so the input's order is kept |
| `Mentions.ComposeMessage` | main.js:42 | the message is `mentions + " " + text` when both are non-empty, exactly the text when there are no mentions, and exactly the mentions when the text is empty |
| `Mentions.TagAllText` | main.js:191-193 | the `/tagall` reply is `No members to tag.` exactly when there are no usernames, and otherwise the mention text |
| `Clock.Pad2` | main.js:50 | two digit characters whose decimal value is the number |
| `Clock.ParseTime` | main.js:90 | `Number` of the two halves of a `\d{2}:\d{2}` argument gives two numbers below 100 |
| `Clock.FormatTick` | main.js:50 | the `HH:mm` tick of an in-range time matches `\d{2}:\d{2}` and parses back to that hour and minute |
| `Clock.FormatParse` | main.js:50 | formatting the parsed hour and minute of an in-range argument gives the argument back |
| `Clock.TickMatchesIff` | main.js:50-52 | a tick equals a time argument if and only if the argument parses to the tick's hour and minute |
| `Clock.FormatTickInjective` | main.js:50 | distinct minutes of the day give distinct ticks |
| `Clock.OutOfRangeNeverTicks` | main.js:81 | an argument such as `25:00`, accepted by `\d{2}:\d{2}`, equals no tick |
| `Tables.FindGroup` | main.js:19 | the row found holds the key in the filtered column, and none is found exactly when no row does |
| `Tables.GroupByChat` | main.js:99 | the group found has the chat id, and none is found exactly when no group has it |
| `Tables.GroupById` | main.js:59 | the group found has the id, and none is found exactly when no group has it |
| `Tables.FindUser` | main.js:93 | the user found has the chat id and username, and none is found exactly when no row has both |
| `Tables.UsernamesIn` | main.js:35 | the names are exactly the usernames of the chat's rows, and the list is empty exactly when the chat has no rows |
| `Tables.UsernamesInSingle` | main.js:35 | one row yields its username when it belongs to the chat, and nothing otherwise |
| `Tables.UsernamesInAppend` | main.js:35 | the names of two runs of rows are the names of each, in row order, so the query yields one name per matching row |
| `Tables.ReminderBody` | main.js:34-46 | `sendReminder` sends the bare text to a chat without users, and otherwise the mention text, a space and the text |
| `Tables.WithGroup` | main.js:19-23 | after the check-then-insert the chat has a group; an existing group leaves the table unchanged, otherwise one row with the next id is appended |
| `Tables.WithUser` | main.js:26-30 | after the check-then-insert the pair has a row; an existing pair leaves the table unchanged, otherwise one row with the next id is appended |
| `Tables.WithGroupIdempotent` | main.js:19-23 | registering a group a second time, under any name, changes nothing |
| `Tables.WithUserIdempotent` | main.js:26-30 | registering a member a second time changes nothing |
| `Tables.WithoutUser` | main.js:225 | the kept rows are exactly the rows other than `(chat_id, username)`, each as often as before, and afterwards no row matches |
| `Tables.WithoutReminders` | main.js:172 | the kept rows are exactly the rows not owned by `(user_id, group_id)` |
| `Tables.WithoutRemindersCounts` | main.js:172 | each row not owned by `(user_id, group_id)` is kept as often as the table holds it, and owned rows not at all |
| `Tables.WithoutRemindersSnoc` | main.js:172 | a row appended to the table is appended to the kept rows exactly when the delete does not match it |
| `Tables.WithoutRemindersAppend` | main.js:172 | deleting from two runs of rows keeps each run's survivors, in row order |
| `Tables.EditReminders` | main.js:144 | same length; every row owned by `(user_id, group_id)` gets the new time and text and keeps everything else; every other row is unchanged; with no owned row the table is unchanged |
| `Tables.UpdateReminders` | main.js:144 | the loop over the rows computes the `UPDATE` |
| `Tables.DeleteReminders` | main.js:172 | the loop over the rows computes the reminders `DELETE` |
| `Tables.DeleteUsers` | main.js:225 | the loop over the rows computes the users `DELETE` |
| `Tables.Due` | main.js:52 | the selected rows are exactly the reminders whose time equals the tick, each as often as the table holds it |
| `Tables.DueAppend` | main.js:52 | selecting from two runs of rows selects from each, in row order |
| `Tables.Dispatch` | main.js:58-67 | the `forEach` sends at most one message per selected row |
| `Tables.DispatchEach` | main.js:58-67 | when every selected row's group exists, there is exactly one delivery per row, and the k-th delivery is the k-th row's delivery |
| `Tables.DispatchIncludes` | main.js:58-65 | a selected row whose group exists has its delivery among the sweep's |
| `Tables.DeliveryForGroup` | main.js:59-65 | a row's delivery goes to its group's `chat_id` and carries that chat's broadcast of the row's text |
| `Tables.DueAtTick` | main.js:50-52 | for well-formed times, the tick selects exactly the reminders whose time parses to that hour and minute |
| `Tables.EditKeepsRemindersWellFormed` | main.js:144 | the `UPDATE` keeps every reminder tied to an existing group, with a `\d{2}:\d{2}` time and a non-empty text |
| `Tables.AppendKeepsKeysUnique` | main.js:26-29 | appending a row whose `(chat_id, username)` no row holds keeps the key unique |
| `Tables.InsertUserKeepsKeysUnique` | main.js:26-29 | inserting a pair the lookup missed keeps `(chat_id, username)` unique |
| `Tables.WithoutUserKeepsKeysUnique` | main.js:225 | deleting users keeps `(chat_id, username)` unique |
| `Tables.JobAsWritten` | main.js:112-114 | the job as written keeps the command's hour, minute and text, and has no target chat because the group row it reads has only an `id` |
| `Tables.JobFor` | main.js:112-114 | the corrected job keeps the command's hour, minute and text, and targets the chat of the group the command ran in |
| `Tables.JobDelivery` | main.js:112-114 | a job sends exactly when it has a target chat, and then sends that chat's broadcast of the job's text, as `sendReminder` does |
| `Tables.JobAsWrittenReachesNoChat` | main.js:99-113 | as written, a job reaches no chat, unlike the corrected job |
| `Tables.JobDuplicatesSweepDelivery` | main.js:112-114 | with the target corrected, the job for a reminder delivers exactly a message the sweep also delivers at that minute |
| `Bot.StoredHandle` | main.js:16 | the stored handle starts with `@` followed by the username, or is `@undefined` when there is none |
| `Bot.GroupName` | main.js:21 | the group name is the title, else the chat's handle, else `Unnamed Group`, and is never empty |
| `Bot.SenderRow` | main.js:93 | the sender's row matches the bare username in the chat; a sender without a username matches nothing |
| `Bot.BareName` | main.js:200 | stripping the `@` from `@\w+` gives a non-empty name without `@` or spaces, and `@` + name is the argument |
| `Bot.StartRegistrationInvisibleToRemind` | main.js:16 | registering `@name` through `/start` never changes the result of the bare-name lookup of `/remind` |
| `Bot.RemoveUserSparesStartRegistration` | main.js:221-225 | `/removeuser @name` keeps a row `@name` |
| `Bot.SweepDeliversEachDueReminder` | main.js:49-68 | under the table invariants, each reminder due at the tick gets exactly one delivery, in row order, and the due reminders are exactly those whose time parses to the tick |
| `Bot.OutOfRangeReminderNeverDue` | main.js:81 | a reminder with an out-of-range time is never selected |
| `Bot.StandupMessage` | main.js:41-42 | chat 100 with users `@alice` and `bob` receives "@alice @bob Standup" for a reminder "Standup" |
| `Bot.Store.constructor` | createDatabase.js:11-93 | the tables start empty and satisfy the invariant |
| `Bot.Store.SaveGroupAndUser` | main.js:14-31 | inserts the chat's group and the sender's `@`-handle when absent, keeps the invariant, touches neither reminders nor jobs |
| `Bot.Store.Start` | main.js:75-78 | `/start` registers as above and replies with the greeting |
| `Bot.Store.Remind` | main.js:81-120 | a non-admin gets the refusal and nothing changes. A sender not found by bare username, or a missing group, gets its reply and nothing changes. Otherwise exactly one row with the given time and text is appended under the next id, one job for that minute, group and text is registered (the corrected job `Tables.JobFor`), and the invariant is kept |
| `Bot.Store.EditRemind` | main.js:123-155 | a non-admin gets the refusal; a failed lookup is silent. Neither changes anything. Otherwise every owned row gets the new time and text and a job (the corrected `Tables.JobFor`) with `Edited reminder: ` + text is registered, even when no row matched |
| `Bot.Store.CancelRemind` | main.js:158-179 | a non-admin gets the refusal; a failed lookup is silent; otherwise exactly the owned rows are deleted. Jobs are never removed |
| `Bot.Store.TagAll` | main.js:182-195 | the reply is `No members to tag.` exactly when the chat has no users, and otherwise the chat's mention text |
| `Bot.Store.AddUser` | main.js:198-216 | a non-admin changes nothing; otherwise the bare name is inserted unless present, with the matching reply |
| `Bot.Store.RemoveUser` | main.js:219-231 | a non-admin changes nothing; otherwise exactly the rows of `(chat_id, bare name)` are deleted and uniqueness is kept |
| `Bot.Store.Sweep` | main.js:49-68 | the deliveries are those of the reminders whose time is the zero-padded tick, in row order, and there is one per due reminder under the invariant |

## Left out

- Telegram: `sendMessage`, `getChatMember` and polling. The member status, the sender's username and the chat's title and handle are inputs. Replies and deliveries are outputs. A send that fails is not modelled.
- Command parsing by the `onText` patterns. Its guarantees become preconditions: the time matches `\d{2}:\d{2}`, the text is non-empty, and the `/adduser` and `/removeuser` argument matches `@\w+`.
- SQLite: asynchronous callback order, the `if (err)` storage-error paths, and the check-then-insert races between interleaved callbacks. Each handler runs as one sequential step.
- Row order: queries return rows in insertion order. SQLite may return the users of a chat in the order of its `(chat_id, username)` index instead. Only the order of the mentions would differ; the properties above do not depend on it.
- `users.id` is not enforced as a foreign key: `/removeuser` can leave reminders whose user row is gone, as SQLite does without `PRAGMA foreign_keys`. The model does not claim otherwise.
- Time zone: `moment-timezone` and the Asia/Ho_Chi_Minh zone. The sweep takes the local hour and minute as given.
- `node-cron` and `node-schedule` firing semantics. The Store only records a job as registered (`Store.jobs`) and never fires one; whether a job fires once or daily is not modelled. `Tables.JobDelivery` gives what a registered job would send when it fires, and only the job lemmas use it.
- Bot.Store.Remind: registers the corrected job `Tables.JobFor`, which targets the group's chat. As written (main.js:99, 113) the job reads `chat_id` from a row that holds only `id`, so it targets no chat. `Tables.JobAsWritten` models that job, and the Findings table records the difference.
- Bot.Store.EditRemind: the same substitution of `Tables.JobFor` for the job of main.js:140, 148.
- Bot.Store.Remind: the job records the parsed hour and minute even for an out-of-range time such as `25:00`. There `moment.tz` would give an invalid moment and `hours()` would be `NaN`.
- Bot.Store.EditRemind: same simplification for the job's hour and minute.
- Bot.Store.Sweep: a selected row whose group is missing is skipped, where the source would throw on `groupRow.chat_id`. Under `Store.Valid()` that case cannot arise (`Tables.DispatchEach`, `Bot.SweepDeliversEachDueReminder`).
- Bot.GroupName: an absent title or handle is modelled as the empty string. JavaScript's `||` treats both alike.
- createDatabase.js beyond its table shapes and unique constraints: the file-existence check and the logging.

## Findings

| source | as written | input that shows it | evidently intended | confidence | as-written member | corrected member |
|---|---|---|---|---|---|---|
| main.js:99-113 | The scheduler job calls `sendReminder(groupRow.chat_id, text)`, but `groupRow` comes from `SELECT id FROM groups`, so `chat_id` is undefined and the job reaches no chat. `/editremind` does the same at main.js:140-148. | an admin registered in chat 100 sends `/remind 09:00 Standup` | the job sends to chat 100, the group the reminder was set in | high (not executed) | `Tables.JobAsWrittenReachesNoChat` | `Tables.JobDuplicatesSweepDelivery` |
