/**
 * The three tables of the bot's database and the queries the handlers run on them:
 * groups (id, chat_id, name), users (id, chat_id, username) and
 * reminders (id, user_id, group_id, time, text), as created by createDatabase.js:11-93.
 * A table is a sequence of rows in row-id order.
 */
module Tables {
  import opened Optional
  import opened Mentions
  import opened Clock

  datatype Group = Group(id: nat, chatId: int, name: string)
  datatype User = User(id: nat, chatId: int, username: string)
  datatype Reminder = Reminder(id: nat, userId: nat, groupId: nat, time: string, text: string)

  /** A job handed to the scheduler: when it fires, which chat it sends to, and the text. */
  datatype Job = Job(at: HourMinute, chatId: Option<int>, text: string)

  /** One message sent to a chat. */
  datatype Delivery = Delivery(chatId: int, body: string)

  // ---------------------------------------------------------------- lookups

  /** The column a group lookup filters on: `chat_id` or `id`. */
  datatype GroupKey = ByChat(chatId: int) | ById(id: nat)

  predicate HasKey(g: Group, key: GroupKey)
  {
    match key
    case ByChat(c) => g.chatId == c
    case ById(i) => g.id == i
  }

  /** The first group row whose key column holds the value, if any. */
  function FindGroup(gs: seq<Group>, key: GroupKey): (r: Option<Group>)
    ensures r.Some? ==> r.value in gs && HasKey(r.value, key)
    ensures r.None? <==> forall g :: g in gs ==> !HasKey(g, key)
  {
    if gs == [] then None
    else if HasKey(gs[0], key) then Some(gs[0])
    else
      assert gs == [gs[0]] + gs[1..];
      FindGroup(gs[1..], key)
  }

  /** `SELECT id FROM groups WHERE chat_id = ?` (main.js:19, 99, 140, 169). */
  function GroupByChat(gs: seq<Group>, chatId: int): (r: Option<Group>)
    ensures r.Some? ==> r.value in gs && r.value.chatId == chatId
    ensures r.None? <==> forall g :: g in gs ==> g.chatId != chatId
  {
    FindGroup(gs, ByChat(chatId))
  }

  /** `SELECT chat_id FROM groups WHERE id = ?` (main.js:59). */
  function GroupById(gs: seq<Group>, id: nat): (r: Option<Group>)
    ensures r.Some? ==> r.value in gs && r.value.id == id
    ensures r.None? <==> forall g :: g in gs ==> g.id != id
  {
    FindGroup(gs, ById(id))
  }

  predicate IsMember(u: User, chatId: int, username: string)
  {
    u.chatId == chatId && u.username == username
  }

  /** `SELECT id FROM users WHERE chat_id = ? AND username = ?` (main.js:26, 93, 137, 166, 204). */
  function FindUser(us: seq<User>, chatId: int, username: string): (r: Option<User>)
    ensures r.Some? ==> r.value in us && IsMember(r.value, chatId, username)
    ensures r.None? <==> forall u :: u in us ==> !IsMember(u, chatId, username)
  {
    if us == [] then None
    else if IsMember(us[0], chatId, username) then Some(us[0])
    else
      assert us == [us[0]] + us[1..];
      FindUser(us[1..], chatId, username)
  }

  /** `SELECT username FROM users WHERE chat_id = ?` (main.js:35, 185). */
  function UsernamesIn(us: seq<User>, chatId: int): (names: seq<string>)
    ensures forall u :: u in us && u.chatId == chatId ==> u.username in names
    ensures forall n :: n in names ==> exists u :: u in us && IsMember(u, chatId, n)
    ensures names == [] <==> forall u :: u in us ==> u.chatId != chatId
  {
    if us == [] then []
    else
      assert us == [us[0]] + us[1..];
      var rest := UsernamesIn(us[1..], chatId);
      var names := (if us[0].chatId == chatId then [us[0].username] else []) + rest;
      assert forall n :: n in names ==> exists u :: u in us && IsMember(u, chatId, n) by {
        forall n | n in names
          ensures exists u :: u in us && IsMember(u, chatId, n)
        {
          if n in rest {
            var u :| u in us[1..] && IsMember(u, chatId, n);
            assert u in us;
          } else {
            assert us[0] in us && IsMember(us[0], chatId, n);
          }
        }
      }
      names
  }

  /** The names of one row: its username when it belongs to the chat, none otherwise. */
  lemma UsernamesInSingle(u: User, chatId: int)
    ensures UsernamesIn([u], chatId) == if u.chatId == chatId then [u.username] else []
  {
    assert [u][1..] == [];
  }

  /** The names of two runs of rows are the names of each, in that order: one name per matching row. */
  lemma {:induction false} UsernamesInAppend(a: seq<User>, b: seq<User>, chatId: int)
    ensures UsernamesIn(a + b, chatId) == UsernamesIn(a, chatId) + UsernamesIn(b, chatId)
  {
    if a == [] {
      assert a + b == b;
    } else {
      assert (a + b)[0] == a[0];
      assert (a + b)[1..] == a[1..] + b;
      UsernamesInAppend(a[1..], b, chatId);
    }
  }

  /** The message `sendReminder(chatId, text)` sends: the chat's mentions, then the text (main.js:34-46). */
  function ReminderBody(us: seq<User>, chatId: int, text: string): (body: string)
    ensures (forall u :: u in us ==> u.chatId != chatId) ==> body == text
    ensures text == "" ==> body == MentionList(UsernamesIn(us, chatId))
    ensures text != "" && (exists u :: u in us && u.chatId == chatId) ==>
      body == MentionList(UsernamesIn(us, chatId)) + " " + text
  {
    ComposeMessage(MentionList(UsernamesIn(us, chatId)), text)
  }

  // ------------------------------------------------ inserts guarded by a lookup

  /** The groups table after `saveGroupAndUser`'s check-then-insert (main.js:19-23). */
  function WithGroup(gs: seq<Group>, nextId: nat, chatId: int, name: string): (r: seq<Group>)
    ensures GroupByChat(r, chatId).Some?
    ensures GroupByChat(gs, chatId).Some? ==> r == gs
    ensures GroupByChat(gs, chatId).None? ==> r == gs + [Group(nextId, chatId, name)]
  {
    if GroupByChat(gs, chatId).Some? then gs
    else
      var r := gs + [Group(nextId, chatId, name)];
      assert r[|gs|] in r;
      r
  }

  /** The users table after a check-then-insert of (chatId, username) (main.js:26-30, 204-206). */
  function WithUser(us: seq<User>, nextId: nat, chatId: int, username: string): (r: seq<User>)
    ensures FindUser(r, chatId, username).Some?
    ensures FindUser(us, chatId, username).Some? ==> r == us
    ensures FindUser(us, chatId, username).None? ==> r == us + [User(nextId, chatId, username)]
  {
    if FindUser(us, chatId, username).Some? then us
    else
      var r := us + [User(nextId, chatId, username)];
      assert r[|us|] in r;
      r
  }

  /** Registering a group a second time changes nothing, whatever name the second call carries. */
  lemma WithGroupIdempotent(gs: seq<Group>, n1: nat, n2: nat, chatId: int, name1: string, name2: string)
    ensures WithGroup(WithGroup(gs, n1, chatId, name1), n2, chatId, name2) == WithGroup(gs, n1, chatId, name1)
  {
  }

  /** Registering a member a second time changes nothing. */
  lemma WithUserIdempotent(us: seq<User>, n1: nat, n2: nat, chatId: int, username: string)
    ensures WithUser(WithUser(us, n1, chatId, username), n2, chatId, username) == WithUser(us, n1, chatId, username)
  {
  }

  // ---------------------------------------------------------------- deletes

  /** `DELETE FROM users WHERE chat_id = ? AND username = ?` (main.js:225). */
  function WithoutUser(us: seq<User>, chatId: int, username: string): (r: seq<User>)
    ensures forall u :: u in r <==> u in us && !IsMember(u, chatId, username)
    ensures forall u :: multiset(r)[u] == if IsMember(u, chatId, username) then 0 else multiset(us)[u]
    ensures FindUser(r, chatId, username).None?
    ensures |r| <= |us|
  {
    if us == [] then []
    else
      var init := us[..|us| - 1];
      var last := us[|us| - 1];
      assert us == init + [last];
      var kept := WithoutUser(init, chatId, username);
      if IsMember(last, chatId, username) then kept else kept + [last]
  }

  predicate Owns(r: Reminder, userId: nat, groupId: nat)
  {
    r.userId == userId && r.groupId == groupId
  }

  /** `DELETE FROM reminders WHERE user_id = ? AND group_id = ?` (main.js:172). */
  function WithoutReminders(rs: seq<Reminder>, userId: nat, groupId: nat): (r: seq<Reminder>)
    ensures forall x :: x in r <==> x in rs && !Owns(x, userId, groupId)
    ensures |r| <= |rs|
  {
    if rs == [] then []
    else
      var init := rs[..|rs| - 1];
      var last := rs[|rs| - 1];
      assert rs == init + [last];
      var kept := WithoutReminders(init, userId, groupId);
      if Owns(last, userId, groupId) then kept else kept + [last]
  }

  /** The delete keeps every row it does not match as often as the table holds it, and no other row. */
  lemma {:induction false} WithoutRemindersCounts(rs: seq<Reminder>, userId: nat, groupId: nat)
    ensures forall x ::
      multiset(WithoutReminders(rs, userId, groupId))[x] == (if Owns(x, userId, groupId) then 0 else multiset(rs)[x])
  {
    if rs != [] {
      var init, last := rs[..|rs| - 1], rs[|rs| - 1];
      assert rs == init + [last];
      WithoutRemindersCounts(init, userId, groupId);
    }
  }

  /** Appending one row appends it to the kept rows unless the delete matches it. */
  lemma WithoutRemindersSnoc(xs: seq<Reminder>, x: Reminder, userId: nat, groupId: nat)
    ensures WithoutReminders(xs + [x], userId, groupId)
      == WithoutReminders(xs, userId, groupId) + (if Owns(x, userId, groupId) then [] else [x])
  {
    assert (xs + [x])[..|xs|] == xs;
  }

  /** The rows kept from two runs of rows are the rows kept from each, in that order. */
  lemma {:induction false} WithoutRemindersAppend(a: seq<Reminder>, b: seq<Reminder>, userId: nat, groupId: nat)
    ensures WithoutReminders(a + b, userId, groupId) == WithoutReminders(a, userId, groupId) + WithoutReminders(b, userId, groupId)
  {
    if b == [] {
      assert a + b == a;
    } else {
      var init, last := b[..|b| - 1], b[|b| - 1];
      var tail := if Owns(last, userId, groupId) then [] else [last];
      calc {
        WithoutReminders(a + b, userId, groupId);
        { assert a + b == (a + init) + [last]; }
        WithoutReminders((a + init) + [last], userId, groupId);
        { WithoutRemindersSnoc(a + init, last, userId, groupId); }
        WithoutReminders(a + init, userId, groupId) + tail;
        { WithoutRemindersAppend(a, init, userId, groupId); }
        WithoutReminders(a, userId, groupId) + WithoutReminders(init, userId, groupId) + tail;
        { WithoutRemindersSnoc(init, last, userId, groupId); assert b == init + [last]; }
        WithoutReminders(a, userId, groupId) + WithoutReminders(b, userId, groupId);
      }
    }
  }

  // ---------------------------------------------------------------- updates

  /** One row under `SET time = ?, text = ? WHERE user_id = ? AND group_id = ?`. */
  function Retimed(r: Reminder, userId: nat, groupId: nat, time: string, text: string): Reminder
  {
    if Owns(r, userId, groupId) then r.(time := time, text := text) else r
  }

  /** `UPDATE reminders SET time = ?, text = ? WHERE user_id = ? AND group_id = ?` (main.js:144). */
  function EditReminders(rs: seq<Reminder>, userId: nat, groupId: nat, time: string, text: string): (r: seq<Reminder>)
    ensures |r| == |rs|
    ensures forall i :: 0 <= i < |rs| && Owns(rs[i], userId, groupId) ==>
      r[i] == rs[i].(time := time, text := text)
    ensures forall i :: 0 <= i < |rs| && !Owns(rs[i], userId, groupId) ==> r[i] == rs[i]
    ensures (forall x :: x in rs ==> !Owns(x, userId, groupId)) ==> r == rs
  {
    if rs == [] then []
    else
      var init := rs[..|rs| - 1];
      EditReminders(init, userId, groupId, time, text) + [Retimed(rs[|rs| - 1], userId, groupId, time, text)]
  }

  /** The pass of `UPDATE reminders SET time = ?, text = ? WHERE user_id = ? AND group_id = ?` over the rows. */
  method UpdateReminders(rs: seq<Reminder>, userId: nat, groupId: nat, time: string, text: string)
    returns (updated: seq<Reminder>)
    ensures updated == EditReminders(rs, userId, groupId, time, text)
  {
    updated := rs;
    var i := 0;
    while i < |updated|
      invariant 0 <= i <= |updated| == |rs|
      invariant forall k :: 0 <= k < i ==> updated[k] == Retimed(rs[k], userId, groupId, time, text)
      invariant forall k :: i <= k < |updated| ==> updated[k] == rs[k]
    {
      if Owns(updated[i], userId, groupId) {
        updated := updated[i := updated[i].(time := time, text := text)];
      }
      i := i + 1;
    }
    ghost var edited := EditReminders(rs, userId, groupId, time, text);
    assert forall k :: 0 <= k < |rs| ==> updated[k] == edited[k];
  }

  /** The pass of `DELETE FROM reminders WHERE user_id = ? AND group_id = ?` over the rows. */
  method DeleteReminders(rs: seq<Reminder>, userId: nat, groupId: nat) returns (kept: seq<Reminder>)
    ensures kept == WithoutReminders(rs, userId, groupId)
  {
    kept := [];
    var i := 0;
    while i < |rs|
      invariant 0 <= i <= |rs|
      invariant kept == WithoutReminders(rs[..i], userId, groupId)
    {
      assert rs[..i + 1][..i] == rs[..i];
      if !Owns(rs[i], userId, groupId) {
        kept := kept + [rs[i]];
      }
      i := i + 1;
    }
    assert rs[..i] == rs;
  }

  /** The pass of `DELETE FROM users WHERE chat_id = ? AND username = ?` over the rows. */
  method DeleteUsers(us: seq<User>, chatId: int, username: string) returns (kept: seq<User>)
    ensures kept == WithoutUser(us, chatId, username)
  {
    kept := [];
    var i := 0;
    while i < |us|
      invariant 0 <= i <= |us|
      invariant kept == WithoutUser(us[..i], chatId, username)
    {
      assert us[..i + 1][..i] == us[..i];
      if !IsMember(us[i], chatId, username) {
        kept := kept + [us[i]];
      }
      i := i + 1;
    }
    assert us[..i] == us;
  }

  // ------------------------------------------------------------ the sweep

  /** `SELECT * FROM reminders WHERE time = ?` (main.js:52). */
  function Due(rs: seq<Reminder>, tick: string): (r: seq<Reminder>)
    ensures forall x :: x in r <==> x in rs && x.time == tick
    ensures forall x :: multiset(r)[x] == if x.time == tick then multiset(rs)[x] else 0
    ensures |r| <= |rs|
  {
    if rs == [] then []
    else
      assert rs == [rs[0]] + rs[1..];
      (if rs[0].time == tick then [rs[0]] else []) + Due(rs[1..], tick)
  }

  /** The rows selected from two runs of rows are the rows selected from each, in that order. */
  lemma {:induction false} DueAppend(a: seq<Reminder>, b: seq<Reminder>, tick: string)
    ensures Due(a + b, tick) == Due(a, tick) + Due(b, tick)
  {
    if a == [] {
      assert a + b == b;
    } else {
      assert (a + b)[0] == a[0];
      assert (a + b)[1..] == a[1..] + b;
      DueAppend(a[1..], b, tick);
    }
  }

  /** What one selected row sends: its group's chat and that chat's broadcast (main.js:59-65). */
  function DeliveryFor(gs: seq<Group>, us: seq<User>, r: Reminder): Option<Delivery>
  {
    match GroupById(gs, r.groupId)
    case None => None
    case Some(g) => Some(Delivery(g.chatId, ReminderBody(us, g.chatId, r.text)))
  }

  /** The deliveries of `rows.forEach(...)` over the selected rows, in row order (main.js:58-67). */
  function Dispatch(gs: seq<Group>, us: seq<User>, due: seq<Reminder>): (sent: seq<Delivery>)
    ensures |sent| <= |due|
  {
    if due == [] then []
    else
      var d := DeliveryFor(gs, us, due[|due| - 1]);
      Dispatch(gs, us, due[..|due| - 1]) + (if d.Some? then [d.value] else [])
  }

  /** Every row whose group exists yields exactly one delivery, the k-th row the k-th delivery. */
  lemma {:induction false} DispatchEach(gs: seq<Group>, us: seq<User>, due: seq<Reminder>)
    requires forall r :: r in due ==> GroupById(gs, r.groupId).Some?
    ensures |Dispatch(gs, us, due)| == |due|
    ensures forall k :: 0 <= k < |due| ==> DeliveryFor(gs, us, due[k]) == Some(Dispatch(gs, us, due)[k])
  {
    if due != [] {
      var init := due[..|due| - 1];
      var last := due[|due| - 1];
      assert due == init + [last];
      DispatchEach(gs, us, init);
      assert DeliveryFor(gs, us, last).Some?;
      var sent := Dispatch(gs, us, due);
      assert sent == Dispatch(gs, us, init) + [DeliveryFor(gs, us, last).value];
      forall k | 0 <= k < |due|
        ensures DeliveryFor(gs, us, due[k]) == Some(sent[k])
      {
        if k < |init| {
          assert due[k] == init[k];
        }
      }
    }
  }

  /** The delivery of a row whose group exists goes to that group's chat, with that chat's broadcast. */
  lemma DeliveryForGroup(gs: seq<Group>, us: seq<User>, r: Reminder, g: Group)
    requires GroupById(gs, r.groupId) == Some(g)
    ensures DeliveryFor(gs, us, r) == Some(Delivery(g.chatId, ReminderBody(us, g.chatId, r.text)))
  {
  }

  /** A selected row whose group exists contributes its delivery to the sweep. */
  lemma {:induction false} DispatchIncludes(gs: seq<Group>, us: seq<User>, due: seq<Reminder>, r: Reminder)
    requires r in due && GroupById(gs, r.groupId).Some?
    ensures DeliveryFor(gs, us, r).value in Dispatch(gs, us, due)
  {
    var init := due[..|due| - 1];
    assert due == init + [due[|due| - 1]];
    if r != due[|due| - 1] {
      DispatchIncludes(gs, us, init, r);
    }
  }

  /** For reminders whose times are time arguments, the tick selects exactly those set for that hour and minute. */
  lemma DueAtTick(rs: seq<Reminder>, hour: nat, minute: nat)
    requires hour < 24 && minute < 60
    requires forall r :: r in rs ==> IsTimeArg(r.time)
    ensures forall r :: r in Due(rs, FormatTick(hour, minute)) <==>
      r in rs && ParseTime(r.time) == HourMinute(hour, minute)
  {
    forall r | r in rs
      ensures r.time == FormatTick(hour, minute) <==> ParseTime(r.time) == HourMinute(hour, minute)
    {
      TickMatchesIff(r.time, hour, minute);
    }
  }

  // ------------------------------------------------------------ table invariants

  /** `chat_id UNIQUE` on groups (createDatabase.js:18-20), ids below the next id. */
  ghost predicate GroupsWellFormed(gs: seq<Group>, nextId: nat)
  {
    (forall i, j :: 0 <= i < j < |gs| ==> gs[i].chatId != gs[j].chatId && gs[i].id != gs[j].id)
    && (forall g :: g in gs ==> g.id < nextId)
  }

  /** `UNIQUE(chat_id, username)` on users (createDatabase.js:43-47), ids below the next id. */
  ghost predicate UsersWellFormed(us: seq<User>, nextId: nat)
  {
    (forall i, j :: 0 <= i < j < |us| ==> !IsMember(us[j], us[i].chatId, us[i].username))
    && (forall u :: u in us ==> u.id < nextId)
  }

  /** Every reminder names an existing group and holds a time argument and a non-empty text. */
  ghost predicate RemindersWellFormed(rs: seq<Reminder>, nextId: nat, gs: seq<Group>)
  {
    forall r :: r in rs ==>
      r.id < nextId && GroupById(gs, r.groupId).Some? && IsTimeArg(r.time) && r.text != ""
  }

  /** An update keeps every reminder tied to its group and holding a time argument and a text. */
  lemma EditKeepsRemindersWellFormed(rs: seq<Reminder>, nextId: nat, gs: seq<Group>, userId: nat, groupId: nat, time: string, text: string)
    requires RemindersWellFormed(rs, nextId, gs)
    requires IsTimeArg(time) && text != ""
    ensures RemindersWellFormed(EditReminders(rs, userId, groupId, time, text), nextId, gs)
  {
    var r := EditReminders(rs, userId, groupId, time, text);
    forall x | x in r
      ensures x.id < nextId && GroupById(gs, x.groupId).Some? && IsTimeArg(x.time) && x.text != ""
    {
      var k :| 0 <= k < |r| && r[k] == x;
      assert rs[k] in rs;
    }
  }

  /** Inserting a pair the lookup missed keeps the (chat_id, username) key unique. */
  lemma InsertUserKeepsKeysUnique(us: seq<User>, nextId: nat, chatId: int, username: string)
    requires UsersWellFormed(us, nextId)
    requires FindUser(us, chatId, username).None?
    ensures UsersWellFormed(us + [User(nextId, chatId, username)], nextId + 1)
  {
    var r := us + [User(nextId, chatId, username)];
    forall i, j | 0 <= i < j < |r|
      ensures !IsMember(r[j], r[i].chatId, r[i].username)
    {
      assert r[i] == us[i] && us[i] in us;
    }
  }

  /** Appending a row whose key no row holds keeps the (chat_id, username) key unique. */
  lemma AppendKeepsKeysUnique(us: seq<User>, x: User, nextId: nat)
    requires UsersWellFormed(us, nextId) && x.id < nextId
    requires forall u :: u in us ==> !IsMember(x, u.chatId, u.username)
    ensures UsersWellFormed(us + [x], nextId)
  {
    var r := us + [x];
    forall i, j | 0 <= i < j < |r|
      ensures !IsMember(r[j], r[i].chatId, r[i].username)
    {
      assert r[i] == us[i] && us[i] in us;
    }
  }

  /** Deleting rows keeps the (chat_id, username) key unique. */
  lemma {:induction false} WithoutUserKeepsKeysUnique(us: seq<User>, nextId: nat, chatId: int, username: string)
    requires UsersWellFormed(us, nextId)
    ensures UsersWellFormed(WithoutUser(us, chatId, username), nextId)
  {
    if us != [] {
      var init := us[..|us| - 1];
      var last := us[|us| - 1];
      assert us == init + [last];
      assert UsersWellFormed(init, nextId);
      WithoutUserKeepsKeysUnique(init, nextId, chatId, username);
      var kept := WithoutUser(init, chatId, username);
      if !IsMember(last, chatId, username) {
        forall u | u in kept
          ensures !IsMember(last, u.chatId, u.username)
        {
          var i :| 0 <= i < |init| && init[i] == u;
          assert us[i] == u && us[|us| - 1] == last;
        }
        AppendKeepsKeysUnique(kept, last, nextId);
      }
    }
  }

  // ------------------------------------------------------------ scheduler jobs

  /** The row `SELECT id FROM groups WHERE chat_id = ?` returns: the `id` column and nothing else. */
  datatype IdRow = IdRow(id: nat)

  /**
   * The job `/remind` and `/editremind` register as written (main.js:112-114, 147-149):
   * the callback reads `groupRow.chat_id` from a row that carries only `id`, so the target is undefined.
   */
  function JobAsWritten(at: HourMinute, groupRow: IdRow, text: string): (job: Job)
    ensures job.at == at && job.text == text
    ensures job.chatId == None
  {
    Job(at, None, text)
  }

  /** The job as evidently intended: it sends to the chat of the group the command ran in. */
  function JobFor(at: HourMinute, g: Group, text: string): (job: Job)
    ensures job.at == at && job.text == text
    ensures job.chatId == Some(g.chatId)
  {
    Job(at, Some(g.chatId), text)
  }

  /** What a job sends when it fires: `sendReminder` to its chat; a job without a chat reaches none. */
  function JobDelivery(us: seq<User>, job: Job): (d: Option<Delivery>)
    ensures d.Some? <==> job.chatId.Some?
    ensures d.Some? ==> d.value.chatId == job.chatId.value
    ensures d.Some? ==> d.value.body == ReminderBody(us, job.chatId.value, job.text)
  {
    match job.chatId
    case None => None
    case Some(c) => Some(Delivery(c, ReminderBody(us, c, job.text)))
  }

  /** As written, no registered job reaches any chat: the group row it reads has no chat id. */
  lemma JobAsWrittenReachesNoChat(us: seq<User>, at: HourMinute, g: Group, text: string)
    ensures JobDelivery(us, JobAsWritten(at, IdRow(g.id), text)) == None
    ensures JobDelivery(us, JobFor(at, g, text)) != JobDelivery(us, JobAsWritten(at, IdRow(g.id), text))
  {
  }

  /**
   * With the target corrected, the delivery of the job for a reminder is one of the
   * sweep's deliveries at the minute the reminder names: the one for that reminder.
   */
  lemma JobDuplicatesSweepDelivery(gs: seq<Group>, us: seq<User>, rs: seq<Reminder>, r: Reminder, g: Group)
    requires r in rs && IsTimeArg(r.time)
    requires ParseTime(r.time).hour < 24 && ParseTime(r.time).minute < 60
    requires GroupById(gs, r.groupId) == Some(g)
    ensures var at := ParseTime(r.time);
      JobDelivery(us, JobFor(at, g, r.text)).Some? &&
      JobDelivery(us, JobFor(at, g, r.text)).value in Dispatch(gs, us, Due(rs, FormatTick(at.hour, at.minute)))
  {
    var at := ParseTime(r.time);
    FormatParse(r.time);
    DispatchIncludes(gs, us, Due(rs, FormatTick(at.hour, at.minute)), r);
  }
}
