/**
 * The bot's command handlers and its per-minute sweep, acting on one database (main.js).
 * What Telegram supplies becomes an input (the invoker's member status, the sender's
 * username, the chat's title and handle) and what the bot sends becomes an output
 * (the reply to the command, the sweep's deliveries).
 */
module Bot {
  import opened Optional
  import opened Mentions
  import opened Clock
  import opened Tables

  const Greeting := "Hello! Use /remind HH:MM \"Content\" to set a daily reminder."
  /** The refusal `/remind`, `/editremind` and `/cancelremind` all send (main.js:87, 133, 162). */
  const NoPermissionForReminders := "You do not have permission to cancel reminders."
  const NoPermissionToAdd := "You do not have permission to add members."
  const NoPermissionToRemove := "You do not have permission to remove members."
  const NotRegistered := "You are not registered. Please try again!"
  const GroupNotRegistered := "Group is not registered. Please try again!"
  const ReminderCanceled := "Your reminder has been canceled."
  const EditedPrefix := "Edited reminder: "

  function ReminderSet(time: string, text: string): string
  {
    "New reminder set at " + time + " with content: \"" + text + "\"."
  }

  function ReminderEdited(time: string, text: string): string
  {
    "Reminder edited to " + time + " with content: \"" + text + "\"."
  }

  function MemberAdded(name: string): string
  {
    "Member " + name + " added to the list."
  }

  function MemberExists(name: string): string
  {
    "Member " + name + " already exists in the list."
  }

  function MemberRemoved(name: string): string
  {
    "Member " + name + " removed from the list."
  }

  /** The member-status gate: only an administrator or the creator of the chat may act. */
  predicate IsPrivileged(status: string)
  {
    status == "administrator" || status == "creator"
  }

  /** `'@' + msg.from.username` (main.js:16): a sender without a username is stored as "@undefined". */
  function StoredHandle(from: Option<string>): (h: string)
    ensures StartsWithAt(h)
    ensures from.Some? ==> h[1..] == from.value
    ensures from.None? ==> h == "@undefined"
  {
    "@" + (if from.Some? then from.value else "undefined")
  }

  /** `msg.chat.title || msg.chat.username || 'Unnamed Group'` (main.js:21); "" stands for a missing field. */
  function GroupName(title: string, chatHandle: string): (name: string)
    ensures name != ""
    ensures title != "" ==> name == title
    ensures title == "" && chatHandle != "" ==> name == chatHandle
    ensures title == "" && chatHandle == "" ==> name == "Unnamed Group"
  {
    if title != "" then title else if chatHandle != "" then chatHandle else "Unnamed Group"
  }

  /**
   * The sender's row as the reminder commands look it up (main.js:93, 137, 166): by the bare
   * `msg.from.username`; a missing username is bound as NULL and matches no row.
   */
  function SenderRow(us: seq<User>, chatId: int, from: Option<string>): (r: Option<User>)
    ensures r.Some? ==> r.value in us && from.Some? && IsMember(r.value, chatId, from.value)
    ensures r.None? <==> from.None? || forall u :: u in us ==> !IsMember(u, chatId, from.value)
  {
    if from.None? then None else FindUser(us, chatId, from.value)
  }

  predicate IsWordChar(c: char)
  {
    'a' <= c <= 'z' || 'A' <= c <= 'Z' || '0' <= c <= '9' || c == '_'
  }

  /** The argument `(@\w+)` of `/adduser` and `/removeuser` (main.js:198, 219). */
  predicate IsHandleArg(s: string)
  {
    |s| >= 2 && s[0] == '@' && forall i :: 1 <= i < |s| ==> IsWordChar(s[i])
  }

  /** `match[1].replace('@', '')`: the handle without its leading '@' (main.js:200, 221). */
  function BareName(handle: string): (name: string)
    requires IsHandleArg(handle)
    ensures "@" + name == handle
    ensures name != "" && !StartsWithAt(name) && ' ' !in name
  {
    handle[1..]
  }

  /** A row appended after the others does not change which row a lookup finds, unless it matches. */
  lemma {:induction false} FindUserSkipsAppended(us: seq<User>, x: User, chatId: int, username: string)
    requires !IsMember(x, chatId, username)
    ensures FindUser(us + [x], chatId, username) == FindUser(us, chatId, username)
  {
    if us != [] {
      assert (us + [x])[0] == us[0];
      assert (us + [x])[1..] == us[1..] + [x];
      FindUserSkipsAppended(us[1..], x, chatId, username);
    }
  }

  /**
   * `/start` stores the sender as '@' + name, but the reminder commands look the sender up
   * by the bare name, so registering through `/start` never makes that lookup succeed.
   */
  lemma {:induction false} StartRegistrationInvisibleToRemind(us: seq<User>, nextId: nat, chatId: int, name: string)
    ensures SenderRow(WithUser(us, nextId, chatId, StoredHandle(Some(name))), chatId, Some(name))
         == SenderRow(us, chatId, Some(name))
  {
    var handle := StoredHandle(Some(name));
    assert |handle| == |name| + 1;
    if FindUser(us, chatId, handle).None? {
      FindUserSkipsAppended(us, User(nextId, chatId, handle), chatId, name);
    }
  }

  /** `/removeuser @bob` deletes the bare `bob` and leaves a row `@bob` stored by `/start`. */
  lemma RemoveUserSparesStartRegistration(us: seq<User>, chatId: int, name: string, u: User)
    requires u in us && IsMember(u, chatId, "@" + name)
    ensures u in WithoutUser(us, chatId, name)
  {
    assert |"@" + name| == |name| + 1;
  }

  /** Under the table invariants every reminder the sweep selects is delivered once, in row order. */
  lemma SweepDeliversEachDueReminder(gs: seq<Group>, us: seq<User>, rs: seq<Reminder>, nextId: nat, hour: nat, minute: nat)
    requires RemindersWellFormed(rs, nextId, gs)
    requires hour < 24 && minute < 60
    ensures var due := Due(rs, FormatTick(hour, minute));
      |Dispatch(gs, us, due)| == |due| &&
      forall k :: 0 <= k < |due| ==> DeliveryFor(gs, us, due[k]) == Some(Dispatch(gs, us, due)[k])
    ensures forall r :: r in Due(rs, FormatTick(hour, minute)) <==>
      r in rs && ParseTime(r.time) == HourMinute(hour, minute)
  {
    DispatchEach(gs, us, Due(rs, FormatTick(hour, minute)));
    DueAtTick(rs, hour, minute);
  }

  /** A reminder whose time is out of range, such as `25:00`, is never selected by any tick. */
  lemma OutOfRangeReminderNeverDue(rs: seq<Reminder>, r: Reminder, hour: nat, minute: nat)
    requires IsTimeArg(r.time) && (ParseTime(r.time).hour >= 24 || ParseTime(r.time).minute >= 60)
    requires hour < 24 && minute < 60
    ensures r !in Due(rs, FormatTick(hour, minute))
  {
    OutOfRangeNeverTicks(r.time);
  }

  /** The bot's database and the scheduler's job list. */
  class Store {
    var groups: seq<Group>
    var users: seq<User>
    var reminders: seq<Reminder>
    /** Every scheduler job ever registered; nothing removes a job. */
    var jobs: seq<Job>
    var nextGroupId: nat
    var nextUserId: nat
    var nextReminderId: nat

    ghost predicate Valid()
      reads this
    {
      GroupsWellFormed(groups, nextGroupId)
      && UsersWellFormed(users, nextUserId)
      && RemindersWellFormed(reminders, nextReminderId, groups)
    }

    /** Freshly created tables (createDatabase.js:11-93): empty, AUTOINCREMENT ids starting at 1. */
    constructor ()
      ensures Valid()
      ensures groups == [] && users == [] && reminders == [] && jobs == []
      ensures nextGroupId == 1 && nextUserId == 1 && nextReminderId == 1
    {
      groups, users, reminders, jobs := [], [], [], [];
      nextGroupId, nextUserId, nextReminderId := 1, 1, 1;
    }

    /** `saveGroupAndUser(msg)` (main.js:14-31): insert the chat's group and the sender's '@'-handle when absent. */
    method SaveGroupAndUser(chatId: int, title: string, chatHandle: string, from: Option<string>)
      requires Valid()
      modifies this
      ensures Valid()
      ensures groups == WithGroup(old(groups), old(nextGroupId), chatId, GroupName(title, chatHandle))
      ensures users == WithUser(old(users), old(nextUserId), chatId, StoredHandle(from))
      ensures nextGroupId == old(nextGroupId) + |groups| - |old(groups)|
      ensures nextUserId == old(nextUserId) + |users| - |old(users)|
      ensures reminders == old(reminders) && jobs == old(jobs) && nextReminderId == old(nextReminderId)
    {
      if GroupByChat(groups, chatId).None? {
        var g := Group(nextGroupId, chatId, GroupName(title, chatHandle));
        forall r | r in reminders
          ensures GroupById(groups + [g], r.groupId).Some?
        {
          assert GroupById(groups, r.groupId).value in groups + [g];
        }
        groups := groups + [g];
        nextGroupId := nextGroupId + 1;
      }
      var handle := StoredHandle(from);
      if FindUser(users, chatId, handle).None? {
        InsertUserKeepsKeysUnique(users, nextUserId, chatId, handle);
        users := users + [User(nextUserId, chatId, handle)];
        nextUserId := nextUserId + 1;
      }
    }

    /** `/start` (main.js:75-78): register the chat and the sender, then greet. */
    method Start(chatId: int, title: string, chatHandle: string, from: Option<string>) returns (reply: string)
      requires Valid()
      modifies this
      ensures Valid()
      ensures reply == Greeting
      ensures groups == WithGroup(old(groups), old(nextGroupId), chatId, GroupName(title, chatHandle))
      ensures users == WithUser(old(users), old(nextUserId), chatId, StoredHandle(from))
      ensures nextGroupId == old(nextGroupId) + |groups| - |old(groups)|
      ensures nextUserId == old(nextUserId) + |users| - |old(users)|
      ensures reminders == old(reminders) && jobs == old(jobs) && nextReminderId == old(nextReminderId)
    {
      SaveGroupAndUser(chatId, title, chatHandle, from);
      reply := Greeting;
    }

    /**
     * `/remind HH:MM text` (main.js:81-120): after the status gate and the two lookups,
     * append one reminder row, with no check for an existing one, and register one job.
     */
    method Remind(chatId: int, status: string, from: Option<string>, time: string, text: string) returns (reply: string)
      requires Valid()
      requires IsTimeArg(time) && text != ""
      modifies this
      ensures Valid()
      ensures groups == old(groups) && users == old(users)
      ensures nextGroupId == old(nextGroupId) && nextUserId == old(nextUserId)
      ensures !IsPrivileged(status) ==> reply == NoPermissionForReminders
      ensures IsPrivileged(status) && SenderRow(users, chatId, from).None? ==> reply == NotRegistered
      ensures IsPrivileged(status) && SenderRow(users, chatId, from).Some? && GroupByChat(groups, chatId).None? ==>
        reply == GroupNotRegistered
      ensures !(IsPrivileged(status) && SenderRow(users, chatId, from).Some? && GroupByChat(groups, chatId).Some?) ==>
        reminders == old(reminders) && jobs == old(jobs) && nextReminderId == old(nextReminderId)
      ensures IsPrivileged(status) && SenderRow(users, chatId, from).Some? && GroupByChat(groups, chatId).Some? ==>
        var u, g := SenderRow(users, chatId, from).value, GroupByChat(groups, chatId).value;
        && reply == ReminderSet(time, text)
        && reminders == old(reminders) + [Reminder(old(nextReminderId), u.id, g.id, time, text)]
        && nextReminderId == old(nextReminderId) + 1
        && jobs == old(jobs) + [JobFor(ParseTime(time), g, text)]
    {
      if !IsPrivileged(status) {
        return NoPermissionForReminders;
      }
      var user := SenderRow(users, chatId, from);
      if user.None? {
        return NotRegistered;
      }
      var group := GroupByChat(groups, chatId);
      if group.None? {
        return GroupNotRegistered;
      }
      assert GroupById(groups, group.value.id).Some?;
      reminders := reminders + [Reminder(nextReminderId, user.value.id, group.value.id, time, text)];
      nextReminderId := nextReminderId + 1;
      jobs := jobs + [JobFor(ParseTime(time), group.value, text)];
      reply := ReminderSet(time, text);
    }

    /**
     * `/editremind HH:MM text` (main.js:123-155): set the new time and text on every row of the
     * sender in this group, then register a job for the edited text, even when no row matched.
     */
    method EditRemind(chatId: int, status: string, from: Option<string>, time: string, text: string)
      returns (reply: Option<string>)
      requires Valid()
      requires IsTimeArg(time) && text != ""
      modifies this
      ensures Valid()
      ensures groups == old(groups) && users == old(users)
      ensures nextGroupId == old(nextGroupId) && nextUserId == old(nextUserId) && nextReminderId == old(nextReminderId)
      ensures !IsPrivileged(status) ==> reply == Some(NoPermissionForReminders)
      ensures IsPrivileged(status) && (SenderRow(users, chatId, from).None? || GroupByChat(groups, chatId).None?) ==>
        reply == None
      ensures !(IsPrivileged(status) && SenderRow(users, chatId, from).Some? && GroupByChat(groups, chatId).Some?) ==>
        reminders == old(reminders) && jobs == old(jobs)
      ensures IsPrivileged(status) && SenderRow(users, chatId, from).Some? && GroupByChat(groups, chatId).Some? ==>
        var u, g := SenderRow(users, chatId, from).value, GroupByChat(groups, chatId).value;
        && reply == Some(ReminderEdited(time, text))
        && reminders == EditReminders(old(reminders), u.id, g.id, time, text)
        && jobs == old(jobs) + [JobFor(ParseTime(time), g, EditedPrefix + text)]
    {
      if !IsPrivileged(status) {
        return Some(NoPermissionForReminders);
      }
      var user := SenderRow(users, chatId, from);
      if user.None? {
        return None;
      }
      var group := GroupByChat(groups, chatId);
      if group.None? {
        return None;
      }
      EditKeepsRemindersWellFormed(reminders, nextReminderId, groups, user.value.id, group.value.id, time, text);
      reminders := UpdateReminders(reminders, user.value.id, group.value.id, time, text);
      jobs := jobs + [JobFor(ParseTime(time), group.value, EditedPrefix + text)];
      reply := Some(ReminderEdited(time, text));
    }

    /**
     * `/cancelremind` (main.js:158-179): delete every row of the sender in this group.
     * The jobs registered for them stay registered.
     */
    method CancelRemind(chatId: int, status: string, from: Option<string>) returns (reply: Option<string>)
      requires Valid()
      modifies this
      ensures Valid()
      ensures groups == old(groups) && users == old(users) && jobs == old(jobs)
      ensures nextGroupId == old(nextGroupId) && nextUserId == old(nextUserId) && nextReminderId == old(nextReminderId)
      ensures !IsPrivileged(status) ==> reply == Some(NoPermissionForReminders)
      ensures IsPrivileged(status) && (SenderRow(users, chatId, from).None? || GroupByChat(groups, chatId).None?) ==>
        reply == None
      ensures !(IsPrivileged(status) && SenderRow(users, chatId, from).Some? && GroupByChat(groups, chatId).Some?) ==>
        reminders == old(reminders)
      ensures IsPrivileged(status) && SenderRow(users, chatId, from).Some? && GroupByChat(groups, chatId).Some? ==>
        var u, g := SenderRow(users, chatId, from).value, GroupByChat(groups, chatId).value;
        && reply == Some(ReminderCanceled)
        && reminders == WithoutReminders(old(reminders), u.id, g.id)
    {
      if !IsPrivileged(status) {
        return Some(NoPermissionForReminders);
      }
      var user := SenderRow(users, chatId, from);
      if user.None? {
        return None;
      }
      var group := GroupByChat(groups, chatId);
      if group.None? {
        return None;
      }
      reminders := DeleteReminders(reminders, user.value.id, group.value.id);
      reply := Some(ReminderCanceled);
    }

    /** `/tagall` (main.js:182-195): anyone may call it; it mentions every registered user of the chat. */
    function TagAll(chatId: int): (reply: string)
      reads this
      ensures reply == NoMembersToTag <==> forall u :: u in users ==> u.chatId != chatId
      ensures reply != NoMembersToTag ==> reply == MentionList(UsernamesIn(users, chatId))
    {
      TagAllText(UsernamesIn(users, chatId))
    }

    /** `/adduser @name` (main.js:198-216): insert the bare name when the pair is absent. */
    method AddUser(chatId: int, status: string, handle: string) returns (reply: string)
      requires Valid()
      requires IsHandleArg(handle)
      modifies this
      ensures Valid()
      ensures groups == old(groups) && reminders == old(reminders) && jobs == old(jobs)
      ensures nextGroupId == old(nextGroupId) && nextReminderId == old(nextReminderId)
      ensures !IsPrivileged(status) ==>
        reply == NoPermissionToAdd && users == old(users) && nextUserId == old(nextUserId)
      ensures IsPrivileged(status) ==>
        var name := BareName(handle);
        && users == WithUser(old(users), old(nextUserId), chatId, name)
        && nextUserId == old(nextUserId) + |users| - |old(users)|
        && reply == (if FindUser(old(users), chatId, name).Some? then MemberExists(name) else MemberAdded(name))
    {
      if !IsPrivileged(status) {
        return NoPermissionToAdd;
      }
      var name := BareName(handle);
      if FindUser(users, chatId, name).None? {
        InsertUserKeepsKeysUnique(users, nextUserId, chatId, name);
        users := users + [User(nextUserId, chatId, name)];
        nextUserId := nextUserId + 1;
        reply := MemberAdded(name);
      } else {
        reply := MemberExists(name);
      }
    }

    /** `/removeuser @name` (main.js:219-231): delete the rows of the bare name in this chat. */
    method RemoveUser(chatId: int, status: string, handle: string) returns (reply: string)
      requires Valid()
      requires IsHandleArg(handle)
      modifies this
      ensures Valid()
      ensures groups == old(groups) && reminders == old(reminders) && jobs == old(jobs)
      ensures nextGroupId == old(nextGroupId) && nextUserId == old(nextUserId) && nextReminderId == old(nextReminderId)
      ensures !IsPrivileged(status) ==> reply == NoPermissionToRemove && users == old(users)
      ensures IsPrivileged(status) ==>
        reply == MemberRemoved(BareName(handle)) && users == WithoutUser(old(users), chatId, BareName(handle))
    {
      if !IsPrivileged(status) {
        return NoPermissionToRemove;
      }
      var name := BareName(handle);
      WithoutUserKeepsKeysUnique(users, nextUserId, chatId, name);
      users := DeleteUsers(users, chatId, name);
      reply := MemberRemoved(name);
    }

    /**
     * The cron callback for local time hour:minute (main.js:49-68): select the reminders whose
     * time is the zero-padded tick and send each one to its group's chat.
     */
    method Sweep(hour: nat, minute: nat) returns (sent: seq<Delivery>)
      requires hour < 24 && minute < 60
      ensures sent == Dispatch(groups, users, Due(reminders, FormatTick(hour, minute)))
      ensures Valid() ==> |sent| == |Due(reminders, FormatTick(hour, minute))|
    {
      var tick := FormatTick(hour, minute);
      var due := Due(reminders, tick);
      sent := [];
      var i := 0;
      while i < |due|
        invariant 0 <= i <= |due|
        invariant sent == Dispatch(groups, users, due[..i])
      {
        assert due[..i + 1][..i] == due[..i];
        var d := DeliveryFor(groups, users, due[i]);
        if d.Some? {
          sent := sent + [d.value];
        }
        i := i + 1;
      }
      assert due[..i] == due;
      if Valid() {
        SweepDeliversEachDueReminder(groups, users, reminders, nextReminderId, hour, minute);
      }
    }
  }

  lemma StandupUsernames()
    ensures UsernamesIn([User(1, 100, "@alice"), User(2, 100, "bob")], 100) == ["@alice", "bob"]
  {
    var us := [User(1, 100, "@alice"), User(2, 100, "bob")];
    assert us[1..] == [User(2, 100, "bob")];
    assert us[1..][1..] == [];
  }

  lemma StandupMentionList()
    ensures MentionList(["@alice", "bob"]) == "@alice @bob"
  {
    var ms := MentionAll(["@alice", "bob"]);
    assert ms == ["@alice", "@bob"] by {
      assert "@" + "bob" == "@bob";
      assert ms[0] == "@alice" && ms[1] == "@bob";
    }
    assert Distinct(ms) == ["@alice", "@bob"] by {
      assert ms[..1] == ["@alice"];
      assert ms[..1][..0] == [];
      assert Distinct(ms[..1]) == ["@alice"];
      assert "@bob" != "@alice";
    }
    assert Join(["@alice", "@bob"]) == "@alice @bob" by {
      assert ["@alice", "@bob"][1..] == ["@bob"];
    }
  }

  lemma StandupCompose()
    ensures ComposeMessage("@alice @bob", "Standup") == "@alice @bob Standup"
  {
    assert "@alice @bob" + " " + "Standup" == "@alice @bob Standup";
  }

  /** Group 100 with users `@alice` and `bob`: a reminder "Standup" is sent as "@alice @bob Standup". */
  lemma StandupMessage()
    ensures ReminderBody([User(1, 100, "@alice"), User(2, 100, "bob")], 100, "Standup") == "@alice @bob Standup"
  {
    StandupUsernames();
    StandupMentionList();
    StandupCompose();
  }

  /** A member registered by `/start` cannot set a reminder. */
  method StartThenRemind()
  {
    var s := new Store();
    var greeting := s.Start(100, "Team", "", Some("alice"));
    assert StoredHandle(Some("alice")) == "@alice";
    assert s.users == [User(1, 100, "@alice")];
    var reply := s.Remind(100, "creator", Some("alice"), "09:00", "Standup");
    assert reply == NotRegistered && s.reminders == [] && s.jobs == [];
  }
}
