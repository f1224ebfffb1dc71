/** The pull-model server: users, the message log and typing state held in memory and changed by the
    HTTP handlers; clients poll for everything after a cursor. Users are keyed by a server-issued id. */
module PullServer {

  import opened Wrappers
  import opened Names
  import ChatLog
  import JsMap

  /** A server-issued identifier (a fresh uuid in the original, a counter value here). */
  type Id = nat

  /** A user is online while their last request is less than this many milliseconds old. */
  const ONLINE_WINDOW_MS := 10000

  /** A typing signal older than this many milliseconds is purged by the next poll. */
  const TYPING_WINDOW_MS := 3000

  datatype User = User(userId: Id, username: string, isAdmin: bool, lastActive: int)

  datatype Typing = Typing(isTyping: bool, timestamp: int)

  /** The reply fields a client sends with a message, copied as they are (a snapshot, not a lookup). */
  datatype Reply = Reply(replyTo: Id, replyToUsername: Option<string>, replyToContent: Option<string>)

  /** A log entry; system messages carry no username and have kind "system". */
  datatype Message = Message(id: Id, username: Option<string>, content: string, kind: string,
                             timestamp: int, reply: Option<Reply>)

  datatype OnlineUser = OnlineUser(username: string, isAdmin: bool)

  datatype Response =
    | LoginOk(userId: Id, isAdmin: bool, messages: seq<Message>, onlineUsers: seq<OnlineUser>)
    | PollOk(messages: seq<Message>, typing: seq<string>, users: seq<OnlineUser>)
    | Success
    | Failure(status: int, error: string)

  type Users = JsMap.Map<Id, User>
  type TypingMap = JsMap.Map<Id, Typing>

  function SystemMessage(id: Id, content: string, now: int): Message {
    Message(id, None, content, "system", now, None)
  }

  function JoinedText(name: string): string { name + " joined the chat" }
  function LeftText(name: string): string { name + " left the chat" }
  function BannedText(name: string): string { name + " has been banned by admin" }
  const CLEARED_TEXT := "Chat cleared by admin"

  /** The request guard `userId && users.has(userId)`. */
  predicate Registered(users: Users, userId: Option<Id>) {
    userId.Some? && JsMap.Has(users, userId.value)
  }

  predicate NameTaken(users: Users, name: string) {
    exists i | 0 <= i < |users| :: users[i].value.username == name
  }

  /** No two registered users share a display name. */
  predicate UniqueNames(users: Users) {
    forall i, j | 0 <= i < j < |users| :: users[i].value.username != users[j].value.username
  }

  predicate DistinctIds(log: seq<Message>) {
    forall i, j | 0 <= i < j < |log| :: log[i].id != log[j].id
  }

  /** `Array.from(users.values()).find(u => u.username === name)` */
  function FindByName(users: Users, name: string): (r: Option<User>)
    ensures r.Some? <==> NameTaken(users, name)
    ensures r.Some? ==> r.value.username == name && exists i | 0 <= i < |users| :: users[i].value == r.value
  {
    if users == [] then None
    else if users[0].value.username == name then Some(users[0].value)
    else
      var r := FindByName(users[1..], name);
      assert forall i | 1 <= i < |users| :: users[i] == users[1..][i - 1];
      r
  }

  // ---- presence ----

  predicate IsOnline(u: User, now: int) {
    now - u.lastActive < ONLINE_WINDOW_MS
  }

  function View(u: User): OnlineUser {
    OnlineUser(u.username, u.isAdmin)
  }

  /** `getOnlineUsers`: the users seen within the liveness window, in registration order. */
  function OnlineUsers(users: Users, now: int): (r: seq<OnlineUser>)
    ensures |r| <= |users|
    decreases |users|
  {
    if users == [] then []
    else
      var last := users[|users| - 1].value;
      OnlineUsers(users[..|users| - 1], now) + (if IsOnline(last, now) then [View(last)] else [])
  }

  /** `getOnlineUsers` lists every user active within the window, and nobody else. */
  lemma {:induction false} OnlineUsersExactly(users: Users, now: int)
    ensures forall i | 0 <= i < |users| && IsOnline(users[i].value, now) :: View(users[i].value) in OnlineUsers(users, now)
    ensures forall o | o in OnlineUsers(users, now) ::
      exists i | 0 <= i < |users| :: IsOnline(users[i].value, now) && View(users[i].value) == o
    decreases |users|
  {
    if users != [] {
      var init := users[..|users| - 1];
      OnlineUsersExactly(init, now);
      assert forall i | 0 <= i < |init| :: init[i] == users[i];
    }
  }

  /** A user who registers now is listed online straight away. */
  lemma JoinedIsOnline(users: Users, user: User, now: int)
    requires user.lastActive == now
    ensures View(user) in OnlineUsers(users + [JsMap.Entry(user.userId, user)], now)
  {
    var r := users + [JsMap.Entry(user.userId, user)];
    OnlineUsersExactly(r, now);
    assert r[|users|].value == user;
  }

  /** A registered user whose `lastActive` is set to now is listed online. */
  lemma TouchedIsOnline(users: Users, id: Id, now: int)
    requires JsMap.Wf(users) && JsMap.Has(users, id)
    ensures var u := JsMap.Get(users, id);
      View(u) in OnlineUsers(JsMap.Set(users, id, u.(lastActive := now)), now)
  {
    var u := JsMap.Get(users, id);
    var r := JsMap.Set(users, id, u.(lastActive := now));
    var k := JsMap.IndexOf(users, id);
    OnlineUsersExactly(r, now);
    assert r[k].value == u.(lastActive := now);
  }

  // ---- typing ----

  predicate Expired(t: Typing, now: int) {
    now - t.timestamp > TYPING_WINDOW_MS
  }

  /** `typingUsers` after a poll at `now` has deleted every expired entry. */
  function Purge(typing: TypingMap, now: int): (r: TypingMap)
    ensures |r| <= |typing|
    decreases |typing|
  {
    if typing == [] then []
    else
      var last := typing[|typing| - 1];
      Purge(typing[..|typing| - 1], now) + (if Expired(last.value, now) then [] else [last])
  }

  /** The purge keeps exactly the entries that have not expired, and keeps keys distinct. */
  lemma {:induction false} PurgeExactly(typing: TypingMap, now: int)
    ensures forall i | 0 <= i < |Purge(typing, now)| :: Purge(typing, now)[i] in typing && !Expired(Purge(typing, now)[i].value, now)
    ensures forall i | 0 <= i < |typing| && !Expired(typing[i].value, now) :: typing[i] in Purge(typing, now)
    ensures JsMap.Wf(typing) ==> JsMap.Wf(Purge(typing, now))
    decreases |typing|
  {
    if typing != [] {
      var init, last := typing[..|typing| - 1], typing[|typing| - 1];
      PurgeExactly(init, now);
      var p := Purge(init, now);
      assert forall i | 0 <= i < |init| :: init[i] == typing[i];
      if !Expired(last.value, now) && JsMap.Wf(typing) {
        forall i | 0 <= i < |p| ensures p[i].key != last.key {
          var j :| 0 <= j < |init| && init[j] == p[i];
        }
        JsMap.WfConcat(p, [last]);
      }
    }
  }

  /** The typing entry `e` is reported to `requester`: fresh, someone else's, typing, and of a
      registered user whose name is not empty (`.filter(Boolean)`). */
  predicate ShowsTyping(e: JsMap.Entry<Id, Typing>, users: Users, requester: Id, now: int) {
    && !Expired(e.value, now)
    && e.key != requester
    && e.value.isTyping
    && JsMap.Has(users, e.key)
    && JsMap.Get(users, e.key).username != ""
  }

  /** The names a poll by `requester` reports as typing, in `typingUsers` order. */
  function TypingNames(typing: TypingMap, users: Users, requester: Id, now: int): (r: seq<string>)
    ensures |r| <= |typing|
    decreases |typing|
  {
    if typing == [] then []
    else
      var last := typing[|typing| - 1];
      TypingNames(typing[..|typing| - 1], users, requester, now)
        + (if ShowsTyping(last, users, requester, now) then [JsMap.Get(users, last.key).username] else [])
  }

  /** The reported names are exactly those of the entries the filter shows. */
  lemma {:induction false} TypingNamesExactly(typing: TypingMap, users: Users, requester: Id, now: int)
    ensures forall n | n in TypingNames(typing, users, requester, now) :: exists i | 0 <= i < |typing| ::
      ShowsTyping(typing[i], users, requester, now) && JsMap.Get(users, typing[i].key).username == n
    ensures forall i | 0 <= i < |typing| && ShowsTyping(typing[i], users, requester, now) ::
      JsMap.Get(users, typing[i].key).username in TypingNames(typing, users, requester, now)
    decreases |typing|
  {
    if typing != [] {
      var init := typing[..|typing| - 1];
      TypingNamesExactly(init, users, requester, now);
      assert forall i | 0 <= i < |init| :: init[i] == typing[i];
    }
  }

  // ---- delta reads ----

  /** `messages.findIndex(m => m.id === id)` */
  function FindIndex(log: seq<Message>, id: Id): (i: int)
    ensures -1 <= i < |log|
    ensures 0 <= i ==> log[i].id == id && forall j | 0 <= j < i :: log[j].id != id
    ensures i < 0 ==> forall j | 0 <= j < |log| :: log[j].id != id
  {
    if log == [] then -1
    else if log[0].id == id then 0
    else
      var i := FindIndex(log[1..], id);
      assert forall j | 1 <= j < |log| :: log[j] == log[1..][j - 1];
      if i < 0 then -1 else i + 1
  }

  /** The messages a poll with cursor `lastId` returns: everything after the cursor's message,
      or the newest 50 when the cursor is missing or names no message in the log. */
  function Delta(log: seq<Message>, lastId: Option<Id>): (r: seq<Message>)
    ensures (exists i | 0 <= i < |log| :: Some(log[i].id) == lastId) ==>
      |r| < |log| && log[..|log| - |r|] + r == log && log[|log| - |r| - 1].id == lastId.value
    ensures (forall i | 0 <= i < |log| :: Some(log[i].id) != lastId) ==> r == ChatLog.Newest(log, ChatLog.RECENT_COUNT)
  {
    var lastIndex := if lastId.Some? then FindIndex(log, lastId.value) else -1;
    if lastIndex >= 0 then
      SplitAfter(log, lastIndex);
      log[lastIndex + 1..]
    else ChatLog.Newest(log, ChatLog.RECENT_COUNT)
  }

  lemma SplitAfter(log: seq<Message>, i: nat)
    requires i < |log|
    ensures var r := log[i + 1..];
      |r| < |log| && log[..|log| - |r|] + r == log && log[|log| - |r| - 1] == log[i]
  {
    assert |log| - |log[i + 1..]| == i + 1;
  }

  /** With distinct ids, a poll whose cursor is the message at `i` returns exactly the messages after it. */
  lemma DeltaAfter(log: seq<Message>, i: nat)
    requires DistinctIds(log) && i < |log|
    ensures Delta(log, Some(log[i].id)) == log[i + 1..]
  {
    assert FindIndex(log, log[i].id) == i;
  }

  /** The cursor a client holds after receiving `received` with cursor `cursor`
      (`lastMessageId = msg.id` for each received message). */
  function NextCursor(cursor: Option<Id>, received: seq<Message>): Option<Id> {
    if received == [] then cursor else Some(received[|received| - 1].id)
  }

  /** After any poll of a non-empty log, whatever its cursor, the client's cursor is the id of
      the log's newest message. */
  lemma NextCursorIsNewest(log: seq<Message>, cursor: Option<Id>)
    requires log != []
    ensures NextCursor(cursor, Delta(log, cursor)) == Some(log[|log| - 1].id)
  {
    var r := Delta(log, cursor);
    var at := if cursor.Some? then FindIndex(log, cursor.value) else -1;
    if at < 0 {
      var newest := ChatLog.Newest(log, ChatLog.RECENT_COUNT);
      assert r == newest && |newest| > 0;
      assert newest[|newest| - 1] == log[|log| - 1];
    } else {
      assert r == log[at + 1..];
      if at + 1 < |log| {
        assert r[|r| - 1] == log[|log| - 1];
      }
    }
  }

  /** A poll whose cursor is the newest message of `log` returns exactly `more`, once `more` has
      been appended and the oldest `k` messages evicted, provided that message survived. */
  lemma PollAfterNewest(log: seq<Message>, more: seq<Message>, k: nat)
    requires DistinctIds(log + more) && k < |log|
    ensures Delta((log + more)[k..], Some(log[|log| - 1].id)) == more
  {
    var s := (log + more)[k..];
    DistinctSuffix(log + more, k);
    assert s[|log| - 1 - k] == log[|log| - 1];
    DeltaAfter(s, |log| - 1 - k);
    assert s[|log| - k..] == more;
  }

  /** Two consecutive polls neither duplicate nor skip. Whatever cursor the first poll of `log`
      used (none, unknown or found), if messages `more` were appended since and the oldest `k`
      evicted, but not the newest message the client received, the second poll with the advanced
      cursor returns exactly `more`. */
  lemma ConsecutivePolls(log: seq<Message>, more: seq<Message>, k: nat, cursor: Option<Id>)
    requires DistinctIds(log + more) && k < |log|
    ensures Delta((log + more)[k..], NextCursor(cursor, Delta(log, cursor))) == more
  {
    NextCursorIsNewest(log, cursor);
    PollAfterNewest(log, more, k);
  }

  /** Under the send path's cap of 200: a client that polls again before 200 further messages have
      been posted receives exactly the messages posted in between, however long the log was. */
  lemma PollAfterCappedAppends(log: seq<Message>, more: seq<Message>, cursor: Option<Id>)
    requires log != [] && |more| < ChatLog.MAX_MESSAGES
    requires DistinctIds(log + more)
    ensures Delta(ChatLog.AppendAll(log, more), NextCursor(cursor, Delta(log, cursor))) == more
  {
    var all, kept := log + more, ChatLog.AppendAll(log, more);
    if |log| <= ChatLog.MAX_MESSAGES {
      ChatLog.AppendAllKeepsNewest(log, more);
      var k := |all| - |kept|;
      assert kept == all[k..];
      assert k < |log| by {
        assert |kept| == if |all| <= ChatLog.MAX_MESSAGES then |all| else ChatLog.MAX_MESSAGES;
      }
      ConsecutivePolls(log, more, k, cursor);
    } else {
      ChatLog.AppendAllLong(log, more);
      ConsecutivePolls(log, more, |more|, cursor);
    }
  }

  /** What the protocol does not guarantee: once the newest message a client received has been
      evicted, its cursor is unknown and the next poll falls back to the newest 50, skipping
      whatever else was posted in between. */
  lemma EvictedCursorFallsBack(log: seq<Message>, more: seq<Message>, k: nat)
    requires DistinctIds(log + more) && log != [] && |log| <= k <= |log + more|
    ensures Delta((log + more)[k..], Some(log[|log| - 1].id))
      == ChatLog.Newest((log + more)[k..], ChatLog.RECENT_COUNT)
  {
    var all := log + more;
    var s := all[k..];
    forall j | 0 <= j < |s| ensures Some(s[j].id) != Some(log[|log| - 1].id) {
      assert s[j] == all[k + j] && all[|log| - 1] == log[|log| - 1];
    }
  }

  /** Re-polling with an unmoved cursor at position `i` after messages `more` were appended and
      the oldest `k` (none at or after the cursor) evicted returns what the first poll returned
      followed by `more`: nothing is lost or repeated. */
  lemma RepeatedPollSeesPrefix(log: seq<Message>, more: seq<Message>, k: nat, i: nat)
    requires DistinctIds(log + more) && k <= i < |log|
    ensures Delta((log + more)[k..], Some(log[i].id)) == Delta(log, Some(log[i].id)) + more
  {
    var s := (log + more)[k..];
    DistinctSuffix(log + more, k);
    DistinctPrefix(log, more);
    assert s[i - k] == log[i];
    assert s[i - k + 1..] == log[i + 1..] + more;
    DeltaAfter(s, i - k);
    DeltaAfter(log, i);
  }

  lemma DistinctSuffix(log: seq<Message>, k: nat)
    requires DistinctIds(log) && k <= |log|
    ensures DistinctIds(log[k..])
  {
    forall i, j | 0 <= i < j < |log| - k ensures log[k..][i].id != log[k..][j].id {
      assert log[k..][i] == log[k + i] && log[k..][j] == log[k + j];
    }
  }

  lemma DistinctPrefix(log: seq<Message>, more: seq<Message>)
    requires DistinctIds(log + more)
    ensures DistinctIds(log)
  {
    forall i, j | 0 <= i < j < |log| ensures log[i].id != log[j].id {
      assert (log + more)[i] == log[i] && (log + more)[j] == log[j];
    }
  }

  // ---- the state invariant, stated on values ----

  /** Users are keyed by their own id, every id was issued, names are unique and the admin flag is
      derived from the name. */
  ghost predicate UsersOk(users: Users, nextId: Id) {
    && JsMap.Wf(users)
    && (forall i | 0 <= i < |users| ::
          && users[i].value.userId == users[i].key
          && users[i].key < nextId
          && users[i].value.isAdmin == (users[i].value.username == ADMIN_USERNAME))
    && UniqueNames(users)
  }

  /** Typing state is kept only for registered users. */
  ghost predicate TypingOk(typing: TypingMap, users: Users) {
    && JsMap.Wf(typing)
    && forall i | 0 <= i < |typing| :: JsMap.Has(users, typing[i].key)
  }

  /** Message ids are distinct and were all issued. */
  ghost predicate LogOk(log: seq<Message>, nextId: Id) {
    && DistinctIds(log)
    && forall i | 0 <= i < |log| :: log[i].id < nextId
  }

  /** Appending a message with a fresh id keeps ids distinct. */
  lemma LogOkPush(log: seq<Message>, nextId: Id, m: Message)
    requires LogOk(log, nextId) && m.id == nextId
    ensures LogOk(log + [m], nextId + 1)
  {
  }

  /** So does appending it under the 200 bound. */
  lemma LogOkAppend(log: seq<Message>, nextId: Id, m: Message)
    requires LogOk(log, nextId) && m.id == nextId
    ensures LogOk(ChatLog.Append(log, m), nextId + 1)
  {
    var r := ChatLog.Append(log, m);
    var d := |log| + 1 - |r|;
    assert forall k | 0 <= k < |r| - 1 :: r[k] == log[k + d];
  }

  /** Registering a user with the next id and a free name keeps the invariant. */
  lemma AddUserOk(users: Users, typing: TypingMap, nextId: Id, user: User)
    requires UsersOk(users, nextId) && TypingOk(typing, users)
    requires user.userId == nextId && !NameTaken(users, user.username)
    requires user.isAdmin == (user.username == ADMIN_USERNAME)
    ensures !JsMap.Has(users, nextId)
    ensures UsersOk(users + [JsMap.Entry(nextId, user)], nextId + 2)
    ensures TypingOk(typing, users + [JsMap.Entry(nextId, user)])
  {
    var r := users + [JsMap.Entry(nextId, user)];
    forall i | 0 <= i < |typing| ensures JsMap.Has(r, typing[i].key) {
      var j :| 0 <= j < |users| && users[j].key == typing[i].key;
      assert r[j] == users[j];
    }
  }

  /** Updating the `lastActive` of a registered user keeps the invariant and every other user. */
  lemma TouchOk(users: Users, typing: TypingMap, nextId: Id, id: Id, now: int)
    requires UsersOk(users, nextId) && TypingOk(typing, users) && JsMap.Has(users, id)
    ensures var r := JsMap.Set(users, id, JsMap.Get(users, id).(lastActive := now));
      UsersOk(r, nextId) && TypingOk(typing, r)
  {
    var r := JsMap.Set(users, id, JsMap.Get(users, id).(lastActive := now));
    forall i | 0 <= i < |typing| ensures JsMap.Has(r, typing[i].key) {
      var j :| 0 <= j < |users| && users[j].key == typing[i].key;
      assert r[j].key == users[j].key;
    }
  }

  /** Removing a user and their typing entry keeps the invariant. */
  lemma RemoveOk(users: Users, typing: TypingMap, nextId: Id, id: Id)
    requires UsersOk(users, nextId) && TypingOk(typing, users)
    ensures UsersOk(JsMap.Delete(users, id), nextId)
    ensures TypingOk(JsMap.Delete(typing, id), JsMap.Delete(users, id))
  {
    var r := JsMap.Delete(users, id);
    var t := JsMap.Delete(typing, id);
    forall i, j | 0 <= i < j < |r| ensures r[i].value.username != r[j].value.username {
      var a :| 0 <= a < |users| && users[a] == r[i];
      var b :| 0 <= b < |users| && users[b] == r[j];
    }
    forall i | 0 <= i < |t| ensures JsMap.Has(r, t[i].key) {
      var a :| 0 <= a < |typing| && typing[a] == t[i];
      var j :| 0 <= j < |users| && users[j].key == typing[a].key;
      assert users[j] in r;
    }
  }

  /** Once a user is removed, no remaining user holds their name. */
  lemma RemoveFreesName(users: Users, nextId: Id, id: Id)
    requires UsersOk(users, nextId) && JsMap.Has(users, id)
    ensures !NameTaken(JsMap.Delete(users, id), JsMap.Get(users, id).username)
  {
    var r := JsMap.Delete(users, id);
    var k := JsMap.IndexOf(users, id);
    forall i | 0 <= i < |r| ensures r[i].value.username != users[k].value.username {
      var a :| 0 <= a < |users| && users[a] == r[i];
    }
  }

  /** The poll loop's view of `typingUsers` after `i` entries: the purged prefix, then the rest. */
  lemma PurgeSplitWf(entries: TypingMap, i: nat, now: int)
    requires JsMap.Wf(entries) && i <= |entries|
    ensures JsMap.Wf(Purge(entries[..i], now) + entries[i..])
  {
    var p, rest := Purge(entries[..i], now), entries[i..];
    assert JsMap.Wf(entries[..i]);
    PurgeExactly(entries[..i], now);
    forall a, b | 0 <= a < |p| && 0 <= b < |rest| ensures p[a].key != rest[b].key {
      var j :| 0 <= j < i && entries[..i][j] == p[a];
      assert rest[b] == entries[i + b];
    }
    JsMap.WfConcat(p, rest);
  }

  lemma PurgeStep(entries: TypingMap, i: nat, now: int)
    requires i < |entries|
    ensures Purge(entries[..i + 1], now)
      == Purge(entries[..i], now) + (if Expired(entries[i].value, now) then [] else [entries[i]])
  {
    assert entries[..i + 1][..i] == entries[..i];
  }

  /** The poll loop deletes an expired entry from the live map. */
  lemma PurgeStepExpired(entries: TypingMap, i: nat, now: int)
    requires JsMap.Wf(entries) && i < |entries| && Expired(entries[i].value, now)
    ensures JsMap.Wf(Purge(entries[..i], now) + entries[i..])
    ensures JsMap.Delete(Purge(entries[..i], now) + entries[i..], entries[i].key)
      == Purge(entries[..i + 1], now) + entries[i + 1..]
  {
    PurgeSplitWf(entries, i, now);
    PurgeDrop(entries, i, now);
    JsMap.DeleteNext(Purge(entries[..i], now), entries, i);
  }

  lemma PurgeDrop(entries: TypingMap, i: nat, now: int)
    requires i < |entries| && Expired(entries[i].value, now)
    ensures Purge(entries[..i + 1], now) == Purge(entries[..i], now)
  {
    assert entries[..i + 1][..i] == entries[..i];
  }

  /** The poll loop leaves a fresh entry where it is. */
  lemma PurgeStepKept(entries: TypingMap, i: nat, now: int)
    requires i < |entries| && !Expired(entries[i].value, now)
    ensures Purge(entries[..i], now) + entries[i..] == Purge(entries[..i + 1], now) + entries[i + 1..]
  {
    PurgeStep(entries, i, now);
    var p := Purge(entries[..i], now);
    assert entries[i..] == [entries[i]] + entries[i + 1..];
  }

  lemma TypingNamesStep(entries: TypingMap, i: nat, users: Users, requester: Id, now: int)
    requires i < |entries|
    ensures TypingNames(entries[..i + 1], users, requester, now)
      == TypingNames(entries[..i], users, requester, now)
         + (if ShowsTyping(entries[i], users, requester, now) then [JsMap.Get(users, entries[i].key).username] else [])
  {
    assert entries[..i + 1][..i] == entries[..i];
  }

  /** Purging keeps typing state only for registered users. */
  lemma PurgeOk(typing: TypingMap, users: Users, now: int)
    requires TypingOk(typing, users)
    ensures TypingOk(Purge(typing, now), users)
  {
    var r := Purge(typing, now);
    PurgeExactly(typing, now);
    forall i | 0 <= i < |r| ensures JsMap.Has(users, r[i].key) {
      var j :| 0 <= j < |typing| && typing[j] == r[i];
    }
  }

  /** Recording a registered user's typing signal keeps the invariant. */
  lemma SetTypingOk(typing: TypingMap, users: Users, id: Id, t: Typing)
    requires TypingOk(typing, users) && JsMap.Has(users, id)
    ensures TypingOk(JsMap.Set(typing, id, t), users)
  {
  }

  // ---- the server state and its handlers ----

  /** The three module-level containers of the pull server, with the fresh-id supplier. */
  class ChatState {
    var users: Users
    var messages: seq<Message>
    var typingUsers: TypingMap
    var nextId: Id

    ghost predicate Valid()
      reads this
    {
      UsersOk(users, nextId) && TypingOk(typingUsers, users) && LogOk(messages, nextId)
    }

    constructor ()
      ensures Valid() && users == [] && messages == [] && typingUsers == []
    {
      users, messages, typingUsers, nextId := [], [], [], 0;
    }

    /** `POST /api/login` */
    method Login(username: Option<string>, now: int) returns (resp: Response)
      requires Valid()
      modifies this
      ensures Valid()
      ensures IsBlank(username) ==> resp == Failure(400, "Username is required") && unchanged(this)
      ensures !IsBlank(username) && NameTaken(old(users), Trim(username.value)) ==>
        resp == Failure(400, "Username already taken") && unchanged(this)
      ensures !IsBlank(username) && !NameTaken(old(users), Trim(username.value)) ==>
        var name, id := Trim(username.value), old(nextId);
        && users == old(users) + [JsMap.Entry(id, User(id, name, name == ADMIN_USERNAME, now))]
        && messages == old(messages) + [SystemMessage(id + 1, JoinedText(name), now)]
        && typingUsers == old(typingUsers)
        && resp == LoginOk(id, name == ADMIN_USERNAME, ChatLog.Newest(messages, ChatLog.RECENT_COUNT),
                           OnlineUsers(users, now))
        && OnlineUser(name, name == ADMIN_USERNAME) in resp.onlineUsers
    {
      if IsBlank(username) {
        return Failure(400, "Username is required");
      }
      var name := Trim(username.value);
      if NameTaken(users, name) {
        return Failure(400, "Username already taken");
      }
      resp := Join(name, now);
    }

    /** The accepted half of a login: register `name` under a fresh id and announce it. */
    method Join(name: string, now: int) returns (resp: Response)
      requires Valid() && !NameTaken(users, name)
      modifies this
      ensures Valid()
      ensures var id := old(nextId);
        && users == old(users) + [JsMap.Entry(id, User(id, name, name == ADMIN_USERNAME, now))]
        && messages == old(messages) + [SystemMessage(id + 1, JoinedText(name), now)]
        && typingUsers == old(typingUsers)
        && resp == LoginOk(id, name == ADMIN_USERNAME, ChatLog.Newest(messages, ChatLog.RECENT_COUNT),
                           OnlineUsers(users, now))
        && OnlineUser(name, name == ADMIN_USERNAME) in resp.onlineUsers
    {
      var id := nextId;
      var isAdmin := name == ADMIN_USERNAME;
      var user := User(id, name, isAdmin, now);
      var joined := SystemMessage(id + 1, JoinedText(name), now);
      AddUserOk(users, typingUsers, nextId, user);
      LogOkPush(messages, nextId + 1, joined);
      JoinedIsOnline(users, user, now);
      var added := JsMap.Set(users, id, user);
      assert added == users + [JsMap.Entry(id, user)];
      users, messages, nextId := added, messages + [joined], nextId + 2;
      resp := LoginOk(id, isAdmin, ChatLog.Newest(messages, ChatLog.RECENT_COUNT), OnlineUsers(added, now));
    }

    /** `POST /api/logout` */
    method Logout(userId: Option<Id>, now: int) returns (resp: Response)
      requires Valid()
      modifies this
      ensures Valid()
      ensures !Registered(old(users), userId) ==> resp == Failure(400, "Invalid user ID") && unchanged(this)
      ensures Registered(old(users), userId) ==>
        var name := JsMap.Get(old(users), userId.value).username;
        && resp == Success
        && messages == old(messages) + [SystemMessage(old(nextId), LeftText(name), now)]
        && users == JsMap.Delete(old(users), userId.value)
        && typingUsers == JsMap.Delete(old(typingUsers), userId.value)
        && !NameTaken(users, name)
    {
      if !Registered(users, userId) {
        return Failure(400, "Invalid user ID");
      }
      var user := JsMap.Get(users, userId.value);
      resp := Remove(userId.value, LeftText(user.username), now);
    }

    /** `GET /api/messages`: the delta after the cursor, who is typing, and who is online. */
    method Poll(userId: Option<Id>, lastId: Option<Id>, now: int) returns (resp: Response)
      requires Valid()
      modifies this
      ensures Valid()
      ensures !Registered(old(users), userId) ==> resp == Failure(400, "Invalid user ID") && unchanged(this)
      ensures Registered(old(users), userId) ==>
        var u := JsMap.Get(old(users), userId.value);
        && users == JsMap.Set(old(users), userId.value, u.(lastActive := now))
        && messages == old(messages) && nextId == old(nextId)
        && typingUsers == Purge(old(typingUsers), now)
        && resp == PollOk(Delta(old(messages), lastId), TypingNames(old(typingUsers), users, userId.value, now),
                          OnlineUsers(users, now))
        && View(u) in resp.users
    {
      if !Registered(users, userId) {
        return Failure(400, "Invalid user ID");
      }
      var uid := userId.value;
      var user := JsMap.Get(users, uid);
      TouchOk(users, typingUsers, nextId, uid, now);
      TouchedIsOnline(users, uid, now);
      users := JsMap.Set(users, uid, user.(lastActive := now));
      var newMessages := Delta(messages, lastId);

      var typing := FilterTyping(uid, now);
      PurgeOk(old(typingUsers), users, now);
      resp := PollOk(newMessages, typing, OnlineUsers(users, now));
    }

    /** The typing part of a poll by `uid`: the filter runs over a snapshot of the entries,
        deletes each expired one from the live map and keeps the names to report. */
    method FilterTyping(uid: Id, now: int) returns (typing: seq<string>)
      requires JsMap.Wf(typingUsers)
      modifies this`typingUsers
      ensures users == old(users) && messages == old(messages) && nextId == old(nextId)
      ensures typingUsers == Purge(old(typingUsers), now)
      ensures typing == TypingNames(old(typingUsers), users, uid, now)
    {
      var entries := typingUsers;
      typing := [];
      var i := 0;
      while i < |entries|
        invariant 0 <= i <= |entries|
        invariant users == old(users) && messages == old(messages) && nextId == old(nextId)
        invariant typingUsers == Purge(entries[..i], now) + entries[i..]
        invariant typing == TypingNames(entries[..i], users, uid, now)
      {
        typing := FilterStep(entries, i, uid, now, typing);
        i := i + 1;
      }
      assert entries[..i] == entries;
    }

    /** One entry of the poll's filter: delete it if expired, else report its name if it shows. */
    method FilterStep(entries: TypingMap, i: nat, uid: Id, now: int, typing: seq<string>) returns (next: seq<string>)
      requires JsMap.Wf(entries) && i < |entries|
      requires typingUsers == Purge(entries[..i], now) + entries[i..]
      requires typing == TypingNames(entries[..i], users, uid, now)
      modifies this`typingUsers
      ensures users == old(users) && messages == old(messages) && nextId == old(nextId)
      ensures typingUsers == Purge(entries[..i + 1], now) + entries[i + 1..]
      ensures next == TypingNames(entries[..i + 1], users, uid, now)
    {
      var e := entries[i];
      TypingNamesStep(entries, i, users, uid, now);
      next := typing;
      if now - e.value.timestamp > TYPING_WINDOW_MS {
        PurgeStepExpired(entries, i, now);
        typingUsers := JsMap.Delete(typingUsers, e.key);
      } else {
        PurgeStepKept(entries, i, now);
        if e.key != uid && e.value.isTyping {
          if JsMap.Has(users, e.key) && JsMap.Get(users, e.key).username != "" {
            next := typing + [JsMap.Get(users, e.key).username];
          }
        }
      }
    }

    /** `POST /api/send-message` */
    method SendMessage(userId: Option<Id>, content: Option<string>, kind: Option<string>,
                       replyTo: Option<Id>, replyToUsername: Option<string>, replyToContent: Option<string>,
                       now: int) returns (resp: Response)
      requires Valid()
      modifies this
      ensures Valid()
      ensures !Registered(old(users), userId) ==> resp == Failure(400, "Invalid user ID") && unchanged(this)
      ensures Registered(old(users), userId) && (content.None? || content.value == "") ==>
        resp == Failure(400, "Message content is required") && unchanged(this)
      ensures Registered(old(users), userId) && content.Some? && content.value != "" ==>
        var u := JsMap.Get(old(users), userId.value);
        var reply := if replyTo.Some? then Some(Reply(replyTo.value, replyToUsername, replyToContent)) else None;
        && resp == Success
        && users == JsMap.Set(old(users), userId.value, u.(lastActive := now))
        && typingUsers == old(typingUsers)
        && messages == ChatLog.Append(old(messages),
             Message(old(nextId), Some(u.username), content.value, kind.GetOr("text"), now, reply))
    {
      if !Registered(users, userId) {
        return Failure(400, "Invalid user ID");
      }
      if content.None? || content.value == "" {
        return Failure(400, "Message content is required");
      }
      var uid := userId.value;
      var user := JsMap.Get(users, uid);
      TouchOk(users, typingUsers, nextId, uid, now);
      users := JsMap.Set(users, uid, user.(lastActive := now));
      var message := Message(nextId, Some(user.username), content.value, kind.GetOr("text"), now, None);
      if replyTo.Some? {
        message := message.(reply := Some(Reply(replyTo.value, replyToUsername, replyToContent)));
      }
      LogOkAppend(messages, nextId, message);
      messages := ChatLog.Append(messages, message);
      nextId := nextId + 1;
      resp := Success;
    }

    /** `POST /api/typing` */
    method SetTyping(userId: Option<Id>, isTyping: bool, now: int) returns (resp: Response)
      requires Valid()
      modifies this
      ensures Valid()
      ensures !Registered(old(users), userId) ==> resp == Failure(400, "Invalid user ID") && unchanged(this)
      ensures Registered(old(users), userId) ==>
        var u := JsMap.Get(old(users), userId.value);
        && resp == Success
        && users == JsMap.Set(old(users), userId.value, u.(lastActive := now))
        && typingUsers == JsMap.Set(old(typingUsers), userId.value, Typing(isTyping, now))
        && messages == old(messages) && nextId == old(nextId)
    {
      if !Registered(users, userId) {
        return Failure(400, "Invalid user ID");
      }
      var uid := userId.value;
      var user := JsMap.Get(users, uid);
      TouchOk(users, typingUsers, nextId, uid, now);
      users := JsMap.Set(users, uid, user.(lastActive := now));
      JsMap.SetSemantics(old(users), uid, user.(lastActive := now));
      SetTypingOk(typingUsers, users, uid, Typing(isTyping, now));
      typingUsers := JsMap.Set(typingUsers, uid, Typing(isTyping, now));
      resp := Success;
    }

    /** `POST /api/admin/clear-chat` */
    method ClearChat(userId: Option<Id>, now: int) returns (resp: Response)
      requires Valid()
      modifies this
      ensures Valid()
      ensures !Registered(old(users), userId) ==> resp == Failure(400, "Invalid user ID") && unchanged(this)
      ensures Registered(old(users), userId) && !JsMap.Get(old(users), userId.value).isAdmin ==>
        resp == Failure(403, "Unauthorized") && unchanged(this)
      ensures Registered(old(users), userId) && JsMap.Get(old(users), userId.value).isAdmin ==>
        && resp == Success
        && messages == [SystemMessage(old(nextId), CLEARED_TEXT, now)]
        && users == old(users) && typingUsers == old(typingUsers)
    {
      if !Registered(users, userId) {
        return Failure(400, "Invalid user ID");
      }
      if !JsMap.Get(users, userId.value).isAdmin {
        return Failure(403, "Unauthorized");
      }
      messages := [SystemMessage(nextId, CLEARED_TEXT, now)];
      nextId := nextId + 1;
      resp := Success;
    }

    /** `POST /api/admin/ban-user` */
    method BanUser(userId: Option<Id>, username: Option<string>, now: int) returns (resp: Response)
      requires Valid()
      modifies this
      ensures Valid()
      ensures !Registered(old(users), userId) ==> resp == Failure(400, "Invalid user ID") && unchanged(this)
      ensures Registered(old(users), userId) && !JsMap.Get(old(users), userId.value).isAdmin ==>
        resp == Failure(403, "Unauthorized") && unchanged(this)
      ensures Registered(old(users), userId) && JsMap.Get(old(users), userId.value).isAdmin
              && (username.None? || !NameTaken(old(users), username.value)) ==>
        resp == Failure(400, "User not found") && unchanged(this)
      ensures Registered(old(users), userId) && JsMap.Get(old(users), userId.value).isAdmin
              && username.Some? && NameTaken(old(users), username.value) ==>
        var target := FindByName(old(users), username.value).value.userId;
        && resp == Success
        && users == JsMap.Delete(old(users), target)
        && typingUsers == JsMap.Delete(old(typingUsers), target)
        && messages == old(messages) + [SystemMessage(old(nextId), BannedText(username.value), now)]
        && !NameTaken(users, username.value)
    {
      if !Registered(users, userId) {
        return Failure(400, "Invalid user ID");
      }
      if !JsMap.Get(users, userId.value).isAdmin {
        return Failure(403, "Unauthorized");
      }
      var found := if username.Some? then FindByName(users, username.value) else None;
      if found.None? {
        return Failure(400, "User not found");
      }
      var target := found.value.userId;
      assert JsMap.Has(users, target) && JsMap.Get(users, target) == found.value by {
        var j :| 0 <= j < |users| && users[j].value == found.value;
        assert users[j].key == target;
      }
      resp := Remove(target, BannedText(username.value), now);
    }

    /** Logout and ban: delete a user's entries and announce it with a system message. */
    method Remove(target: Id, text: string, now: int) returns (resp: Response)
      requires Valid() && JsMap.Has(users, target)
      modifies this
      ensures Valid()
      ensures resp == Success
      ensures users == JsMap.Delete(old(users), target)
      ensures typingUsers == JsMap.Delete(old(typingUsers), target)
      ensures messages == old(messages) + [SystemMessage(old(nextId), text, now)]
      ensures !NameTaken(users, JsMap.Get(old(users), target).username)
    {
      RemoveOk(users, typingUsers, nextId, target);
      RemoveFreesName(users, nextId, target);
      LogOkPush(messages, nextId, SystemMessage(nextId, text, now));
      users := JsMap.Delete(users, target);
      typingUsers := JsMap.Delete(typingUsers, target);
      messages := messages + [SystemMessage(nextId, text, now)];
      nextId := nextId + 1;
      resp := Success;
    }
  }
}
