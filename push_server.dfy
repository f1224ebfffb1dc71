/** The push-model server: users keyed by display name and the message log, changed by the HTTP
    handlers and by the socket handlers of each connection (whose `currentUser` is passed in). */
module PushServer {

  import opened Wrappers
  import opened Names
  import ChatLog
  import JsMap

  /** A server-issued identifier (a fresh uuid in the original, a counter value here). */
  type Id = nat

  datatype User = User(userId: Id, username: string, isAdmin: bool)

  /** The object a client emits with `chatMessage`: an `id` of its own, if any, and its other fields. */
  datatype Payload = Payload(id: Option<Id>, fields: map<string, string>)

  datatype Message =
    /** Built by `POST /api/send-message`. */
    | Posted(id: Id, userId: Id, username: string, content: Option<string>, timestamp: int, isAdmin: bool)
    /** `{ id: uuidv4(), ...message }` from the socket: the client's own `id` wins the spread. */
    | Relayed(id: Id, fields: map<string, string>)

  datatype UserView = UserView(username: string, isAdmin: bool)

  datatype Response =
    | LoginOk(userId: Id, isAdmin: bool, messages: seq<Message>, onlineUsers: seq<UserView>)
    | Sent(message: Message)
    | Success
    | Failure(status: int, error: string)

  type Users = JsMap.Map<string, User>

  function View(u: User): UserView {
    UserView(u.username, u.isAdmin)
  }

  /** `Array.from(users.values()).map(u => ({ username, isAdmin }))`, in insertion order. */
  function Roster(users: Users): (r: seq<UserView>)
    ensures |r| == |users|
  {
    seq(|users|, i requires 0 <= i < |users| => View(users[i].value))
  }

  /** The state invariant: every user is keyed by its own name, user ids are issued and distinct,
      and the admin flag is the case-insensitive comparison with the reserved name. */
  ghost predicate UsersOk(users: Users, nextId: Id) {
    && JsMap.Wf(users)
    && (forall i | 0 <= i < |users| ::
          && users[i].key == users[i].value.username
          && users[i].value.userId < nextId
          && users[i].value.isAdmin == IsAdminIgnoringCase(users[i].value.username))
    && (forall i, j | 0 <= i < j < |users| :: users[i].value.userId != users[j].value.userId)
  }

  predicate HasUserId(users: Users, userId: Option<Id>) {
    userId.Some? && exists i | 0 <= i < |users| :: users[i].value.userId == userId.value
  }

  /** `Array.from(users.values()).find(u => u.username === name)`; a missing name finds nobody. */
  function FindByName(users: Users, name: Option<string>): (r: Option<User>)
    ensures r.Some? <==> name.Some? && exists i | 0 <= i < |users| :: users[i].value.username == name.value
    ensures r.Some? ==> r.value.username == name.value && exists i | 0 <= i < |users| :: users[i].value == r.value
  {
    if users == [] || name.None? then None
    else if users[0].value.username == name.value then Some(users[0].value)
    else
      var r := FindByName(users[1..], name);
      assert forall i | 1 <= i < |users| :: users[i] == users[1..][i - 1];
      r
  }

  /** Under the invariant the roster is determined by the Map's keys: it lists each key once, in
      insertion order, with the case-insensitive admin flag of that name. */
  lemma RosterOfKeys(users: Users, nextId: Id)
    requires UsersOk(users, nextId)
    ensures forall i | 0 <= i < |users| ::
      Roster(users)[i] == UserView(users[i].key, IsAdminIgnoringCase(users[i].key))
    ensures forall i, j | 0 <= i < j < |users| :: Roster(users)[i].username != Roster(users)[j].username
  {
  }

  /** Every registered user appears in the roster. */
  lemma InRoster(users: Users, k: nat)
    requires k < |users|
    ensures View(users[k].value) in Roster(users)
  {
    assert Roster(users)[k] == View(users[k].value);
  }

  /** Because every user is keyed by its name, finding by name is the map lookup. */
  lemma FindByNameIsLookup(users: Users, nextId: Id, name: string)
    requires UsersOk(users, nextId)
    ensures FindByName(users, Some(name)) == if JsMap.Has(users, name) then Some(JsMap.Get(users, name)) else None
  {
    var r := FindByName(users, Some(name));
    if r.Some? {
      var i :| 0 <= i < |users| && users[i].value == r.value;
      assert users[i].key == name;
      assert JsMap.IndexOf(users, name) == i;
    }
    if JsMap.Has(users, name) {
      var i := JsMap.IndexOf(users, name);
      assert users[i].value.username == name;
    }
  }

  /** The key of the first entry whose user id is `userId`, as the logout loop finds it. */
  function KeyOfUserId(users: Users, userId: Option<Id>): (r: Option<string>)
    ensures r.Some? <==> HasUserId(users, userId)
    ensures r.Some? ==> exists i | 0 <= i < |users| :: users[i].key == r.value && users[i].value.userId == userId.value
  {
    if users == [] || userId.None? then None
    else if users[0].value.userId == userId.value then Some(users[0].key)
    else
      var r := KeyOfUserId(users[1..], userId);
      assert forall i | 1 <= i < |users| :: users[i] == users[1..][i - 1];
      r
  }

  /** Deleting a key keeps the invariant. */
  lemma DeleteOk(users: Users, nextId: Id, k: string)
    requires UsersOk(users, nextId)
    ensures UsersOk(JsMap.Delete(users, k), nextId)
  {
    var r := JsMap.Delete(users, k);
    forall i, j | 0 <= i < j < |r| ensures r[i].value.userId != r[j].value.userId {
      var a :| 0 <= a < |users| && users[a] == r[i];
      var b :| 0 <= b < |users| && users[b] == r[j];
    }
  }

  /** Deleting the entry of user `userId` removes exactly the users with that id: with distinct ids,
      the one the logout loop stops at. */
  lemma DeleteUserIdExactly(users: Users, nextId: Id, userId: Id)
    requires UsersOk(users, nextId) && HasUserId(users, Some(userId))
    ensures var r := JsMap.Delete(users, KeyOfUserId(users, Some(userId)).value);
      && |r| == |users| - 1
      && (forall i | 0 <= i < |r| :: r[i].value.userId != userId)
      && (forall i | 0 <= i < |users| && users[i].value.userId != userId :: users[i] in r)
  {
    var a := DeleteUserIdCuts(users, nextId, userId);
    RemoveAtUserId(users, a, userId, JsMap.Delete(users, KeyOfUserId(users, Some(userId)).value));
  }

  /** The entry deleted for `userId` is the one holding that id. */
  lemma DeleteUserIdCuts(users: Users, nextId: Id, userId: Id) returns (a: nat)
    requires UsersOk(users, nextId) && HasUserId(users, Some(userId))
    ensures a < |users| && users[a].value.userId == userId
    ensures JsMap.Delete(users, KeyOfUserId(users, Some(userId)).value) == users[..a] + users[a + 1..]
  {
    var k := KeyOfUserId(users, Some(userId)).value;
    var b :| 0 <= b < |users| && users[b].key == k && users[b].value.userId == userId;
    a := JsMap.IndexOf(users, k);
    assert a == b;
  }

  /** Cutting out the one entry with a given user id leaves every other entry and no entry with that id. */
  lemma RemoveAtUserId(users: Users, a: nat, userId: Id, r: Users)
    requires a < |users| && users[a].value.userId == userId && r == users[..a] + users[a + 1..]
    requires forall i, j | 0 <= i < j < |users| :: users[i].value.userId != users[j].value.userId
    ensures |r| == |users| - 1
    ensures forall i | 0 <= i < |r| :: r[i].value.userId != userId
    ensures forall i | 0 <= i < |users| && users[i].value.userId != userId :: users[i] in r
  {
    assert forall i | 0 <= i < |r| :: r[i] == if i < a then users[i] else users[i + 1];
    forall i | 0 <= i < |users| && users[i].value.userId != userId ensures users[i] in r {
      assert r[if i < a then i else i - 1] == users[i];
    }
  }

  /** The module-level `users` Map and `messages` array of the push server, with the fresh-id supplier. */
  class ChatState {
    var users: Users
    var messages: seq<Message>
    var nextId: Id

    ghost predicate Valid()
      reads this
    {
      UsersOk(users, nextId) && |messages| <= ChatLog.MAX_MESSAGES
    }

    constructor ()
      ensures Valid() && users == [] && messages == []
    {
      users, messages, nextId := [], [], 0;
    }

    /** The `for (const u of users.values()) if (u.userId === userId) { user = u; break; }` lookup. */
    method FindUser(userId: Option<Id>) returns (user: Option<User>)
      ensures user.Some? <==> HasUserId(users, userId)
      ensures user.Some? ==> user.value.userId == userId.value && exists i | 0 <= i < |users| :: users[i].value == user.value
    {
      user := None;
      var i := 0;
      while i < |users|
        invariant 0 <= i <= |users|
        invariant user.None? ==> forall j | 0 <= j < i :: Some(users[j].value.userId) != userId
        invariant user.Some? ==> userId.Some? && user.value.userId == userId.value && user.value in ValuesOf(users)
      {
        if Some(users[i].value.userId) == userId {
          user := Some(users[i].value);
          break;
        }
        i := i + 1;
      }
    }

    /** `POST /api/login` */
    method Login(username: Option<string>) returns (resp: Response)
      requires Valid()
      modifies this
      ensures Valid()
      ensures IsBlank(username) ==> resp == Failure(400, "Username is required") && unchanged(this)
      ensures !IsBlank(username) && JsMap.Has(old(users), Trim(username.value)) ==>
        resp == Failure(400, "Username already taken") && unchanged(this)
      ensures !IsBlank(username) && !JsMap.Has(old(users), Trim(username.value)) ==>
        var name, id := Trim(username.value), old(nextId);
        && users == old(users) + [JsMap.Entry(name, User(id, name, IsAdminIgnoringCase(name)))]
        && messages == old(messages)
        && resp == LoginOk(id, IsAdminIgnoringCase(name), ChatLog.Newest(messages, ChatLog.RECENT_COUNT), Roster(users))
        && UserView(name, IsAdminIgnoringCase(name)) in resp.onlineUsers
    {
      if IsBlank(username) {
        return Failure(400, "Username is required");
      }
      var name := Trim(username.value);
      if JsMap.Has(users, name) {
        return Failure(400, "Username already taken");
      }
      var id := nextId;
      var isAdmin := IsAdminIgnoringCase(name);
      var added := JsMap.Set(users, name, User(id, name, isAdmin));
      AddUserOk(users, added, nextId, name);
      InRoster(added, |users|);
      users, nextId := added, nextId + 1;
      resp := LoginOk(id, isAdmin, ChatLog.Newest(messages, ChatLog.RECENT_COUNT), Roster(users));
    }

    /** `POST /api/logout`: delete the first entry with this user id, if any; always succeeds. */
    method Logout(userId: Option<Id>) returns (resp: Response)
      requires Valid()
      modifies this
      ensures Valid()
      ensures resp == Success && messages == old(messages)
      ensures users == match KeyOfUserId(old(users), userId)
                       case None => old(users)
                       case Some(k) => JsMap.Delete(old(users), k)
    {
      var i := 0;
      var found := false;
      while i < |users| && !found
        invariant 0 <= i <= |old(users)|
        invariant messages == old(messages) && nextId == old(nextId)
        invariant !found ==> users == old(users) && forall j | 0 <= j < i :: Some(users[j].value.userId) != userId
        invariant found ==> KeyOfUserId(old(users), userId).Some? && UsersOk(users, nextId)
        invariant found ==> users == JsMap.Delete(old(users), KeyOfUserId(old(users), userId).value)
      {
        if Some(users[i].value.userId) == userId {
          KeyOfUserIdAt(users, i);
          DeleteOk(users, nextId, users[i].key);
          users := JsMap.Delete(users, users[i].key);
          found := true;
        } else {
          i := i + 1;
        }
      }
      if !found {
        NoKeyOfUserId(old(users), userId, i);
      }
      resp := Success;
    }

    /** `POST /api/send-message` */
    method SendMessage(userId: Option<Id>, message: Option<string>, now: int) returns (resp: Response)
      requires Valid()
      modifies this
      ensures Valid()
      ensures !HasUserId(old(users), userId) ==> resp == Failure(401, "User not found") && unchanged(this)
      ensures HasUserId(old(users), userId) ==>
        exists i | 0 <= i < |old(users)| :: old(users)[i].value.userId == userId.value &&
          var u := old(users)[i].value;
          var m := Posted(old(nextId), userId.value, u.username, message, now, u.isAdmin);
          && messages == ChatLog.Append(old(messages), m)
          && users == old(users)
          && resp == Sent(m)
    {
      var user := FindUser(userId);
      if user.None? {
        return Failure(401, "User not found");
      }
      var m := Posted(nextId, userId.value, user.value.username, message, now, user.value.isAdmin);
      messages := ChatLog.Append(messages, m);
      nextId := nextId + 1;
      resp := Sent(m);
    }

    /** `POST /api/admin/clear-chat` */
    method ClearChat(userId: Option<Id>) returns (resp: Response)
      requires Valid()
      modifies this
      ensures Valid()
      ensures IsAdminId(old(users), userId) ==> resp == Success && messages == [] && users == old(users)
      ensures !IsAdminId(old(users), userId) ==> resp == Failure(403, "Unauthorized") && unchanged(this)
    {
      var user := FindUser(userId);
      AdminIdByFind(users, nextId, userId, user);
      if user.None? || !user.value.isAdmin {
        return Failure(403, "Unauthorized");
      }
      messages := [];
      resp := Success;
    }

    /** The socket `chatMessage` handler: anyone connected may post; the log keeps at most 200. */
    method ChatMessage(payload: Payload)
      requires Valid()
      modifies this
      ensures Valid()
      ensures messages == ChatLog.Append(old(messages), Relayed(payload.id.GetOr(old(nextId)), payload.fields))
      ensures users == old(users)
    {
      messages := ChatLog.Append(messages, Relayed(payload.id.GetOr(nextId), payload.fields));
      nextId := nextId + 1;
    }

    /** The socket `clearChat` handler of a connection whose `currentUser` is given. */
    method ClearChatSocket(currentUser: Option<string>)
      requires Valid()
      modifies this
      ensures Valid()
      ensures IsAdminName(old(users), currentUser) ==> messages == [] && users == old(users)
      ensures !IsAdminName(old(users), currentUser) ==> unchanged(this)
    {
      var user := FindByName(users, currentUser);
      if user.Some? && user.value.isAdmin {
        messages := [];
      }
    }

    /** The socket `banUser` handler: an admin connection deletes the named user, if registered. */
    method BanUserSocket(currentUser: Option<string>, username: Option<string>)
      requires Valid()
      modifies this
      ensures Valid()
      ensures IsAdminName(old(users), currentUser) && username.Some? && JsMap.Has(old(users), username.value) ==>
        && users == JsMap.Delete(old(users), username.value)
        && FindByName(users, username).None?
        && messages == old(messages)
      ensures !(IsAdminName(old(users), currentUser) && username.Some? && JsMap.Has(old(users), username.value)) ==>
        unchanged(this)
    {
      var user := FindByName(users, currentUser);
      if user.Some? && user.value.isAdmin {
        var banned := FindByName(users, username);
        if banned.Some? {
          FindByNameIsLookup(users, nextId, username.value);
          DeleteOk(users, nextId, username.value);
          users := JsMap.Delete(users, username.value);
          FindByNameIsLookup(users, nextId, username.value);
        } else if username.Some? {
          FindByNameIsLookup(users, nextId, username.value);
        }
      }
    }

    /** The socket `disconnect` handler: the loop over `users.entries()` deletes the entry whose user
        has the connection's name. */
    method Disconnect(currentUser: Option<string>)
      requires Valid()
      modifies this
      ensures Valid()
      ensures messages == old(messages)
      ensures currentUser.Some? && currentUser.value != "" ==> users == JsMap.Delete(old(users), currentUser.value)
      ensures !(currentUser.Some? && currentUser.value != "") ==> unchanged(this)
    {
      if currentUser.None? || currentUser.value == "" {
        return;
      }
      var name := currentUser.value;
      var i := 0;
      while i < |users|
        invariant 0 <= i <= |users|
        invariant users == old(users) && messages == old(messages) && nextId == old(nextId)
        invariant forall j | 0 <= j < i :: users[j].value.username != name
      {
        if users[i].value.username == name {
          DeleteOk(users, nextId, users[i].key);
          users := JsMap.Delete(users, users[i].key);
          break;
        }
        i := i + 1;
      }
      if users == old(users) {
        assert !JsMap.Has(users, name);
      }
    }
  }

  /** The per-connection state of a socket: the name its `login` event announced, not checked
      against the registered users. */
  class Connection {
    var currentUser: Option<string>

    constructor ()
      ensures currentUser == None
    {
      currentUser := None;
    }

    /** The socket `login` handler. */
    method Login(username: Option<string>)
      modifies this
      ensures currentUser == username
    {
      currentUser := username;
    }
  }

  /** Logging out with the id that login returned undoes the login: the roster is as before. */
  lemma LoginLogoutRoundTrip(users: Users, nextId: Id, name: string)
    requires UsersOk(users, nextId) && !JsMap.Has(users, name)
    ensures var e := JsMap.Entry(name, User(nextId, name, IsAdminIgnoringCase(name)));
      && KeyOfUserId(users + [e], Some(nextId)) == Some(name)
      && JsMap.Delete(users + [e], name) == users
  {
    var e := JsMap.Entry(name, User(nextId, name, IsAdminIgnoringCase(name)));
    var added := users + [e];
    assert added[|users|] == e;
    KeyOfUserIdAt(added, |users|);
    JsMap.DeleteAt(users, e, []);
    assert users + [e] + [] == added;
    assert users + [] == users;
  }

  /** The values of a map, as a set. */
  function ValuesOf(users: Users): set<User> {
    set i | 0 <= i < |users| :: users[i].value
  }

  /** The acting user (found by id) exists and is an admin. */
  predicate IsAdminId(users: Users, userId: Option<Id>) {
    userId.Some? && exists i | 0 <= i < |users| :: users[i].value.userId == userId.value && users[i].value.isAdmin
  }

  /** The connection's user (found by name) exists and is an admin. */
  predicate IsAdminName(users: Users, currentUser: Option<string>) {
    var u := FindByName(users, currentUser);
    u.Some? && u.value.isAdmin
  }

  /** With distinct user ids, the id lookup decides the admin check. */
  lemma AdminIdByFind(users: Users, nextId: Id, userId: Option<Id>, user: Option<User>)
    requires UsersOk(users, nextId)
    requires user.Some? <==> HasUserId(users, userId)
    requires user.Some? ==> user.value.userId == userId.value && exists i | 0 <= i < |users| :: users[i].value == user.value
    ensures IsAdminId(users, userId) <==> user.Some? && user.value.isAdmin
  {
    if IsAdminId(users, userId) {
      var i :| 0 <= i < |users| && users[i].value.userId == userId.value && users[i].value.isAdmin;
      var j :| 0 <= j < |users| && users[j].value == user.value;
      assert i == j;
    }
  }

  /** Registering a fresh name with the next id keeps the invariant. */
  lemma AddUserOk(users: Users, added: Users, nextId: Id, name: string)
    requires UsersOk(users, nextId) && JsMap.Wf(added)
    requires added == users + [JsMap.Entry(name, User(nextId, name, IsAdminIgnoringCase(name)))]
    ensures UsersOk(added, nextId + 1)
  {
  }

  lemma KeyOfUserIdAt(users: Users, i: nat)
    requires i < |users|
    requires forall j | 0 <= j < i :: users[j].value.userId != users[i].value.userId
    ensures KeyOfUserId(users, Some(users[i].value.userId)) == Some(users[i].key)
  {
    if i > 0 {
      assert forall j | 0 <= j < i - 1 :: users[1..][j] == users[j + 1];
      KeyOfUserIdAt(users[1..], i - 1);
    }
  }

  lemma NoKeyOfUserId(users: Users, userId: Option<Id>, i: nat)
    requires i == |users| && forall j | 0 <= j < i :: Some(users[j].value.userId) != userId
    ensures KeyOfUserId(users, userId).None?
  {
  }
}
