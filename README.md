# Chat state engine

A model of the server side of a small real-time chat application. Two Express servers keep all
shared state in module-level containers and change it in request and socket handlers:

- `server_new.js`, the *pull* server. It holds a `users` Map keyed by a server-issued user id
  (name, admin flag, last activity), the `messages` log and a `typingUsers` Map. Clients log in,
  post messages and typing signals, and poll `/api/messages` with the id of the last message they
  saw. A poll returns everything after that cursor (or the newest 50), the names of users typing
  within the last 3 seconds, and the users active within the last 10 seconds. An administrator may
  clear the log or remove ("ban") a user.
- `server.js`, the *push* server. It holds a `users` Map keyed by display name and the `messages`
  log. Its HTTP handlers log in and out, post and clear. Its socket handlers relay a client's
  message into the log, clear the log, remove a user and drop a user when a connection closes. The
  admin flag is a case-insensitive comparison with `admin` here.

Layout:

| file | module | contents |
|---|---|---|
| `wrappers.dfy` | `Wrappers` | `Option`, for missing request fields |
| `names.dfy` | `Names` | `String.prototype.trim`, `toLowerCase`, the admin-name tests |
| `chat_log.dfy` | `ChatLog` | the capped log: `push` and one `shift` past 200, and `slice(-50)` |
| `js_map.dfy` | `JsMap` | a JavaScript `Map` as the sequence of its entries in insertion order |
| `pull_server.dfy` | `PullServer` | the state and handlers of `server_new.js` |
| `push_server.dfy` | `PushServer` | the state and handlers of `server.js` |

Each server is a `ChatState` class with a field per module-level container and a method per
handler. Every handler method requires and ensures `Valid()` and states its whole new state in
terms of the old one. An HTTP handler method also:

- returns the HTTP response as a `Response` value;
- on every rejected request, states the exact status and error text and that nothing changed.

The push server's socket handlers (`ChatMessage`, `ClearChatSocket`, `BanUserSocket`,
`Disconnect`) return nothing, because the code only emits events from them. The socket's own
`currentUser` lives in the separate `PushServer.Connection` class, which has no invariant.

The invariant is stated on values (`UsersOk`, `TypingOk`, `LogOk`). The lemmas next to it show
that each kind of change keeps it.

How the environment is represented:

- **Fresh ids.** `uuidv4()` is a counter field `nextId`: every issued id is below it, and it
  advances by one for each id a successful handler hands out.
- **Clock.** Every `Date.now()` and `new Date()` inside one handler is the same instant, the
  parameter `now` (milliseconds).
- **Request fields.** A missing field is `None`. A present field keeps its value, the empty
  string included. Where the code tests a field for truthiness (`username`, the pull server's
  `content`, the socket's `currentUser`), the handler itself treats `""` like a missing field. An
  id field (`userId`, `lastId`, `replyTo`) is an id or `None`; an empty string is not an id, and
  the code rejects or ignores it exactly as it does a missing one. The default `"text"` for
  `type` applies only when `type` is missing. `replyToUsername`, `replyToContent` and the push
  server's `message` are copied as given, `""` included.
- **Socket connections.** The per-connection `currentUser` of a socket is the
  `PushServer.Connection` class. The push socket handlers take its value as a parameter.

Three behaviours of the code that a reader might not expect:

- In `server_new.js` only `send-message` trims the log to 200. The join, leave and ban system
  messages are pushed without a `shift` (server_new.js:94, 120, 271), so the pull server's log can
  exceed 200 entries. `PullServer.ChatState.Login`, `Logout` and `BanUser` state a plain
  append.
- The pull server keeps no ban list. A banned user's next request gets the generic
  "Invalid user ID" error, and the name can be registered again at once.
- Clearing the push server's log leaves it empty. No system marker is added in `server.js`.

## Model

| member | source | states |
|---|---|---|
| Names.IsBlank | server_new.js:68 | defines the rejected login name: missing, or nothing but white space once trimmed; the push server applies the same test at server.js:143 |
| Names.IsAdminIgnoringCase | server.js:155 | defines the push server's admin flag: the lower-cased name equals `admin` |
| Names.TrimStart | server_new.js:72 | the result is a suffix of the input, what it drops is all white space, and it does not begin with white space |
| Names.TrimEnd | server_new.js:72 | the result is a prefix of the input, what it drops is all white space, and it does not end with white space |
| Names.Trim | server_new.js:68-72 | the trimmed name is no longer than the input, is empty exactly when the input is all white space, and otherwise neither starts nor ends with white space |
| Names.PaddingOf | server.js:143-147 | cutting a white-space prefix and then a white-space suffix leaves a piece of the input with only white space around it |
| Names.TrimStripsPadding | server.js:143-147 | the trimmed name is a contiguous piece of the input with only white space before and after it |
| Names.ToLower | server.js:155 | lower-casing keeps the length and lowers each ASCII capital in place |
| Names.AdminIgnoringCase | server.js:155 | a name is the push server's admin name exactly when it has five letters, each the upper or lower case of the letter of "admin" at that position |
| ChatLog.Newest | server.js:174 | `slice(-n)` returns `n` entries, or all of a shorter log, and they are the log's last entries in log order |
| ChatLog.Append | server.js:227-228 | push then shift: the log grows by one until it holds 200; the new message is last; it follows the old log's newest entries in their order |
| ChatLog.AppendWithinBound | server.js:74-75 | a log of at most 200 stays within 200 after an append, and the result is exactly the newest 200 of the old log plus the message |
| ChatLog.AppendAllLong | server_new.js:189-190 | on a log already at or over 200 entries, each capped append drops exactly the oldest entry, so the log keeps its length and ends with the appended messages |
| ChatLog.AppendAllKeepsNewest | server_new.js:189-190 | any number of capped appends to a log within the bound leave exactly the newest 200 of everything, in order |
| JsMap.Has | server_new.js:108 | defines `has`: some entry carries the key |
| JsMap.Get | server_new.js:112 | `get` of a present key returns the value of the entry holding that key |
| JsMap.IndexOf | server_new.js:108 | the position of the first entry with the key, or -1 exactly when the key is absent |
| JsMap.Set | server_new.js:86 | `set` keeps the keys distinct; a present key has its value replaced in place and every other entry is kept; a new key is appended at the end |
| JsMap.Delete | server_new.js:122-123 | `delete` keeps the keys distinct; the key is absent afterwards; exactly the entries with other keys remain, in order; an absent key changes nothing |
| JsMap.SetSemantics | server_new.js:205-208 | after `set(k, v)`, `get(k)` is `v` and every other key keeps its presence and its value |
| JsMap.SetTwice | server_new.js:205-208 | the last write wins: two `set`s on one key equal the second alone |
| JsMap.DeleteAt | server_new.js:145 | deleting the key of an entry between `a` and `b` leaves exactly `a + b` |
| PullServer.Registered | server_new.js:108 | defines the id guard every pull handler shares (also at lines 131, 164, 198, 231 and 254): the id is given and is a key of `users` |
| PullServer.NameTaken | server_new.js:75 | defines the `some` test: some user already has the name |
| PullServer.IsOnline | server_new.js:56 | defines liveness: last active less than 10000 ms before now |
| PullServer.Expired | server_new.js:144 | defines an expired typing entry: its timestamp more than 3000 ms before now |
| PullServer.ShowsTyping | server_new.js:143-151 | defines a reported typing entry: not expired, not the requester, typing, and its key a user with a non-empty name |
| PullServer.NextCursor | public/script_new.js:81-83 | defines the client's cursor after a poll: the id of the last message received, or the old cursor if none |
| PullServer.FindByName | server_new.js:263 | `find` by name succeeds exactly when some user has that name, and returns such a user |
| PullServer.OnlineUsers | server_new.js:53-62 | the online list is no longer than the registry |
| PullServer.OnlineUsersExactly | server_new.js:53-62 | `getOnlineUsers` lists every user active less than 10000 ms ago and nobody else |
| PullServer.JoinedIsOnline | server_new.js:84-101 | a user who has just logged in is in the online list the login returns |
| PullServer.TouchedIsOnline | server_new.js:136-157 | a poller, just marked active, is in the online list its poll returns |
| PullServer.Purge | server_new.js:142-147 | the poll's filter never adds typing entries |
| PullServer.PurgeExactly | server_new.js:142-147 | after the poll's filter, `typingUsers` holds exactly the entries not older than 3000 ms, with keys still distinct |
| PullServer.TypingNames | server_new.js:142-151 | the list of typing names is no longer than the typing map |
| PullServer.TypingNamesExactly | server_new.js:142-151 | the reported names are exactly those of fresh, typing entries of registered users other than the requester |
| PullServer.FindIndex | server_new.js:138 | `findIndex` returns the first position holding the id, or -1 exactly when no message has it |
| PullServer.Delta | server_new.js:138-139 | a cursor found in the log yields the messages after it, and the log is some prefix ending at the cursor followed by the result; an absent or unknown cursor yields the newest 50 |
| PullServer.DeltaAfter | server_new.js:138-139 | with distinct ids, the cursor at position `i` yields exactly the messages after `i` |
| PullServer.NextCursorIsNewest | public/script_new.js:79-84 | after any poll of a non-empty log (no cursor, an unknown one or a found one), the client's cursor is the id of the log's newest message |
| PullServer.PollAfterNewest | server_new.js:138-139 | polling with the newest message's id, after messages were appended and any number of the oldest were evicted, returns exactly the appended messages, as long as the cursor's message is still in the log |
| PullServer.ConsecutivePolls | public/script_new.js:79-84 | whatever the first cursor, a client that advances its cursor as the client script does and polls again, after appends and evictions that keep its cursor's message, receives exactly the new messages: nothing repeated, nothing skipped |
| PullServer.PollAfterCappedAppends | server_new.js:189-190 | with the capped `push` and `shift`, fewer than 200 messages sent between two consecutive polls are received exactly, whatever the first poll's cursor and however long the log already was (it can exceed 200 after uncapped system messages) |
| PullServer.EvictedCursorFallsBack | server_new.js:138-139 | once the cursor's message has been evicted, the poll returns the newest 50 messages of the log, so a client behind by more than that misses messages |
| PullServer.RepeatedPollSeesPrefix | server_new.js:138-139 | re-polling with the same found cursor after appends and evictions that keep that cursor's message returns the first result followed by the appended messages |
| PullServer.LogOkAppend | server_new.js:175-190 | a message with a fresh id appended under the cap keeps message ids distinct and issued |
| PullServer.AddUserOk | server_new.js:75-86 | registering a free name under a fresh id keeps ids and names unique and typing state tied to registered users |
| PullServer.TouchOk | server_new.js:135-136 | updating a user's `lastActive` keeps the invariant |
| PullServer.RemoveOk | server_new.js:122-123 | deleting a user and that user's typing entry keeps the invariant |
| PullServer.RemoveFreesName | server_new.js:122 | after a user is deleted no remaining user holds that name, so it can be registered again |
| PullServer.PurgeStepExpired | server_new.js:144-146 | deleting one expired entry from the live map during the filter advances the purge by one entry |
| PullServer.PurgeOk | server_new.js:145 | purging expired typing entries keeps typing state tied to registered users |
| PullServer.SetTypingOk | server_new.js:205-208 | recording the typing signal of a registered user keeps the invariant |
| PullServer.ChatState.constructor | server_new.js:18-20 | the server starts with no users, no messages and no typing state |
| PullServer.ChatState.Login | server_new.js:65-103 | a missing or blank name gets 400 "Username is required" and a name any user holds gets 400 "Username already taken", both with no change; otherwise exactly one user (trimmed name, admin exactly when the name is "admin", active now) and one "joined" system message are added, and the response carries the newest 50 messages and the online users, the new user among them |
| PullServer.ChatState.Join | server_new.js:79-102 | the accepted login: one user and one "joined" message are added and the response carries the newest 50 messages and the online users, the new user among them |
| PullServer.ChatState.Logout | server_new.js:105-126 | an unknown id gets 400 "Invalid user ID" with no change; otherwise one "left" system message is appended, the user's user and typing entries are deleted and the name is free |
| PullServer.ChatState.Poll | server_new.js:128-159 | an unknown id gets 400 with no change; otherwise the caller becomes active now, the log is unchanged, expired typing entries are deleted, and the response is the delta after the cursor, the typing names and the online users (the caller among them) |
| PullServer.ChatState.FilterTyping | server_new.js:141-151 | the filter over a snapshot of the typing entries leaves the purged map and returns the typing names; users and messages are unchanged |
| PullServer.ChatState.FilterStep | server_new.js:143-149 | one entry of the filter: an expired entry is deleted from the live map, a shown entry contributes its user's name |
| PullServer.ChatState.SendMessage | server_new.js:161-193 | an unknown id gets 400 "Invalid user ID" and empty content 400 "Message content is required", both with no change; otherwise the sender becomes active now and the message (kind defaulting to "text", reply fields copied only when `replyTo` is given) is appended under the cap of 200 |
| PullServer.ChatState.SetTyping | server_new.js:195-211 | an unknown id gets 400 with no change; otherwise the caller becomes active now and its typing entry is upserted with the signal and `now` |
| PullServer.ChatState.ClearChat | server_new.js:228-249 | an unknown id gets 400 and a non-admin 403 "Unauthorized", both with no change; for an admin the log becomes exactly one "Chat cleared by admin" system message |
| PullServer.ChatState.BanUser | server_new.js:251-279 | an unknown id gets 400, a non-admin 403 and a name nobody holds 400 "User not found", all with no change; otherwise the target's user and typing entries are deleted, one ban system message is appended and the name is free |
| PullServer.ChatState.Remove | server_new.js:114-123 | logout and ban: the user's user and typing entries are deleted, one system message is appended and no remaining user holds the name |
| PushServer.Roster | server.js:165-168 | the roster has one entry per entry of `users` |
| PushServer.RosterOfKeys | server.js:165-168 | under the invariant the roster lists each of the Map's keys once, in insertion order, each with the case-insensitive admin flag of that name, and no name twice |
| PushServer.InRoster | server.js:165-168 | every registered user's name and admin flag appear in the roster |
| PushServer.HasUserId | server.js:207-214 | defines the lookup loop's success: some user has the id |
| PushServer.IsAdminId | server.js:253-260 | defines the HTTP admin check: the user with the id exists and is an admin |
| PushServer.IsAdminName | server.js:89-90 | defines the socket admin check: the user found by the connection's name exists and is an admin |
| PushServer.FindByName | server.js:89 | `find` by name succeeds exactly when a name is given and some user has it, and returns such a user |
| PushServer.FindByNameIsLookup | server.js:97-101 | since every user is keyed by its own name, finding by name is the same as the Map lookup |
| PushServer.KeyOfUserId | server.js:183-188 | the logout loop finds a key exactly when some user has the id, and that key's user has the id |
| PushServer.AddUserOk | server.js:155-162 | inserting a free trimmed name with a fresh id and the case-insensitive admin flag keeps the invariant |
| PushServer.DeleteOk | server.js:185 | deleting any key keeps the invariant |
| PushServer.DeleteUserIdCuts | server.js:183-188 | the entry logout deletes for an id is the one holding that id, and deleting it cuts exactly that entry out |
| PushServer.RemoveAtUserId | server.js:185 | with distinct ids, cutting out the entry with an id leaves every other user and nobody with that id |
| PushServer.DeleteUserIdExactly | server.js:183-188 | with distinct ids, logout removes exactly one entry, the one with that id, and keeps every other user |
| PushServer.LoginLogoutRoundTrip | server.js:183-188 | logging out with the id a login returned finds the new name and restores the roster exactly as it was before the login |
| PushServer.AdminIdByFind | server.js:253-262 | with distinct ids, the result of the lookup loop decides the admin check |
| PushServer.ChatState.constructor | server.js:21-22 | the server starts with no users and no messages |
| PushServer.ChatState.FindUser | server.js:206-212 | the lookup loop finds a user exactly when some user has the id, and the user found has it |
| PushServer.ChatState.Login | server.js:140-177 | a missing or blank name gets 400 "Username is required" and a trimmed name already in the Map 400 "Username already taken", both with no change; otherwise exactly one entry keyed by the trimmed name is appended, with the case-insensitive admin flag, and the response carries the newest 50 messages and the roster, the new user among them |
| PushServer.ChatState.Logout | server.js:179-191 | always succeeds; deletes the entry the loop finds for the id, if any, and nothing else |
| PushServer.ChatState.SendMessage | server.js:202-231 | an unknown id gets 401 "User not found" with no change; otherwise a message carrying the sender's name and admin flag is appended under the cap of 200 and returned |
| PushServer.ChatState.ClearChat | server.js:248-266 | the log is emptied exactly when the id belongs to an admin; otherwise 403 "Unauthorized" with no change |
| PushServer.ChatState.ChatMessage | server.js:68-78 | the relayed message (with the client's own id if it sent one) is appended under the cap of 200; users are unchanged |
| PushServer.ChatState.ClearChatSocket | server.js:88-94 | the log is emptied exactly when the connection's name belongs to an admin; otherwise nothing changes |
| PushServer.ChatState.BanUserSocket | server.js:96-113 | an admin connection deletes a registered target, after which no user has that name; any other request changes nothing |
| PushServer.ChatState.Disconnect | server.js:115-136 | a connection with a non-empty name deletes that name's entry; otherwise nothing changes |
| PushServer.Connection.constructor | server.js:51 | a new connection has no current user |
| PushServer.Connection.Login | server.js:53-55 | the socket `login` event sets the connection's current user to the name sent, unchecked |

## Left out

- HTTP and socket transport: Express, CORS, static files and the `listen` bootstrap. The model takes each handler's request fields as parameters and returns its response as a value.
- Socket delivery: `io.emit` and `socket.broadcast.emit` (the `userJoined`, `userLeft`, `chatMessage`, `chatCleared` and `error` events). The model keeps only the state change of each socket handler.
- The socket `typing` and `stopTyping` handlers: they change no state and only broadcast.
- File upload (`/api/upload`, the multer storage and its file-type filter) and `fs.mkdirSync`: disk I/O through a foreign library, with no effect on the chat state.
- The client scripts. Only the cursor rule of `public/script_new.js` appears, as `PullServer.NextCursor` in `ConsecutivePolls`.
- A client whose cursor's message was evicted by the 200-message cap does not receive every message: `PullServer.EvictedCursorFallsBack` states what it receives instead (the newest 50), and the exact-delivery lemmas `ConsecutivePolls`, `PollAfterNewest` and `RepeatedPollSeesPrefix` require the cursor's message to be still in the log.
- `uuidv4()` is a counter. The model does not capture an id spent by a rejected login, because no one can observe it.
- `Date.now()` and `new Date().toISOString()` are one integer instant per handler. The model does not capture clock readings that differ within one handler, or the ISO timestamp format.
- Names.ToLower: lowers ASCII letters only, because full Unicode case mapping is not modelled. The only inputs where this could change the admin test would need a non-ASCII character that lower-cases to one of the letters of "admin".
- PushServer.ChatState.ChatMessage: the client payload is an id plus a `map<string, string>` of other fields. The model does not capture non-string JSON values or a payload that is not an object.
- Request fields are typed values: user ids and cursors are ids or `None`, `isTyping` is a boolean, and content and names are strings or `None`. JavaScript truthiness of other JSON types is not modelled.
- Concurrency: each handler runs to completion on one event loop, so each is one sequential method.
