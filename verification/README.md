# Real-time chat session coordinator — Dafny model

This project models the session coordinator of a Socket.io chat server and
the client-side state rules that mirror it. The server keeps four in-memory
maps: `users`, `typingUsers`, `messages` (per room, capped at 100) and
`unreadCounts` (per socket, per room). Socket event handlers update these
maps and emit events to everybody, to a room, or to one socket. An HTTP
route serves the history of a room in pages of 20.

Node runs each handler to completion on one event loop. So each handler is
modelled as a pure function from a state to a `Step`: the new state plus the
emitted events in order. Each event pairs a `Target` with a payload. A
target names who an emission is addressed to: `io.emit`,
`io.to(room).emit`, `socket.to(room).emit` or `socket.emit`. `Recipients`
turns a target into the live sockets it reaches. It uses socket.io's room
membership: every socket starts in a room named by its own id.
`socket.to(room).emit` skips every socket that is in the room named by the
emitting socket's id, not only the emitting socket. A sender that has left
its own room therefore gets no exclusion from it. Such a sender, also in room
`to`, receives a private message twice.

Modules:

- `Assoc` — ordered association lists. They stand for JavaScript objects
  whose key order shows through `Object.values`. Re-assigning a key keeps
  its position. Deleting a key and adding it again moves it to the end.
- `History` — the 100-message FIFO store of a room.
- `Paging` — JavaScript `slice` and the `/api/messages` page arithmetic.
- `Server` — the state, the socket.io rooms, and one function per handler.
- `Coordinator` — the inbound events as an action type, the invariant,
  and the proof that every reachable state keeps it.
- `Text` — the whitespace test behind `trim()`.
- `ClientSocket` — the client hook's state and its list and map updates.
- `ChatView` — the pure logic of the chat page.
- `Session` — lemmas that connect the server's emissions to what the
  client shows.

Modelling choices:

- Message ids and timestamps are inputs. `now` is the `Date.now()` value
  and `iso` is the ISO timestamp string. The code does not make message
  ids unique, and neither does the model.
- An empty string stands for any falsy room or `currentRoom` value, so
  `room || "general"` becomes `RoomOrDefault`.
- socket.io removes a closing socket from all its rooms before the
  `disconnect` handler runs. `Server.Disconnect` therefore drops the socket
  first, and no event it emits can reach the departing socket.
- Handlers other than `connection` run only for a live socket. `Coordinator.Enabled`
  states this, and `Coordinator.Run` skips any event that socket.io would not deliver.
- The server never calls an acknowledgment callback. So the client's
  reconciliation (`ClientSocket.Reconcile`) is modelled on its own and is
  never triggered. `Session.SenderSeesMessageTwice` shows the consequence:
  a sender in the room sees its own message twice, and the provisional
  copy is never marked delivered.
- The client starts with `currentRoom` set to "general", and
  `joinRoom("general")` does nothing there. `Session.GeneralNotJoinedAtStart`
  shows that a new socket is therefore in no chat room, and broadcasts to
  "general" do not reach it until the user switches rooms.
- `Chat.jsx` calls `setMessages` (line 82) and `setUnreadCounts` (line 98),
  but neither is defined in that scope: `useSocket` does not return them.
  The model applies the intended updates and does not model the runtime
  errors these calls would raise.

## Model

| member | source | states |
|---|---|---|
| Assoc.Keys | server/server.js:96 | Object.keys lists one key per entry, in insertion order, the i-th key being the i-th entry's key |
| Assoc.Values | server/server.js:138 | Object.values lists one value per entry, in insertion order, the i-th value being the i-th entry's value |
| Assoc.Get | server/server.js:122 | `users[socket.id]` is defined exactly when the key is present, and then it is the value stored under that key |
| Assoc.Put | server/server.js:123 | Assigning a property keeps an existing key in its position and appends a new key at the end; the key set grows by exactly that key |
| Assoc.PutSpec | server/server.js:123 | After the assignment the key reads as the new value, every other key reads as before, and keys stay distinct |
| Assoc.PutInPlace | server/server.js:48 | Re-assigning a key that is present rewrites its entry where it stands, so the key order is unchanged |
| Assoc.Remove | server/server.js:124 | Deleting a property removes exactly that key and leaves a list without the key unchanged |
| Assoc.RemoveSpec | server/server.js:135-137 | After a delete the key is undefined, other keys read as before, every remaining entry comes from the list, and keys stay distinct |
| Assoc.RemoveInPlace | server/server.js:135-136 | Deleting a present key closes its gap: the entries before it and after it keep their order |
| History.Push | server/server.js:84-90 | A push to a history of at most 100 gives the newest 100 of old-plus-new: plain append below 100, drop-first-then-append at 100, the new message last |
| History.PushAllKeepsWindow | server/server.js:84-90 | Any run of sends leaves exactly the most recent 100 messages, oldest first |
| History.EvictsOldest | server/server.js:87-90 | 101 messages into an empty room leave exactly 100, with the first one evicted |
| Paging.SliceIndex | server/server.js:153 | slice clamps an index above the length to the length and counts a negative index back from the end, never below 0 |
| Paging.Slice | server/server.js:153 | `slice(start, end)` with both indices in range is exactly `s[start..end]`; in general it holds as many elements as the resolved end exceeds the resolved start, and none when it does not |
| Paging.SliceAt | server/server.js:153 | The k-th element of a slice is the element k places after the resolved start |
| Paging.Page | server/server.js:149-153 | An in-range page p is history[max(L-20(p+1),0) .. L-20p), holding at most 20 messages; 20p = L gives empty; for L < 20p < 2L it is history[..2L-20p); past 2L and for negative p it is empty |
| Paging.PagesAdjacent | server/server.js:150-153 | Pages p+1 and p placed side by side form one contiguous run of the history, with no gap and no overlap |
| Paging.LoadedInRange | server/server.js:150-153 | Pages n-1 down to 0 joined together are exactly the newest 20n messages while 20n is at most L |
| Paging.PagePastEndRepeats | server/server.js:151-153 | As written, a 30-message history yields page 2 = oldest 20, overlapping page 1; a 39-message history yields a 38-message page 2 |
| Paging.PageIntended | server/server.js:150-153 | The corrected page is empty exactly when p is negative or 20p reaches L, agrees with the formula in range, and never exceeds 20 |
| Paging.LoadedIntendedIsSuffix | server/server.js:150-153 | With the corrected page, pages 0, ..., n-1 of one unchanged history join into a suffix of it: the whole history once 20n reaches L, each message once |
| Server.Connect | server/server.js:40-44 | A new connection gets zero counters for general, sports and tech. The socket is live, in exactly its own room and with no current room. Other sockets and their counters are unchanged, and nothing is emitted |
| Server.UserJoin | server/server.js:47-52 | The id then reads as {id, username}, and every other id reads as before. A re-join rewrites the entry where it stands, and a first join appends it. The new user list, then the join, go to everybody |
| Server.JoinRoom | server/server.js:55-68 | The socket ends in the new room and out of its previous one, and stays in every other room it was in, its own-id room included. Only this socket's counter for that room becomes 0, and the one emission is the counters, to this socket |
| Server.FanOut | server/server.js:95-102 | The fan-out keeps the set of sockets that have counters |
| Server.FanOutCounts | server/server.js:95-99 | Every listed id other than the sender has its room counter raised by one, a missing counter counting as 0. Its other counters are kept |
| Server.FanOutKeeps | server/server.js:95-99 | The sender's counters and the counters of every id not listed are unchanged |
| Server.FanOutEvents | server/server.js:95-101 | Each listed id other than the sender gets one unread_counts emission to its own room, in key order, showing its new counters |
| Server.SendMessage | server/server.js:71-103 | The room defaults to general and the message is stored in it, with oldest-first eviction at 100; other rooms are unchanged. The message goes to the room, and every joined user except the sender gets the room counter raised whatever room they are in |
| Server.Posted | server/server.js:84-90 | The room's history gains the message last and drops its oldest past 100. Other rooms are unchanged |
| Server.SendPrivate | server/server.js:106-118 | No state changes. One message is emitted twice: to room `to` minus the sender's room, and back to the sender. It carries the Date.now() id, the sender's name or Anonymous, the sender's id, the text and the timestamp, with isPrivate true and no room |
| Server.Typing | server/server.js:121-127 | A socket that has not joined changes nothing and emits nothing. Otherwise true makes the id read as the user's name, rewriting an existing entry in place or appending a new one. false deletes the entry and closes the gap, and leaves a list without it unchanged. Other ids read as before, and the typing names are broadcast in key order |
| Server.TypingNames | server/server.js:123-124 | The typingUsers update alone: set-in-place or append for true, delete-and-close-the-gap for false, other ids untouched |
| Server.Disconnect | server/server.js:130-140 | The id leaves the sockets, users, typingUsers and unreadCounts, with nothing else changed. user_left goes out only if the id had joined, then the user and typing lists always go to everybody |
| Server.DisconnectKeepsOrder | server/server.js:135-139 | Deleting the id closes its gap in users and typingUsers, so the other entries and the broadcast lists keep their order. An id that never joined or typed leaves those lists unchanged |
| Server.Departed | server/server.js:135-137 | The state a disconnect leaves: the id gone from sockets, users, typingUsers and unreadCounts, the gaps closed in order, and the histories unchanged |
| Server.Farewell | server/server.js:131-139 | user_left with the stored name only for a joined id, then the remaining user list and typing names, all to everybody |
| Server.HistoryPage | server/server.js:144-155 | The room defaults to general; an unknown room gives an empty page; an in-range page is the exact 20-message slice |
| Coordinator.ConnectPreservesInv | server/server.js:43-44 | Connect keeps the invariant: typing ⊆ users ⊆ unreadCounts = live sockets, distinct keys, counters ≥ 0, histories ≤ 100 |
| Coordinator.UserJoinPreservesInv | server/server.js:47-49 | user_join from a live socket keeps the invariant |
| Coordinator.JoinRoomPreservesInv | server/server.js:55-65 | join_room keeps the invariant |
| Coordinator.SendMessagePreservesInv | server/server.js:84-102 | send_message keeps the invariant: counters stay non-negative and every history stays within 100 |
| Coordinator.TypingPreservesInv | server/server.js:121-126 | typing keeps typingUsers within users |
| Coordinator.DisconnectPreservesInv | server/server.js:130-139 | disconnect keeps the invariant |
| Coordinator.Apply | server/server.js:40-141 | Every handler socket.io can deliver keeps the invariant |
| Coordinator.Run | server/server.js:40-141 | Any sequence of delivered events leads to a state that satisfies the invariant |
| Coordinator.ReachableSatisfiesInv | server/server.js:96-99 | In every reachable state each joined user has an unreadCounts entry, so the dereference in the fan-out never fails, and every counter is ≥ 0 |
| Coordinator.DisconnectPurges | server/server.js:135-139 | After a disconnect the broadcast user list names no user with that id and no emission reaches the socket |
| Coordinator.DisconnectKeepsOthers | server/server.js:135-136 | A disconnect leaves every other users and typingUsers entry as it was |
| Coordinator.RemoveDropsOwner | server/server.js:135 | Deleting a key from a users map that records its key as id removes every user with that id |
| Coordinator.PrivateEchoOnce | server/server.js:116-117 | The echo reaches the sender exactly once. The first emission reaches the sender only when it is in room `to` and has left its own room. A live recipient gets it exactly when it is in room `to` and not in the room named by the sender's id |
| Coordinator.RoomBroadcastReachesMembers | server/server.js:93 | receive_message reaches exactly the live sockets in the room |
| Coordinator.UnreadCountsOthersSends | server/server.js:95-102 | For any run of sends to a room by other sockets, whatever their texts and clocks, a joined user's counter for that room grows by exactly the number of sends |
| Coordinator.SendAll | server/server.js:71-103 | A run of sends keeps the invariant and the user list |
| Text.TrimStart | client/src/pages/Chat.jsx:35 | Trimming the front leaves a suffix of the input whose dropped prefix is all white space and whose first character is not white space |
| Text.TrimEnd | client/src/pages/Chat.jsx:35 | Trimming the back leaves a prefix of the input whose dropped suffix is all white space and whose last character is not white space |
| Text.Trim | client/src/pages/Chat.jsx:42 | `trim()` is never longer than its input, starts and ends with a character that is not white space, and is empty exactly when the input is all white space |
| ClientSocket.InitialUnread | client/src/socket/socket.js:26 | The client starts with counters 0 for exactly general, sports and tech |
| ClientSocket.Connect | client/src/socket/socket.js:32-37 | connect opens the socket first and emits user_join exactly when the name is non-empty |
| ClientSocket.SendMessage | client/src/socket/socket.js:45-61 | Exactly one record is appended and earlier records are unchanged. It has id tmp-now, sender You, isPrivate false, delivered false and the given room, and send_message is emitted |
| ClientSocket.SendPrivateMessage | client/src/socket/socket.js:74-95 | As the room send, but the record is private, has no room and carries `to` |
| ClientSocket.Reconcile | client/src/socket/socket.js:61-69 | Only a delivered ack changes anything. Each record with the provisional id takes the ack's id and timestamp and becomes delivered, keeping every other field; other records, the length and the order are unchanged |
| ClientSocket.FinalizeMatching | client/src/socket/socket.js:64-67 | The rewrite applies to exactly the records whose id equals the provisional id, position by position |
| ClientSocket.ReconcileSettles | client/src/socket/socket.js:85-93 | After a delivered ack with a new id no record keeps the provisional id, and repeating the ack changes nothing |
| ClientSocket.SameMillisecondSharesAck | client/src/socket/socket.js:46-66 | Two sends in the same millisecond share a provisional id, so one ack rewrites both records |
| ClientSocket.OnMessage | client/src/socket/socket.js:127-135 | A received room or private message is appended at the end and becomes lastMessage |
| ClientSocket.OnUnreadCounts | client/src/socket/socket.js:138-140 | The counter map is replaced whole, and a missing payload gives the empty map |
| ClientSocket.Notice | client/src/socket/socket.js:147-171 | Join and leave notices are system records with no sender, no room and no isPrivate |
| ClientSocket.Receive | client/src/socket/socket.js:127-176 | Each server event appends at most one record and keeps the earlier ones. Messages are appended as received, notices are system records, and only unread_counts touches the counters |
| ChatView.HandleJoin | client/src/pages/Chat.jsx:34-38 | A blank name does nothing; otherwise the socket opens, user_join carries the untrimmed name, and the chat shows |
| ChatView.HandleSend | client/src/pages/Chat.jsx:41-52 | A blank message changes nothing. Otherwise it is a private send to the chosen recipient or a room send to currentRoom, then the input clears and typing(false) is emitted |
| ChatView.Dispatch | client/src/pages/Chat.jsx:44-48 | A private send to the chosen recipient, otherwise a room send to currentRoom, each appending its one provisional record and emitting one request |
| ChatView.JoinRoom | client/src/pages/Chat.jsx:91-99 | The same room is a no-op. Otherwise the room is set, page is 0 and hasMore true, join_room goes out only when connected, and only that room's counter becomes 0 |
| ChatView.LoadOlder | client/src/pages/Chat.jsx:76-84 | An empty page clears hasMore and keeps page; a non-empty one advances page and puts the older messages first, in order |
| ChatView.Displayed | client/src/pages/Chat.jsx:110-114 | The view holds exactly the messages of the list that pass the room or private filter |
| ChatView.DisplayedAppend | client/src/pages/Chat.jsx:110-114 | The filter keeps the original order: filtering a concatenation concatenates the filtered parts |
| ChatView.NoticesNeverShown | client/src/pages/Chat.jsx:110-113 | Join and leave notices are never displayed, in any mode |
| ChatView.RoomSendShown | client/src/pages/Chat.jsx:41-48 | A room send shows its provisional record at the end of the current room's view at once |
| ChatView.PrivateViewIgnoresAddressee | client/src/pages/Chat.jsx:111-112 | A private chat shows every private message the user sent, whatever its addressee |
| Session.InitialUnreadAgrees | client/src/socket/socket.js:26 | The client's initial counters equal the ones the server creates on connect |
| Session.GeneralNotJoinedAtStart | client/src/pages/Chat.jsx:25 | A new client shows general and switching to it is a no-op, while the server has not put the socket in general |
| Session.RoomMessageShownOnlyInItsRoom | server/server.js:93 | A received room message appears at the end of that room's view and changes no other room's view |
| Session.SenderSeesMessageTwice | server/server.js:71 | With no ack, a sender in the room sees its undelivered provisional record followed by the server's copy |
| Session.JoinRoomSyncsCounters | server/server.js:55-65 | When a connected client switches rooms, the page emits join_room, shows the room and zeroes its counter. After the server's reply the client's counters equal the server's, with the room at 0. The socket then receives the new room's broadcasts and not the previous room's |
| Session.ConnectAnnouncesUser | client/src/socket/socket.js:32-37 | With a name, the client opens the socket and emits user_join. Both broadcasts reach the new socket, which lists itself as a user and shows its own join notice. Without a name only the open happens |
| Session.ShownAfterBoth | client/src/pages/Chat.jsx:110-113 | Two appended messages that pass the filter both appear at the end of the view, in order |
| Session.ScrollBackRepeatsMessages | client/src/pages/Chat.jsx:76-84 | Scrolling back twice through 30 stored messages as written leaves the client holding 50 records, the oldest 20 twice |
| Session.ScrollBackIntended | client/src/pages/Chat.jsx:76-84 | With the corrected page the same scroll-back ends paging after one fetch and holds each message once |
| Session.ScrollBackInRange | client/src/pages/Chat.jsx:76-88 | While every fetched page is in range, n scrolls over one unchanged history prepend history pages n, ..., 1, in order, set page to n and change nothing else |
| Session.ScrollBackFromNewest | client/src/pages/Chat.jsx:76-88 | From a client holding page 0, n in-range scrolls over one unchanged history hold exactly the newest 20(n+1) messages, each once |
| Session.ScrollBackCorrectedLoadsEachOnce | client/src/pages/Chat.jsx:76-88 | With the corrected page, any number of scrolls over one unchanged history prepend pages p, ..., 1 once each. Paging stops exactly when no older page remains, and then the client holds the whole history once |

## Findings

| source | as written | input that shows it | evidently intended | confidence | as-written member | corrected member |
|---|---|---|---|---|---|---|
| server/server.js:150-153 | The end index `L - 20p` goes negative past the end of the history, and `slice` then counts it back from the end. A page beyond the history is non-empty when L < 20p < 2L | L = 30, p = 2 returns history[0..20), which overlaps page 1 = history[0..10); L = 39, p = 2 returns 38 messages | A page at or past the end is empty, as the client's stop-on-empty rule assumes | high, not executed | Paging.PagePastEndRepeats | Paging.LoadedIntendedIsSuffix |

`Server.HistoryPage` keeps the as-written `Paging.Page`, because that is
what the server returns. `Paging.PageIntended` is the corrected page, and
`Session.ScrollBackIntended` shows the client scroll-back with it.

## Left out

- Express, CORS, dotenv, static files and `server.listen` (server/server.js:1-25, 157-169) are transport wiring with no state. `/api/users` only returns `Object.values(users)`.
- `parseInt` of the page query is left out: the page is an integer input. A non-numeric query (NaN) is not modelled.
- `server/models/Message.js` is a Mongoose schema that none of the modelled code uses.
- Room names that collide with inherited object properties, such as `constructor`, are not modelled. Maps here have no prototype.
- Payloads of other JSON types are not modelled. A `join_room` with `undefined`, for example, becomes the key "undefined" in JavaScript. Rooms, names and texts are strings, and "" stands for every falsy value.
- Clocks are inputs: `Date.now()` and `new Date().toISOString()` on both sides. Console logging is left out.
- The client's socket construction, reconnect flags and listener registration (client/src/socket/socket.js:10-15, 105-124, 179-210) are transport. `disconnect` only calls `socket.disconnect()`.
- React rendering, scrolling, browser notifications and sound, and `formatTime` (client/src/pages/Chat.jsx:29-31, 55-73, 101-107, 116-263) are UI, DOM and Date APIs.
- The runtime errors from the unbound `setMessages` and `setUnreadCounts` in `Chat.jsx` are not modelled; the intended updates are.
- Server.SendMessage: requires that user keys are distinct and all have unreadCounts entries. A JavaScript object always has distinct keys, and `Coordinator.ReachableSatisfiesInv` proves the second condition in every reachable state. The TypeError the code would raise without it is not modelled.
- Server.JoinRoom: requires a live socket, as socket.io only runs the handler for one.
- Session.ScrollBackInRange, Session.ScrollBackFromNewest, Session.ScrollBackCorrectedLoadsEachOnce: these assume that each scroll's fetch completes and re-renders before the next scroll. `loadOlderMessages` is async and not awaited, and reads the `page` captured at render (client/src/pages/Chat.jsx:75-87). Two scroll-to-top events during one fetch both request page + 1, so the same page is prepended twice. Interleaved fetches are not modelled. They also assume that every fetch reads the same history: no message is sent to the room and none is evicted between two fetches. The server pages by offset from the newest message (server/server.js:150-153), so each send or eviction (server/server.js:84-90) shifts every later page by one, and messages then repeat or are skipped, with the corrected page as well.
