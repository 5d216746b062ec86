/**
 The chat server's session coordinator: the in-memory maps `users`,
 `typingUsers`, `messages` and `unreadCounts`, socket.io's per-socket room
 membership, and one pure function per socket event handler. Node runs each
 handler to completion on one event loop, so every handler is an atomic
 transition that returns the new state and the events it emitted, in order.
 */
module Server {
  import opened Wrappers
  import opened Messages
  import Assoc
  import History
  import Paging

  const DefaultRoom: string := "general"

  /** socket.io's bookkeeping for one live socket: the rooms it is in (it
      starts in the room named by its own id) and its `currentRoom`
      property, where "" stands for undefined. */
  datatype Sock = Sock(rooms: set<string>, currentRoom: string)

  datatype State = State(
    sockets: map<Id, Sock>,                    // live connections
    users: Assoc.Assoc<Id, User>,              // users
    typing: Assoc.Assoc<Id, string>,           // typingUsers
    messages: map<string, seq<Msg>>,           // messages, per room
    unread: map<Id, map<string, int>>)         // unreadCounts

  /** Who an emission is addressed to: io.emit, io.to(room).emit,
      socket.to(room).emit and socket.emit. A socket id is also a room name.
      socket.to(room) broadcasts to the room except the sockets in the room
      named by the emitting socket's id, which normally holds that socket
      alone. */
  datatype Target =
    | Everyone
    | ToRoom(room: string)
    | ToRoomExcept(room: string, except: Id)
    | ToSelf(id: Id)

  datatype Event = Event(target: Target, payload: Payload)

  /** The state after a handler and the events it emitted, in order. */
  datatype Step = Step(st: State, events: seq<Event>)

  function Init(): State
  {
    State(map[], [], [], map["general" := [], "sports" := [], "tech" := []], map[])
  }

  /** The live sockets an emission reaches. */
  function Recipients(st: State, t: Target): set<Id>
  {
    match t
    case Everyone => st.sockets.Keys
    case ToRoom(room) => set s | s in st.sockets && room in st.sockets[s].rooms
    case ToRoomExcept(room, except) =>
      set s | s in st.sockets && room in st.sockets[s].rooms && except !in st.sockets[s].rooms
    case ToSelf(id) => if id in st.sockets then {id} else {}
  }

  /** `room || "general"` for a room given as a string, "" being falsy. */
  function RoomOrDefault(room: string): string
  {
    if room == "" then DefaultRoom else room
  }

  /** `users[socket.id]?.username || "Anonymous"`. */
  function SenderName(st: State, id: Id): string
  {
    match Assoc.Get(st.users, id)
    case Some(u) => if u.username == "" then "Anonymous" else u.username
    case None => "Anonymous"
  }

  /** A room's stored history; a room never written to has none. */
  function StoredHistory(st: State, room: string): seq<Msg>
  {
    if room in st.messages then st.messages[room] else []
  }

  /** A counter read where a missing key counts as zero. */
  function Count(c: map<string, int>, room: string): int
  {
    if room in c then c[room] else 0
  }

  predicate CountsNonNegative(c: map<string, int>)
  {
    forall room :: room in c ==> c[room] >= 0
  }

  /** `after` is `before` with the counter for room one higher. */
  ghost predicate Bumped(before: map<string, int>, after: map<string, int>, room: string)
  {
    && after.Keys == before.Keys + {room}
    && after[room] == Count(before, room) + 1
    && forall k :: k in before && k != room ==> after[k] == before[k]
  }

  predicate NoDup(ids: seq<Id>)
  {
    forall i, j :: 0 <= i < j < |ids| ==> ids[i] != ids[j]
  }

  /** The ids of ids other than the sender, in order. */
  function Others(ids: seq<Id>, sender: Id): (r: seq<Id>)
    ensures forall x :: x in r <==> x in ids && x != sender
    ensures NoDup(ids) ==> NoDup(r)
  {
    if |ids| == 0 then []
    else if ids[0] == sender then Others(ids[1..], sender)
    else
      var rest := Others(ids[1..], sender);
      assert NoDup(ids) ==> NoDup(ids[1..]) && ids[0] !in ids[1..];
      [ids[0]] + rest
  }

  /** The state invariant: every key of typingUsers is a key of users, every
      key of users is a key of unreadCounts, whose keys are exactly the live
      sockets; users records its own key as id; no counter is negative; and
      no room holds more than 100 messages. */
  ghost predicate Inv(st: State)
  {
    && Assoc.Distinct(st.users)
    && Assoc.Distinct(st.typing)
    && (forall i :: 0 <= i < |st.users| ==> st.users[i].1.id == st.users[i].0)
    && Assoc.KeySet(st.typing) <= Assoc.KeySet(st.users)
    && Assoc.KeySet(st.users) <= st.unread.Keys
    && st.unread.Keys == st.sockets.Keys
    && (forall id :: id in st.unread ==> CountsNonNegative(st.unread[id]))
    && (forall room :: room in st.messages ==> |st.messages[room]| <= History.Capacity)
  }

  // ---------------------------------------------------------------------
  // Handlers
  // ---------------------------------------------------------------------

  /** "connection": unreadCounts[id] becomes a zero counter for each of the
      three rooms; socket.io puts the socket in its own room. */
  function Connect(st: State, id: Id): (r: Step)
    ensures id in r.st.unread && r.st.unread[id] == StartingCounts()
    ensures forall k :: k in st.unread && k != id ==> k in r.st.unread && r.st.unread[k] == st.unread[k]
    ensures r.st.sockets.Keys == st.sockets.Keys + {id}
    ensures r.st.sockets[id] == Sock({id}, "")
    ensures forall s :: s in st.sockets && s != id ==> r.st.sockets[s] == st.sockets[s]
    ensures Recipients(r.st, ToSelf(id)) == {id}
    ensures r.st.users == st.users && r.st.typing == st.typing && r.st.messages == st.messages
    ensures r.events == []
  {
    Step(st.(sockets := st.sockets[id := Sock({id}, "")],
             unread := st.unread[id := StartingCounts()]), [])
  }

  /** "user_join": record the user under its socket id and announce the new
      user list and the join to everybody. */
  function UserJoin(st: State, id: Id, username: string): (r: Step)
    ensures Assoc.KeySet(r.st.users) == Assoc.KeySet(st.users) + {id}
    ensures id in Assoc.KeySet(st.users) ==> Assoc.Keys(r.st.users) == Assoc.Keys(st.users)
    ensures id !in Assoc.KeySet(st.users) ==> r.st.users == st.users + [(id, User(id, username))]
    ensures Assoc.Distinct(st.users) ==>
              forall i :: 0 <= i < |st.users| && st.users[i].0 == id ==> r.st.users == st.users[i := (id, User(id, username))]
    ensures Assoc.Get(r.st.users, id) == Some(User(id, username))
    ensures forall k :: k != id ==> Assoc.Get(r.st.users, k) == Assoc.Get(st.users, k)
    ensures r.st == st.(users := r.st.users)
    ensures r.events == [Event(Everyone, UserList(Assoc.Values(r.st.users))),
                         Event(Everyone, UserJoined(User(id, username)))]
  {
    Assoc.PutSpec(st.users, id, User(id, username));
    Assoc.PutInPlace(st.users, id, User(id, username));
    var users := Assoc.Put(st.users, id, User(id, username));
    Step(st.(users := users),
         [Event(Everyone, UserList(Assoc.Values(users))), Event(Everyone, UserJoined(User(id, username)))])
  }

  /** "join_room": leave the current room if there is one, join the new
      one, zero its unread counter and send the counters to this socket. */
  function JoinRoom(st: State, id: Id, room: string): (r: Step)
    requires id in st.sockets
    ensures id in r.st.sockets && r.st.sockets[id].currentRoom == room
    ensures room in r.st.sockets[id].rooms
    ensures var prev := st.sockets[id].currentRoom;
            prev != "" && prev != room ==> prev !in r.st.sockets[id].rooms
    ensures r.st.sockets[id].rooms <= st.sockets[id].rooms + {room}
    // Every other room the socket was in, its own-id room included, is kept.
    ensures forall x :: x in st.sockets[id].rooms && x != st.sockets[id].currentRoom ==> x in r.st.sockets[id].rooms
    ensures forall s :: s in st.sockets && s != id ==> s in r.st.sockets && r.st.sockets[s] == st.sockets[s]
    ensures r.st.sockets.Keys == st.sockets.Keys
    ensures id in st.unread ==> id in r.st.unread && r.st.unread[id].Keys == st.unread[id].Keys + {room}
    ensures id in st.unread ==> r.st.unread[id][room] == 0
    ensures id in st.unread ==> forall k :: k in st.unread[id] && k != room ==> r.st.unread[id][k] == st.unread[id][k]
    ensures forall s :: s in st.unread && s != id ==> s in r.st.unread && r.st.unread[s] == st.unread[s]
    ensures r.st.unread.Keys == st.unread.Keys
    ensures id !in st.unread ==> r.st.unread == st.unread
    ensures r.st.users == st.users && r.st.typing == st.typing && r.st.messages == st.messages
    ensures r.events == [Event(ToSelf(id), UnreadCounts(if id in r.st.unread then Some(r.st.unread[id]) else None))]
  {
    var s := st.sockets[id];
    var kept := if s.currentRoom != "" then s.rooms - {s.currentRoom} else s.rooms;
    var sockets := st.sockets[id := Sock(kept + {room}, room)];
    var unread := if id in st.unread then st.unread[id := st.unread[id][room := 0]] else st.unread;
    Step(st.(sockets := sockets, unread := unread),
         [Event(ToSelf(id), UnreadCounts(if id in unread then Some(unread[id]) else None))])
  }

  /** The unread fan-out of "send_message": walking the user ids in key
      order, every id other than the sender gets its counter for room
      raised by one and is sent its counters. */
  function FanOut(ids: seq<Id>, sender: Id, room: string, unread: map<Id, map<string, int>>)
    : (r: (map<Id, map<string, int>>, seq<Event>))
    requires forall i :: 0 <= i < |ids| ==> ids[i] in unread
    requires NoDup(ids)
    ensures r.0.Keys == unread.Keys
    decreases |ids|
  {
    if |ids| == 0 then (unread, [])
    else
      var u := ids[0];
      assert forall i :: 0 <= i < |ids[1..]| ==> ids[1..][i] == ids[i + 1];
      if u == sender then FanOut(ids[1..], sender, room, unread)
      else
        var c := unread[u][room := Count(unread[u], room) + 1];
        var rest := FanOut(ids[1..], sender, room, unread[u := c]);
        (rest.0, [Event(ToRoom(u), UnreadCounts(Some(c)))] + rest.1)
  }

  /** The fan-out leaves alone the counters of the sender and of every id
      it does not list. */
  lemma {:induction false} FanOutKeeps(ids: seq<Id>, sender: Id, room: string, unread: map<Id, map<string, int>>)
    requires forall i :: 0 <= i < |ids| ==> ids[i] in unread
    requires NoDup(ids)
    ensures forall u :: u in unread && (u !in ids || u == sender) ==>
              FanOut(ids, sender, room, unread).0[u] == unread[u]
    decreases |ids|
  {
    if |ids| > 0 {
      var tail := ids[1..];
      assert forall i :: 0 <= i < |tail| ==> tail[i] == ids[i + 1];
      assert NoDup(tail);
      if ids[0] == sender {
        FanOutKeeps(tail, sender, room, unread);
      } else {
        var u := ids[0];
        FanOutKeeps(tail, sender, room, unread[u := unread[u][room := Count(unread[u], room) + 1]]);
      }
    }
  }

  /** The fan-out raises by one the room counter of exactly the listed ids
      other than the sender, a missing counter counting as zero. */
  lemma {:induction false} FanOutCounts(ids: seq<Id>, sender: Id, room: string, unread: map<Id, map<string, int>>)
    requires forall i :: 0 <= i < |ids| ==> ids[i] in unread
    requires NoDup(ids)
    ensures forall u :: u in unread && u in ids && u != sender ==>
              Bumped(unread[u], FanOut(ids, sender, room, unread).0[u], room)
    decreases |ids|
  {
    if |ids| > 0 {
      var u := ids[0];
      var tail := ids[1..];
      assert forall i :: 0 <= i < |tail| ==> tail[i] == ids[i + 1];
      assert NoDup(tail) && u !in tail;
      if u == sender {
        FanOutCounts(tail, sender, room, unread);
      } else {
        var c := unread[u][room := Count(unread[u], room) + 1];
        FanOutCounts(tail, sender, room, unread[u := c]);
        FanOutKeeps(tail, sender, room, unread[u := c]);
      }
    }
  }

  /** evs is one unread_counts event per id of ids, in order, each to the
      id's own room and carrying the id's counters in counts. */
  ghost predicate Announces(evs: seq<Event>, ids: seq<Id>, counts: map<Id, map<string, int>>)
  {
    && |evs| == |ids|
    && (forall x :: x in ids ==> x in counts)
    && forall j :: 0 <= j < |evs| ==> evs[j] == Event(ToRoom(ids[j]), UnreadCounts(Some(counts[ids[j]])))
  }

  lemma AnnouncesCons(rest: seq<Event>, others: seq<Id>, u: Id, counts: map<Id, map<string, int>>)
    requires Announces(rest, others, counts) && u in counts
    ensures Announces([Event(ToRoom(u), UnreadCounts(Some(counts[u])))] + rest, [u] + others, counts)
  {
    var evs := [Event(ToRoom(u), UnreadCounts(Some(counts[u])))] + rest;
    forall j | 0 < j < |evs|
      ensures evs[j] == Event(ToRoom(([u] + others)[j]), UnreadCounts(Some(counts[([u] + others)[j]])))
    {
      assert evs[j] == rest[j - 1] && ([u] + others)[j] == others[j - 1];
    }
  }

  /** The fan-out sends each id other than the sender, in key order, one
      unread_counts event to its own room carrying its new counters. */
  lemma {:induction false} FanOutEvents(ids: seq<Id>, sender: Id, room: string, unread: map<Id, map<string, int>>)
    requires forall i :: 0 <= i < |ids| ==> ids[i] in unread
    requires NoDup(ids)
    ensures var r := FanOut(ids, sender, room, unread);
            Announces(r.1, Others(ids, sender), r.0)
    decreases |ids|
  {
    if |ids| > 0 {
      var u := ids[0];
      var tail := ids[1..];
      assert forall i :: 0 <= i < |tail| ==> tail[i] == ids[i + 1];
      assert NoDup(tail) && u !in tail;
      if u == sender {
        FanOutEvents(tail, sender, room, unread);
      } else {
        var c := unread[u][room := Count(unread[u], room) + 1];
        FanOutEvents(tail, sender, room, unread[u := c]);
        FanOutKeeps(tail, sender, room, unread[u := c]);
        var rest := FanOut(tail, sender, room, unread[u := c]);
        assert rest.0[u] == c;
        AnnouncesCons(rest.1, Others(tail, sender), u, rest.0);
      }
    }
  }

  /** The message "send_message" stores and broadcasts. */
  function RoomMessage(st: State, id: Id, text: string, room: string, now: int, iso: string): Msg
  {
    Msg(Stamp(now), Some(SenderName(st, id)), Some(id), text, iso,
        Some(RoomOrDefault(room)), Some(false), None, None, false)
  }

  /** "send_message": append to the room's history (evicting the oldest past
      100), broadcast to the room, then raise the room's unread counter of
      every user other than the sender, whatever room that user is in. */
  function SendMessage(st: State, id: Id, text: string, room: string, now: int, iso: string): (r: Step)
    requires Assoc.KeySet(st.users) <= st.unread.Keys
    requires Assoc.Distinct(st.users)
    ensures var rn := RoomOrDefault(room);
            var msg := RoomMessage(st, id, text, room, now, iso);
            && r.st.messages.Keys == st.messages.Keys + {rn}
            && (|StoredHistory(st, rn)| <= History.Capacity ==>
                  r.st.messages[rn] == History.Window(StoredHistory(st, rn) + [msg]))
            && (|StoredHistory(st, rn)| < History.Capacity ==> r.st.messages[rn] == StoredHistory(st, rn) + [msg])
            && (|StoredHistory(st, rn)| == History.Capacity ==> r.st.messages[rn] == StoredHistory(st, rn)[1..] + [msg])
            && (forall k :: k in st.messages && k != rn ==> r.st.messages[k] == st.messages[k])
            && |r.events| >= 1
            && r.events[0] == Event(ToRoom(rn), ReceiveMessage(msg))
    ensures r.st.unread.Keys == st.unread.Keys
    ensures forall u :: u in Assoc.KeySet(st.users) && u != id ==>
              Bumped(st.unread[u], r.st.unread[u], RoomOrDefault(room))
    ensures forall u :: u in st.unread && (u !in Assoc.KeySet(st.users) || u == id) ==>
              r.st.unread[u] == st.unread[u]
    ensures var others := Others(Assoc.Keys(st.users), id);
            && |r.events| == 1 + |others|
            && (forall x :: x in others ==> x in r.st.unread)
            && forall j :: 0 <= j < |others| ==>
                 r.events[j + 1] == Event(ToRoom(others[j]), UnreadCounts(Some(r.st.unread[others[j]])))
    ensures r.st.sockets == st.sockets && r.st.users == st.users && r.st.typing == st.typing
  {
    var rn := RoomOrDefault(room);
    var msg := RoomMessage(st, id, text, room, now, iso);
    var ids := Assoc.Keys(st.users);
    KeysDistinct(st.users);
    FanOutCounts(ids, id, rn, st.unread);
    FanOutKeeps(ids, id, rn, st.unread);
    FanOutEvents(ids, id, rn, st.unread);
    var fan := FanOut(ids, id, rn, st.unread);
    Step(st.(messages := Posted(st, rn, msg), unread := fan.0),
         [Event(ToRoom(rn), ReceiveMessage(msg))] + fan.1)
  }

  /** The history store after msg is pushed onto room rn: the room gains
      msg, losing its oldest message once past the capacity. */
  function Posted(st: State, rn: string, msg: Msg): (m: map<string, seq<Msg>>)
    ensures m.Keys == st.messages.Keys + {rn}
    ensures |StoredHistory(st, rn)| <= History.Capacity ==> m[rn] == History.Window(StoredHistory(st, rn) + [msg])
    ensures |StoredHistory(st, rn)| < History.Capacity ==> m[rn] == StoredHistory(st, rn) + [msg]
    ensures |StoredHistory(st, rn)| == History.Capacity ==> m[rn] == StoredHistory(st, rn)[1..] + [msg]
    ensures forall k :: k in st.messages && k != rn ==> m[k] == st.messages[k]
  {
    st.messages[rn := History.Push(StoredHistory(st, rn), msg)]
  }

  /** The keys of a distinct association list are duplicate-free and are
      exactly its key set. */
  lemma KeysDistinct(a: Assoc.Assoc<Id, User>)
    requires Assoc.Distinct(a)
    ensures NoDup(Assoc.Keys(a))
    ensures forall x :: x in Assoc.Keys(a) <==> x in Assoc.KeySet(a)
  {
    Assoc.KeySetHasAll(a);
  }

  /** The message "private_message" delivers. */
  function PrivateMsg(st: State, id: Id, text: string, now: int, iso: string): Msg
  {
    Msg(Stamp(now), Some(SenderName(st, id)), Some(id), text, iso, None, Some(true), None, None, false)
  }

  /** "private_message": no state changes; the same private message goes to
      the room named `to` (minus the sender) and back to the sender. */
  function SendPrivate(st: State, id: Id, to: Id, text: string, now: int, iso: string): (r: Step)
    ensures r.st == st
    ensures |r.events| == 2 && r.events[0].payload == r.events[1].payload
    ensures r.events[0].target == ToRoomExcept(to, id) && r.events[1].target == ToSelf(id)
    ensures r.events[0].payload.PrivateMessage?
    ensures var m := r.events[0].payload.msg;
            && m.id == Stamp(now) && m.sender == Some(SenderName(st, id)) && m.senderId == Some(id)
            && m.text == text && m.timestamp == iso
            && m.isPrivate == Some(true) && m.room == None && m.delivered == None && m.to == None && !m.system
  {
    var msg := PrivateMsg(st, id, text, now, iso);
    Step(st, [Event(ToRoomExcept(to, id), PrivateMessage(msg)), Event(ToSelf(id), PrivateMessage(msg))])
  }

  /** "typing": only a joined user's flag counts; it sets or deletes the
      user's entry in typingUsers and broadcasts the typing names. */
  function Typing(st: State, id: Id, isTyping: bool): (r: Step)
    ensures id !in Assoc.KeySet(st.users) ==> r == Step(st, [])
    ensures id in Assoc.KeySet(st.users) ==>
              && r.st == st.(typing := r.st.typing)
              && r.events == [Event(Everyone, TypingUsers(Assoc.Values(r.st.typing)))]
    ensures id in Assoc.KeySet(st.users) && isTyping ==>
              && Assoc.KeySet(r.st.typing) == Assoc.KeySet(st.typing) + {id}
              && (id in Assoc.KeySet(st.typing) ==> Assoc.Keys(r.st.typing) == Assoc.Keys(st.typing))
              && (id !in Assoc.KeySet(st.typing) ==>
                    r.st.typing == st.typing + [(id, Assoc.Get(st.users, id).value.username)])
              && Assoc.Get(r.st.typing, id) == Some(Assoc.Get(st.users, id).value.username)
    ensures id in Assoc.KeySet(st.users) && isTyping && Assoc.Distinct(st.typing) ==>
              forall i :: 0 <= i < |st.typing| && st.typing[i].0 == id ==>
                r.st.typing == st.typing[i := (id, Assoc.Get(st.users, id).value.username)]
    ensures id in Assoc.KeySet(st.users) && !isTyping ==>
              && Assoc.KeySet(r.st.typing) == Assoc.KeySet(st.typing) - {id}
              && (id !in Assoc.KeySet(st.typing) ==> r.st.typing == st.typing)
    ensures id in Assoc.KeySet(st.users) && !isTyping && Assoc.Distinct(st.typing) ==>
              forall i :: 0 <= i < |st.typing| && st.typing[i].0 == id ==> r.st.typing == st.typing[..i] + st.typing[i+1..]
    ensures forall k :: k != id ==> Assoc.Get(r.st.typing, k) == Assoc.Get(st.typing, k)
  {
    match Assoc.Get(st.users, id)
    case None => Step(st, [])
    case Some(u) =>
      var typing := TypingNames(st.typing, id, u.username, isTyping);
      Step(st.(typing := typing), [Event(Everyone, TypingUsers(Assoc.Values(typing)))])
  }

  /** typingUsers after a joined user's flag: `typingUsers[id] = name` for
      true, `delete typingUsers[id]` for false. */
  function TypingNames(typing: Assoc.Assoc<Id, string>, id: Id, name: string, isTyping: bool): (r: Assoc.Assoc<Id, string>)
    ensures isTyping ==>
              && Assoc.KeySet(r) == Assoc.KeySet(typing) + {id}
              && (id in Assoc.KeySet(typing) ==> Assoc.Keys(r) == Assoc.Keys(typing))
              && (id !in Assoc.KeySet(typing) ==> r == typing + [(id, name)])
              && Assoc.Get(r, id) == Some(name)
    ensures isTyping && Assoc.Distinct(typing) ==>
              forall i :: 0 <= i < |typing| && typing[i].0 == id ==> r == typing[i := (id, name)]
    ensures !isTyping ==>
              && Assoc.KeySet(r) == Assoc.KeySet(typing) - {id}
              && (id !in Assoc.KeySet(typing) ==> r == typing)
    ensures !isTyping && Assoc.Distinct(typing) ==>
              forall i :: 0 <= i < |typing| && typing[i].0 == id ==> r == typing[..i] + typing[i+1..]
    ensures forall k :: k != id ==> Assoc.Get(r, k) == Assoc.Get(typing, k)
  {
    if isTyping then
      Assoc.PutSpec(typing, id, name);
      Assoc.PutInPlace(typing, id, name);
      Assoc.Put(typing, id, name)
    else
      Assoc.RemoveSpec(typing, id);
      Forget(typing, id)
  }

  /** `delete o[id]` on users or typingUsers: the key goes, and the other
      entries keep their order, so the broadcast lists keep theirs. */
  function Forget<V>(a: Assoc.Assoc<Id, V>, id: Id): (r: Assoc.Assoc<Id, V>)
    ensures Assoc.KeySet(r) == Assoc.KeySet(a) - {id}
    ensures id !in Assoc.KeySet(a) ==> r == a
    ensures Assoc.Distinct(a) ==> forall i :: 0 <= i < |a| && a[i].0 == id ==> r == a[..i] + a[i+1..]
  {
    Assoc.RemoveInPlace(a, id);
    Assoc.Remove(a, id)
  }

  /** "disconnect": socket.io has already dropped the socket from every
      room; the handler announces the departure of a joined user, deletes
      the id from users, typingUsers and unreadCounts, and broadcasts the
      user and typing lists. */
  function Disconnect(st: State, id: Id): (r: Step)
    ensures id !in r.st.sockets && id !in r.st.unread
    ensures id !in Assoc.KeySet(r.st.users) && id !in Assoc.KeySet(r.st.typing)
    ensures r.st.sockets.Keys == st.sockets.Keys - {id}
    ensures forall s :: s in r.st.sockets ==> s in st.sockets && r.st.sockets[s] == st.sockets[s]
    ensures Assoc.KeySet(r.st.users) == Assoc.KeySet(st.users) - {id}
    ensures Assoc.KeySet(r.st.typing) == Assoc.KeySet(st.typing) - {id}
    ensures r.st.unread.Keys == st.unread.Keys - {id}
    ensures forall k :: k in r.st.unread ==> r.st.unread[k] == st.unread[k]
    ensures r.st.messages == st.messages
    ensures forall j :: 0 <= j < |r.events| ==> r.events[j].target == Everyone
    ensures |r.events| == if id in Assoc.KeySet(st.users) then 3 else 2
    ensures id in Assoc.KeySet(st.users) ==>
              r.events[0].payload == UserLeft(User(id, Assoc.Get(st.users, id).value.username))
    ensures r.events[|r.events| - 2] == Event(Everyone, UserList(Assoc.Values(r.st.users)))
    ensures r.events[|r.events| - 1] == Event(Everyone, TypingUsers(Assoc.Values(r.st.typing)))
  {
    var rest := Departed(st, id);
    Step(rest, Farewell(st.users, id, rest))
  }

  /** A disconnect closes the gap the id leaves in users and typingUsers:
      the remaining entries keep their order, and with it the order of the
      broadcast lists; an id that never joined or typed changes neither. */
  lemma DisconnectKeepsOrder(st: State, id: Id)
    ensures var r := Disconnect(st, id).st;
            && (id !in Assoc.KeySet(st.users) ==> r.users == st.users)
            && (id !in Assoc.KeySet(st.typing) ==> r.typing == st.typing)
            && (Assoc.Distinct(st.users) ==>
                  forall i :: 0 <= i < |st.users| && st.users[i].0 == id ==> r.users == st.users[..i] + st.users[i+1..])
            && (Assoc.Distinct(st.typing) ==>
                  forall i :: 0 <= i < |st.typing| && st.typing[i].0 == id ==> r.typing == st.typing[..i] + st.typing[i+1..])
  {
  }

  /** The broadcasts of a disconnect: user_left for a joined user, then the
      remaining user and typing lists, all to everyone. */
  function Farewell(users: Assoc.Assoc<Id, User>, id: Id, rest: State): (evs: seq<Event>)
    ensures forall j :: 0 <= j < |evs| ==> evs[j].target == Everyone
    ensures |evs| == if id in Assoc.KeySet(users) then 3 else 2
    ensures id in Assoc.KeySet(users) ==>
              evs[0].payload == UserLeft(User(id, Assoc.Get(users, id).value.username))
    ensures evs[|evs| - 2] == Event(Everyone, UserList(Assoc.Values(rest.users)))
    ensures evs[|evs| - 1] == Event(Everyone, TypingUsers(Assoc.Values(rest.typing)))
  {
    var left := match Assoc.Get(users, id)
                case Some(u) => [Event(Everyone, UserLeft(User(id, u.username)))]
                case None => [];
    left + [Event(Everyone, UserList(Assoc.Values(rest.users))),
            Event(Everyone, TypingUsers(Assoc.Values(rest.typing)))]
  }

  /** The state a disconnect leaves: the id gone from the live sockets,
      users, typingUsers and unreadCounts, and nothing else changed. */
  function Departed(st: State, id: Id): (r: State)
    ensures r.sockets == st.sockets - {id} && r.unread == st.unread - {id} && r.messages == st.messages
    ensures Assoc.KeySet(r.users) == Assoc.KeySet(st.users) - {id}
    ensures Assoc.KeySet(r.typing) == Assoc.KeySet(st.typing) - {id}
    ensures id !in Assoc.KeySet(st.users) ==> r.users == st.users
    ensures id !in Assoc.KeySet(st.typing) ==> r.typing == st.typing
    ensures Assoc.Distinct(st.users) ==>
              forall i :: 0 <= i < |st.users| && st.users[i].0 == id ==> r.users == st.users[..i] + st.users[i+1..]
    ensures Assoc.Distinct(st.typing) ==>
              forall i :: 0 <= i < |st.typing| && st.typing[i].0 == id ==> r.typing == st.typing[..i] + st.typing[i+1..]
  {
    st.(sockets := st.sockets - {id}, users := Forget(st.users, id), typing := Forget(st.typing, id),
        unread := st.unread - {id})
  }

  /** GET /api/messages?room=R&page=p: the page of room R's history, "general"
      when R is missing. */
  function HistoryPage(st: State, room: string, page: int): (r: seq<Msg>)
    ensures RoomOrDefault(room) !in st.messages ==> r == []
    ensures var h := StoredHistory(st, RoomOrDefault(room));
            0 <= page && Paging.PageSize * page <= |h| ==>
              && r == h[Paging.Max(|h| - Paging.PageSize * (page + 1), 0) .. |h| - Paging.PageSize * page]
              && |r| <= Paging.PageSize
  {
    Paging.Page(StoredHistory(st, RoomOrDefault(room)), page)
  }
}
