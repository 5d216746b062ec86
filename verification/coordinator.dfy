/**
 The server as a state machine: the socket events that can arrive, which of
 them socket.io can deliver in a given state, and the invariant every
 reachable state keeps. The invariant is what makes the `unreadCounts[id]`
 dereference of the send handler safe.
 */
module Coordinator {
  import opened Messages
  import Assoc
  import History
  import opened Server

  /** One inbound socket event, named after the handler it triggers. */
  datatype Action =
    | OnConnection(id: Id)
    | OnUserJoin(id: Id, username: string)
    | OnJoinRoom(id: Id, room: string)
    | OnSendMessage(id: Id, text: string, room: string, now: int, iso: string)
    | OnPrivateMessage(id: Id, to: Id, text: string, now: int, iso: string)
    | OnTyping(id: Id, isTyping: bool)
    | OnDisconnect(id: Id)

  /** socket.io runs "connection" for a new socket id and every other
      handler only for a socket that is still connected. */
  predicate Enabled(st: State, a: Action)
  {
    if a.OnConnection? then a.id !in st.sockets else a.id in st.sockets
  }

  /** Runs the handler for a; every handler socket.io can deliver keeps the
      invariant. */
  function Apply(st: State, a: Action): (r: Step)
    requires Inv(st) && Enabled(st, a)
    ensures Inv(r.st)
  {
    match a
    case OnConnection(id) =>
      ConnectPreservesInv(st, id);
      Connect(st, id)
    case OnUserJoin(id, name) =>
      UserJoinPreservesInv(st, id, name);
      UserJoin(st, id, name)
    case OnJoinRoom(id, room) =>
      JoinRoomPreservesInv(st, id, room);
      JoinRoom(st, id, room)
    case OnSendMessage(id, text, room, now, iso) =>
      SendMessagePreservesInv(st, id, text, room, now, iso);
      SendMessage(st, id, text, room, now, iso)
    case OnPrivateMessage(id, to, text, now, iso) => SendPrivate(st, id, to, text, now, iso)
    case OnTyping(id, isTyping) =>
      TypingPreservesInv(st, id, isTyping);
      Typing(st, id, isTyping)
    case OnDisconnect(id) =>
      DisconnectPreservesInv(st, id);
      Disconnect(st, id)
  }

  lemma InitSatisfiesInv()
    ensures Inv(Init())
  {
  }

  lemma ConnectPreservesInv(st: State, id: Id)
    requires Inv(st)
    ensures Inv(Connect(st, id).st)
  {
    var r := Connect(st, id).st;
    assert CountsNonNegative(r.unread[id]);
  }

  lemma UserJoinPreservesInv(st: State, id: Id, username: string)
    requires Inv(st) && id in st.sockets
    ensures Inv(UserJoin(st, id, username).st)
  {
    var r := UserJoin(st, id, username).st;
    Assoc.PutSpec(st.users, id, User(id, username));
    assert r.users == Assoc.Put(st.users, id, User(id, username));
    forall i | 0 <= i < |r.users|
      ensures r.users[i].1.id == r.users[i].0
    {
      if r.users[i] != (id, User(id, username)) {
        assert r.users[i] in st.users;
      }
    }
  }

  lemma JoinRoomPreservesInv(st: State, id: Id, room: string)
    requires Inv(st) && id in st.sockets
    ensures Inv(JoinRoom(st, id, room).st)
  {
    var r := JoinRoom(st, id, room).st;
    forall s | s in r.unread
      ensures CountsNonNegative(r.unread[s])
    {
      assert CountsNonNegative(st.unread[s]);
    }
  }

  lemma SendMessagePreservesInv(st: State, id: Id, text: string, room: string, now: int, iso: string)
    requires Inv(st)
    ensures Inv(SendMessage(st, id, text, room, now, iso).st)
  {
    var r := SendMessage(st, id, text, room, now, iso).st;
    var rn := RoomOrDefault(room);
    forall u | u in r.unread
      ensures CountsNonNegative(r.unread[u])
    {
      assert CountsNonNegative(st.unread[u]);
      if u in Assoc.KeySet(st.users) && u != id {
        assert Bumped(st.unread[u], r.unread[u], rn);
      }
    }
    forall k | k in r.messages
      ensures |r.messages[k]| <= History.Capacity
    {
      if k == rn {
        assert |StoredHistory(st, rn)| <= History.Capacity;
        assert r.messages[rn] == History.Window(StoredHistory(st, rn) + [RoomMessage(st, id, text, room, now, iso)]);
      }
    }
  }

  lemma TypingPreservesInv(st: State, id: Id, isTyping: bool)
    requires Inv(st)
    ensures Inv(Typing(st, id, isTyping).st)
  {
    if id in Assoc.KeySet(st.users) {
      var u := Assoc.Get(st.users, id).value;
      Assoc.PutSpec(st.typing, id, u.username);
      Assoc.RemoveSpec(st.typing, id);
    }
  }

  lemma DisconnectPreservesInv(st: State, id: Id)
    requires Inv(st)
    ensures Inv(Disconnect(st, id).st)
  {
    Assoc.RemoveSpec(st.users, id);
    Assoc.RemoveSpec(st.typing, id);
    var r := Disconnect(st, id).st;
    forall i | 0 <= i < |r.users|
      ensures r.users[i].1.id == r.users[i].0
    {
      assert r.users[i] in st.users;
    }
  }

  /** The state after a sequence of socket events; an event socket.io would
      not deliver in the state reached (a handler for a closed socket, a
      second "connection" for a live id) is skipped. */
  function Run(st: State, actions: seq<Action>): (r: State)
    requires Inv(st)
    ensures Inv(r)
    decreases |actions|
  {
    if |actions| == 0 then st
    else if Enabled(st, actions[0]) then
      Run(Apply(st, actions[0]).st, actions[1..])
    else Run(st, actions[1..])
  }

  /** Every state the server can reach satisfies the invariant, so in every
      reachable state each joined user has an unreadCounts entry (the send
      handler's dereference never fails) and every counter is non-negative. */
  lemma ReachableSatisfiesInv(actions: seq<Action>)
    ensures Inv(Run(Init(), actions))
    ensures var st := Run(Init(), actions);
            && Assoc.KeySet(st.typing) <= Assoc.KeySet(st.users) <= st.unread.Keys
            && forall id, room :: id in st.unread && room in st.unread[id] ==> st.unread[id][room] >= 0
  {
    InitSatisfiesInv();
    var st := Run(Init(), actions);
    forall id, room | id in st.unread && room in st.unread[id]
      ensures st.unread[id][room] >= 0
    {
      assert CountsNonNegative(st.unread[id]);
    }
  }

  /** After a disconnect, the broadcast user list no longer names the id and
      no emission of any kind can reach the closed socket. */
  lemma DisconnectPurges(st: State, id: Id)
    requires Inv(st)
    ensures forall u :: u in Assoc.Values(Disconnect(st, id).st.users) ==> u.id != id
    ensures forall t :: id !in Recipients(Disconnect(st, id).st, t)
  {
    var r := Disconnect(st, id).st;
    assert r.users == Assoc.Remove(st.users, id);
    RemoveDropsOwner(st.users, id);
    forall t
      ensures id !in Recipients(r, t)
    {
      RecipientsLive(r, t);
    }
  }

  /** An emission reaches only live sockets. */
  lemma RecipientsLive(st: State, t: Target)
    ensures Recipients(st, t) <= st.sockets.Keys
  {
  }

  /** A disconnect deletes only the departing id: every other user and
      typing entry reads as before. */
  lemma DisconnectKeepsOthers(st: State, id: Id)
    ensures forall k :: k != id ==> Assoc.Get(Disconnect(st, id).st.users, k) == Assoc.Get(st.users, k)
    ensures forall k :: k != id ==> Assoc.Get(Disconnect(st, id).st.typing, k) == Assoc.Get(st.typing, k)
  {
    Assoc.RemoveSpec(st.users, id);
    Assoc.RemoveSpec(st.typing, id);
  }

  /** In a user list that records each key as the user's id, deleting a key
      deletes every user with that id. */
  lemma RemoveDropsOwner(a: Assoc.Assoc<Id, User>, id: Id)
    requires forall i :: 0 <= i < |a| ==> a[i].1.id == a[i].0
    ensures forall u :: u in Assoc.Values(Assoc.Remove(a, id)) ==> u.id != id
  {
    var r := Assoc.Remove(a, id);
    Assoc.RemoveSpec(a, id);
    Assoc.KeySetHasAll(r);
    forall u | u in Assoc.Values(r)
      ensures u.id != id
    {
      var i :| 0 <= i < |r| && r[i].1 == u;
      assert r[i] in a;
      assert r[i].0 in Assoc.KeySet(r);
    }
  }

  /** A private message is echoed to its sender by the second emission.
      The first reaches the sender as well only when the sender has joined
      the room named `to` and has left the room named by its own id (by
      joining it and then switching away); otherwise the sender gets exactly
      one copy, even when it addresses itself. A connected recipient gets
      the first emission exactly when it is still in its own room and has
      not joined the room named by the sender's id. */
  lemma PrivateEchoOnce(st: State, id: Id, to: Id, text: string, now: int, iso: string)
    requires id in st.sockets
    ensures var r := SendPrivate(st, id, to, text, now, iso);
            && Recipients(r.st, r.events[1].target) == {id}
            && (id in Recipients(r.st, r.events[0].target) <==>
                  to in st.sockets[id].rooms && id !in st.sockets[id].rooms)
            && (to != id && to in st.sockets ==>
                  (to in Recipients(r.st, r.events[0].target) <==>
                     to in st.sockets[to].rooms && id !in st.sockets[to].rooms))
  {
  }

  /** A message sent to a room reaches every live socket in it, including
      the sender's own socket when it is in that room. */
  lemma RoomBroadcastReachesMembers(st: State, id: Id, text: string, room: string, now: int, iso: string)
    requires Inv(st)
    ensures var r := SendMessage(st, id, text, room, now, iso);
            forall s :: s in st.sockets && RoomOrDefault(room) in st.sockets[s].rooms <==>
                          s in Recipients(r.st, r.events[0].target)
  {
  }

  /** One "send_message" as it arrives: the sending socket, the text, the
      room, and the clock readings. */
  datatype Send = Send(sender: Id, text: string, room: string, now: int, iso: string)

  /** The state after a run of sends. */
  function SendAll(st: State, sends: seq<Send>): (r: State)
    requires Inv(st)
    ensures Inv(r)
    ensures r.users == st.users
    decreases |sends|
  {
    if |sends| == 0 then st
    else
      var s := sends[0];
      SendMessagePreservesInv(st, s.sender, s.text, s.room, s.now, s.iso);
      SendAll(SendMessage(st, s.sender, s.text, s.room, s.now, s.iso).st, sends[1..])
  }

  /** Unread accuracy: a joined user's counter for a room grows by exactly
      the number of messages others sent to it, whatever room the user is
      viewing. */
  lemma {:induction false} UnreadCountsOthersSends(st: State, sends: seq<Send>, watcher: Id, room: string)
    requires Inv(st)
    requires watcher in Assoc.KeySet(st.users)
    requires forall i :: 0 <= i < |sends| ==> sends[i].sender != watcher && RoomOrDefault(sends[i].room) == room
    ensures watcher in SendAll(st, sends).unread
    ensures Count(SendAll(st, sends).unread[watcher], room) == Count(st.unread[watcher], room) + |sends|
    decreases |sends|
  {
    if |sends| > 0 {
      var s := sends[0];
      SendMessagePreservesInv(st, s.sender, s.text, s.room, s.now, s.iso);
      var st1 := SendMessage(st, s.sender, s.text, s.room, s.now, s.iso).st;
      assert Bumped(st.unread[watcher], st1.unread[watcher], room);
      UnreadCountsOthersSends(st1, sends[1..], watcher, room);
    }
  }
}
