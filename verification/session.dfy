/**
 Properties of server and client together: what a browser shows after the
 server's events reach it, and how the two sides' starting states agree.
 */
module Session {
  import opened Wrappers
  import opened Messages
  import Assoc
  import Text
  import Paging
  import Server
  import ClientSocket
  import ChatView

  /** The client's initial unread map is the one the server creates for the
      connection. */
  lemma InitialUnreadAgrees(st: Server.State, id: Id)
    ensures ClientSocket.InitialUnread() == Server.Connect(st, id).st.unread[id]
  {
  }

  /** The page starts in "general" and switching to the room it is in does
      nothing, while the server puts a new socket in no chat room: until the
      user switches rooms, broadcasts to "general" do not reach it. */
  lemma GeneralNotJoinedAtStart(st: Server.State, id: Id, username: string, h: ClientSocket.Hook)
    requires id != "general"
    requires id !in st.sockets
    ensures ChatView.InitialView().currentRoom == "general"
    ensures ChatView.JoinRoom(ChatView.InitialView(), h, "general").out == []
    ensures var st1 := Server.Connect(st, id).st;
            var st2 := Server.UserJoin(st1, id, username).st;
            && id !in Server.Recipients(st1, Server.ToRoom("general"))
            && id !in Server.Recipients(st2, Server.ToRoom("general"))
  {
  }

  /** Room isolation and delivery: a room message that reaches a client in
      room mode is shown at the end of its view when the view is on that
      room, and changes nothing shown in any other room. */
  lemma RoomMessageShownOnlyInItsRoom(st: Server.State, id: Id, text: string, room: string, now: int, iso: string,
                                      h: ClientSocket.Hook, viewing: string, cnow: int, ciso: string)
    requires Server.Inv(st)
    ensures var e := Server.SendMessage(st, id, text, room, now, iso).events[0];
            var h' := ClientSocket.Receive(h, e.payload, cnow, ciso);
            && (viewing == Server.RoomOrDefault(room) ==>
                  ChatView.Displayed(h'.messages, None, viewing)
                    == ChatView.Displayed(h.messages, None, viewing) + [e.payload.msg])
            && (viewing != Server.RoomOrDefault(room) ==>
                  ChatView.Displayed(h'.messages, None, viewing) == ChatView.Displayed(h.messages, None, viewing))
  {
    var m := Server.RoomMessage(st, id, text, room, now, iso);
    assert Server.SendMessage(st, id, text, room, now, iso).events[0].payload == ReceiveMessage(m);
    AppendShownInItsRoom(h.messages, m, viewing);
  }

  /** Appending a non-private message of room R adds it to R's view and to
      no other room's view. */
  lemma AppendShownInItsRoom(msgs: seq<Msg>, m: Msg, viewing: string)
    requires !Truthy(m.isPrivate) && m.room.Some?
    ensures m.room == Some(viewing) ==>
              ChatView.Displayed(msgs + [m], None, viewing) == ChatView.Displayed(msgs, None, viewing) + [m]
    ensures m.room != Some(viewing) ==>
              ChatView.Displayed(msgs + [m], None, viewing) == ChatView.Displayed(msgs, None, viewing)
  {
    ChatView.DisplayedAppend(msgs, [m], None, viewing);
    assert [m][1..] == [];
  }

  /** No acknowledgment comes back, so a sender whose socket is in the room
      sees its message twice: the provisional record, never marked
      delivered, and the server's broadcast copy. */
  lemma SenderSeesMessageTwice(st: Server.State, id: Id, v: ChatView.View, h: ClientSocket.Hook,
                               now: int, iso: string, snow: int, siso: string)
    requires Server.Inv(st)
    requires !Text.Blank(v.draft) && v.recipient.None? && v.currentRoom != ""
    ensures var sent := ChatView.HandleSend(v, h, now, iso);
            var m := Server.SendMessage(st, id, v.draft, v.currentRoom, snow, siso).events[0].payload.msg;
            var h' := ClientSocket.OnMessage(sent.hook, m);
            var draft := ClientSocket.RoomDraft(v.draft, v.currentRoom, now, iso);
            && ChatView.Displayed(h'.messages, None, v.currentRoom)
                 == ChatView.Displayed(h.messages, None, v.currentRoom) + [draft, m]
            && draft.delivered == Some(false)
            && m.text == draft.text && m.id != draft.id
  {
    var c := v.currentRoom;
    var m := Server.SendMessage(st, id, v.draft, c, snow, siso).events[0].payload.msg;
    assert m == Server.RoomMessage(st, id, v.draft, c, snow, siso);
    var draft := ClientSocket.RoomDraft(v.draft, c, now, iso);
    var sent := ChatView.HandleSend(v, h, now, iso);
    assert sent.hook.messages == h.messages + [draft];
    ShownAfterBoth(h.messages, draft, m, c);
  }

  lemma ShownAfterBoth(msgs: seq<Msg>, d: Msg, m: Msg, c: string)
    requires ChatView.Shown(d, None, c) && ChatView.Shown(m, None, c)
    ensures ChatView.Displayed((msgs + [d]) + [m], None, c) == ChatView.Displayed(msgs, None, c) + [d, m]
  {
    ChatView.DisplayedAppend(msgs + [d], [m], None, c);
    ChatView.DisplayedAppend(msgs, [d], None, c);
    assert [m][1..] == [] && [d][1..] == [];
  }

  /** Switching rooms while connected: the page zeroes the room's counter
      and emits join_room; the server moves the socket into the new room and
      out of the one it was in, and replies with the socket's counters.
      After the reply both sides hold the same counters, with the new room
      at zero, and the room's broadcasts reach the socket. */
  lemma JoinRoomSyncsCounters(v: ChatView.View, h: ClientSocket.Hook, st: Server.State, id: Id, room: string,
                              now: int, iso: string)
    requires Server.Inv(st) && id in st.sockets
    requires h.connected && room != v.currentRoom
    ensures var e := ChatView.JoinRoom(v, h, room);
            var s := Server.JoinRoom(st, id, room);
            var h' := ClientSocket.Receive(e.hook, s.events[0].payload, now, iso);
            && e.out == [ClientSocket.EmitJoinRoom(room)]
            && e.view.currentRoom == room && e.hook.unread[room] == 0
            && h'.unread == s.st.unread[id] && h'.unread[room] == 0
            && h'.messages == e.hook.messages
            && id in Server.Recipients(s.st, Server.ToRoom(room))
            && (var prev := st.sockets[id].currentRoom;
                prev != "" && prev != room ==> id !in Server.Recipients(s.st, Server.ToRoom(prev)))
  {
  }

  /** Connecting with a non-empty name: the client opens the socket and
      emits user_join; the server registers the socket and the user, and
      the broadcasts that reach the new socket put the user in its user
      list and append a join notice. An empty name emits nothing after the
      open, so the socket stays out of the user list. */
  lemma ConnectAnnouncesUser(st: Server.State, id: Id, username: string, h: ClientSocket.Hook, now: int, iso: string)
    requires id !in st.sockets
    ensures username == "" ==> ClientSocket.Connect(username) == [ClientSocket.Open]
    ensures username != "" ==>
              var s1 := Server.Connect(st, id);
              var s2 := Server.UserJoin(s1.st, id, username);
              var h1 := ClientSocket.Receive(h, s2.events[0].payload, now, iso);
              var h2 := ClientSocket.Receive(h1, s2.events[1].payload, now, iso);
              && ClientSocket.Connect(username) == [ClientSocket.Open, ClientSocket.EmitUserJoin(username)]
              && id in Server.Recipients(s2.st, s2.events[0].target)
              && id in Server.Recipients(s2.st, s2.events[1].target)
              && User(id, username) in h2.users
              && h2.messages == h.messages + [ClientSocket.Notice(username, true, now, iso)]
  {
    if username != "" {
      var s1 := Server.Connect(st, id);
      Assoc.PutSpec(s1.st.users, id, User(id, username));
      Assoc.GetFound(Assoc.Put(s1.st.users, id, User(id, username)), id);
    }
  }

  /** The page a scroll to the top fetches: the server's as written, or the
      corrected one. */
  function Fetch(h: seq<Msg>, p: int, corrected: bool): seq<Msg>
  {
    if corrected then Paging.PageIntended(h, p) else Paging.Page(h, p)
  }

  /** One scroll to the top of the list (`handleScroll`): while hasMore
      holds, fetch the next page of the room's history h and hand it to
      `loadOlderMessages`. */
  function ScrollOnce(e: ChatView.Effect, h: seq<Msg>, corrected: bool): ChatView.Effect
  {
    if !e.view.hasMore then e
    else ChatView.LoadOlder(e.view, e.hook, Fetch(h, ChatView.NextPage(e.view), corrected))
  }

  /** n scrolls to the top of the list, each fetch reading the same
      history h: no message is sent to the room or evicted in between. */
  function ScrollBack(v: ChatView.View, hk: ClientSocket.Hook, h: seq<Msg>, n: nat, corrected: bool): ChatView.Effect
  {
    if n == 0 then ChatView.Effect(v, hk, []) else ScrollOnce(ScrollBack(v, hk, h, n - 1, corrected), h, corrected)
  }

  /** The client after scrolling back to page n from `v` and `hk`: the page
      counter reads n and pages n, ..., 1 of the history, oldest first,
      stand before what the client held. */
  predicate ScrolledTo(e: ChatView.Effect, v: ChatView.View, hk: ClientSocket.Hook, h: seq<Msg>, n: nat)
  {
    && e.view == v.(page := n)
    && e.hook == hk.(messages := e.hook.messages)
    && e.hook.messages
         == h[Paging.Max(|h| - Paging.PageSize * (n + 1), 0) .. Paging.Max(|h| - Paging.PageSize, 0)] + hk.messages
  }

  /** While every fetched page is in range, n scrolls prepend exactly pages
      n, ..., 1 of the history, in order, to what the client held. */
  lemma {:induction false} ScrollBackInRange(v: ChatView.View, hk: ClientSocket.Hook, h: seq<Msg>, n: nat)
    requires v.page == 0 && v.hasMore
    requires n == 0 || Paging.PageSize * n < |h|
    ensures ScrolledTo(ScrollBack(v, hk, h, n, false), v, hk, h, n)
  {
    if n > 0 {
      ScrollBackInRange(v, hk, h, n - 1);
      ScrollInRangeStep(ScrollBack(v, hk, h, n - 1, false), v, hk, h, n);
    } else {
      var hi := Paging.Max(|h| - Paging.PageSize, 0);
      assert h[hi..hi] + hk.messages == hk.messages;
    }
  }

  /** One more in-range scroll fetches page n and prepends it. */
  lemma ScrollInRangeStep(e0: ChatView.Effect, v: ChatView.View, hk: ClientSocket.Hook, h: seq<Msg>, n: nat)
    requires v.hasMore && 0 < n && Paging.PageSize * n < |h|
    requires ScrolledTo(e0, v, hk, h, n - 1)
    ensures ScrolledTo(ScrollOnce(e0, h, false), v, hk, h, n)
  {
    var L := |h|;
    var lo := Paging.Max(L - Paging.PageSize * (n + 1), 0);
    var mid := L - Paging.PageSize * n;
    var hi := Paging.Max(L - Paging.PageSize, 0);
    var older := Paging.Page(h, n);
    assert older == h[lo..mid] && 0 <= lo <= mid <= hi <= L;
    assert e0.hook.messages == h[mid..hi] + hk.messages by {
      assert Paging.PageSize * ((n - 1) + 1) == Paging.PageSize * n;
      assert Paging.Max(L - Paging.PageSize * ((n - 1) + 1), 0) == mid;
    }
    var e := ChatView.LoadOlder(e0.view, e0.hook, older);
    assert ScrollOnce(e0, h, false) == e;
    assert e.hook.messages == older + e0.hook.messages by {
      var m := e.hook.messages;
      assert m == m[..|older|] + m[|older|..];
    }
    JoinSlices(h, lo, mid, hi, hk.messages);
  }

  /** Adjacent slices placed side by side form one slice. */
  lemma JoinSlices<T>(h: seq<T>, lo: int, mid: int, hi: int, tail: seq<T>)
    requires 0 <= lo <= mid <= hi <= |h|
    ensures h[lo..mid] + (h[mid..hi] + tail) == h[lo..hi] + tail
  {
    assert h[lo..mid] + h[mid..hi] == h[lo..hi];
  }

  /** From a client holding page 0, in-range scrolls give exactly the newest
      20(n+1) messages of the history, each once. */
  lemma ScrollBackFromNewest(v: ChatView.View, hk: ClientSocket.Hook, h: seq<Msg>, n: nat)
    requires v.page == 0 && v.hasMore && hk.messages == Paging.Page(h, 0)
    requires n == 0 || Paging.PageSize * n < |h|
    ensures ScrollBack(v, hk, h, n, false).hook.messages == h[Paging.Max(|h| - Paging.PageSize * (n + 1), 0)..]
  {
    ScrollBackInRange(v, hk, h, n);
    var lo := Paging.Max(|h| - Paging.PageSize * (n + 1), 0);
    var hi := Paging.Max(|h| - Paging.PageSize, 0);
    Paging.NewestPage(h);
    Paging.SliceJoin(h, lo, hi);
  }

  /** What n scrolls against the corrected page leave: the page counter p
      is at most n and names an in-range page; pages p, ..., 1 stand once
      each, oldest first, before what the client held; and paging has
      stopped, after finding page p+1 empty, exactly when p fell behind n. */
  predicate ScrolledCorrected(e: ChatView.Effect, v: ChatView.View, hk: ClientSocket.Hook, h: seq<Msg>, n: nat)
  {
    var p := e.view.page;
    && 0 <= p <= n
    && e.view == v.(page := p, hasMore := e.view.hasMore)
    && e.hook == hk.(messages := e.hook.messages)
    && (p == 0 || Paging.PageSize * p < |h|)
    && e.hook.messages
         == h[Paging.Max(|h| - Paging.PageSize * (p + 1), 0) .. Paging.Max(|h| - Paging.PageSize, 0)] + hk.messages
    && (p < n ==> !e.view.hasMore)
    && (!e.view.hasMore ==> Paging.PageSize * (p + 1) >= |h|)
  }

  /** With the corrected page, however often the user scrolls, the client
      has prepended pages p, ..., 1 once each, in order; once a scroll finds
      no more, paging has stopped and the client holds the whole history
      before page 1 exactly once. */
  lemma {:induction false} ScrollBackCorrectedLoadsEachOnce(v: ChatView.View, hk: ClientSocket.Hook, h: seq<Msg>, n: nat)
    requires v.page == 0 && v.hasMore
    ensures ScrolledCorrected(ScrollBack(v, hk, h, n, true), v, hk, h, n)
    ensures var e := ScrollBack(v, hk, h, n, true);
            e.view.page < n ==> e.hook.messages == h[..Paging.Max(|h| - Paging.PageSize, 0)] + hk.messages
  {
    var e := ScrollBack(v, hk, h, n, true);
    if n > 0 {
      ScrollBackCorrectedLoadsEachOnce(v, hk, h, n - 1);
      ScrollCorrectedStep(ScrollBack(v, hk, h, n - 1, true), v, hk, h, n);
    } else {
      var hi := Paging.Max(|h| - Paging.PageSize, 0);
      assert h[hi..hi] + hk.messages == hk.messages;
    }
    var p := e.view.page;
    if p < n {
      assert Paging.Max(|h| - Paging.PageSize * (p + 1), 0) == 0;
    }
  }

  /** One more scroll against the corrected page either fetches the next
      in-range page and prepends it, or finds none and stops paging. */
  lemma ScrollCorrectedStep(e0: ChatView.Effect, v: ChatView.View, hk: ClientSocket.Hook, h: seq<Msg>, n: nat)
    requires 0 < n && ScrolledCorrected(e0, v, hk, h, n - 1)
    ensures ScrolledCorrected(ScrollOnce(e0, h, true), v, hk, h, n)
  {
    var p := e0.view.page;
    if e0.view.hasMore && Paging.PageSize * (p + 1) < |h| {
      ScrollCorrectedAdvance(e0, v, hk, h, n);
    }
  }

  /** A scroll that finds page n in range prepends it and moves to it. */
  lemma ScrollCorrectedAdvance(e0: ChatView.Effect, v: ChatView.View, hk: ClientSocket.Hook, h: seq<Msg>, n: nat)
    requires 0 < n && e0.view.page == n - 1 && e0.view.hasMore && Paging.PageSize * n < |h|
    requires e0.view == v.(page := n - 1, hasMore := true) && e0.hook == hk.(messages := e0.hook.messages)
    requires e0.hook.messages == h[|h| - Paging.PageSize * n .. Paging.Max(|h| - Paging.PageSize, 0)] + hk.messages
    ensures var e := ScrollOnce(e0, h, true);
            && e.view == v.(page := n, hasMore := true)
            && e.hook == hk.(messages := e.hook.messages)
            && e.hook.messages
                 == h[Paging.Max(|h| - Paging.PageSize * (n + 1), 0) .. Paging.Max(|h| - Paging.PageSize, 0)] + hk.messages
  {
    var L := |h|;
    var lo := Paging.Max(L - Paging.PageSize * (n + 1), 0);
    var mid := L - Paging.PageSize * n;
    var hi := Paging.Max(L - Paging.PageSize, 0);
    var older := Paging.PageIntended(h, n);
    assert older == h[lo..mid] && 0 <= lo <= mid <= hi <= L;
    var e := ChatView.LoadOlder(e0.view, e0.hook, older);
    assert ScrollOnce(e0, h, true) == e;
    assert e.hook.messages == older + e0.hook.messages by {
      var m := e.hook.messages;
      assert m == m[..|older|] + m[|older|..];
    }
    JoinSlices(h, lo, mid, hi, hk.messages);
  }

  /** Scrolling back against the server as written: with 30 stored messages
      the client fetches page 1 (the oldest 10), then page 2 (the oldest
      20), and ends up holding the oldest 20 twice. */
  lemma ScrollBackRepeatsMessages(v: ChatView.View, h: ClientSocket.Hook, msgs: seq<Msg>)
    requires |msgs| == 30 && v.page == 0 && v.hasMore && h.messages == msgs[10..]
    ensures var e1 := ChatView.LoadOlder(v, h, Paging.Page(msgs, ChatView.NextPage(v)));
            var e2 := ChatView.LoadOlder(e1.view, e1.hook, Paging.Page(msgs, ChatView.NextPage(e1.view)));
            && e2.view.page == 2 && e2.view.hasMore
            && e2.hook.messages == msgs[..20] + msgs
            && |e2.hook.messages| == 50
  {
    assert Paging.Page(msgs, 1) == msgs[..10];
    assert Paging.Page(msgs, 2) == msgs[..20];
    assert msgs[..10] + msgs[10..] == msgs;
  }

  /** Scrolling back against the intended page: page 1 of 30 messages is the
      oldest 10, page 2 is empty and ends paging, and every message is held
      once. */
  lemma ScrollBackIntended(v: ChatView.View, h: ClientSocket.Hook, msgs: seq<Msg>)
    requires |msgs| == 30 && v.page == 0 && v.hasMore && h.messages == msgs[10..]
    ensures var e1 := ChatView.LoadOlder(v, h, Paging.PageIntended(msgs, ChatView.NextPage(v)));
            var e2 := ChatView.LoadOlder(e1.view, e1.hook, Paging.PageIntended(msgs, ChatView.NextPage(e1.view)));
            && e2.view.page == 1 && !e2.view.hasMore
            && e2.hook.messages == msgs
  {
    assert Paging.PageIntended(msgs, 1) == msgs[..10];
    assert msgs[..10] + msgs[10..] == msgs;
  }
}
