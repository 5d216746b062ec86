/**
 The pure logic of the chat page: the guards and routing of the join and
 send buttons, the room switch, the scroll-back pagination rule and the
 filter that picks the messages shown.
 */
module ChatView {
  import opened Wrappers
  import opened Messages
  import Text
  import ClientSocket

  /** The page's own React state. */
  datatype View = View(
    username: string,
    isJoined: bool,
    draft: string,                 // the message input
    recipient: Option<User>,       // privateRecipient
    currentRoom: string,
    page: int,
    hasMore: bool)

  /** The page's state and the hook's state after a user action, with the
      requests it emitted. */
  datatype Effect = Effect(view: View, hook: ClientSocket.Hook, out: seq<ClientSocket.Request>)

  function InitialView(): View
  {
    View("", false, "", None, "general", 0, true)
  }

  /** `handleJoin`: nothing for a blank name; otherwise connect with the
      name as typed and show the chat. */
  function HandleJoin(v: View, h: ClientSocket.Hook): (r: Effect)
    ensures Text.Blank(v.username) ==> r == Effect(v, h, [])
    ensures !Text.Blank(v.username) ==>
              && r.view == v.(isJoined := true) && r.hook == h
              && r.out == [ClientSocket.Open, ClientSocket.EmitUserJoin(v.username)]
  {
    // `!username.trim()`, which Text.Trim's contract shows is Text.Blank.
    if Text.Blank(v.username) then Effect(v, h, [])
    else Effect(v.(isJoined := true), h, ClientSocket.Connect(v.username))
  }

  /** `handleSend`: nothing for a blank message; otherwise a private send to
      the chosen recipient or a room send to the current room, then the
      input is cleared and typing(false) is emitted. */
  function HandleSend(v: View, h: ClientSocket.Hook, now: int, iso: string): (r: Effect)
    ensures Text.Blank(v.draft) ==> r == Effect(v, h, [])
    ensures !Text.Blank(v.draft) ==>
              && r.view == v.(draft := "")
              && |r.hook.messages| == |h.messages| + 1
              && r.hook.messages[..|h.messages|] == h.messages
              && r.hook == h.(messages := r.hook.messages)
              && |r.out| == 2 && r.out[1] == ClientSocket.EmitTyping(false)
    ensures !Text.Blank(v.draft) && v.recipient.Some? ==>
              && r.out[0] == ClientSocket.EmitPrivateMessage(v.recipient.value.id, v.draft)
              && r.hook.messages[|h.messages|] == ClientSocket.PrivateDraft(v.recipient.value.id, v.draft, now, iso)
    ensures !Text.Blank(v.draft) && v.recipient.None? ==>
              && r.out[0] == ClientSocket.EmitSendMessage(v.draft, v.currentRoom)
              && r.hook.messages[|h.messages|] == ClientSocket.RoomDraft(v.draft, v.currentRoom, now, iso)
  {
    // `!input.trim()`, which Text.Trim's contract shows is Text.Blank.
    if Text.Blank(v.draft) then Effect(v, h, [])
    else
      var sent := Dispatch(v, h, now, iso);
      Effect(v.(draft := ""), sent.0, sent.1 + [ClientSocket.EmitTyping(false)])
  }

  /** The send a non-blank draft makes: private to the chosen recipient,
      otherwise to the current room, with its optimistic copy appended. */
  function Dispatch(v: View, h: ClientSocket.Hook, now: int, iso: string): (r: (ClientSocket.Hook, seq<ClientSocket.Request>))
    ensures |r.0.messages| == |h.messages| + 1
    ensures r.0.messages[..|h.messages|] == h.messages
    ensures r.0 == h.(messages := r.0.messages)
    ensures |r.1| == 1
    ensures v.recipient.Some? ==>
              && r.1[0] == ClientSocket.EmitPrivateMessage(v.recipient.value.id, v.draft)
              && r.0.messages[|h.messages|] == ClientSocket.PrivateDraft(v.recipient.value.id, v.draft, now, iso)
    ensures v.recipient.None? ==>
              && r.1[0] == ClientSocket.EmitSendMessage(v.draft, v.currentRoom)
              && r.0.messages[|h.messages|] == ClientSocket.RoomDraft(v.draft, v.currentRoom, now, iso)
  {
    match v.recipient
    case Some(u) => ClientSocket.SendPrivateMessage(h, u.id, v.draft, now, iso)
    case None => ClientSocket.SendMessage(h, v.draft, v.currentRoom, now, iso)
  }

  /** `joinRoom(room)`: nothing when already there; otherwise switch, tell
      the server if connected, restart paging and zero the room's counter. */
  function JoinRoom(v: View, h: ClientSocket.Hook, room: string): (r: Effect)
    ensures room == v.currentRoom ==> r == Effect(v, h, [])
    ensures room != v.currentRoom ==>
              && r.view == v.(currentRoom := room, page := 0, hasMore := true)
              && r.out == (if h.connected then [ClientSocket.EmitJoinRoom(room)] else [])
              && r.hook == h.(unread := r.hook.unread)
              && r.hook.unread.Keys == h.unread.Keys + {room}
              && r.hook.unread[room] == 0
              && forall k :: k in h.unread && k != room ==> r.hook.unread[k] == h.unread[k]
  {
    if v.currentRoom == room then Effect(v, h, [])
    else
      Effect(v.(currentRoom := room, page := 0, hasMore := true),
             h.(unread := h.unread[room := 0]),
             if h.connected then [ClientSocket.EmitJoinRoom(room)] else [])
  }

  /** The history page `loadOlderMessages` asks for. */
  function NextPage(v: View): int
  {
    v.page + 1
  }

  /** `loadOlderMessages` given the fetched page: an empty page ends paging
      and keeps the page number; a non-empty one advances it and is put
      before the messages already held. */
  function LoadOlder(v: View, h: ClientSocket.Hook, older: seq<Msg>): (r: Effect)
    ensures |older| == 0 ==> r == Effect(v.(hasMore := false), h, [])
    ensures |older| > 0 ==>
              && r.view == v.(page := v.page + 1)
              && r.hook == h.(messages := r.hook.messages)
              && |r.hook.messages| == |older| + |h.messages|
              && r.hook.messages[..|older|] == older
              && r.hook.messages[|older|..] == h.messages
    ensures r.out == []
  {
    if |older| == 0 then Effect(v.(hasMore := false), h, [])
    else Effect(v.(page := v.page + 1), h.(messages := older + h.messages), [])
  }

  /** Whether a message shows: in a private chat, private messages from the
      partner's name or from "You" (the recipient is not consulted); in
      room mode, non-private messages of the current room. */
  predicate Shown(m: Msg, recipient: Option<User>, currentRoom: string)
  {
    match recipient
    case Some(u) => Truthy(m.isPrivate) && (m.sender == Some(u.username) || m.sender == Some("You"))
    case None => !Truthy(m.isPrivate) && m.room == Some(currentRoom)
  }

  /** `displayedMessages`. */
  function Displayed(msgs: seq<Msg>, recipient: Option<User>, currentRoom: string): (r: seq<Msg>)
    ensures |r| <= |msgs|
    ensures forall m :: m in r <==> m in msgs && Shown(m, recipient, currentRoom)
  {
    if |msgs| == 0 then []
    else
      var rest := Displayed(msgs[1..], recipient, currentRoom);
      assert forall m :: m in msgs <==> m == msgs[0] || m in msgs[1..];
      if Shown(msgs[0], recipient, currentRoom) then [msgs[0]] + rest else rest
  }

  /** The filter keeps the original order: filtering a concatenation is
      concatenating the filtered parts. */
  lemma {:induction false} DisplayedAppend(a: seq<Msg>, b: seq<Msg>, recipient: Option<User>, currentRoom: string)
    ensures Displayed(a + b, recipient, currentRoom) == Displayed(a, recipient, currentRoom) + Displayed(b, recipient, currentRoom)
  {
    if |a| > 0 {
      assert (a + b)[1..] == a[1..] + b;
      DisplayedAppend(a[1..], b, recipient, currentRoom);
    } else {
      assert a + b == b;
    }
  }

  /** Join and leave notices have no room and are not private, so no view
      ever shows them. */
  lemma NoticesNeverShown(msgs: seq<Msg>, username: string, joined: bool, now: int, iso: string,
                          recipient: Option<User>, currentRoom: string)
    ensures var n := ClientSocket.Notice(username, joined, now, iso);
            Displayed(msgs + [n], recipient, currentRoom) == Displayed(msgs, recipient, currentRoom)
  {
    var n := ClientSocket.Notice(username, joined, now, iso);
    DisplayedAppend(msgs, [n], recipient, currentRoom);
    assert [n][1..] == [];
  }

  /** A room send shows its provisional record at the end of the room view
      at once. */
  lemma RoomSendShown(v: View, h: ClientSocket.Hook, now: int, iso: string)
    requires !Text.Blank(v.draft) && v.recipient.None?
    ensures var r := HandleSend(v, h, now, iso);
            Displayed(r.hook.messages, None, v.currentRoom)
              == Displayed(h.messages, None, v.currentRoom) + [ClientSocket.RoomDraft(v.draft, v.currentRoom, now, iso)]
  {
    var r := HandleSend(v, h, now, iso);
    var d := ClientSocket.RoomDraft(v.draft, v.currentRoom, now, iso);
    assert r.hook.messages == h.messages + [d];
    DisplayedAppend(h.messages, [d], None, v.currentRoom);
    assert [d][1..] == [];
  }

  /** A private chat shows every private message the user sent, whoever it
      was addressed to: the filter looks at the sender only. */
  lemma PrivateViewIgnoresAddressee(to: Id, text: string, now: int, iso: string, partner: User, currentRoom: string)
    ensures Shown(ClientSocket.PrivateDraft(to, text, now, iso), Some(partner), currentRoom)
  {
  }
}
