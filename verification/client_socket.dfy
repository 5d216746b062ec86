/**
 The browser client's socket hook: its state lists and maps, the optimistic
 append of a sent message, the acknowledgment reconciliation that would mark
 it delivered, and the list and map updates run for each server event.
 */
module ClientSocket {
  import opened Wrappers
  import opened Messages

  /** The hook's React state. */
  datatype Hook = Hook(
    connected: bool,
    lastMessage: Option<Msg>,
    messages: seq<Msg>,
    users: seq<User>,
    typingUsers: seq<string>,
    unread: map<string, int>)

  /** What the client emits to the server. */
  datatype Request =
    | Open                                    // socket.connect()
    | EmitUserJoin(username: string)
    | EmitSendMessage(text: string, room: string)
    | EmitPrivateMessage(to: Id, text: string)
    | EmitTyping(isTyping: bool)
    | EmitJoinRoom(room: string)

  /** The acknowledgment a send callback would receive. */
  datatype Ack = Ack(status: string, id: MsgId, timestamp: string)

  /** The unread map the hook starts with. */
  function InitialUnread(): (c: map<string, int>)
    ensures c.Keys == {"general", "sports", "tech"}
    ensures forall room :: room in c ==> c[room] == 0
  {
    map["general" := 0, "sports" := 0, "tech" := 0]
  }

  /** `connect(username)`: open the socket, then announce a non-empty name. */
  function Connect(username: string): (out: seq<Request>)
    ensures 1 <= |out| && out[0] == Open
    ensures EmitUserJoin(username) in out <==> username != ""
    ensures |out| <= 2
  {
    if username != "" then [Open, EmitUserJoin(username)] else [Open]
  }

  /** The provisional record of a room message sent at time `now`. */
  function RoomDraft(text: string, room: string, now: int, iso: string): Msg
  {
    Msg(Temp(now), Some("You"), None, text, iso, Some(room), Some(false), Some(false), None, false)
  }

  /** The provisional record of a private message sent at time `now`. */
  function PrivateDraft(to: Id, text: string, now: int, iso: string): Msg
  {
    Msg(Temp(now), Some("You"), None, text, iso, None, Some(true), Some(false), Some(to), false)
  }

  /** `sendMessage({message, room})`: append a provisional record and emit. */
  function SendMessage(h: Hook, text: string, room: string, now: int, iso: string): (r: (Hook, seq<Request>))
    ensures |r.0.messages| == |h.messages| + 1
    ensures r.0.messages[..|h.messages|] == h.messages
    ensures var m := r.0.messages[|h.messages|];
            && m.id == Temp(now) && m.sender == Some("You") && m.text == text
            && m.room == Some(room) && m.isPrivate == Some(false) && m.delivered == Some(false)
            && m.to == None && !m.system
    ensures r.0 == h.(messages := r.0.messages)
    ensures r.1 == [EmitSendMessage(text, room)]
  {
    (h.(messages := h.messages + [RoomDraft(text, room, now, iso)]), [EmitSendMessage(text, room)])
  }

  /** `sendPrivateMessage(to, message)`: emit, then append a provisional record. */
  function SendPrivateMessage(h: Hook, to: Id, text: string, now: int, iso: string): (r: (Hook, seq<Request>))
    ensures |r.0.messages| == |h.messages| + 1
    ensures r.0.messages[..|h.messages|] == h.messages
    ensures var m := r.0.messages[|h.messages|];
            && m.id == Temp(now) && m.sender == Some("You") && m.text == text
            && m.room == None && m.isPrivate == Some(true) && m.delivered == Some(false)
            && m.to == Some(to) && !m.system
    ensures r.0 == h.(messages := r.0.messages)
    ensures r.1 == [EmitPrivateMessage(to, text)]
  {
    (h.(messages := h.messages + [PrivateDraft(to, text, now, iso)]), [EmitPrivateMessage(to, text)])
  }

  /** `ack && ack.status === "delivered"`. */
  predicate Delivers(ack: Option<Ack>)
  {
    ack.Some? && ack.value.status == "delivered"
  }

  /** `{ ...m, delivered: true, id: ack.id, timestamp: ack.timestamp }`. */
  function Finalize(m: Msg, a: Ack): Msg
  {
    m.(delivered := Some(true), id := a.id, timestamp := a.timestamp)
  }

  function FinalizeMatching(msgs: seq<Msg>, tempId: MsgId, a: Ack): (r: seq<Msg>)
    ensures |r| == |msgs|
    ensures forall i :: 0 <= i < |msgs| ==>
              r[i] == if msgs[i].id == tempId then Finalize(msgs[i], a) else msgs[i]
  {
    if |msgs| == 0 then []
    else [if msgs[0].id == tempId then Finalize(msgs[0], a) else msgs[0]] + FinalizeMatching(msgs[1..], tempId, a)
  }

  /** The acknowledgment callback of both sends: on a delivered ack, every
      record carrying the provisional id takes the server's id and timestamp
      and is marked delivered; the list keeps its length and order. */
  function Reconcile(msgs: seq<Msg>, tempId: MsgId, ack: Option<Ack>): (r: seq<Msg>)
    ensures |r| == |msgs|
    ensures !Delivers(ack) ==> r == msgs
    ensures Delivers(ack) ==> forall i :: 0 <= i < |msgs| && msgs[i].id != tempId ==> r[i] == msgs[i]
    ensures Delivers(ack) ==> forall i :: 0 <= i < |msgs| && msgs[i].id == tempId ==>
              && r[i].delivered == Some(true) && r[i].id == ack.value.id
              && r[i].timestamp == ack.value.timestamp
              && r[i].text == msgs[i].text && r[i].room == msgs[i].room && r[i].isPrivate == msgs[i].isPrivate
    // `{ ...m, ... }` keeps every field it does not name.
    ensures Delivers(ack) ==> forall i :: 0 <= i < |msgs| && msgs[i].id == tempId ==>
              r[i] == msgs[i].(delivered := Some(true), id := ack.value.id, timestamp := ack.value.timestamp)
  {
    if Delivers(ack) then FinalizeMatching(msgs, tempId, ack.value) else msgs
  }

  /** A delivered ack whose id differs from the provisional one leaves no
      record with the provisional id, and a second identical ack changes
      nothing more. */
  lemma ReconcileSettles(msgs: seq<Msg>, tempId: MsgId, ack: Option<Ack>)
    requires Delivers(ack) && ack.value.id != tempId
    ensures forall m :: m in Reconcile(msgs, tempId, ack) ==> m.id != tempId
    ensures Reconcile(Reconcile(msgs, tempId, ack), tempId, ack) == Reconcile(msgs, tempId, ack)
  {
  }

  /** `onReceiveMessage` and `onPrivateMessage`: append and remember. */
  function OnMessage(h: Hook, m: Msg): (r: Hook)
    ensures r.messages == h.messages + [m] && r.lastMessage == Some(m)
    ensures r == h.(messages := r.messages, lastMessage := r.lastMessage)
  {
    h.(lastMessage := Some(m), messages := h.messages + [m])
  }

  /** `onUnreadCounts`: the map is replaced wholesale; null becomes {}. */
  function OnUnreadCounts(h: Hook, counts: Option<map<string, int>>): (r: Hook)
    ensures counts.Some? ==> r.unread == counts.value
    ensures counts.None? ==> r.unread == map[]
    ensures r == h.(unread := r.unread)
  {
    h.(unread := counts.GetOr(map[]))
  }

  /** The system notice `<username> joined the chat` / `left the chat`:
      no sender, no room, no isPrivate property. */
  function Notice(username: string, joined: bool, now: int, iso: string): (m: Msg)
    ensures m.system && m.room == None && m.isPrivate == None && m.sender == None
  {
    Msg(Stamp(now), None, None, username + (if joined then " joined the chat" else " left the chat"),
        iso, None, None, None, None, true)
  }

  /** The hook's handler for each server event; `now` and `iso` are the
      client clock readings a notice takes. */
  function Receive(h: Hook, p: Payload, now: int, iso: string): (r: Hook)
    ensures |h.messages| <= |r.messages| <= |h.messages| + 1
    ensures r.messages[..|h.messages|] == h.messages
    ensures p.ReceiveMessage? || p.PrivateMessage? ==> r.messages == h.messages + [p.msg]
    ensures p.UserJoined? || p.UserLeft? ==> |r.messages| == |h.messages| + 1 && r.messages[|h.messages|].system
    ensures r.unread != h.unread ==> p.UnreadCounts?
  {
    match p
    case ReceiveMessage(m) => OnMessage(h, m)
    case PrivateMessage(m) => OnMessage(h, m)
    case UnreadCounts(c) => OnUnreadCounts(h, c)
    case UserList(us) => h.(users := us)
    case UserJoined(u) => h.(messages := h.messages + [Notice(u.username, true, now, iso)])
    case UserLeft(u) => h.(messages := h.messages + [Notice(u.username, false, now, iso)])
    case TypingUsers(names) => h.(typingUsers := names)
  }

  /** Two sends in the same millisecond share the provisional id `tmp-<now>`,
      so one delivered ack rewrites both records. */
  lemma SameMillisecondSharesAck(h: Hook, t1: string, t2: string, room: string, now: int, iso: string, a: Ack)
    requires a.status == "delivered"
    ensures var h1 := SendMessage(h, t1, room, now, iso).0;
            var h2 := SendMessage(h1, t2, room, now, iso).0;
            var r := Reconcile(h2.messages, Temp(now), Some(a));
            && r[|h.messages|].id == a.id && r[|h.messages|].text == t1
            && r[|h.messages| + 1].id == a.id && r[|h.messages| + 1].text == t2
  {
    var h1 := SendMessage(h, t1, room, now, iso).0;
    var h2 := SendMessage(h1, t2, room, now, iso).0;
    assert h2.messages[|h.messages|] == h1.messages[|h.messages|];
  }
}
