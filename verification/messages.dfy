/**
 The records exchanged between the chat server and its browser clients.
 One message record serves both sides: the server builds room and private
 messages, the client builds optimistic drafts and join/leave notices, and
 every JavaScript property that may be absent is an Option.
 */
module Messages {
  import opened Wrappers

  /** A socket.io connection identifier. */
  type Id = string

  /** A message id: the number Date.now() returned, or the client's
      provisional string `tmp-<Date.now()>`. A number never equals a string
      under ===, and `tmp-` followed by a millisecond count determines it. */
  datatype MsgId = Stamp(ms: int) | Temp(ms: int)

  /** An entry of the server's `users` map. */
  datatype User = User(id: Id, username: string)

  datatype Msg = Msg(
    id: MsgId,
    sender: Option<string>,
    senderId: Option<Id>,
    text: string,
    timestamp: string,
    room: Option<string>,
    isPrivate: Option<bool>,
    delivered: Option<bool>,
    to: Option<Id>,
    system: bool)

  /** JavaScript truthiness of an optional boolean property. */
  predicate Truthy(b: Option<bool>)
  {
    b == Some(true)
  }

  /** The payload of each server-to-client event, by event name. */
  datatype Payload =
    | UserList(users: seq<User>)                         // "user_list"
    | UserJoined(user: User)                             // "user_joined"
    | UserLeft(user: User)                               // "user_left"
    | UnreadCounts(counts: Option<map<string, int>>)     // "unread_counts"
    | ReceiveMessage(msg: Msg)                           // "receive_message"
    | PrivateMessage(msg: Msg)                           // "private_message"
    | TypingUsers(names: seq<string>)                    // "typing_users"

  /** The room names every connection starts with a zero counter for. */
  function StartingCounts(): map<string, int>
  {
    map["general" := 0, "sports" := 0, "tech" := 0]
  }
}
