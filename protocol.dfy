/** The events the server sends, with the connections each one is sent to,
    and the constants of server.js. */
module Protocol {
  import opened JsText

  /** `socket.id`: an opaque handle, unique per connection. */
  type ConnId = nat

  /** `new Date().toISOString()` at the moment a handler runs, taken as an input. */
  type Timestamp = JsString

  datatype Option<T> = None | Some(value: T)

  /** Who receives an emitted event: `socket.emit` (the originating connection),
      `socket.broadcast.emit` (every connection but the originator) or
      `io.emit` (every connection). */
  datatype Target = ToSelf | ToOthers | ToAll

  /** The payload of each outbound event, one constructor per event name.
      `isSystem` is `true` on the welcome message; a chat message has no such
      field, which `false` stands for. */
  datatype Payload =
    | Error(message: JsString)                       // 'error'
    | UserJoined(username: JsString)                 // 'userJoined'
    | UserLeft(username: JsString)                   // 'userLeft'
    | UserList(usernames: seq<JsString>)             // 'userList'
    | Message(username: JsString, message: JsString,
              timestamp: Timestamp, isSystem: bool)  // 'message'
    | Typing(username: JsString)                     // 'typing'
    | StopTyping(username: JsString)                 // 'stopTyping'

  datatype OutEvent = Emit(target: Target, payload: Payload)

  /** `MAX_USERS`. */
  const MaxUsers: nat := 2

  /** The limit on `data.message.length`. */
  const MaxMessageLength: nat := 1000

  const RoomFullText: JsString := Lit("Chat room is full. Only 2 people can chat at a time.")
  const NameTakenText: JsString := Lit("Username is already taken. Please choose a different name.")
  const MustJoinText: JsString := Lit("You must join the chat first.")
  const TooLongText: JsString := Lit("Message is too long. Maximum 1000 characters allowed.")
  const SystemName: JsString := Lit("System")

  /** The text of the welcome message sent to a user who has just joined. */
  function WelcomeText(username: JsString): (r: JsString)
    ensures |r| == |Lit("Welcome to the chat, ")| + |username| + 1
    ensures r[..|Lit("Welcome to the chat, ")|] == Lit("Welcome to the chat, ")
    ensures r[|Lit("Welcome to the chat, ")|..|r| - 1] == username
    ensures r[|r| - 1] == Lit("!")[0]
  {
    Lit("Welcome to the chat, ") + username + Lit("!")
  }

  /** JavaScript truthiness of `socket.username`: `undefined` and the empty
      string are both falsy, so a connection counts as joined only when it
      holds a non-empty name. */
  predicate Joined(username: Option<JsString>)
    ensures Joined(username) <==> username.Some? && |username.value| > 0
  {
    username.Some? && username.value != []
  }
}
