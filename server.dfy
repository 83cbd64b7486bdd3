/** The room coordinator of server.js as it runs: one `Room` object holding
    `connectedUsers`, one `Socket` object per connection holding its
    `username` field, and one method per socket event. Each method updates the
    objects in place, early returns included, and returns the events it emits
    in emission order; its contract ties both to the step function of the same
    handler in module Handlers. */
module Server {
  import opened JsText
  import opened Protocol
  import opened UserMap
  import Handlers

  /** One Socket.IO connection. `username` is `undefined` (`None`) until a
      join succeeds. */
  class Socket {
    const id: ConnId
    var username: Option<JsString>

    constructor (id: ConnId)
      ensures this.id == id && username == None
    {
      this.id := id;
      username := None;
    }
  }

  /** The module-level `connectedUsers` map, in insertion order. */
  class Room {
    var users: seq<Entry>

    ghost predicate Valid()
      reads this
    {
      WellFormed(users)
    }

    constructor ()
      ensures Valid() && users == []
    {
      users := [];
    }

    /** `socket.on('join', (username) => ...)`. */
    method Join(socket: Socket, username: JsString, now: Timestamp) returns (out: seq<OutEvent>)
      requires Valid()
      modifies this, socket
      ensures Valid()
      ensures Handlers.Step(users, socket.username, out)
              == Handlers.Join(old(users), socket.id, old(socket.username), username, now)
    {
      Handlers.JoinKeepsWellFormed(users, socket.id, socket.username, username, now);
      if |users| >= MaxUsers {
        out := [Emit(ToSelf, Error(RoomFullText))];
        return;
      }
      var existingUsers := Values(users);
      if username in existingUsers {
        out := [Emit(ToSelf, Error(NameTakenText))];
        return;
      }
      users := Set(users, socket.id, username);
      socket.username := Some(username);
      out := [Emit(ToOthers, UserJoined(username))];
      var userList := Values(users);
      out := out + [Emit(ToAll, UserList(userList))];
      out := out + [Emit(ToSelf, Message(SystemName, WelcomeText(username), now, true))];
    }

    /** `socket.on('message', (data) => ...)`; `message` is `data.message`. */
    method Chat(socket: Socket, message: Option<JsString>, now: Timestamp) returns (out: seq<OutEvent>)
      ensures out == Handlers.Chat(socket.username, message, now)
    {
      if !Joined(socket.username) {
        out := [Emit(ToSelf, Error(MustJoinText))];
        return;
      }
      if message.None? || message.value == [] || Trim(message.value) == [] {
        out := [];
        return;
      }
      if |message.value| > MaxMessageLength {
        out := [Emit(ToSelf, Error(TooLongText))];
        return;
      }
      var text := Trim(message.value);
      out := [Emit(ToAll, Message(socket.username.value, text, now, false))];
    }

    /** `socket.on('typing', ...)`. */
    method StartTyping(socket: Socket) returns (out: seq<OutEvent>)
      ensures out == Handlers.StartTyping(socket.username)
    {
      if !Joined(socket.username) {
        return [];
      }
      out := [Emit(ToOthers, Typing(socket.username.value))];
    }

    /** `socket.on('stopTyping', ...)`. */
    method StopTypingSignal(socket: Socket) returns (out: seq<OutEvent>)
      ensures out == Handlers.StopTypingSignal(socket.username)
    {
      if !Joined(socket.username) {
        return [];
      }
      out := [Emit(ToOthers, StopTyping(socket.username.value))];
    }

    /** `socket.on('disconnect', ...)`: `socket.username` is left as it was. */
    method Disconnect(socket: Socket) returns (out: seq<OutEvent>)
      requires Valid()
      modifies this
      ensures Valid()
      ensures Handlers.Step(users, socket.username, out)
              == Handlers.Disconnect(old(users), socket.id, socket.username)
    {
      out := [];
      if Joined(socket.username) {
        DeleteKeepsWellFormed(users, socket.id);
        users := Delete(users, socket.id);
        out := [Emit(ToOthers, UserLeft(socket.username.value))];
        var userList := Values(users);
        out := out + [Emit(ToOthers, UserList(userList))];
      }
    }
  }

  /** A caller's view: two sockets fill the room, a third is turned away with
      the room-full error and stays unjoined, and the room is unchanged. */
  method ThirdSocketIsTurnedAway(a: JsString, b: JsString, c: JsString, now: Timestamp)
    returns (out3: seq<OutEvent>)
    requires a != b
    ensures out3 == [Emit(ToSelf, Error(RoomFullText))]
  {
    var room := new Room();
    var s1 := new Socket(1);
    var s2 := new Socket(2);
    var s3 := new Socket(3);
    var out1 := room.Join(s1, a, now);
    assert room.users == [Entry(1, a)];
    var out2 := room.Join(s2, b, now);
    assert b !in Values([Entry(1, a)]);
    assert room.users == [Entry(1, a), Entry(2, b)];
    out3 := room.Join(s3, c, now);
    assert out3 == [Emit(ToSelf, Error(RoomFullText))];
    assert s3.username == None && room.users == [Entry(1, a), Entry(2, b)];
  }
}
