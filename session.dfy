/** The whole server over time: Node runs one handler to completion before the
    next, so a run is a sequence of inbound events, each from one connection,
    applied one after the other through the handlers of module Handlers. The
    state is `connectedUsers` together with the `username` field of every live
    socket. */
module Session {
  import opened JsText
  import opened Protocol
  import opened UserMap
  import opened Handlers

  /** An inbound socket event and its payload. */
  datatype Inbound =
    | Connect                                // io.on('connection')
    | JoinEvent(username: JsString)          // 'join'
    | MessageEvent(message: Option<JsString>) // 'message', data.message
    | TypingEvent                            // 'typing'
    | StopTypingEvent                        // 'stopTyping'
    | DisconnectEvent                        // 'disconnect'

  datatype Input = Input(conn: ConnId, event: Inbound, now: Timestamp)

  /** `connectedUsers`, and `socket.username` of every live socket by id. */
  datatype World = World(users: seq<Entry>, sockets: map<ConnId, Option<JsString>>)

  const Initial: World := World([], map[])

  /** Every live socket that has joined (a truthy `username`) has its entry in
      the map, and every entry with a non-empty name belongs to a live socket
      bound to that name. */
  ghost predicate Consistent(w: World) {
    && (forall id :: id in w.sockets && Joined(w.sockets[id]) ==>
          Entry(id, w.sockets[id].value) in w.users)
    && (forall e :: e in w.users && e.name != [] ==>
          e.id in w.sockets && w.sockets[e.id] == Some(e.name))
  }

  ghost predicate Inv(w: World) {
    WellFormed(w.users) && Consistent(w)
  }

  /** Hands one inbound event to its handler. Socket.IO gives every connection
      a fresh id and delivers nothing for a connection that is not live, so a
      `Connect` with an id already in use, and any other event from an id that
      is not live, has no effect. */
  function Deliver(w: World, input: Input): (r: (World, seq<OutEvent>))
    requires DistinctIds(w.users)
    ensures !input.event.JoinEvent? && !input.event.DisconnectEvent? ==> r.0.users == w.users
    ensures input.conn !in w.sockets && !input.event.Connect? ==> r == (w, [])
    ensures r.0.sockets.Keys <= w.sockets.Keys + {input.conn}
  {
    var id := input.conn;
    if input.event.Connect? then
      if id in w.sockets || HasKey(w.users, id) then (w, [])
      else (World(w.users, w.sockets[id := None]), [])
    else if id !in w.sockets then (w, [])
    else
      var current := w.sockets[id];
      match input.event
      case JoinEvent(username) =>
        var s := Join(w.users, id, current, username, input.now);
        (World(s.users, w.sockets[id := s.username]), s.out)
      case MessageEvent(message) => (w, Chat(current, message, input.now))
      case TypingEvent => (w, StartTyping(current))
      case StopTypingEvent => (w, StopTypingSignal(current))
      case DisconnectEvent =>
        var s := Disconnect(w.users, id, current);
        (World(s.users, w.sockets - {id}), s.out)
  }

  /** A join keeps the invariant. */
  lemma JoinKeepsInv(w: World, id: ConnId, username: JsString, now: Timestamp)
    requires Inv(w) && id in w.sockets
    ensures var s := Join(w.users, id, w.sockets[id], username, now);
            Inv(World(s.users, w.sockets[id := s.username]))
  {
    var current := w.sockets[id];
    JoinKeepsWellFormed(w.users, id, current, username, now);
    if |w.users| < MaxUsers && username !in Values(w.users) {
      JoinAcceptedKeepsConsistent(w, id, username, now);
    } else {
      assert w.sockets[id := current] == w.sockets;
    }
  }

  /** An accepted join keeps live sockets and the map in agreement. */
  lemma JoinAcceptedKeepsConsistent(w: World, id: ConnId, username: JsString, now: Timestamp)
    requires Inv(w) && id in w.sockets
    requires |w.users| < MaxUsers && username !in Values(w.users)
    ensures var s := Join(w.users, id, w.sockets[id], username, now);
            Consistent(World(s.users, w.sockets[id := s.username]))
  {
    var users' := Set(w.users, id, username);
    var sockets' := w.sockets[id := Some(username)];
    SetMembers(w.users, id, username);
    forall e | e in users' && e.name != []
      ensures e.id in sockets' && sockets'[e.id] == Some(e.name)
    {
    }
    forall other | other in sockets' && Joined(sockets'[other])
      ensures Entry(other, sockets'[other].value) in users'
    {
    }
  }

  /** A disconnect keeps the invariant. */
  lemma DisconnectKeepsInv(w: World, id: ConnId)
    requires Inv(w) && id in w.sockets
    ensures var s := Disconnect(w.users, id, w.sockets[id]);
            Inv(World(s.users, w.sockets - {id}))
  {
    DeleteKeepsWellFormed(w.users, id);
    DeleteMembers(w.users, id);
  }

  /** One event keeps the invariant. */
  lemma DeliverKeepsInv(w: World, input: Input)
    requires Inv(w)
    ensures Inv(Deliver(w, input).0)
  {
    var id := input.conn;
    if !input.event.Connect? && id in w.sockets {
      match input.event
      case JoinEvent(username) => JoinKeepsInv(w, id, username, input.now);
      case DisconnectEvent => DisconnectKeepsInv(w, id);
      case _ =>
    }
  }

  /** Applies the inputs one after the other. */
  function Run(w: World, inputs: seq<Input>): (w': World)
    requires Inv(w)
    ensures Inv(w')
    decreases |inputs|
  {
    if inputs == [] then w
    else
      DeliverKeepsInv(w, inputs[0]);
      Run(Deliver(w, inputs[0]).0, inputs[1..])
  }

  /** For every sequence of events from any connections, in any order, the
      room never holds more than `MAX_USERS` entries, its usernames stay
      pairwise distinct, and every live joined socket is in the roster under
      its own name. */
  lemma {:induction false} RunKeepsRoomInvariant(inputs: seq<Input>)
    ensures var w := Run(Initial, inputs);
            |w.users| <= MaxUsers && DistinctNames(w.users)
            && forall id :: id in w.sockets && Joined(w.sockets[id]) ==>
                 w.sockets[id].value in Values(w.users)
  {
    var w := Run(Initial, inputs);
    forall id | id in w.sockets && Joined(w.sockets[id])
      ensures w.sockets[id].value in Values(w.users)
    {
      var k :| 0 <= k < |w.users| && w.users[k] == Entry(id, w.sockets[id].value);
      assert Values(w.users)[k] == w.sockets[id].value;
    }
  }

  /** Every `userList` any handler emits lists at most `MAX_USERS` names,
      pairwise distinct. */
  lemma UserListsAreRosters(w: World, input: Input)
    requires Inv(w)
    ensures forall e :: e in Deliver(w, input).1 && e.payload.UserList? ==>
              |e.payload.usernames| <= MaxUsers
              && forall i, j :: 0 <= i < j < |e.payload.usernames| ==>
                   e.payload.usernames[i] != e.payload.usernames[j]
  {
    DeliverKeepsInv(w, input);
    var w' := Deliver(w, input).0;
    forall e | e in Deliver(w, input).1 && e.payload.UserList?
      ensures e.payload.usernames == Values(w'.users)
    {
    }
  }

  /** A disconnect of a joined socket frees its slot: the room shrinks by one,
      and in a full room a third connection may then join under any name not
      in use. */
  lemma DisconnectFreesSlot(w: World, leaving: ConnId, later: ConnId, name: JsString,
                            t1: Timestamp, t2: Timestamp)
    requires Inv(w) && leaving in w.sockets && Joined(w.sockets[leaving])
    requires later in w.sockets && later != leaving && !Joined(w.sockets[later])
    requires name != [] && forall k :: 0 <= k < |w.users| ==> w.users[k].name != name
    ensures var w1 := Deliver(w, Input(leaving, DisconnectEvent, t1)).0;
            |w1.users| == |w.users| - 1
            && var w2 := Deliver(w1, Input(later, JoinEvent(name), t2)).0;
            w2.sockets[later] == Some(name) && name in Values(w2.users)
  {
    var current := w.sockets[leaving];
    assert Entry(leaving, current.value) in w.users;
    var k :| 0 <= k < |w.users| && w.users[k] == Entry(leaving, current.value);
    var s := Disconnect(w.users, leaving, current);
    assert |s.users| == |w.users| - 1 && WellFormed(s.users) by {
      DisconnectJoined(w.users, leaving, current, k);
    }
    var w1 := World(s.users, w.sockets - {leaving});
    assert Deliver(w, Input(leaving, DisconnectEvent, t1)).0 == w1;
    assert later in w1.sockets && w1.sockets[later] == w.sockets[later];
    forall j | 0 <= j < |w1.users| ensures w1.users[j].name != name {
      assert w1.users[j] in w.users;
    }
    JoinAccepted(w1.users, later, w1.sockets[later], name, t2);
    var j := Join(w1.users, later, w1.sockets[later], name, t2);
    var w2 := World(j.users, w1.sockets[later := j.username]);
    assert Deliver(w1, Input(later, JoinEvent(name), t2)).0 == w2;
    assert w2.sockets[later] == Some(name);
  }

  /** As written, an entry made by a join with the empty name outlives its
      socket: once that socket has disconnected, no later sequence of events
      removes the entry, so the room keeps one slot fewer for good. */
  lemma {:induction false} EmptyNameSlotLeaks(w: World, id: ConnId, inputs: seq<Input>)
    requires Inv(w) && Entry(id, []) in w.users && id !in w.sockets
    ensures Entry(id, []) in Run(w, inputs).users
    decreases |inputs|
  {
    if inputs != [] {
      var input := inputs[0];
      DeliverKeepsInv(w, input);
      var w' := Deliver(w, input).0;
      assert HasKey(w.users, id) by {
        var k :| 0 <= k < |w.users| && w.users[k] == Entry(id, []);
      }
      if input.event.JoinEvent? && input.conn in w.sockets {
        var k :| 0 <= k < |w.users| && w.users[k] == Entry(id, []);
        JoinKeepsWellFormed(w.users, input.conn, w.sockets[input.conn], input.event.username, input.now);
        assert w'.users == w.users || w'.users[k] == Entry(id, []);
      }
      assert Entry(id, []) in w'.users && id !in w'.sockets;
      EmptyNameSlotLeaks(w', id, inputs[1..]);
    }
  }

  /** The leak happens from an empty room: connection 1 joins with the empty
      name and disconnects, and its entry is still there. */
  lemma EmptyNameLeakExample(t: Timestamp)
    ensures Run(Initial, [Input(1, Connect, t), Input(1, JoinEvent([]), t),
                          Input(1, DisconnectEvent, t)]).users == [Entry(1, [])]
  {
    var i1, i2, i3 := Input(1, Connect, t), Input(1, JoinEvent([]), t), Input(1, DisconnectEvent, t);
    var w1 := World([], map[1 := None]);
    var w2 := World([Entry(1, [])], map[1 := Some([])]);
    var w3 := World([Entry(1, [])], map[]);
    assert Deliver(Initial, i1).0 == w1;
    assert Deliver(w1, i2).0 == w2;
    assert Deliver(w2, i3).0 == w3;
    assert [i1, i2, i3][1..] == [i2, i3];
    assert [i2, i3][1..] == [i3];
    assert [i3][1..] == [];
    calc {
      Run(Initial, [i1, i2, i3]);
      Run(w1, [i2, i3]);
      Run(w2, [i3]);
      Run(w3, []);
      w3;
    }
  }

  const Alice: JsString := [0x41, 0x6C, 0x69, 0x63, 0x65]  // "Alice"
  const Bob: JsString := [0x42, 0x6F, 0x62]               // "Bob"
  const Hi: JsString := [0x68, 0x69]                      // "hi"

  /** The worlds of the scenario below: Alice (connection 1) alone, Alice
      and Bob (connection 2), Alice alone again, Alice with a fresh
      connection 3. */
  const AliceIn: World := World([Entry(1, Alice)], map[1 := Some(Alice), 2 := None])
  const BothIn: World := World([Entry(1, Alice), Entry(2, Bob)], map[1 := Some(Alice), 2 := Some(Bob)])
  const BobGone: World := World([Entry(1, Alice)], map[1 := Some(Alice)])
  const ThirdConnected: World := World([Entry(1, Alice)], map[1 := Some(Alice), 3 := None])

  /** The scenario starts from process start: connection 1 connects and
      joins as Alice, the only event being her welcome, and connection 2
      connects. */
  lemma ScenarioAliceArrives(t: Timestamp)
    ensures Run(Initial, [Input(1, Connect, t), Input(1, JoinEvent(Alice), t),
                          Input(2, Connect, t)]) == AliceIn
  {
    var i1, i2, i3 := Input(1, Connect, t), Input(1, JoinEvent(Alice), t), Input(2, Connect, t);
    var w1 := World([], map[1 := None]);
    var w2 := World([Entry(1, Alice)], map[1 := Some(Alice)]);
    assert Deliver(Initial, i1).0 == w1;
    assert Set([], 1, Alice) == [Entry(1, Alice)];
    assert Deliver(w1, i2).0 == w2;
    assert !HasKey(w2.users, 2);
    assert w2.sockets[2 := None] == AliceIn.sockets;
    assert Deliver(w2, i3).0 == AliceIn;
    assert [i1, i2, i3][1..] == [i2, i3];
    assert [i2, i3][1..] == [i3];
    assert [i3][1..] == [];
    calc {
      Run(Initial, [i1, i2, i3]);
      Run(w1, [i2, i3]);
      Run(w2, [i3]);
      Run(AliceIn, []);
      AliceIn;
    }
  }

  /** Connection 2 joins as Bob beside Alice: Alice is told Bob joined, and
      everyone receives the roster [Alice, Bob]. */
  lemma ScenarioBobJoins(t: Timestamp)
    ensures Deliver(AliceIn, Input(2, JoinEvent(Bob), t))
            == (BothIn, [ Emit(ToOthers, UserJoined(Bob)),
                          Emit(ToAll, UserList([Alice, Bob])),
                          Emit(ToSelf, Message(SystemName, WelcomeText(Bob), t, true)) ])
  {
    assert Values(AliceIn.users) == [Alice] && Bob != Alice;
    assert !HasKey(AliceIn.users, 2);
    assert Set(AliceIn.users, 2, Bob) == BothIn.users;
    assert AliceIn.sockets[2 := Some(Bob)] == BothIn.sockets;
    assert Values(BothIn.users) == [Alice, Bob];
  }

  /** Alice says "hi": the message goes to everyone, Alice included, under
      her name, and nothing changes. */
  lemma ScenarioAliceSaysHi(t: Timestamp)
    ensures Deliver(BothIn, Input(1, MessageEvent(Some(Hi)), t))
            == (BothIn, [Emit(ToAll, Message(Alice, Hi, t, false))])
  {
    assert SkipLeading(Hi, 0) == 0 && SkipTrailing(Hi, 2) == 2 && Hi[0..2] == Hi;
  }

  /** Bob's connection closes: Alice is told `userLeft` Bob, then the roster
      [Alice]. */
  lemma ScenarioBobLeaves(t: Timestamp)
    ensures Deliver(BothIn, Input(2, DisconnectEvent, t))
            == (BobGone, [Emit(ToOthers, UserLeft(Bob)), Emit(ToOthers, UserList([Alice]))])
  {
    DeleteAt(BothIn.users, 1);
    assert BothIn.users[..1] + BothIn.users[2..] == BobGone.users;
    assert BothIn.sockets - {2} == BobGone.sockets;
    assert Values(BobGone.users) == [Alice];
  }

  /** A third connection arrives and joins as Bob, the freed name, and is
      admitted after Alice. */
  lemma ScenarioThirdJoinsAsBob(t: Timestamp)
    ensures Deliver(BobGone, Input(3, Connect, t)).0 == ThirdConnected
    ensures var (w, out) := Deliver(ThirdConnected, Input(3, JoinEvent(Bob), t));
            w.users == [Entry(1, Alice), Entry(3, Bob)] && w.sockets[3] == Some(Bob)
            && out[1] == Emit(ToAll, UserList([Alice, Bob]))
  {
    assert !HasKey(BobGone.users, 3);
    assert Values(ThirdConnected.users) == [Alice];
    var users := Set(ThirdConnected.users, 3, Bob);
    assert users == [Entry(1, Alice), Entry(3, Bob)];
    assert Values(users) == [Alice, Bob];
  }
}
