/** The five socket handlers of server.js as functions from the state they
    read (the `connectedUsers` map, the socket's id and its `username` field,
    the payload, the current time) to the new state and the ordered list of
    events they emit. */
module Handlers {
  import opened JsText
  import opened Protocol
  import opened UserMap

  /** What a handler leaves behind: the new `connectedUsers`, the new
      `socket.username`, and the events emitted, in emission order. */
  datatype Step = Step(users: seq<Entry>, username: Option<JsString>, out: seq<OutEvent>)

  /** The `join` handler. */
  function Join(users: seq<Entry>, id: ConnId, current: Option<JsString>,
                username: JsString, now: Timestamp): (r: Step)
    requires DistinctIds(users)
    ensures r.out != [] && r.out[0].target != ToAll
    ensures r.users == users || r.username == Some(username)
    ensures |r.out| == 1 ==> r.users == users && r.username == current
  {
    if |users| >= MaxUsers then
      Step(users, current, [Emit(ToSelf, Error(RoomFullText))])
    else if username in Values(users) then
      Step(users, current, [Emit(ToSelf, Error(NameTakenText))])
    else
      var users' := Set(users, id, username);
      Step(users', Some(username),
           [ Emit(ToOthers, UserJoined(username)),
             Emit(ToAll, UserList(Values(users'))),
             Emit(ToSelf, Message(SystemName, WelcomeText(username), now, true)) ])
  }

  /** The `message` handler; `message` is `data.message`, `None` when absent.
      It never changes state, so only the emitted events are returned. */
  function Chat(current: Option<JsString>, message: Option<JsString>, now: Timestamp): (r: seq<OutEvent>)
    ensures |r| <= 1
    ensures r != [] && r[0].target == ToAll ==> Joined(current) && message.Some?
  {
    if !Joined(current) then
      [Emit(ToSelf, Error(MustJoinText))]
    else if message.None? || message.value == [] || Trim(message.value) == [] then
      []
    else if |message.value| > MaxMessageLength then
      [Emit(ToSelf, Error(TooLongText))]
    else
      [Emit(ToAll, Message(current.value, Trim(message.value), now, false))]
  }

  /** The `typing` handler. */
  function StartTyping(current: Option<JsString>): (r: seq<OutEvent>)
    ensures |r| <= 1 && (r != [] ==> r[0].target == ToOthers)
  {
    if !Joined(current) then [] else [Emit(ToOthers, Typing(current.value))]
  }

  /** The `stopTyping` handler. */
  function StopTypingSignal(current: Option<JsString>): (r: seq<OutEvent>)
    ensures |r| <= 1 && (r != [] ==> r[0].target == ToOthers)
  {
    if !Joined(current) then [] else [Emit(ToOthers, StopTyping(current.value))]
  }

  /** The `disconnect` handler, as written: it acts only when `socket.username`
      is truthy, and it leaves `socket.username` as it was. */
  function Disconnect(users: seq<Entry>, id: ConnId, current: Option<JsString>): (r: Step)
    ensures r.username == current && |r.users| <= |users|
    ensures forall e :: e in r.out ==> e.target == ToOthers
  {
    if !Joined(current) then Step(users, current, [])
    else
      var users' := Delete(users, id);
      Step(users', current,
           [ Emit(ToOthers, UserLeft(current.value)),
             Emit(ToOthers, UserList(Values(users'))) ])
  }

  /** The `disconnect` handler as evidently intended: it frees the slot of any
      connection that holds an entry in `connectedUsers`, whatever its name. */
  function DisconnectFixed(users: seq<Entry>, id: ConnId, current: Option<JsString>): (r: Step)
    requires DistinctIds(users)
    ensures r.username == current && |r.users| <= |users|
    ensures forall e :: e in r.out ==> e.target == ToOthers
  {
    match Get(users, id)
    case None => Step(users, current, [])
    case Some(name) =>
      var users' := Delete(users, id);
      Step(users', current,
           [ Emit(ToOthers, UserLeft(name)),
             Emit(ToOthers, UserList(Values(users'))) ])
  }

  // ---------------------------------------------------------------------
  // join

  /** A join into a room that already holds `MAX_USERS` entries emits only the
      room-full error, to the joiner, and changes neither the map nor
      `socket.username`. */
  lemma JoinWhenFull(users: seq<Entry>, id: ConnId, current: Option<JsString>,
                     username: JsString, now: Timestamp)
    requires DistinctIds(users) && |users| >= MaxUsers
    ensures Join(users, id, current, username, now)
            == Step(users, current, [Emit(ToSelf, Error(RoomFullText))])
  {
  }

  /** A join with a name exactly equal to a current username (including the
      joiner's own earlier name) emits only the name-taken error, to the
      joiner, and changes nothing. */
  lemma JoinWithTakenName(users: seq<Entry>, id: ConnId, current: Option<JsString>,
                          username: JsString, now: Timestamp)
    requires DistinctIds(users) && |users| < MaxUsers
    requires exists k :: 0 <= k < |users| && users[k].name == username
    ensures Join(users, id, current, username, now)
            == Step(users, current, [Emit(ToSelf, Error(NameTakenText))])
  {
    var k :| 0 <= k < |users| && users[k].name == username;
    assert Values(users)[k] == username;
  }

  /** A join is accepted exactly when the room has room and the name is free;
      a rejected join emits one event, to the joiner only, and leaves the
      state as it was. */
  lemma JoinAcceptedIff(users: seq<Entry>, id: ConnId, current: Option<JsString>,
                        username: JsString, now: Timestamp)
    requires DistinctIds(users)
    ensures var s := Join(users, id, current, username, now);
            var free := forall k :: 0 <= k < |users| ==> users[k].name != username;
            (|s.out| == 3 <==> |users| < MaxUsers && free)
            && (|s.out| != 3 ==> |s.out| == 1 && s.out[0].target == ToSelf
                                 && s.users == users && s.username == current)
  {
    if |users| < MaxUsers && username in Values(users) {
      var k :| 0 <= k < |users| && Values(users)[k] == username;
      assert users[k].name == username;
    }
  }

  /** An accepted join binds the socket to the name, puts the name into the
      map (appended for a new socket, in place for a socket that re-joins),
      and emits exactly `userJoined` to the others, then `userList` of the
      map's values in insertion order to everyone, then the System welcome
      message to the joiner. The new name is in the user list exactly once. */
  lemma JoinAccepted(users: seq<Entry>, id: ConnId, current: Option<JsString>,
                     username: JsString, now: Timestamp)
    requires WellFormed(users) && |users| < MaxUsers
    requires forall k :: 0 <= k < |users| ==> users[k].name != username
    ensures var s := Join(users, id, current, username, now);
            && s.username == Some(username)
            && (!HasKey(users, id) ==> s.users == users + [Entry(id, username)])
            && (HasKey(users, id) ==>
                  && |s.users| == |users|
                  && forall k :: 0 <= k < |users| ==>
                       s.users[k] == (if users[k].id == id then Entry(id, username) else users[k]))
            && s.out == [ Emit(ToOthers, UserJoined(username)),
                          Emit(ToAll, UserList(Values(s.users))),
                          Emit(ToSelf, Message(SystemName, WelcomeText(username), now, true)) ]
            && WellFormed(s.users)
            && exists k :: 0 <= k < |s.users| && Values(s.users)[k] == username
                           && forall j :: 0 <= j < |s.users| && Values(s.users)[j] == username ==> j == k
  {
    assert username !in Values(users);
    var s := Join(users, id, current, username, now);
    SetKeepsDistinct(users, id, username);
    var k :| 0 <= k < |s.users| && s.users[k] == Entry(id, username) by {
      if HasKey(users, id) {
        var i :| 0 <= i < |users| && users[i].id == id;
        assert s.users[i] == Entry(id, username);
      } else {
        assert s.users[|users|] == Entry(id, username);
      }
    }
    assert Values(s.users)[k] == username;
  }

  /** Every join keeps the room invariant: at most `MAX_USERS` entries, distinct
      ids, pairwise-distinct names; it adds at most one entry, and none when the
      socket already has one. */
  lemma JoinKeepsWellFormed(users: seq<Entry>, id: ConnId, current: Option<JsString>,
                            username: JsString, now: Timestamp)
    requires WellFormed(users)
    ensures var s := Join(users, id, current, username, now);
            WellFormed(s.users) && |s.users| <= |users| + 1
            && (HasKey(users, id) ==> |s.users| == |users|)
  {
    if |users| < MaxUsers && username !in Values(users) {
      SetKeepsDistinct(users, id, username);
    }
  }

  // ---------------------------------------------------------------------
  // message

  /** A message from a socket that has not joined gets the must-join error,
      sent to the sender only, and nothing is broadcast. */
  lemma ChatFromUnjoined(current: Option<JsString>, message: Option<JsString>, now: Timestamp)
    requires !Joined(current)
    ensures Chat(current, message, now) == [Emit(ToSelf, Error(MustJoinText))]
  {
  }

  /** A missing text, or a text made of white space only, produces no event at
      all, neither an error nor a broadcast. */
  lemma ChatBlankIsDropped(current: Option<JsString>, message: Option<JsString>, now: Timestamp)
    requires Joined(current)
    requires message.None? || AllWhiteSpace(message.value)
    ensures Chat(current, message, now) == []
  {
    if message.Some? { TrimEmptyIffAllWhiteSpace(message.value); }
  }

  /** The length limit is checked on the untrimmed text: a non-blank text longer
      than 1000 code units gets the too-long error, sent to the sender only,
      and is not broadcast, however short it is once trimmed. */
  lemma ChatTooLong(current: Option<JsString>, text: JsString, now: Timestamp)
    requires Joined(current) && !AllWhiteSpace(text) && |text| > MaxMessageLength
    ensures Chat(current, Some(text), now) == [Emit(ToSelf, Error(TooLongText))]
  {
    TrimEmptyIffAllWhiteSpace(text);
  }

  /** A message is broadcast exactly when the sender has joined and its text is
      present, not blank and at most 1000 code units long; it then goes to
      every connection, the sender included, as one event carrying the
      sender's joined username and the trimmed text, which is non-empty,
      starts and ends with a non-white-space code unit, and is a slice of the
      text sent. */
  lemma ChatBroadcastIff(current: Option<JsString>, message: Option<JsString>, now: Timestamp)
    ensures var out := Chat(current, message, now);
            var accepted := Joined(current) && message.Some? && !AllWhiteSpace(message.value)
                            && |message.value| <= MaxMessageLength;
            ((exists k :: 0 <= k < |out| && out[k].target == ToAll) <==> accepted)
            && (accepted ==>
                  var t := Trim(message.value);
                  out == [Emit(ToAll, Message(current.value, t, now, false))]
                  && t != [] && !IsWhiteSpace(t[0]) && !IsWhiteSpace(t[|t| - 1])
                  && exists i, j :: 0 <= i <= j <= |message.value| && t == message.value[i..j])
            && (!accepted ==> |out| <= 1 && forall k :: 0 <= k < |out| ==> out[k].target == ToSelf)
  {
    if message.Some? {
      TrimEmptyIffAllWhiteSpace(message.value);
      TrimIsInnerSlice(message.value);
      if Joined(current) && !AllWhiteSpace(message.value) && |message.value| <= MaxMessageLength {
        assert Chat(current, message, now)[0].target == ToAll;
      }
    }
  }

  /** The boundary of the length limit: any non-blank text of exactly 1000
      code units is broadcast, trimmed, and any of 1001 is refused with the
      too-long error. */
  lemma ChatLengthBoundary(current: Option<JsString>, t: JsString, u: JsString, now: Timestamp)
    requires Joined(current)
    requires |t| == 1000 && !AllWhiteSpace(t)
    requires |u| == 1001 && !AllWhiteSpace(u)
    ensures Chat(current, Some(t), now) == [Emit(ToAll, Message(current.value, Trim(t), now, false))]
    ensures Chat(current, Some(u), now) == [Emit(ToSelf, Error(TooLongText))]
  {
    TrimEmptyIffAllWhiteSpace(t);
    TrimEmptyIffAllWhiteSpace(u);
  }

  // ---------------------------------------------------------------------
  // typing, stopTyping

  /** `typing` and `stopTyping` do nothing for a socket that has not joined;
      for a joined one each emits exactly one event, carrying its username,
      to the other connections only, never to the sender. */
  lemma TypingSignalsGoToOthers(current: Option<JsString>)
    ensures !Joined(current) ==> StartTyping(current) == [] && StopTypingSignal(current) == []
    ensures Joined(current) ==>
              StartTyping(current) == [Emit(ToOthers, Typing(current.value))]
              && StopTypingSignal(current) == [Emit(ToOthers, StopTyping(current.value))]
  {
  }

  // ---------------------------------------------------------------------
  // disconnect

  /** A disconnect of a socket that has not joined does nothing. */
  lemma DisconnectUnjoined(users: seq<Entry>, id: ConnId, current: Option<JsString>)
    requires !Joined(current)
    ensures Disconnect(users, id, current) == Step(users, current, [])
  {
  }

  /** A disconnect of a joined socket whose entry sits at position `k` removes
      exactly that entry, keeping the order of the rest, frees one slot, and
      emits to the other connections `userLeft` with its name and then
      `userList` of the remaining names, from which its name is gone. */
  lemma DisconnectJoined(users: seq<Entry>, id: ConnId, current: Option<JsString>, k: nat)
    requires Joined(current)
    requires WellFormed(users) && k < |users| && users[k] == Entry(id, current.value)
    ensures var s := Disconnect(users, id, current);
            && s.users == users[..k] + users[k + 1..]
            && |s.users| == |users| - 1
            && WellFormed(s.users)
            && s.out == [ Emit(ToOthers, UserLeft(current.value)),
                          Emit(ToOthers, UserList(Values(users[..k]) + Values(users[k + 1..]))) ]
            && current.value !in Values(s.users)
  {
    DeleteAt(users, k);
    DeleteShrinks(users, k);
    DeleteKeepsWellFormed(users, id);
  }

  /** The corrected disconnect frees the slot of every socket that holds an
      entry, the one that joined with the empty name included: afterwards its
      id is gone and the map is one entry smaller. */
  lemma DisconnectFixedFreesSlot(users: seq<Entry>, id: ConnId, current: Option<JsString>)
    requires DistinctIds(users) && HasKey(users, id)
    ensures var s := DisconnectFixed(users, id, current);
            !HasKey(s.users, id) && |s.users| == |users| - 1
  {
    var k :| 0 <= k < |users| && users[k].id == id;
    DeleteShrinks(users, k);
    DeleteMembers(users, id);
  }

  /** The correction changes nothing for a socket that joined with a non-empty
      name: there it emits and removes exactly what the handler as written
      does. */
  lemma DisconnectFixedAgrees(users: seq<Entry>, id: ConnId, current: Option<JsString>)
    requires DistinctIds(users) && Joined(current) && Entry(id, current.value) in users
    ensures DisconnectFixed(users, id, current) == Disconnect(users, id, current)
  {
    var k :| 0 <= k < |users| && users[k] == Entry(id, current.value);
    var g := Get(users, id);
    var j :| 0 <= j < |users| && users[j] == Entry(id, g.value);
    assert j == k;
  }

  /** As written, a socket that joined with the empty name keeps its entry
      after it disconnects, and nobody is told it left. */
  lemma DisconnectKeepsEmptyName(users: seq<Entry>, id: ConnId)
    requires DistinctIds(users) && Entry(id, []) in users
    ensures Disconnect(users, id, Some([])) == Step(users, Some([]), [])
    ensures DisconnectFixed(users, id, Some([])).users != users
  {
    var k :| 0 <= k < |users| && users[k] == Entry(id, []);
    DisconnectFixedFreesSlot(users, id, Some([]));
  }
}
