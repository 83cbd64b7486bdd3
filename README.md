# a2achat room coordinator in Dafny

This project models the server side of a two-person chat room (`server.js`).
A Socket.IO server keeps one module-level `Map`, `connectedUsers`, from socket
id to username, with capacity `MAX_USERS = 2`. Each connection also carries its
own `socket.username` field. The server answers five socket events:

- `join`: refuses when the room is full or the name is in use, otherwise
  stores the name and announces it;
- `message`: refuses senders that have not joined, drops blank text, refuses
  text longer than 1000, otherwise echoes the trimmed text to everyone;
- `typing` and `stopTyping`: passed on to the other connections;
- `disconnect`: removes the user and tells the others.

Every handler runs to completion on Node's single event loop. Its effect is a
new room state and an ordered list of emitted events. Each event is tagged with
who receives it:
- `ToSelf` is `socket.emit`;
- `ToOthers` is `socket.broadcast.emit`;
- `ToAll` is `io.emit`.

Layout (one module per file):

- `js_text.dfy` (`JsText`): JavaScript strings as UTF-16 code units, so
  `length` is `|s|`, and `String.prototype.trim` over the ECMAScript
  white-space and line-terminator code points.
- `protocol.dfy` (`Protocol`): outbound events and their targets, `MAX_USERS`,
  the 1000 limit, the exact error and welcome texts, and the truthiness test
  on `socket.username`.
- `user_map.dfy` (`UserMap`): the `Map` as a sequence of entries in insertion
  order (`set`, `delete`, `values`, `get`), and the room invariant
  `WellFormed`: at most 2 entries, distinct ids, pairwise-distinct names.
- `handlers.dfy` (`Handlers`): one step function per handler, and the lemmas
  that state what each handler promises.
- `server.dfy` (`Server`): the objects as they run. Class `Room` holds
  `connectedUsers`, class `Socket` holds `username`, and each event is a
  method that updates them in place with the source's early returns. Each
  method's contract ties its new state and its events to the step function.
- `session.dfy` (`Session`): the server over time. Any sequence of inbound
  events from any connections is applied one at a time. The room invariant is
  proved for every such run. This file also holds the end-to-end scenario and
  the empty-name finding.

Inputs that the source reads from its environment are parameters here:
- the timestamp (`new Date().toISOString()`);
- the socket id;
- the payload of each event.

### Where the code and the usual description of the room differ (the model follows the code)

- The length limit counts UTF-16 code units (JavaScript `length`), not
  Unicode code points.
- `join` does not trim the name and does not refuse an empty name. An empty
  name is stored, but it is falsy, so that socket counts as not joined for
  `message`, `typing`, `stopTyping` and `disconnect` (see Findings).
- Joining again from a socket that has already joined is not a no-op that
  repeats the welcome:
  - the room-full check comes first, so a re-join in a full room is refused;
  - the socket's own current name counts as taken;
  - a new name overwrites the entry in place and keeps its place in the
    insertion order, and all three join events are emitted again.
- There is no per-user typing flag. `typing`/`stopTyping` only forward an
  event and change no state.
- `disconnect` does not clear `socket.username`. Socket.IO delivers nothing
  more on a closed socket, so the trace model drops the socket instead.

## Model

| member | source | states |
|---|---|---|
| `JsText.SkipLeading` | server.js:90 | where `trim` starts keeping text: everything before that index is white space, and the code unit at it is not |
| `JsText.SkipTrailing` | server.js:90 | where `trim` stops keeping text: everything from that index on is white space, and the code unit before it is not |
| `JsText.Trim` | server.js:78-90 | `text.trim()` is never longer than the text; `TrimIsInnerSlice` and `TrimEmptyIffAllWhiteSpace` state what it keeps |
| `JsText.TrimIsInnerSlice` | server.js:90 | `text.trim()` is a slice `s[i..j]` of the text with only white space outside it, and neither starts nor ends with white space |
| `JsText.TrimEmptyIffAllWhiteSpace` | server.js:78 | `text.trim().length === 0` exactly when every code unit of the text is white space |
| `Protocol.WelcomeText` | server.js:62-67 | the welcome text is exactly the prefix `Welcome to the chat, `, then the joiner's name, then `!` |
| `Protocol.Joined` | server.js:72 | the truthiness test on `socket.username` (also at lines 102, 108 and 115): true exactly for a present, non-empty name, so `undefined` and `""` both count as not joined |
| `UserMap.Values` | server.js:58 | `Array.from(connectedUsers.values())` lists the names in insertion order, one per entry |
| `UserMap.Set` | server.js:49 | `set` overwrites the value of a present id in place (same size, order kept) and appends an entry for a new id |
| `UserMap.SetMembers` | server.js:49 | after `set` the map holds the new entry and, besides it, exactly the entries with other ids |
| `UserMap.Delete` | server.js:119 | `delete` never grows the map and leaves it alone when the id is absent |
| `UserMap.DeleteMembers` | server.js:119 | after `delete` the map holds exactly the entries with other ids |
| `UserMap.DeleteAt` | server.js:119 | deleting the id at position k removes exactly that entry and keeps the others in order |
| `UserMap.DeleteShrinks` | server.js:125 | after deleting a present id the map is one smaller, and its values are the old values without the deleted name |
| `UserMap.SetKeepsDistinct` | server.js:42-49 | `set` of a name not among the values keeps ids distinct and names pairwise distinct |
| `UserMap.DeleteKeepsWellFormed` | server.js:119 | `delete` keeps the room invariant |
| `Handlers.Join` | server.js:34-68 | the join handler always answers the joiner and never broadcasts its first event; it either leaves the map alone or binds the socket to the name; a one-event answer is a rejection that changes nothing (`JoinAcceptedIff`, `JoinAccepted` and `JoinKeepsWellFormed` state the rest) |
| `Handlers.JoinWhenFull` | server.js:36-39 | a join into a room of 2 emits only the room-full error, to the joiner, and changes neither the map nor `socket.username` |
| `Handlers.JoinWithTakenName` | server.js:42-46 | a join with a name exactly equal to a current one (the joiner's own included) emits only the name-taken error, to the joiner, and changes nothing |
| `Handlers.JoinAcceptedIff` | server.js:34-68 | a join is accepted exactly when the room holds fewer than 2 and the name is free; a rejected join emits one event, to the joiner only, and leaves the state as it was |
| `Handlers.JoinAccepted` | server.js:49-67 | an accepted join binds the socket, appends the entry (or overwrites its own in place), and emits exactly `userJoined` to others, then `userList` of the map's values in insertion order to all, then the System welcome to the joiner; the name is in that list exactly once |
| `Handlers.JoinKeepsWellFormed` | server.js:36-49 | every join keeps at most 2 entries with distinct ids and names, adds at most one entry, and none for a socket already in the map |
| `Handlers.Chat` | server.js:71-98 | the message handler emits at most one event, and one to everyone only for a joined sender with a present text (`ChatBroadcastIff` states exactly when) |
| `Handlers.ChatFromUnjoined` | server.js:72-75 | a message from a socket without a truthy username gets the must-join error, sent to the sender only, and no broadcast |
| `Handlers.ChatBlankIsDropped` | server.js:78-80 | missing or all-white-space text produces no event at all |
| `Handlers.ChatTooLong` | server.js:83-86 | non-blank text longer than 1000 untrimmed code units gets the too-long error, sent to the sender only |
| `Handlers.ChatBroadcastIff` | server.js:71-98 | a message is broadcast exactly when the sender has joined and the text is present, not blank and at most 1000 long; then it is one event to everyone, the sender included, with the sender's name and the trimmed text; otherwise at most one event, to the sender |
| `Handlers.ChatLengthBoundary` | server.js:83-86 | a non-blank text of exactly 1000 code units is broadcast, and one of 1001 is refused |
| `Handlers.StartTyping` | server.js:101-105 | the typing handler emits at most one event, and only to the others |
| `Handlers.StopTypingSignal` | server.js:107-111 | the stopTyping handler emits at most one event, and only to the others |
| `Handlers.TypingSignalsGoToOthers` | server.js:101-111 | `typing`/`stopTyping` do nothing for an unjoined socket, and otherwise emit one event with the sender's name to the others only |
| `Handlers.Disconnect` | server.js:114-128 | the disconnect handler as written never grows the map, leaves `socket.username` as it was, and emits only to the others (`DisconnectUnjoined` and `DisconnectJoined` state both branches) |
| `Handlers.DisconnectFixed` | server.js:114-128 | corrected handler, guarded by the map entry instead of the name: the same frame promises as `Disconnect`; `DisconnectFixedFreesSlot` and `DisconnectFixedAgrees` state what it does |
| `Handlers.DisconnectUnjoined` | server.js:114-115 | a disconnect of a socket without a truthy username changes nothing and emits nothing |
| `Handlers.DisconnectJoined` | server.js:114-127 | a disconnect of a joined socket removes exactly its entry, frees one slot, and emits `userLeft` and then `userList` of the remaining names (its own gone) to the others |
| `Handlers.DisconnectFixedFreesSlot` | server.js:115-119 | corrected handler: a disconnect of any socket with an entry, the empty name included, removes its id and frees one slot |
| `Handlers.DisconnectFixedAgrees` | server.js:114-127 | for a socket joined under a non-empty name, the corrected handler does exactly what the handler as written does |
| `Handlers.DisconnectKeepsEmptyName` | server.js:115 | as written, a socket joined under the empty name keeps its entry after disconnecting, unlike the corrected handler |
| `Server.Socket.constructor` | server.js:30 | a new connection has no username (`undefined`) |
| `Server.Room.constructor` | server.js:18 | `connectedUsers` starts empty |
| `Server.Room.Join` | server.js:34-68 | the join handler updates the map and `socket.username` in place and returns the events that `Handlers.Join` gives, keeping the room invariant |
| `Server.Room.Chat` | server.js:71-98 | the message handler changes nothing and returns the events that `Handlers.Chat` gives |
| `Server.Room.StartTyping` | server.js:101-105 | the typing handler returns the events that `Handlers.StartTyping` gives |
| `Server.Room.StopTypingSignal` | server.js:107-111 | the stopTyping handler returns the events that `Handlers.StopTypingSignal` gives |
| `Server.Room.Disconnect` | server.js:114-128 | the disconnect handler updates the map in place and returns the events that `Handlers.Disconnect` gives, keeping the room invariant |
| `Server.ThirdSocketIsTurnedAway` | server.js:36-39 | scenario on the objects: after two sockets join under different names, a third socket's join gets exactly the room-full error, and that socket stays unjoined with the room unchanged |
| `Session.Deliver` | server.js:30-128 | the dispatch of one inbound event: only `join` and `disconnect` change the map, an event from a connection that is not live does nothing, and no socket appears other than the event's own connection |
| `Session.JoinKeepsInv` | server.js:34-68 | a join keeps the room invariant and the agreement between live sockets' names and the map |
| `Session.DisconnectKeepsInv` | server.js:114-128 | a disconnect keeps the room invariant and that agreement |
| `Session.DeliverKeepsInv` | server.js:30-128 | every inbound event keeps the invariant |
| `Session.Run` | server.js:30-128 | every run of events, applied one at a time, ends in a state satisfying the invariant |
| `Session.RunKeepsRoomInvariant` | server.js:30-128 | for every sequence of events from any connections, the map never holds more than 2 entries, the names stay pairwise distinct, and every live joined socket is listed under its own name |
| `Session.UserListsAreRosters` | server.js:58-59 | every `userList` emitted lists at most 2 pairwise-distinct names |
| `Session.DisconnectFreesSlot` | server.js:114-127 | a disconnect of a joined socket shrinks the room by one, after which another connection joins under any unused non-empty name |
| `Session.EmptyNameSlotLeaks` | server.js:115-119 | as written, an entry stored under the empty name for a closed socket survives every later sequence of events |
| `Session.EmptyNameLeakExample` | server.js:49 | from an empty room, joining with `""` and disconnecting leaves `connectedUsers` holding that entry |
| `Session.ScenarioAliceArrives` | server.js:30-68 | from process start, connection 1 connecting and joining as Alice and connection 2 connecting give the scenario's starting state |
| `Session.ScenarioBobJoins` | server.js:49-59 | with Alice in, Bob's join tells Alice and sends everyone the roster [Alice, Bob] |
| `Session.ScenarioAliceSaysHi` | server.js:88-97 | Alice's "hi" goes to everyone, Alice included, under her name, and changes nothing |
| `Session.ScenarioBobLeaves` | server.js:119-126 | Bob's disconnect tells Alice `userLeft` Bob and then the roster [Alice] |
| `Session.ScenarioThirdJoinsAsBob` | server.js:36-59 | after that, a new connection joins as Bob and is listed after Alice |

## Left out

- HTTP and process plumbing (server.js:1-27, 136-163): Express, static files, the error middleware, `server.listen` and the signal handlers. This is I/O with no room state.
- Socket.IO transport and delivery: an emitted event is a tagged entry in the returned list, and delivery itself is not modelled. `console.log` output and the `socket.on('error')` logger (server.js:131-133) are not modelled either.
- Clock: `new Date().toISOString()` is an opaque input, so nothing is stated about the order of timestamps.
- Join payloads that are not strings (`undefined`, numbers, objects) are not modelled. The empty string shows the same falsy behaviour.
- A `message` payload whose `data` is null, or whose `data.message` is a truthy non-string, is not modelled. In the source these throw inside the handler.
- `isSystem: false` on a chat message: the source's chat payload (server.js:88-92) has no `isSystem` field at all. `false` stands for the missing field. The client (app.js) never reads the field, so nothing observable changes.
- app.js and auth.js (browser client, login and sign-up over `localStorage`) are not part of this model. They hold no room state.

## Findings

| source | as written | input that shows it | evidently intended | confidence | as-written member | corrected member |
|---|---|---|---|---|---|---|
| server.js:115-119 | `disconnect` removes the map entry only when `socket.username` is truthy. `join` stores any string, so an entry made under the empty name is never deleted. That socket is also refused by `message` as "not joined". | connection 1 joins with `""` and then disconnects: `connectedUsers` still holds `{1: ""}`. With one other user present the room then reports full to everyone else, for good. | a disconnect frees the slot of every connection holding an entry (`connectedUsers.has(socket.id)`) | medium, not executed. The bundled client refuses blank names (app.js:143-146), so only another client reaches this. | `Session.EmptyNameSlotLeaks` | `Handlers.DisconnectFixedFreesSlot` |

The classes in `Server` and the trace model in `Session` follow the code as
written, so the leak stays visible there. `Handlers.DisconnectFixed` is the
corrected handler. `Handlers.DisconnectFixedAgrees` proves it differs from the
original only on the empty-name case.
