/** The relay's bookkeeping (signaling-server.js) as values: the `rooms` map
    from a room id to the set of its connections, the `room` property of each
    connection, and which connections are open (`readyState === 1`). Each
    event the relay reacts to is a function from the old registry to the new
    one and the set of connections the event sends to. */
module RoomRegistry {
  import opened Wrappers

  /** A WebSocket connection, by identity. */
  type ConnId = nat
  type RoomId = string

  /** A payload after `JSON.parse`: `null`, or a value whose `type` and `room`
      properties are read (a non-object has neither). `text` is what
      `JSON.stringify` gives back when the relay forwards it. */
  datatype RelayMsg =
    | JsonNull
    | Json(msgType: Option<string>, room: Option<string>, text: string)

  /** A raw frame: either `JSON.parse` throws, or it yields a message. */
  datatype Payload = Unparsable | Parsed(msg: RelayMsg)

  datatype Registry = Registry(
    rooms: map<RoomId, set<ConnId>>,  // `rooms`, roomId -> Set(ws)
    roomOf: map<ConnId, RoomId>,      // `ws.room`, absent while undefined
    open: set<ConnId>)                // connections with `readyState === 1`

  /** The registry when the relay starts. */
  const Empty := Registry(map[], map[], {})

  /** The events of one relay: a connection opens, sends a frame, or closes. */
  datatype Event =
    | Connected(ws: ConnId)
    | Received(ws: ConnId, payload: Payload)
    | Closed(ws: ConnId)

  /** `msg.type === 'join' && msg.room`: a join with a truthy room. */
  predicate IsJoin(m: RelayMsg) {
    m.Json? && m.msgType == Some("join") && m.room.Some? && m.room.value != ""
  }

  /** `join(ws, room)`: create the room's set if absent, add `ws`, and
      overwrite `ws.room`. Other rooms, including one `ws` was in, keep their
      sets. */
  function Join(g: Registry, ws: ConnId, room: RoomId): (r: Registry)
    ensures room in r.rooms && ws in r.rooms[room]
    ensures r.rooms[room] == (if room in g.rooms then g.rooms[room] else {}) + {ws}
    ensures r.rooms.Keys == g.rooms.Keys + {room}
    ensures forall q :: q in g.rooms && q != room ==> r.rooms[q] == g.rooms[q]
    ensures r.roomOf == g.roomOf[ws := room] && r.open == g.open
  {
    var members := if room in g.rooms then g.rooms[room] else {};
    g.(rooms := g.rooms[room := members + {ws}], roomOf := g.roomOf[ws := room])
  }

  /** The open members of `room` other than `ws`, as the fan-out loop sees
      them (`rooms.get(room) || new Set()`). */
  function OpenPeers(g: Registry, room: RoomId, ws: ConnId): (r: set<ConnId>)
    ensures ws !in r && r <= g.open
    ensures forall p :: p in r <==> room in g.rooms && p in g.rooms[room] && p != ws && p in g.open
  {
    var members := if room in g.rooms then g.rooms[room] else {};
    set p | p in members && p != ws && p in g.open
  }

  /** Whom a non-join message from `ws` reaches: nobody before `ws` joined,
      otherwise the open peers of its current room. */
  function Recipients(g: Registry, ws: ConnId): (r: set<ConnId>)
    ensures ws !in r
    ensures ws !in g.roomOf ==> r == {}
    ensures ws in g.roomOf ==> r == OpenPeers(g, g.roomOf[ws], ws)
  {
    if ws in g.roomOf then OpenPeers(g, g.roomOf[ws], ws) else {}
  }

  /** The `close` handler: `ws` leaves the set of its current `ws.room` only;
      `ws.room` itself is kept. The connection is no longer open. */
  function Close(g: Registry, ws: ConnId): (r: Registry)
    ensures r.roomOf == g.roomOf && r.open == g.open - {ws} && r.rooms.Keys == g.rooms.Keys
    ensures ws in g.roomOf && g.roomOf[ws] != "" && g.roomOf[ws] in g.rooms ==>
              r.rooms[g.roomOf[ws]] == g.rooms[g.roomOf[ws]] - {ws}
    ensures ws in g.roomOf && g.roomOf[ws] == "" ==> r.rooms == g.rooms
    ensures forall q :: q in g.rooms && (ws !in g.roomOf || q != g.roomOf[ws]) ==>
              r.rooms[q] == g.rooms[q]
  {
    var left :=
      if ws in g.roomOf && g.roomOf[ws] != "" && g.roomOf[ws] in g.rooms
      then g.(rooms := g.rooms[g.roomOf[ws] := g.rooms[g.roomOf[ws]] - {ws}])
      else g;
    left.(open := left.open - {ws})
  }

  /** The `message` handler: the new registry and the set of connections the
      message is sent to. */
  function Receive(g: Registry, ws: ConnId, p: Payload): (Registry, set<ConnId>) {
    match p
    case Unparsable => (g, {})            // JSON.parse threw
    case Parsed(JsonNull) => (g, {})      // `msg.type` threw on null
    case Parsed(m) =>
      if IsJoin(m) then (Join(g, ws, m.room.value), {})
      else if ws !in g.roomOf || g.roomOf[ws] == "" then (g, {})
      else (g, Recipients(g, ws))
  }

  /** One event: the new registry and whom it sends to. */
  function Step(g: Registry, e: Event): (Registry, set<ConnId>) {
    match e
    case Connected(ws) => (g.(open := g.open + {ws}), {})
    case Received(ws, p) => Receive(g, ws, p)
    case Closed(ws) => (Close(g, ws), {})
  }

  /** The registry after a sequence of events, from `g`. */
  function Run(g: Registry, evs: seq<Event>): Registry
    decreases |evs|
  {
    if |evs| == 0 then g else Step(Run(g, evs[..|evs| - 1]), evs[|evs| - 1]).0
  }

  /** Every member of a room has joined, every `ws.room` is a truthy key of
      `rooms`. */
  ghost predicate Inv(g: Registry) {
    && (forall c :: c in g.roomOf ==> g.roomOf[c] != "" && g.roomOf[c] in g.rooms)
    && (forall q, c :: q in g.rooms && c in g.rooms[q] ==> c in g.roomOf)
  }

  /** Event `e` is `ws` joining `room`. */
  predicate JoinsTo(e: Event, ws: ConnId, room: RoomId) {
    e.Received? && e.ws == ws && e.payload.Parsed? && IsJoin(e.payload.msg)
    && e.payload.msg.room.value == room
  }

  /** Some event of `evs` is `ws` joining `room`. */
  ghost predicate HasJoined(evs: seq<Event>, ws: ConnId, room: RoomId) {
    exists i :: 0 <= i < |evs| && JoinsTo(evs[i], ws, room)
  }

  // ------------------------------------------------------------------
  // Properties of one event

  /** No self-echo: nothing `ws` sends comes back to `ws`. */
  lemma NoSelfEcho(g: Registry, ws: ConnId, p: Payload)
    ensures ws !in Receive(g, ws, p).1
  {
  }

  /** Room isolation: a message from `ws` reaches only open members of the
      set of `ws.room`. */
  lemma RoomIsolation(g: Registry, ws: ConnId, p: Payload, c: ConnId)
    requires c in Receive(g, ws, p).1
    ensures ws in g.roomOf && g.roomOf[ws] in g.rooms
    ensures c in g.rooms[g.roomOf[ws]] && c in g.open && c != ws
  {
  }

  /** No traffic before join: a non-join frame from a connection without a
      room is dropped and changes nothing. */
  lemma DropBeforeJoin(g: Registry, ws: ConnId, p: Payload)
    requires ws !in g.roomOf
    requires !(p.Parsed? && IsJoin(p.msg))
    ensures Receive(g, ws, p) == (g, {})
  {
  }

  /** Join consumes: a join is forwarded to nobody, puts `ws` into the room
      (creating its set if absent) and sets `ws.room`. */
  lemma JoinConsumed(g: Registry, ws: ConnId, m: RelayMsg)
    requires IsJoin(m)
    ensures Receive(g, ws, Parsed(m)).1 == {}
    ensures var g' := Receive(g, ws, Parsed(m)).0;
            && g'.roomOf == g.roomOf[ws := m.room.value]
            && m.room.value in g'.rooms && ws in g'.rooms[m.room.value]
            && g'.rooms[m.room.value] == (if m.room.value in g.rooms then g.rooms[m.room.value] else {}) + {ws}
  {
  }

  /** Repeating the same join changes nothing. */
  lemma JoinIdempotent(g: Registry, ws: ConnId, room: RoomId)
    ensures Join(Join(g, ws, room), ws, room) == Join(g, ws, room)
  {
    var g1 := Join(g, ws, room);
    var g2 := Join(g1, ws, room);
    assert g2.rooms == g1.rooms;
    assert g2.roomOf == g1.roomOf;
  }

  /** Re-join keeps the old membership: after joining `a` and then `b`, `ws`
      is still in `a`'s set, so `a`'s traffic still reaches it while its own
      messages go to `b`. */
  lemma RejoinKeepsOldMembership(g: Registry, ws: ConnId, a: RoomId, b: RoomId, x: ConnId)
    requires a != b
    requires x != ws && ws in g.open
    requires x in g.roomOf && g.roomOf[x] == a
    ensures var g2 := Join(Join(g, ws, a), ws, b);
            && ws in g2.rooms[a] && g2.roomOf[ws] == b
            && ws in Recipients(g2, x)
            && Recipients(g2, ws) == OpenPeers(g2, b, ws)
  {
    var g1 := Join(g, ws, a);
    var g2 := Join(g1, ws, b);
    assert ws in g1.rooms[a];
    assert g2.rooms[a] == g1.rooms[a];
    assert g2.roomOf[x] == a;
  }

  /** Close after a re-join removes `ws` from the set of its current room only:
      the room it joined earlier still lists it. */
  lemma CloseAfterRejoinKeepsOld(g: Registry, ws: ConnId, a: RoomId, b: RoomId)
    requires a != b && a != "" && b != ""
    ensures var g3 := Close(Join(Join(g, ws, a), ws, b), ws);
            && ws in g3.rooms[a] && ws !in g3.rooms[b] && ws !in g3.open
  {
    var g1 := Join(g, ws, a);
    var g2 := Join(g1, ws, b);
    assert g2.rooms[a] == g1.rooms[a];
  }

  /** Unparsable input is dropped with no change. */
  lemma UnparsableDropped(g: Registry, ws: ConnId)
    ensures Step(g, Received(ws, Unparsable)) == (g, {})
  {
  }

  /** A `join` without a room from a joined connection is forwarded like any
      other message. */
  lemma RoomlessJoinForwarded(g: Registry, ws: ConnId, text: string)
    requires ws in g.roomOf && g.roomOf[ws] != ""
    ensures Receive(g, ws, Parsed(Json(Some("join"), None, text))) == (g, Recipients(g, ws))
    ensures Receive(g, ws, Parsed(Json(Some("join"), Some(""), text))) == (g, Recipients(g, ws))
  {
  }

  // ------------------------------------------------------------------
  // Properties of event sequences

  /** Every event keeps the invariant. */
  lemma StepKeepsInv(g: Registry, e: Event)
    requires Inv(g)
    ensures Inv(Step(g, e).0)
  {
    var g' := Step(g, e).0;
    match e
    case Connected(ws) =>
    case Closed(ws) =>
      forall q, c | q in g'.rooms && c in g'.rooms[q] ensures c in g'.roomOf {
        assert c in g.rooms[q];
      }
    case Received(ws, p) =>
      if p.Parsed? && IsJoin(p.msg) {
        var room := p.msg.room.value;
        forall q, c | q in g'.rooms && c in g'.rooms[q] ensures c in g'.roomOf {
          if q != room || c != ws { assert q in g.rooms && c in g.rooms[q]; }
        }
      }
  }

  /** The invariant holds after any sequence of events from the empty registry. */
  lemma {:induction false} RunKeepsInv(evs: seq<Event>)
    ensures Inv(Run(Empty, evs))
    decreases |evs|
  {
    if |evs| > 0 {
      RunKeepsInv(evs[..|evs| - 1]);
      StepKeepsInv(Run(Empty, evs[..|evs| - 1]), evs[|evs| - 1]);
    }
  }

  /** Membership only by join: whoever is in a room's set, or has it as
      `ws.room`, has sent a join for that room. */
  lemma {:induction false} MembersHaveJoined(evs: seq<Event>)
    ensures var g := Run(Empty, evs);
            && (forall q, c :: q in g.rooms && c in g.rooms[q] ==> HasJoined(evs, c, q))
            && (forall c :: c in g.roomOf ==> HasJoined(evs, c, g.roomOf[c]))
    decreases |evs|
  {
    if |evs| > 0 {
      var pre := evs[..|evs| - 1];
      var e := evs[|evs| - 1];
      MembersHaveJoined(pre);
      var g0 := Run(Empty, pre);
      var g := Run(Empty, evs);
      assert g == Step(g0, e).0;
      forall q, c | q in g.rooms && c in g.rooms[q] ensures HasJoined(evs, c, q) {
        if e.Received? && e.payload.Parsed? && IsJoin(e.payload.msg) && e.ws == c && e.payload.msg.room.value == q {
          assert JoinsTo(evs[|evs| - 1], c, q);
        } else {
          assert q in g0.rooms && c in g0.rooms[q];
          assert HasJoined(pre, c, q);
          var i :| 0 <= i < |pre| && JoinsTo(pre[i], c, q);
          assert evs[i] == pre[i];
        }
      }
      forall c | c in g.roomOf ensures HasJoined(evs, c, g.roomOf[c]) {
        if e.Received? && e.payload.Parsed? && IsJoin(e.payload.msg) && e.ws == c {
          assert JoinsTo(evs[|evs| - 1], c, g.roomOf[c]);
        } else {
          assert c in g0.roomOf && g.roomOf[c] == g0.roomOf[c];
          assert HasJoined(pre, c, g0.roomOf[c]);
          var i :| 0 <= i < |pre| && JoinsTo(pre[i], c, g0.roomOf[c]);
          assert evs[i] == pre[i];
        }
      }
    }
  }

  /** Room isolation across a whole run: a message from `ws` reaches only
      connections that at some point joined the room `ws` is in now. */
  lemma RunIsolation(evs: seq<Event>, ws: ConnId, p: Payload, c: ConnId)
    requires c in Receive(Run(Empty, evs), ws, p).1
    ensures var g := Run(Empty, evs);
            ws in g.roomOf && HasJoined(evs, c, g.roomOf[ws]) && HasJoined(evs, ws, g.roomOf[ws])
  {
    MembersHaveJoined(evs);
  }

  /** No traffic before join, across a whole run: a connection that never
      sent a join is in no room, what it sends reaches nobody, and it
      receives nothing. */
  lemma NeverJoinedIsSilent(evs: seq<Event>, ws: ConnId, p: Payload, x: ConnId, px: Payload)
    requires forall q :: !HasJoined(evs, ws, q)
    requires !(p.Parsed? && IsJoin(p.msg))
    ensures var g := Run(Empty, evs);
            && ws !in g.roomOf
            && (forall q :: q in g.rooms ==> ws !in g.rooms[q])
            && Receive(g, ws, p) == (g, {})
            && ws !in Receive(g, x, px).1
  {
    MembersHaveJoined(evs);
  }
}
