/** The relay process of signaling-server.js: the module-level `rooms` map, the
    `room` property assigned on each connection, and the `connection`,
    `message` and `close` handlers, as a class whose methods are proved
    against the registry functions of RoomRegistry. */
module SignalingServer {
  import opened Wrappers
  import opened RoomRegistry

  /** No element occurs twice. */
  predicate Distinct(s: seq<ConnId>) {
    forall i, j :: 0 <= i < j < |s| ==> s[i] != s[j]
  }

  class Relay {
    var rooms: map<RoomId, set<ConnId>>
    var roomOf: map<ConnId, RoomId>
    var open: set<ConnId>

    ghost function State(): Registry
      reads this
    {
      Registry(rooms, roomOf, open)
    }

    /** `const rooms = new Map()`, before any connection. */
    constructor ()
      ensures State() == Empty
    {
      rooms, roomOf, open := map[], map[], {};
    }

    /** A new connection arrives and is open. */
    method Connect(ws: ConnId)
      modifies this`open
      ensures State() == Step(old(State()), Connected(ws)).0
    {
      open := open + {ws};
    }

    /** `join(ws, room)`. */
    method Join(ws: ConnId, room: RoomId)
      modifies this`rooms, this`roomOf
      ensures State() == RoomRegistry.Join(old(State()), ws, room)
    {
      if room !in rooms {
        rooms := rooms[room := {}];
      }
      rooms := rooms[room := rooms[room] + {ws}];
      roomOf := roomOf[ws := room];
    }

    /** The fan-out loop `for (const peer of peers)` over
        `rooms.get(room) || new Set()`: each open peer other than `ws`
        receives the message once. */
    method FanOut(ws: ConnId, room: RoomId) returns (recipients: seq<ConnId>)
      ensures Distinct(recipients)
      ensures forall p :: p in recipients <==> p in OpenPeers(State(), room, ws)
    {
      var peers := if room in rooms then rooms[room] else {};
      var todo := peers;
      recipients := [];
      while todo != {}
        invariant todo <= peers
        invariant Distinct(recipients)
        invariant forall p :: p in recipients ==> p !in todo
        invariant forall p :: p in recipients <==> p in peers - todo && p != ws && p in open
        decreases |todo|
      {
        var peer :| peer in todo;
        if peer != ws && peer in open {
          recipients := recipients + [peer];
        }
        todo := todo - {peer};
      }
    }

    /** The `message` handler: a join is consumed, a message from a
        connection without a room is dropped, anything else is fanned out to
        the connection's current room. Unparsable frames are dropped. */
    method OnMessage(ws: ConnId, raw: Payload) returns (recipients: seq<ConnId>)
      modifies this`rooms, this`roomOf
      ensures Distinct(recipients)
      ensures State() == Receive(old(State()), ws, raw).0
      ensures forall p :: p in recipients <==> p in Receive(old(State()), ws, raw).1
    {
      recipients := [];
      if raw.Unparsable? || raw.msg.JsonNull? {
        return;
      }
      var msg := raw.msg;
      if msg.msgType == Some("join") && msg.room.Some? && msg.room.value != "" {
        Join(ws, msg.room.value);
        return;
      }
      if ws !in roomOf || roomOf[ws] == "" {
        return;
      }
      recipients := FanOut(ws, roomOf[ws]);
    }

    /** The `close` handler; the connection's `readyState` is no longer 1. */
    method OnClose(ws: ConnId)
      modifies this`rooms, this`open
      ensures State() == Step(old(State()), Closed(ws)).0
    {
      if ws in roomOf && roomOf[ws] != "" && roomOf[ws] in rooms {
        rooms := rooms[roomOf[ws] := rooms[roomOf[ws]] - {ws}];
      }
      open := open - {ws};
    }
  }
}
