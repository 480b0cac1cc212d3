/** The signaling messages of app.js and the pure decisions taken on them:
    the plain copies sent on the wire (`toPlainDesc`, `toPlainCandidate`),
    the relay-candidate test, the room stamp and relay filter of
    `signalSend`, the two guards (`canApplyRemoteAnswer` and the ICE-restart
    guard), and the dispatch of `handleSignal`. The browser's
    `RTCPeerConnection` is the abstract record `PeerConnection`. */
module Signals {
  import opened Wrappers
  import opened JsStrings
  import opened IceConfig

  /** A session description: `type`, `sdp`, and the names and values of any
      other own properties it carries. */
  datatype Desc = Desc(descType: Option<string>, sdp: Option<string>, others: map<string, string>)

  /** An ICE candidate init: the four properties of `RTCIceCandidateInit`
      and any others. */
  datatype Candidate = Candidate(
    candidate: Option<string>,
    sdpMid: Option<string>,
    sdpMLineIndex: Option<int>,
    usernameFragment: Option<string>,
    others: map<string, string>)

  /** A signaling message `{kind, room, from, sdp, candidate}`; a property that
      is absent (or null) is `None`. */
  datatype Signal = Signal(
    kind: Option<string>,
    room: Option<string>,
    from: Option<string>,
    sdp: Option<Desc>,
    candidate: Option<Candidate>)

  /** `RTCSignalingState`. */
  datatype SignalingState =
    Stable | HaveLocalOffer | HaveRemoteOffer | HaveLocalPranswer | HaveRemotePranswer | Closed

  function StateName(s: SignalingState): (name: string)
    ensures name == "have-local-offer" <==> s == HaveLocalOffer
    ensures name == "stable" <==> s == Stable
  {
    match s
    case Stable => "stable"
    case HaveLocalOffer => "have-local-offer"
    case HaveRemoteOffer => "have-remote-offer"
    case HaveLocalPranswer => "have-local-pranswer"
    case HaveRemotePranswer => "have-remote-pranswer"
    case Closed => "closed"
  }

  /** `RTCPeerConnectionState`. */
  datatype ConnectionState = New | Connecting | Connected | Disconnected | Failed | ConnClosed

  /** The parts of an `RTCPeerConnection` that the negotiation reads or
      changes: its signaling state, local and remote descriptions,
      connection state and ICE configuration, the candidates it accepted
      through `addIceCandidate`, in order, and the `iceRestart` flag of each
      offer it created, in order. */
  datatype PeerConnection = PeerConnection(
    signalingState: SignalingState,
    localDescription: Option<Desc>,
    remoteDescription: Option<Desc>,
    connectionState: ConnectionState,
    iceServers: seq<IceServer>,
    applied: seq<Candidate>,
    offers: seq<bool>)

  /** `pcFactory(label)`: `new RTCPeerConnection({ iceServers })`. */
  function NewPeerConnection(servers: seq<IceServer>): PeerConnection {
    PeerConnection(Stable, None, None, New, servers, [], [])
  }

  /** Whether `setRemoteDescription(desc)` goes ahead on a connection in
      `stable`: only an offer can be applied there. An answer, a provisional
      answer or a rollback is rejected with `InvalidStateError`, and a
      missing or unknown type with `TypeError`, as the "set the session
      description" steps of the W3C WebRTC 1.0 recommendation require. */
  predicate StableAcceptsRemote(desc: Desc) {
    desc.descType == Some("offer")
  }

  // ------------------------------------------------------------------
  // toPlainDesc, toPlainCandidate

  /** `toPlainDesc(desc)` without the `toJSON` branch: a description whose
      `type` and `sdp` are both strings is copied down to those two; any
      other is returned as it is. */
  function ToPlainDesc(desc: Option<Desc>): (r: Option<Desc>)
    ensures r.Some? <==> desc.Some?
    ensures desc.Some? ==> r.value.descType == desc.value.descType && r.value.sdp == desc.value.sdp
    ensures desc.Some? && desc.value.descType.Some? && desc.value.sdp.Some? ==> r.value.others == map[]
    ensures desc.Some? && !(desc.value.descType.Some? && desc.value.sdp.Some?) ==> r == desc
  {
    match desc
    case None => None
    case Some(d) => if d.descType.Some? && d.sdp.Some? then Some(Desc(d.descType, d.sdp, map[])) else desc
  }

  /** `toPlainCandidate(c)` without the `toJSON` branch: the four
      `RTCIceCandidateInit` properties, and nothing else. */
  function ToPlainCandidate(c: Candidate): (r: Candidate)
    ensures r.candidate == c.candidate && r.sdpMid == c.sdpMid
    ensures r.sdpMLineIndex == c.sdpMLineIndex && r.usernameFragment == c.usernameFragment
    ensures r.others == map[]
  {
    Candidate(c.candidate, c.sdpMid, c.sdpMLineIndex, c.usernameFragment, map[])
  }

  /** Copying a plain copy changes nothing, so the peer that receives a
      message and sends it on would send the same thing. */
  lemma ToPlainIdempotent(desc: Option<Desc>, c: Candidate)
    ensures ToPlainDesc(ToPlainDesc(desc)) == ToPlainDesc(desc)
    ensures ToPlainCandidate(ToPlainCandidate(c)) == ToPlainCandidate(c)
  {
  }

  // ------------------------------------------------------------------
  // The relay-candidate test

  /** `c.candidate` when it is a non-empty string, otherwise `''`. */
  function CandidateString(c: Candidate): string {
    c.candidate.GetOr("")
  }

  /** `/ typ relay /.test(candStr)`. */
  predicate IsRelay(c: Candidate) {
    Contains(CandidateString(c), " typ relay ")
  }

  /** A relay candidate line is recognised wherever ` typ relay ` occurs in
      it, and a candidate without the text is never taken for one. */
  lemma IsRelayAt(c: Candidate)
    ensures IsRelay(c) <==> exists i :: OccursAt(CandidateString(c), " typ relay ", i)
  {
    ContainsAt(CandidateString(c), " typ relay ");
  }

  /** A candidate without a `candidate` string is not a relay candidate. */
  lemma NoLineNotRelay(c: Candidate)
    requires c.candidate.None?
    ensures !IsRelay(c)
  {
    assert !Contains("", " typ relay ");
  }

  /** A TURN-allocated candidate line is a relay candidate. */
  lemma RelayLineIsRelay(c: Candidate)
    requires c.candidate == Some("candidate:1 1 udp 1 10.0.0.1 3478 typ relay raddr 0.0.0.0")
    ensures IsRelay(c)
  {
    var pre, post := "candidate:1 1 udp 1 10.0.0.1 3478", "raddr 0.0.0.0";
    var line := pre + " typ relay " + post;
    assert CandidateString(c) == line;
    assert OccursAt(line, " typ relay ", |pre|) by {
      assert line[|pre|..|pre| + |" typ relay "|] == " typ relay ";
    }
    IsRelayAt(c);
  }

  // ------------------------------------------------------------------
  // signalSend's payload

  /** The payload `signalSend(obj)` hands to the transport:
      `{ ...obj, room }` with the room of the form, `sdp` made plain, and
      `candidate` made plain; `None` when the message is a relay candidate
      and the direct-first phase is on, so that nothing is sent. */
  function Outgoing(obj: Signal, room: string, directPhase: bool): (r: Option<Signal>)
    ensures r.None? <==> directPhase && obj.candidate.Some? && IsRelay(obj.candidate.value)
    ensures r.Some? ==> r.value.room == Some(room)
    ensures r.Some? ==> r.value.kind == obj.kind && r.value.from == obj.from
    ensures r.Some? ==> r.value.sdp == ToPlainDesc(obj.sdp)
    ensures r.Some? && obj.candidate.Some? ==> r.value.candidate == Some(ToPlainCandidate(obj.candidate.value))
    ensures r.Some? && obj.candidate.None? ==> r.value.candidate.None?
  {
    var sdp := ToPlainDesc(obj.sdp);
    match obj.candidate
    case None => Some(Signal(obj.kind, Some(room), obj.from, sdp, None))
    case Some(c) =>
      if directPhase && IsRelay(c) then None
      else Some(Signal(obj.kind, Some(room), obj.from, sdp, Some(ToPlainCandidate(c))))
  }

  /** Stamping ignores any room the message already names. */
  lemma OutgoingOverridesRoom(obj: Signal, other: Option<string>, room: string, directPhase: bool)
    ensures Outgoing(obj.(room := other), room, directPhase) == Outgoing(obj, room, directPhase)
  {
  }

  // ------------------------------------------------------------------
  // Guards

  /** The outcome of a guard: go ahead, or refuse with the reason shown. */
  datatype Gate = Accept | Refuse(reason: string)

  const AnswerTypeRequired := "Remote description must be an answer"

  /** `canApplyRemoteAnswer(pc, desc)`. */
  function CanApplyRemoteAnswer(pc: PeerConnection, desc: Option<Desc>): (g: Gate)
    ensures g == Accept <==> desc.Some? && desc.value.descType == Some("answer") && pc.signalingState == HaveLocalOffer
    ensures !(desc.Some? && desc.value.descType == Some("answer")) ==> g == Refuse(AnswerTypeRequired)
    ensures desc.Some? && desc.value.descType == Some("answer") && pc.signalingState != HaveLocalOffer ==>
              g == Refuse("Expected signalingState \"have-local-offer\", got \"" + StateName(pc.signalingState) + "\"")
  {
    if desc.None? || desc.value.descType != Some("answer") then Refuse(AnswerTypeRequired)
    else if StateName(pc.signalingState) != "have-local-offer" then
      Refuse("Expected signalingState \"have-local-offer\", got \"" + StateName(pc.signalingState) + "\"")
    else Accept
  }

  /** The two checks of the in-page tests: an answer is accepted in
      `have-local-offer` and refused in `stable`. */
  lemma CanApplyRemoteAnswerExamples(pc: PeerConnection)
    ensures CanApplyRemoteAnswer(pc.(signalingState := HaveLocalOffer), Some(Desc(Some("answer"), None, map[]))) == Accept
    ensures CanApplyRemoteAnswer(pc.(signalingState := Stable), Some(Desc(Some("answer"), None, map[]))).Refuse?
  {
  }

  /** The guard of the ICE-restart button: an ICE restart is offered only
      from `stable`. */
  function IceRestartGate(pc: PeerConnection): (g: Gate)
    ensures g == Accept <==> pc.signalingState == Stable
    ensures g.Refuse? ==> g.reason == "ICE restart requires stable state (now: " + StateName(pc.signalingState) + ")"
  {
    if StateName(pc.signalingState) != "stable" then
      Refuse("ICE restart requires stable state (now: " + StateName(pc.signalingState) + ")")
    else Accept
  }

  // ------------------------------------------------------------------
  // handleSignal's dispatch

  /** The peer connection a received candidate is for. */
  datatype Side = SenderSide | ViewerSide

  /** What `handleSignal` does with a message. */
  datatype Action =
    | Ignore
    | AcceptOffer(offer: Desc)
    | AcceptAnswer(answer: Desc)
    | IgnoreAnswer(state: SignalingState)
    | RouteCandidate(target: Side, ice: Candidate)

  /** `msg.room && msg.room !== curRoom`: a message naming another room. */
  predicate OtherRoom(m: Signal, curRoom: string) {
    m.room.Some? && m.room.value != "" && m.room.value != curRoom
  }

  /** `new RTCIceCandidate(init)` raises a `TypeError` when the init has
      neither `sdpMid` nor `sdpMLineIndex`. */
  predicate Constructible(c: Candidate) {
    c.sdpMid.Some? || c.sdpMLineIndex.Some?
  }

  /** The decision `handleSignal(msg, via)` takes, from the message, the
      trimmed room field, the direct-first flag and the sender's signaling
      state. */
  function Dispatch(msg: Option<Signal>, curRoom: string, directPhase: bool, senderState: SignalingState): (a: Action)
    ensures a != Ignore ==> msg.Some? && !OtherRoom(msg.value, curRoom)
    ensures a.AcceptOffer? <==>
              msg.Some? && !OtherRoom(msg.value, curRoom) && msg.value.kind == Some("offer") && msg.value.sdp.Some?
    ensures a.AcceptOffer? ==> msg.Some? && msg.value.sdp.Some? && a.offer == msg.value.sdp.value
    ensures a.AcceptAnswer? ==> msg.Some? && senderState == HaveLocalOffer && msg.value.kind == Some("answer") && msg.value.sdp.Some? && a.answer == msg.value.sdp.value
    ensures a.IgnoreAnswer? ==> senderState != HaveLocalOffer && a.state == senderState
    ensures msg.Some? && !OtherRoom(msg.value, curRoom) && msg.value.kind == Some("answer") && msg.value.sdp.Some? ==>
              a.AcceptAnswer? || a.IgnoreAnswer?
    ensures a.RouteCandidate? ==>
              && msg.Some?
              && msg.value.kind == Some("candidate") && msg.value.candidate.Some?
              && !(directPhase && IsRelay(msg.value.candidate.value))
              && Constructible(msg.value.candidate.value)
              && a.ice == ToPlainCandidate(msg.value.candidate.value)
              && (a.target == ViewerSide <==> msg.value.from == Some("sender"))
              && (a.target == SenderSide <==> msg.value.from == Some("viewer"))
  {
    if msg.None? then Ignore
    else
      var m := msg.value;
      if OtherRoom(m, curRoom) then Ignore
      else if m.kind == Some("offer") && m.sdp.Some? then AcceptOffer(m.sdp.value)
      else if m.kind == Some("answer") && m.sdp.Some? then
        if senderState == HaveLocalOffer then AcceptAnswer(m.sdp.value) else IgnoreAnswer(senderState)
      else if m.kind == Some("candidate") && m.candidate.Some? then
        var c := m.candidate.value;
        if directPhase && IsRelay(c) then Ignore
        else if !Constructible(c) then Ignore
        else if m.from == Some("sender") then RouteCandidate(ViewerSide, ToPlainCandidate(c))
        else if m.from == Some("viewer") then RouteCandidate(SenderSide, ToPlainCandidate(c))
        else Ignore
      else Ignore
  }

  /** A candidate that survives the relay filter, carries an `sdpMid` or an
      `sdpMLineIndex` and comes from one of the two roles is always routed to
      the other role's peer connection. */
  lemma CandidateRouted(m: Signal, curRoom: string, directPhase: bool, senderState: SignalingState)
    requires !OtherRoom(m, curRoom) && m.kind == Some("candidate") && m.candidate.Some?
    requires !(directPhase && IsRelay(m.candidate.value)) && Constructible(m.candidate.value)
    requires m.from == Some("sender") || m.from == Some("viewer")
    ensures Dispatch(Some(m), curRoom, directPhase, senderState).RouteCandidate?
  {
  }

  /** The WebSocket `message` listener passes a parsed message on only when
      its `room` equals the trimmed room field. */
  predicate WsAccepts(msg: Option<Signal>, roomField: string) {
    msg.Some? && msg.value.room == Some(Trim(roomField))
  }

  /** The BroadcastChannel listener passes on any message that is there. */
  predicate BcAccepts(msg: Option<Signal>) {
    msg.Some?
  }

  /** The WebSocket path is stricter than the room check of `handleSignal`:
      what it lets through is never dropped as another room's, while a
      message without a room passes `handleSignal` but not the WebSocket
      path. */
  lemma WsStricterThanHandleSignal(msg: Option<Signal>, roomField: string)
    ensures WsAccepts(msg, roomField) ==> msg.Some? && !OtherRoom(msg.value, Trim(roomField))
    ensures msg.Some? && msg.value.room.None? ==> !WsAccepts(msg, roomField) && !OtherRoom(msg.value, Trim(roomField))
  {
  }

  /** What one peer sends, stamped with its room field, is accepted by the
      WebSocket path of a peer whose room field trims to the same room. */
  lemma StampedMessageAccepted(obj: Signal, senderField: string, receiverField: string, directPhase: bool)
    requires Trim(senderField) == Trim(receiverField)
    requires Outgoing(obj, Trim(senderField), directPhase).Some?
    ensures WsAccepts(Outgoing(obj, Trim(senderField), directPhase), receiverField)
  {
  }

  /** A candidate the sender's side emits and sends is routed to the
      viewer's side, as its plain copy, whenever the receiving side's
      direct-first flag lets it through. */
  lemma SenderCandidateReachesViewer(c: Candidate, room: string, sendPhase: bool, receivePhase: bool, senderState: SignalingState)
    requires Constructible(c)
    requires !(sendPhase && IsRelay(c)) && !(receivePhase && IsRelay(c))
    ensures var out := Outgoing(Signal(Some("candidate"), None, Some("sender"), None, Some(c)), room, sendPhase);
            out.Some? &&
            Dispatch(out, room, receivePhase, senderState) == RouteCandidate(ViewerSide, ToPlainCandidate(c))
  {
    var out := Outgoing(Signal(Some("candidate"), None, Some("sender"), None, Some(c)), room, sendPhase);
    assert IsRelay(ToPlainCandidate(c)) == IsRelay(c);
    assert !OtherRoom(out.value, room);
  }

  // ------------------------------------------------------------------
  // Candidates accepted by addIceCandidate

  /** The result of one `addIceCandidate`: the candidate is recorded unless
      the connection refuses it; a refusal is swallowed. `refused` stands for
      the candidates the browser rejects. */
  function AddIceCandidate(pc: PeerConnection, c: Candidate, refused: set<Candidate>): (r: PeerConnection)
    ensures r == pc.(applied := pc.applied + Accepted([c], refused))
  {
    assert [c][1..] == [];
    pc.(applied := pc.applied + (if c in refused then [] else [c]))
  }

  /** The candidates of `queue` that are not refused, in queue order. */
  function Accepted(queue: seq<Candidate>, refused: set<Candidate>): (r: seq<Candidate>)
    ensures |r| <= |queue|
    ensures forall k :: 0 <= k < |r| ==> r[k] in queue && r[k] !in refused
    decreases |queue|
  {
    if |queue| == 0 then []
    else (if queue[0] in refused then [] else [queue[0]]) + Accepted(queue[1..], refused)
  }

  /** Acceptance works candidate by candidate: it distributes over
      concatenation. */
  lemma {:induction false} AcceptedConcat(a: seq<Candidate>, b: seq<Candidate>, refused: set<Candidate>)
    ensures Accepted(a + b, refused) == Accepted(a, refused) + Accepted(b, refused)
    decreases |a|
  {
    if |a| == 0 {
      assert a + b == b;
    } else {
      assert (a + b)[0] == a[0];
      assert (a + b)[1..] == a[1..] + b;
      AcceptedConcat(a[1..], b, refused);
    }
  }

  /** When nothing in the queue is refused, all of it is accepted, in order. */
  lemma {:induction false} AcceptedAll(queue: seq<Candidate>, refused: set<Candidate>)
    requires forall k :: 0 <= k < |queue| ==> queue[k] !in refused
    ensures Accepted(queue, refused) == queue
    decreases |queue|
  {
    if |queue| > 0 {
      AcceptedAll(queue[1..], refused);
      assert queue == [queue[0]] + queue[1..];
    }
  }
}
