/** The module-level negotiation state of app.js (`currentIceServers`,
    `senderPC`, `viewerPC`, the two pending-candidate queues, `directPhase`,
    `fellBackToTurn`, `fallbackTimer`) as the class `App`, with one method per
    handler that changes it. Each handler runs to completion before the next
    event; a timer that expires is the event `TimerFires`. */
module Negotiator {
  import opened Wrappers
  import opened JsStrings
  import opened IceConfig
  import opened Signals

  /** The `while (pending.length)` loop of `flushPendingToSender` and
      `flushPendingToViewer`: every queued candidate is shifted off, in order,
      and offered to `addIceCandidate`; one that is refused is skipped. */
  method Drain(pc: PeerConnection, queue: seq<Candidate>, refused: set<Candidate>)
    returns (drained: PeerConnection, rest: seq<Candidate>)
    ensures rest == []
    ensures drained == pc.(applied := pc.applied + Accepted(queue, refused))
  {
    drained, rest := pc, queue;
    ghost var done: seq<Candidate> := [];
    while |rest| > 0
      invariant queue == done + rest
      invariant drained == pc.(applied := pc.applied + Accepted(done, refused))
      decreases |rest|
    {
      var c := rest[0];
      rest := rest[1..];
      drained := AddIceCandidate(drained, c, refused);
      AcceptedConcat(done, [c], refused);
      done := done + [c];
    }
    assert done == queue;
  }

  /** What `JSON.parse(answerIn.value.trim())` gives in the answer box: a
      syntax error, or a value (`None` for `null` or anything that is not an
      object with `type`). */
  datatype AnswerInput = InvalidJson | Parsed(desc: Option<Desc>)

  /** The end of a click on "Set answer". */
  datatype AnswerOutcome = AnswerSet | Rejected(reason: string) | AnswerError(message: string)

  const InvalidAnswerJson := "Invalid JSON in Answer area"

  /** The local description `setLocalDescription` leaves after an offer or an
      answer whose SDP text the browser produced. */
  function LocalDesc(descType: string, sdpText: string): (d: Desc)
    ensures d.descType == Some(descType) && d.sdp == Some(sdpText) && d.others == map[]
    ensures ToPlainDesc(Some(d)) == Some(d)
  {
    Desc(Some(descType), Some(sdpText), map[])
  }

  /** The payload `signalSend` appends for `obj`: nothing for a relay
      candidate in the direct-first phase, otherwise the stamped copy. */
  function Sent(obj: Signal, room: string, directPhase: bool): seq<Signal> {
    match Outgoing(obj, room, directPhase)
    case None => []
    case Some(p) => [p]
  }

  function OfferMessage(d: Desc): Signal {
    Signal(Some("offer"), None, None, Some(d), None)
  }

  function AnswerMessage(d: Desc): Signal {
    Signal(Some("answer"), None, None, Some(d), None)
  }

  /** Clearing the one timer that can be outstanding leaves none. */
  lemma ClearedTimerLeavesNone(armed: map<nat, int>, timer: Option<nat>)
    requires forall id :: id in armed ==> timer == Some(id)
    ensures timer.Some? ==> armed - {timer.value} == map[]
    ensures timer.None? ==> armed == map[]
  {
    if timer.Some? {
      assert (armed - {timer.value}).Keys == {};
    } else {
      assert armed.Keys == {};
    }
  }

  class App {
    /** `roomInput.value`, untrimmed. */
    var roomField: string
    var currentIceServers: seq<IceServer>
    var sender: PeerConnection
    var viewer: PeerConnection
    var pendingToSender: seq<Candidate>
    var pendingToViewer: seq<Candidate>
    var directPhase: bool
    var fellBackToTurn: bool
    /** The id of the last fallback timer set, which is never reset to
        `null`. */
    var fallbackTimer: Option<nat>
    /** The timers set and neither cleared nor expired: id to delay in
        milliseconds. */
    var armed: map<nat, int>
    /** The id the next `setTimeout` returns; browsers return positive ids. */
    var nextTimerId: nat
    /** Every payload handed to the transport, in order. */
    var outbox: seq<Signal>

    /** What holds between events:
        - at most one fallback timer is outstanding, and it is the one
          `fallbackTimer` names;
        - the direct-first phase is on exactly while that timer is
          outstanding;
        - after a fallback to TURN the direct-first phase is off;
        - a queue is empty once its peer connection has a remote
          description (candidates are queued only before, and the queue is
          flushed right after it is set);
        - the sender is `stable` or `have-local-offer`, the viewer `stable`
          (the viewer answers every offer it applies in the same handler). */
    ghost predicate Valid()
      reads this
    {
      TimersValid() && PeersValid()
    }

    /** The timer and phase part of `Valid`. */
    ghost predicate TimersValid()
      reads this`armed, this`fallbackTimer, this`nextTimerId, this`directPhase, this`fellBackToTurn
    {
      && (forall id :: id in armed ==> fallbackTimer == Some(id))
      && (directPhase <==> armed != map[])
      && (fellBackToTurn ==> !directPhase)
      && 1 <= nextTimerId
      && (fallbackTimer.Some? ==> 1 <= fallbackTimer.value < nextTimerId)
    }

    /** The peer-connection and queue part of `Valid`. */
    ghost predicate PeersValid()
      reads this`sender, this`viewer, this`pendingToSender, this`pendingToViewer
    {
      && (sender.remoteDescription.Some? ==> pendingToSender == [])
      && (viewer.remoteDescription.Some? ==> pendingToViewer == [])
      && (sender.signalingState == Stable || sender.signalingState == HaveLocalOffer)
      && viewer.signalingState == Stable
    }

    /** Page load: the default ICE servers, a sender and a viewer peer
        connection made from them, empty queues, no timer. */
    constructor (room: string)
      ensures Valid()
      ensures roomField == room && currentIceServers == DefaultIceServers
      ensures sender == NewPeerConnection(DefaultIceServers) && viewer == NewPeerConnection(DefaultIceServers)
      ensures pendingToSender == [] && pendingToViewer == [] && outbox == []
      ensures !directPhase && !fellBackToTurn && fallbackTimer.None? && armed == map[]
    {
      roomField := room;
      currentIceServers := DefaultIceServers;
      sender := NewPeerConnection(DefaultIceServers);
      viewer := NewPeerConnection(DefaultIceServers);
      pendingToSender, pendingToViewer := [], [];
      directPhase, fellBackToTurn := false, false;
      fallbackTimer, armed, nextTimerId := None, map[], 1;
      outbox := [];
    }

    /** The user edits the room field. */
    method SetRoomField(value: string)
      requires Valid()
      modifies this`roomField
      ensures Valid()
      ensures roomField == value
    {
      roomField := value;
    }

    /** The browser reports a new `connectionState` for the sender. */
    method SetSenderConnectionState(state: ConnectionState)
      requires Valid()
      modifies this`sender
      ensures Valid()
      ensures sender == old(sender).(connectionState := state)
    {
      sender := sender.(connectionState := state);
    }

    /** `signalSend(obj)`. */
    method SignalSend(obj: Signal)
      modifies this`outbox
      ensures outbox == old(outbox) + Sent(obj, Trim(roomField), directPhase)
    {
      var payload := Outgoing(obj, Trim(roomField), directPhase);
      if payload.Some? {
        outbox := outbox + [payload.value];
      }
    }

    /** The `icecandidate` listener of either peer connection: a candidate is
        signalled with its role in `from`, the end of gathering as
        `end-of-candidates`. */
    method OnLocalCandidate(side: Side, c: Option<Candidate>)
      modifies this`outbox
      ensures var from := if side == SenderSide then "sender" else "viewer";
              var obj := if c.Some? then Signal(Some("candidate"), None, Some(from), None, c)
                         else Signal(Some("end-of-candidates"), None, Some(from), None, None);
              outbox == old(outbox) + Sent(obj, Trim(roomField), directPhase)
    {
      var from := if side == SenderSide then "sender" else "viewer";
      if c.Some? {
        SignalSend(Signal(Some("candidate"), None, Some(from), None, c));
      } else {
        SignalSend(Signal(Some("end-of-candidates"), None, Some(from), None, None));
      }
    }

    /** `createOfferAndSend({ iceRestart })`: the sender creates an offer,
        sets it as its local description and signals it. `offerSdp` is the
        SDP text the browser generates. */
    method CreateOfferAndSend(iceRestart: bool, offerSdp: string)
      modifies this`sender, this`outbox
      ensures sender == old(sender).(signalingState := HaveLocalOffer,
                                     localDescription := Some(LocalDesc("offer", offerSdp)),
                                     offers := old(sender.offers) + [iceRestart])
      ensures outbox == old(outbox) + [Signal(Some("offer"), Some(Trim(roomField)), None, Some(LocalDesc("offer", offerSdp)), None)]
    {
      sender := sender.(signalingState := HaveLocalOffer,
                        localDescription := Some(LocalDesc("offer", offerSdp)),
                        offers := sender.offers + [iceRestart]);
      SignalSend(OfferMessage(LocalDesc("offer", offerSdp)));
    }

    /** `senderPC.setConfiguration({ iceServers: servers })` followed by
        `createOfferAndSend({ iceRestart })`. */
    method ConfigureAndOffer(servers: seq<IceServer>, iceRestart: bool, offerSdp: string)
      requires PeersValid()
      modifies this`sender, this`outbox
      ensures PeersValid()
      ensures sender == old(sender).(iceServers := servers,
                                     signalingState := HaveLocalOffer,
                                     localDescription := Some(LocalDesc("offer", offerSdp)),
                                     offers := old(sender.offers) + [iceRestart])
      ensures outbox == old(outbox) + [Signal(Some("offer"), Some(Trim(roomField)), None, Some(LocalDesc("offer", offerSdp)), None)]
    {
      sender := sender.(iceServers := servers);
      CreateOfferAndSend(iceRestart, offerSdp);
    }

    /** `clearTimeout(fallbackTimer)` followed by
        `fallbackTimer = setTimeout(..., ms)`: the outstanding timer, if any,
        is cleared and a new one is the only timer left. */
    method ArmFallbackTimer(ms: int)
      requires forall id :: id in armed ==> fallbackTimer == Some(id)
      modifies this`fallbackTimer, this`armed, this`nextTimerId
      ensures fallbackTimer == Some(old(nextTimerId)) && nextTimerId == old(nextTimerId) + 1
      ensures armed == map[old(nextTimerId) := ms]
    {
      ClearedTimerLeavesNone(armed, fallbackTimer);
      if fallbackTimer.Some? {
        armed := armed - {fallbackTimer.value};
      }
      var id := nextTimerId;
      fallbackTimer := Some(id);
      armed := armed[id := ms];
      nextTimerId := id + 1;
    }

    /** `startDirectFirstNegotiation()`: the direct-first phase starts, the
        sender is restricted to the STUN-only servers, an offer is sent, any
        previous fallback timer is cleared and a new one is set for the
        delay read from the fallback field. */
    method StartDirectFirstNegotiation(fallbackField: string, offerSdp: string)
      requires Valid()
      modifies this`directPhase, this`fellBackToTurn, this`sender, this`outbox,
               this`fallbackTimer, this`armed, this`nextTimerId
      ensures Valid()
      ensures directPhase && !fellBackToTurn
      ensures sender == old(sender).(iceServers := OnlyStunServers(currentIceServers),
                                     signalingState := HaveLocalOffer,
                                     localDescription := Some(LocalDesc("offer", offerSdp)),
                                     offers := old(sender.offers) + [false])
      ensures outbox == old(outbox) + [Signal(Some("offer"), Some(Trim(roomField)), None, Some(LocalDesc("offer", offerSdp)), None)]
      ensures fallbackTimer == Some(old(nextTimerId)) && nextTimerId == old(nextTimerId) + 1
      ensures armed == map[old(nextTimerId) := FallbackSeconds(fallbackField) * 1000]
    {
      directPhase, fellBackToTurn := true, false;
      ConfigureAndOffer(OnlyStunServers(currentIceServers), false, offerSdp);
      var sec := FallbackSeconds(fallbackField);
      ArmFallbackTimer(sec * 1000);
      assert old(nextTimerId) in armed;
    }

    /** The fallback timer's callback. When the sender is `connected` the
        direct path has won and the phase ends; otherwise the phase ends in a
        fallback: the full ICE configuration is restored and exactly one
        ICE-restart offer is sent. */
    method TimerFires(id: nat, offerSdp: string)
      requires Valid() && id in armed
      modifies this`directPhase, this`fellBackToTurn, this`sender, this`outbox, this`armed
      ensures Valid()
      ensures armed == map[] && !directPhase
      ensures old(sender.connectionState) == Connected ==>
                sender == old(sender) && outbox == old(outbox) && fellBackToTurn == old(fellBackToTurn)
      ensures old(sender.connectionState) != Connected ==>
                && fellBackToTurn
                && sender == old(sender).(iceServers := currentIceServers,
                                          signalingState := HaveLocalOffer,
                                          localDescription := Some(LocalDesc("offer", offerSdp)),
                                          offers := old(sender.offers) + [true])
                && outbox == old(outbox) + [Signal(Some("offer"), Some(Trim(roomField)), None, Some(LocalDesc("offer", offerSdp)), None)]
    {
      armed := armed - {id};
      assert armed == map[];
      if sender.connectionState == Connected {
        directPhase := false;
        return;
      }
      fellBackToTurn, directPhase := true, false;
      ConfigureAndOffer(currentIceServers, true, offerSdp);
    }

    /** The "Create offer" button: direct-first when its box is ticked, a
        plain offer otherwise. A plain offer leaves any fallback timer
        running. */
    method CreateOfferClick(directFirst: bool, fallbackField: string, offerSdp: string)
      requires Valid()
      modifies this`directPhase, this`fellBackToTurn, this`sender, this`outbox,
               this`fallbackTimer, this`armed, this`nextTimerId
      ensures Valid()
      ensures outbox == old(outbox) + [Signal(Some("offer"), Some(Trim(roomField)), None, Some(LocalDesc("offer", offerSdp)), None)]
      ensures directFirst ==>
                && directPhase && !fellBackToTurn
                && sender == old(sender).(iceServers := OnlyStunServers(currentIceServers),
                                          signalingState := HaveLocalOffer,
                                          localDescription := Some(LocalDesc("offer", offerSdp)),
                                          offers := old(sender.offers) + [false])
                && fallbackTimer == Some(old(nextTimerId)) && nextTimerId == old(nextTimerId) + 1
                && armed == map[old(nextTimerId) := FallbackSeconds(fallbackField) * 1000]
      ensures !directFirst ==>
                && directPhase == old(directPhase) && fellBackToTurn == old(fellBackToTurn)
                && sender == old(sender).(signalingState := HaveLocalOffer,
                                          localDescription := Some(LocalDesc("offer", offerSdp)),
                                          offers := old(sender.offers) + [false])
                && fallbackTimer == old(fallbackTimer) && armed == old(armed) && nextTimerId == old(nextTimerId)
    {
      if directFirst {
        StartDirectFirstNegotiation(fallbackField, offerSdp);
      } else {
        CreateOfferAndSend(false, offerSdp);
      }
    }

    /** The "New offer (ICE restart)" button. */
    method IceRestartClick(offerSdp: string) returns (g: Gate)
      requires Valid()
      modifies this`sender, this`outbox
      ensures Valid()
      ensures g == IceRestartGate(old(sender))
      ensures g.Refuse? ==> sender == old(sender) && outbox == old(outbox)
      ensures g == Accept ==>
                && sender == old(sender).(signalingState := HaveLocalOffer,
                                          localDescription := Some(LocalDesc("offer", offerSdp)),
                                          offers := old(sender.offers) + [true])
                && outbox == old(outbox) + [Signal(Some("offer"), Some(Trim(roomField)), None, Some(LocalDesc("offer", offerSdp)), None)]
    {
      g := IceRestartGate(sender);
      if g.Refuse? {
        return;
      }
      CreateOfferAndSend(true, offerSdp);
    }

    /** `flushPendingToSender()`: nothing without a remote description;
        otherwise the queue is drained into the sender. */
    method FlushPendingToSender(refused: set<Candidate>)
      modifies this`sender, this`pendingToSender
      ensures old(sender.remoteDescription).None? ==>
                sender == old(sender) && pendingToSender == old(pendingToSender)
      ensures old(sender.remoteDescription).Some? ==>
                && sender == old(sender).(applied := old(sender.applied) + Accepted(old(pendingToSender), refused))
                && pendingToSender == []
    {
      if sender.remoteDescription.None? {
        return;
      }
      sender, pendingToSender := Drain(sender, pendingToSender, refused);
    }

    /** `flushPendingToViewer()`, the same for the viewer. */
    method FlushPendingToViewer(refused: set<Candidate>)
      modifies this`viewer, this`pendingToViewer
      ensures old(viewer.remoteDescription).None? ==>
                viewer == old(viewer) && pendingToViewer == old(pendingToViewer)
      ensures old(viewer.remoteDescription).Some? ==>
                && viewer == old(viewer).(applied := old(viewer.applied) + Accepted(old(pendingToViewer), refused))
                && pendingToViewer == []
    {
      if viewer.remoteDescription.None? {
        return;
      }
      viewer, pendingToViewer := Drain(viewer, pendingToViewer, refused);
    }

    /** The sender applies `desc` as its remote answer and flushes its
        queue. */
    method ApplyAnswer(desc: Desc, refused: set<Candidate>)
      requires Valid()
      modifies this`sender, this`pendingToSender
      ensures Valid()
      ensures sender == old(sender).(signalingState := Stable, remoteDescription := Some(desc),
                                     applied := old(sender.applied) + Accepted(old(pendingToSender), refused))
      ensures pendingToSender == []
    {
      sender := sender.(signalingState := Stable, remoteDescription := Some(desc));
      FlushPendingToSender(refused);
    }

    /** The viewer applies `offer` as its remote description whatever its
        state, flushes its queue, answers with the SDP text `answerSdp` the
        browser generates, and signals the answer. The viewer is `stable`
        between events, so a description that is not an offer is rejected
        by `setRemoteDescription`; `handleSignal` catches the error and
        nothing changes. */
    method AcceptOffer(offer: Desc, refused: set<Candidate>, answerSdp: string)
      requires Valid()
      modifies this`viewer, this`pendingToViewer, this`outbox
      ensures Valid()
      ensures !StableAcceptsRemote(offer) ==>
                viewer == old(viewer) && pendingToViewer == old(pendingToViewer) && outbox == old(outbox)
      ensures StableAcceptsRemote(offer) ==>
                && viewer == old(viewer).(signalingState := Stable,
                                          remoteDescription := Some(offer),
                                          localDescription := Some(LocalDesc("answer", answerSdp)),
                                          applied := old(viewer.applied) + Accepted(old(pendingToViewer), refused))
                && pendingToViewer == []
                && outbox == old(outbox) + [Signal(Some("answer"), Some(Trim(roomField)), None, Some(LocalDesc("answer", answerSdp)), None)]
    {
      if !StableAcceptsRemote(offer) {
        return;
      }
      viewer := viewer.(signalingState := HaveRemoteOffer, remoteDescription := Some(offer));
      FlushPendingToViewer(refused);
      viewer := viewer.(signalingState := Stable, localDescription := Some(LocalDesc("answer", answerSdp)));
      SignalSend(AnswerMessage(LocalDesc("answer", answerSdp)));
    }

    /** The "Set answer" button: the pasted JSON is parsed and checked by
        `canApplyRemoteAnswer`; only an accepted answer is applied. */
    method SetAnswerClick(input: AnswerInput, refused: set<Candidate>) returns (outcome: AnswerOutcome)
      requires Valid()
      modifies this`sender, this`pendingToSender
      ensures Valid()
      ensures input.InvalidJson? ==> outcome == AnswerError(InvalidAnswerJson)
      ensures input.Parsed? && CanApplyRemoteAnswer(old(sender), input.desc).Refuse? ==>
                outcome == Rejected(CanApplyRemoteAnswer(old(sender), input.desc).reason)
      ensures outcome != AnswerSet ==> sender == old(sender) && pendingToSender == old(pendingToSender)
      ensures outcome == AnswerSet <==> input.Parsed? && CanApplyRemoteAnswer(old(sender), input.desc) == Accept
      ensures outcome == AnswerSet ==>
                && sender == old(sender).(signalingState := Stable, remoteDescription := input.desc,
                                          applied := old(sender.applied) + Accepted(old(pendingToSender), refused))
                && pendingToSender == []
    {
      if input.InvalidJson? {
        return AnswerError(InvalidAnswerJson);
      }
      var gate := CanApplyRemoteAnswer(sender, input.desc);
      if gate.Refuse? {
        return Rejected(gate.reason);
      }
      ApplyAnswer(input.desc.value, refused);
      outcome := AnswerSet;
    }

    /** The "Apply ICE" button: on success the new servers become the current
        configuration of the page and of both peer connections; on an error
        nothing changes. */
    method ApplyIceClick(stunField: string, turnField: string, userField: string, passField: string)
      returns (r: Result<seq<IceServer>>)
      requires Valid()
      modifies this`currentIceServers, this`sender, this`viewer
      ensures Valid()
      ensures FormServers(stunField, turnField, userField, passField, r)
      ensures r.Failure? ==> currentIceServers == old(currentIceServers) && sender == old(sender) && viewer == old(viewer)
      ensures r.Ok? ==>
                && |r.value| >= 1
                && currentIceServers == r.value
                && sender == old(sender).(iceServers := r.value)
                && viewer == old(viewer).(iceServers := r.value)
    {
      r := BuildIceServersFromForm(stunField, turnField, userField, passField);
      if r.Ok? {
        currentIceServers := r.value;
        sender := sender.(iceServers := r.value);
        viewer := viewer.(iceServers := r.value);
      }
    }

    /** The sender's reset button: a fresh sender from the current servers.
        The pending queue, the direct-first flags and any fallback timer are
        left as they are. */
    method SenderReset()
      requires Valid()
      modifies this`sender
      ensures Valid()
      ensures sender == NewPeerConnection(currentIceServers)
    {
      sender := NewPeerConnection(currentIceServers);
    }

    /** The viewer's reset button, the same for the viewer. */
    method ViewerReset()
      requires Valid()
      modifies this`viewer
      ensures Valid()
      ensures viewer == NewPeerConnection(currentIceServers)
    {
      viewer := NewPeerConnection(currentIceServers);
    }

    /** A candidate routed to one side is added at once when that side has
        a remote description, and queued otherwise. */
    method Deliver(target: Side, ice: Candidate, refused: set<Candidate>)
      requires Valid()
      modifies this`sender, this`viewer, this`pendingToSender, this`pendingToViewer
      ensures Valid()
      ensures target == ViewerSide ==> sender == old(sender) && pendingToSender == old(pendingToSender)
      ensures target == SenderSide ==> viewer == old(viewer) && pendingToViewer == old(pendingToViewer)
      ensures target == ViewerSide && old(viewer.remoteDescription).Some? ==>
                viewer == AddIceCandidate(old(viewer), ice, refused) && pendingToViewer == old(pendingToViewer)
      ensures target == ViewerSide && old(viewer.remoteDescription).None? ==>
                viewer == old(viewer) && pendingToViewer == old(pendingToViewer) + [ice]
      ensures target == SenderSide && old(sender.remoteDescription).Some? ==>
                sender == AddIceCandidate(old(sender), ice, refused) && pendingToSender == old(pendingToSender)
      ensures target == SenderSide && old(sender.remoteDescription).None? ==>
                sender == old(sender) && pendingToSender == old(pendingToSender) + [ice]
    {
      if target == ViewerSide {
        if viewer.remoteDescription.Some? {
          viewer := AddIceCandidate(viewer, ice, refused);
        } else {
          pendingToViewer := pendingToViewer + [ice];
        }
      } else {
        if sender.remoteDescription.Some? {
          sender := AddIceCandidate(sender, ice, refused);
        } else {
          pendingToSender := pendingToSender + [ice];
        }
      }
    }

    /** The effect of `handleSignal(msg, via)` from the state before to the
        state after: the action `Dispatch` chooses, carried out on its own
        side and the outbox, with everything else unchanged. */
    twostate predicate Handled(msg: Option<Signal>, refused: set<Candidate>, answerSdp: string)
      reads this
    {
      var a := Dispatch(msg, Trim(roomField), directPhase, old(sender.signalingState));
      && ((a.Ignore? || a.IgnoreAnswer?) ==>
            && sender == old(sender) && viewer == old(viewer) && outbox == old(outbox)
            && pendingToSender == old(pendingToSender) && pendingToViewer == old(pendingToViewer))
      && (a.AcceptOffer? && !StableAcceptsRemote(a.offer) ==>
            && sender == old(sender) && viewer == old(viewer) && outbox == old(outbox)
            && pendingToSender == old(pendingToSender) && pendingToViewer == old(pendingToViewer))
      && (a.AcceptOffer? && StableAcceptsRemote(a.offer) ==>
            && viewer == old(viewer).(signalingState := Stable,
                                      remoteDescription := Some(a.offer),
                                      localDescription := Some(LocalDesc("answer", answerSdp)),
                                      applied := old(viewer.applied) + Accepted(old(pendingToViewer), refused))
            && pendingToViewer == []
            && outbox == old(outbox) + [Signal(Some("answer"), Some(Trim(roomField)), None, Some(LocalDesc("answer", answerSdp)), None)]
            && sender == old(sender) && pendingToSender == old(pendingToSender))
      && (a.AcceptAnswer? ==>
            && sender == old(sender).(signalingState := Stable,
                                      remoteDescription := Some(a.answer),
                                      applied := old(sender.applied) + Accepted(old(pendingToSender), refused))
            && pendingToSender == []
            && viewer == old(viewer) && pendingToViewer == old(pendingToViewer) && outbox == old(outbox))
      && (a.RouteCandidate? ==> outbox == old(outbox))
      && (a.RouteCandidate? && a.target == ViewerSide ==>
            && sender == old(sender) && pendingToSender == old(pendingToSender)
            && (old(viewer.remoteDescription).Some? ==>
                  viewer == AddIceCandidate(old(viewer), a.ice, refused) && pendingToViewer == old(pendingToViewer))
            && (old(viewer.remoteDescription).None? ==>
                  viewer == old(viewer) && pendingToViewer == old(pendingToViewer) + [a.ice]))
      && (a.RouteCandidate? && a.target == SenderSide ==>
            && viewer == old(viewer) && pendingToViewer == old(pendingToViewer)
            && (old(sender.remoteDescription).Some? ==>
                  sender == AddIceCandidate(old(sender), a.ice, refused) && pendingToSender == old(pendingToSender))
            && (old(sender.remoteDescription).None? ==>
                  sender == old(sender) && pendingToSender == old(pendingToSender) + [a.ice]))
    }

    /** `handleSignal(msg, via)`: the action `Dispatch` chooses, carried
        out. An offer is applied to the viewer whatever its state, its queue
        flushed, and the answer (with the SDP text `answerSdp` the browser
        generates) signalled back, unless the browser rejects a
        description that is not an offer; an answer reaches the sender only in
        `have-local-offer`; a candidate goes to the side `Dispatch` names. */
    method HandleSignal(msg: Option<Signal>, refused: set<Candidate>, answerSdp: string)
      requires Valid()
      modifies this`sender, this`viewer, this`pendingToSender, this`pendingToViewer, this`outbox
      ensures Valid()
      ensures Handled(msg, refused, answerSdp)
    {
      var a := Dispatch(msg, Trim(roomField), directPhase, sender.signalingState);
      match a
      case Ignore =>
      case IgnoreAnswer(_) =>
      case AcceptOffer(offer) =>
        AcceptOffer(offer, refused, answerSdp);
      case AcceptAnswer(answer) =>
        ApplyAnswer(answer, refused);
      case RouteCandidate(target, ice) =>
        Deliver(target, ice, refused);
    }

    /** The WebSocket `message` listener: a parsed message for the current
        room goes to `handleSignal`; anything else is dropped. */
    method OnWsMessage(msg: Option<Signal>, refused: set<Candidate>, answerSdp: string)
      requires Valid()
      modifies this`sender, this`viewer, this`pendingToSender, this`pendingToViewer, this`outbox
      ensures Valid()
      ensures WsAccepts(msg, roomField) ==> Handled(msg, refused, answerSdp)
      ensures !WsAccepts(msg, roomField) ==>
                && sender == old(sender) && viewer == old(viewer) && outbox == old(outbox)
                && pendingToSender == old(pendingToSender) && pendingToViewer == old(pendingToViewer)
    {
      if WsAccepts(msg, roomField) {
        HandleSignal(msg, refused, answerSdp);
      }
    }

    /** The BroadcastChannel listener: any message goes to `handleSignal`. */
    method OnBcMessage(msg: Option<Signal>, refused: set<Candidate>, answerSdp: string)
      requires Valid()
      modifies this`sender, this`viewer, this`pendingToSender, this`pendingToViewer, this`outbox
      ensures Valid()
      ensures BcAccepts(msg) ==> Handled(msg, refused, answerSdp)
      ensures !BcAccepts(msg) ==>
                && sender == old(sender) && viewer == old(viewer) && outbox == old(outbox)
                && pendingToSender == old(pendingToSender) && pendingToViewer == old(pendingToViewer)
    {
      if BcAccepts(msg) {
        HandleSignal(msg, refused, answerSdp);
      }
    }
  }
}
