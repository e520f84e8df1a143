/** What the activity does in response to each socket, signalling and media
    callback: `onOpen`, `onMessage`/`handleSignal`, `onIceCandidate` and the
    `SdpObserver` callbacks, with every WebRTC call and socket send turned into
    an abstract action. The only state is whether a connection exists; each
    event is handled on its own. */
module Signalling {
  import opened Results
  import opened Fields
  import opened Decimal
  import opened Wire

  /** Which kind of session description a media-engine call carries. */
  datatype SdpType = OfferSdp | AnswerSdp

  /** The effects of one event, in the order the source issues them. */
  datatype Action =
    | BuildConnection(isCaller: bool)   // a new PeerConnection with the local audio stream added
    | CreateOffer
    | CreateAnswer
    | SetLocal(kind: SdpType, desc: string)
    | SetRemote(kind: SdpType, desc: string)
    | AddCandidate(mid: string, index: Int32, candidate: string)
    | Send(text: string)                // ws.send

  /** The events the activity reacts to. */
  datatype Event =
    | SocketOpened                               // WebSocketClient.onOpen
    | Inbound(text: string)                      // WebSocketClient.onMessage
    | LocalCandidate(mid: string, index: Int32, candidate: string)  // Observer.onIceCandidate
    | OfferCreated(desc: string)                 // onCreateSuccess of the createOffer observer
    | RemoteOfferSet                             // onSetSuccess of the remote-offer observer
    | AnswerCreated(desc: string)                // onCreateSuccess of the createAnswer observer
    | SocketClosed                               // onClose: logged only
    | SocketError                                // onError: logged only
    | Unhandled                                  // every observer callback whose body is empty

  /** The activity's state: whether `peerConnection` is non-null. Every call
      made through `peerConnection?.` is skipped while it is null. */
  datatype Peer = Peer(hasConnection: bool)

  /** The state when the activity starts: `peerConnection` is still null. */
  const Initial: Peer := Peer(false)

  /** The result of handling one event; `fault` is the exception that escaped
      `handleSignal`, after the actions issued before it. */
  datatype Reaction = Reaction(peer: Peer, actions: seq<Action>, fault: Option<DecodeError>)

  /** The texts handed to `ws.send`, in order. */
  function Outbound(actions: seq<Action>): (texts: seq<string>)
    ensures |texts| <= |actions|
  {
    if |actions| == 0 then []
    else (if actions[0].Send? then [actions[0].text] else []) + Outbound(actions[1..])
  }

  /** `createPeerConnection(isCaller)`: a fresh connection, then an offer
      request only for the caller. */
  function Build(isCaller: bool): (actions: seq<Action>)
    ensures |actions| >= 1 && actions[0] == BuildConnection(isCaller)
    ensures CreateOffer in actions <==> isCaller
    ensures Outbound(actions) == []
  {
    [BuildConnection(isCaller)] + (if isCaller then [CreateOffer] else [])
  }

  /** A call made through `peerConnection?.`. */
  function IfConnected(p: Peer, a: Action): seq<Action> {
    if p.hasConnection then [a] else []
  }

  /** `handleSignal`: decode, then act on the message. For an OFFER the
      connection is rebuilt before field 1 is read, so a bare `OFFER` still
      rebuilds it before failing. */
  function HandleSignal(p: Peer, text: string): (r: Reaction)
    ensures Outbound(r.actions) == []
    ensures r.fault.Some? <==> Decode(text).Failure?
    ensures CreateOffer !in r.actions
  {
    match Decode(text)
    case Failure(e) =>
      if Split(text)[0] == OfferTag then Reaction(Peer(true), Build(false), Some(e))
      else Reaction(p, [], Some(e))
    case Success(None) => Reaction(p, [], None)
    case Success(Some(Offer(sdp))) =>
      Reaction(Peer(true), Build(false) + [SetRemote(OfferSdp, sdp)], None)
    case Success(Some(Answer(sdp))) =>
      Reaction(p, IfConnected(p, SetRemote(AnswerSdp, sdp)), None)
    case Success(Some(Ice(mid, index, candidate))) =>
      Reaction(p, IfConnected(p, AddCandidate(mid, index, candidate)), None)
  }

  /** The texts an event hands to `ws.send`, whatever the state: every
      `ws.send` call in the source is unconditional. */
  function Emits(e: Event): seq<string> {
    match e
    case OfferCreated(desc) => [Encode(Offer(desc))]
    case AnswerCreated(desc) => [Encode(Answer(desc))]
    case LocalCandidate(mid, index, candidate) => [Encode(Ice(mid, index, candidate))]
    case _ => []
  }

  /** One event. */
  function Step(p: Peer, e: Event): (r: Reaction)
    ensures Outbound(r.actions) == Emits(e)
    ensures r.fault.Some? ==> e.Inbound?
    ensures CreateOffer in r.actions <==> e.SocketOpened?
    ensures p.hasConnection ==> r.peer.hasConnection
  {
    match e
    case SocketOpened => Reaction(Peer(true), Build(true), None)
    case Inbound(text) => HandleSignal(p, text)
    case LocalCandidate(mid, index, candidate) =>
      Reaction(p, [Send(Encode(Ice(mid, index, candidate)))], None)
    case OfferCreated(desc) =>
      Reaction(p, IfConnected(p, SetLocal(OfferSdp, desc)) + [Send(Encode(Offer(desc)))], None)
    case RemoteOfferSet => Reaction(p, IfConnected(p, CreateAnswer), None)
    case AnswerCreated(desc) =>
      Reaction(p, IfConnected(p, SetLocal(AnswerSdp, desc)) + [Send(Encode(Answer(desc)))], None)
    case SocketClosed => Reaction(p, [], None)
    case SocketError => Reaction(p, [], None)
    case Unhandled => Reaction(p, [], None)
  }

  /** A run of events handled one after another. */
  datatype Trace = Trace(peer: Peer, actions: seq<Action>, faults: seq<DecodeError>)

  function Run(p: Peer, events: seq<Event>): (t: Trace)
    ensures p.hasConnection ==> t.peer.hasConnection
    decreases |events|
  {
    if |events| == 0 then Trace(p, [], [])
    else
      var r := Step(p, events[0]);
      var rest := Run(r.peer, events[1..]);
      Trace(rest.peer, r.actions + rest.actions,
            (if r.fault.Some? then [r.fault.value] else []) + rest.faults)
  }

  /** The texts a run of events hands to `ws.send`, read off the events alone. */
  function EmitsAll(events: seq<Event>): seq<string> {
    if |events| == 0 then [] else Emits(events[0]) + EmitsAll(events[1..])
  }

  /** The candidates handed to the media engine, in order. */
  function Applied(actions: seq<Action>): seq<Message> {
    if |actions| == 0 then []
    else
      (match actions[0]
       case AddCandidate(mid, index, candidate) => [Ice(mid, index, candidate)]
       case _ => [])
      + Applied(actions[1..])
  }

  /** The candidates carried by the well-formed ICE messages among the events, in arrival order. */
  function Received(events: seq<Event>): seq<Message> {
    if |events| == 0 then []
    else
      (if events[0].Inbound? && Decode(events[0].text).Success?
          && Decode(events[0].text).value.Some? && Decode(events[0].text).value.value.Ice?
       then [Decode(events[0].text).value.value] else [])
      + Received(events[1..])
  }

  lemma {:induction false} OutboundAppend(a: seq<Action>, b: seq<Action>)
    ensures Outbound(a + b) == Outbound(a) + Outbound(b)
  {
    if |a| > 0 {
      OutboundAppend(a[1..], b);
      assert (a + b)[1..] == a[1..] + b;
    } else {
      assert a + b == b;
    }
  }

  /** A text is sent exactly when some action sends it. */
  lemma {:induction false} OutboundMembers(actions: seq<Action>)
    ensures forall t :: t in Outbound(actions) <==> Send(t) in actions
  {
    if |actions| > 0 {
      OutboundMembers(actions[1..]);
      assert actions == [actions[0]] + actions[1..];
    }
  }

  lemma {:induction false} AppliedAppend(a: seq<Action>, b: seq<Action>)
    ensures Applied(a + b) == Applied(a) + Applied(b)
  {
    if |a| > 0 {
      AppliedAppend(a[1..], b);
      assert (a + b)[1..] == a[1..] + b;
    } else {
      assert a + b == b;
    }
  }

  /** Every `ws.send` call of a run is fixed by its events alone: one OFFER per
      created offer, one ANSWER per created answer, one ICE per local
      candidate, in event order, and nothing for inbound messages. */
  lemma {:induction false} RunSends(p: Peer, events: seq<Event>)
    ensures Outbound(Run(p, events).actions) == EmitsAll(events)
    decreases |events|
  {
    if |events| > 0 {
      var r := Step(p, events[0]);
      RunSends(r.peer, events[1..]);
      OutboundAppend(r.actions, Run(r.peer, events[1..]).actions);
    }
  }

  lemma {:induction false} AppliedNothing(actions: seq<Action>)
    requires forall i :: 0 <= i < |actions| ==> !actions[i].AddCandidate?
    ensures Applied(actions) == []
  {
    if |actions| > 0 {
      AppliedNothing(actions[1..]);
    }
  }

  /** The candidates one event applies on a connected peer are those it carries. */
  lemma StepApplies(p: Peer, e: Event)
    requires p.hasConnection
    ensures Applied(Step(p, e).actions) == Received([e])
  {
    var actions := Step(p, e).actions;
    if e.Inbound? && Decode(e.text).Success? && Decode(e.text).value.Some? && Decode(e.text).value.value.Ice? {
      var m := Decode(e.text).value.value;
      assert actions == [AddCandidate(m.mid, m.index, m.candidate)];
    } else {
      AppliedNothing(actions);
    }
  }

  /** Once a connection exists, every well-formed inbound ICE
      candidate is applied during its own event, exactly once, in arrival
      order, and nothing else is applied. */
  lemma {:induction false} CandidatesAppliedOnArrival(p: Peer, events: seq<Event>)
    requires p.hasConnection
    ensures Applied(Run(p, events).actions) == Received(events)
    decreases |events|
  {
    if |events| > 0 {
      var r := Step(p, events[0]);
      StepApplies(p, events[0]);
      CandidatesAppliedOnArrival(r.peer, events[1..]);
      AppliedAppend(r.actions, Run(r.peer, events[1..]).actions);
      assert events == [events[0]] + events[1..];
    }
  }

  /** Running `e` then `rest` is stepping through `e` and running `rest` from there. */
  lemma RunCons(p: Peer, e: Event, rest: seq<Event>)
    ensures var r := Step(p, e);
            var t := Run(r.peer, rest);
            Run(p, [e] + rest)
            == Trace(t.peer, r.actions + t.actions, (if r.fault.Some? then [r.fault.value] else []) + t.faults)
  {
    assert ([e] + rest)[1..] == rest;
  }

  /* The scenario lemmas below take their event list as a parameter equal to
     a sequence display, and prove it through small lemmas about single steps
     and about regrouping displays. `Run` and `Outbound` unfold eagerly over a
     sequence display, and with `Decode` and `Encode` in the same proof that
     unfolding costs the verifier more than the proof itself. */

  /** Two events that raise nothing run as their two reactions, back to back. */
  lemma RunPair(p: Peer, e1: Event, e2: Event)
    requires Step(p, e1).fault == None
    requires Step(Step(p, e1).peer, e2).fault == None
    ensures var r1 := Step(p, e1);
            var r2 := Step(r1.peer, e2);
            Run(p, [e1, e2]) == Trace(r2.peer, r1.actions + r2.actions, [])
  {
    var r1 := Step(p, e1);
    RunOne(r1.peer, e2);
    RunCons(p, e1, [e2]);
    SingleThen(e1, [e2]);
  }

  /** One event that raises nothing runs as its reaction. */
  lemma RunOne(p: Peer, e: Event)
    requires Step(p, e).fault == None
    ensures Run(p, [e]) == Trace(Step(p, e).peer, Step(p, e).actions, [])
  {
    assert [e][1..] == [];
  }

  /** Socket open: the endpoint takes the caller role and asks for an offer. */
  lemma SocketOpenedBuildsCaller(p: Peer)
    ensures Step(p, SocketOpened) == Reaction(Peer(true), [BuildConnection(true), CreateOffer], None)
  {
  }

  /** A created description is set locally through the connection, then sent. */
  lemma DescriptionCreated(desc: string)
    ensures Step(Peer(true), OfferCreated(desc)) == Reaction(Peer(true), [SetLocal(OfferSdp, desc), Send(Encode(Offer(desc)))], None)
    ensures Step(Peer(true), AnswerCreated(desc)) == Reaction(Peer(true), [SetLocal(AnswerSdp, desc), Send(Encode(Answer(desc)))], None)
  {
  }

  /** Socket open: the endpoint always takes the caller role and asks for an
      offer; once the offer exists it is set locally and sent as the one
      OFFER message, and nothing else is sent. */
  lemma CallerNegotiation(p: Peer, events: seq<Event>, desc: string)
    requires events == [SocketOpened, OfferCreated(desc)]
    ensures Run(p, events)
         == Trace(Peer(true), [BuildConnection(true), CreateOffer, SetLocal(OfferSdp, desc), Send(Encode(Offer(desc)))], [])
  {
    SocketOpenedBuildsCaller(p);
    DescriptionCreated(desc);
    RunPair(p, SocketOpened, OfferCreated(desc));
    PairThen(BuildConnection(true), CreateOffer, [SetLocal(OfferSdp, desc), Send(Encode(Offer(desc)))]);
  }

  /** In the exchange above, the caller's only outbound message is its OFFER. */
  lemma CallerSendsOnlyOffer(p: Peer, events: seq<Event>, desc: string)
    requires events == [SocketOpened, OfferCreated(desc)]
    ensures Outbound(Run(p, events).actions) == [Encode(Offer(desc))]
  {
    CallerNegotiation(p, events, desc);
    OutboundLastSend([BuildConnection(true), CreateOffer, SetLocal(OfferSdp, desc), Send(Encode(Offer(desc)))], Encode(Offer(desc)));
  }

  /** Actions whose only send is the last one send exactly its text. */
  lemma {:induction false} OutboundLastSend(actions: seq<Action>, t: string)
    requires |actions| >= 1 && actions[|actions| - 1] == Send(t)
    requires forall i :: 0 <= i < |actions| - 1 ==> !actions[i].Send?
    ensures Outbound(actions) == [t]
  {
    if |actions| > 1 {
      OutboundLastSend(actions[1..], t);
    }
  }

  /** On a connected peer, the two answer callbacks request the answer, set it
      locally and send it. */
  lemma AnswerTail(desc: string)
    ensures Run(Peer(true), [RemoteOfferSet, AnswerCreated(desc)])
         == Trace(Peer(true), [CreateAnswer, SetLocal(AnswerSdp, desc), Send(Encode(Answer(desc)))], [])
  {
    assert Step(Peer(true), RemoteOfferSet) == Reaction(Peer(true), [CreateAnswer], None);
    DescriptionCreated(desc);
    RunPair(Peer(true), RemoteOfferSet, AnswerCreated(desc));
    SingleThen(CreateAnswer, [SetLocal(AnswerSdp, desc), Send(Encode(Answer(desc)))]);
  }

  /** An event that rebuilds as non-caller and sets a remote offer, followed
      by the two answer callbacks, runs as the whole callee exchange. */
  lemma CalleeRun(p: Peer, e: Event, sdp: string, desc: string)
    requires Step(p, e) == Reaction(Peer(true), [BuildConnection(false), SetRemote(OfferSdp, sdp)], None)
    ensures Run(p, [e, RemoteOfferSet, AnswerCreated(desc)])
         == Trace(Peer(true),
                  [BuildConnection(false), SetRemote(OfferSdp, sdp), CreateAnswer,
                   SetLocal(AnswerSdp, desc), Send(Encode(Answer(desc)))], [])
  {
    AnswerTail(desc);
    SingleThen(e, [RemoteOfferSet, AnswerCreated(desc)]);
    RunCons(p, e, [RemoteOfferSet, AnswerCreated(desc)]);
    PairThenThree(BuildConnection(false), SetRemote(OfferSdp, sdp), [CreateAnswer, SetLocal(AnswerSdp, desc), Send(Encode(Answer(desc)))]);
  }

  /* Sequence displays regrouped, kept apart from the runs they describe. */

  lemma SingleThen<T>(a: T, rest: seq<T>)
    requires |rest| <= 2
    ensures |rest| == 1 ==> [a] + rest == [a, rest[0]]
    ensures |rest| == 2 ==> [a] + rest == [a, rest[0], rest[1]]
  {
  }

  lemma PairThen<T>(a: T, b: T, rest: seq<T>)
    requires |rest| == 2
    ensures [a, b] + rest == [a, b, rest[0], rest[1]]
  {
  }

  lemma PairThenThree<T>(a: T, b: T, rest: seq<T>)
    requires |rest| == 3
    ensures [a, b] + rest == [a, b, rest[0], rest[1], rest[2]]
  {
  }

  /** Inbound OFFER: the connection is rebuilt as non-caller (so no offer is
      requested), the remote description is set, then the answer is created,
      set locally and sent. This holds for any text that decodes to an offer,
      `OFFER|s` included, whose description is `s` cut at its first separator
      (`Wire.DecodeTruncatesDescription`). */
  lemma CalleeNegotiation(p: Peer, events: seq<Event>, text: string, sdp: string, desc: string)
    requires Decode(text) == Success(Some(Offer(sdp)))
    requires events == [Inbound(text), RemoteOfferSet, AnswerCreated(desc)]
    ensures Run(p, events)
         == Trace(Peer(true),
                  [BuildConnection(false), SetRemote(OfferSdp, sdp), CreateAnswer,
                   SetLocal(AnswerSdp, desc), Send(Encode(Answer(desc)))], [])
  {
    InboundOffer(p, text, sdp);
    CalleeRun(p, Inbound(text), sdp, desc);
  }

  /** In the exchange above, the callee's only outbound message is its ANSWER. */
  lemma CalleeSendsOnlyAnswer(p: Peer, events: seq<Event>, text: string, desc: string)
    requires InboundOfferEvent(Inbound(text))
    requires events == [Inbound(text), RemoteOfferSet, AnswerCreated(desc)]
    ensures Outbound(Run(p, events).actions) == [Encode(Answer(desc))]
  {
    var sdp := Decode(text).value.value.sdp;
    InboundOffer(p, text, sdp);
    CalleeRunSends(p, Inbound(text), sdp, desc);
  }

  /** The callee exchange sends one ANSWER, whatever event opened it. */
  lemma CalleeRunSends(p: Peer, e: Event, sdp: string, desc: string)
    requires Step(p, e) == Reaction(Peer(true), [BuildConnection(false), SetRemote(OfferSdp, sdp)], None)
    ensures Outbound(Run(p, [e, RemoteOfferSet, AnswerCreated(desc)]).actions) == [Encode(Answer(desc))]
  {
    CalleeRun(p, e, sdp, desc);
    FourThenSend(BuildConnection(false), SetRemote(OfferSdp, sdp), CreateAnswer, SetLocal(AnswerSdp, desc), Encode(Answer(desc)));
  }

  /** Four actions that send nothing, then a send, send exactly its text. */
  lemma FourThenSend(a: Action, b: Action, c: Action, d: Action, t: string)
    requires !a.Send? && !b.Send? && !c.Send? && !d.Send?
    ensures Outbound([a, b, c, d, Send(t)]) == [t]
  {
    OutboundLastSend([a, b, c, d, Send(t)], t);
  }

  /** An inbound OFFER is handled the same way whatever came before, so a
      second offer rebuilds the connection again. */
  lemma InboundOffer(p: Peer, text: string, sdp: string)
    requires Decode(text) == Success(Some(Offer(sdp)))
    ensures Step(p, Inbound(text)) == Reaction(Peer(true), [BuildConnection(false), SetRemote(OfferSdp, sdp)], None)
  {
  }

  /** An inbound ANSWER only sets the remote description, through a connection
      if there is one; it changes no state and sends nothing. */
  lemma InboundAnswer(p: Peer, text: string, sdp: string)
    requires Decode(text) == Success(Some(Answer(sdp)))
    ensures Step(p, Inbound(text)).peer == p
    ensures Step(p, Inbound(text)).fault == None
    ensures Step(p, Inbound(text)).actions == if p.hasConnection then [SetRemote(AnswerSdp, sdp)] else []
  {
  }

  /** An inbound ICE candidate is applied during its own event, and nothing is sent. */
  lemma InboundIce(p: Peer, text: string, m: Message)
    requires Decode(text) == Success(Some(m)) && m.Ice?
    ensures Step(p, Inbound(text)).peer == p
    ensures Step(p, Inbound(text)).fault == None
    ensures Step(p, Inbound(text)).actions
         == if p.hasConnection then [AddCandidate(m.mid, m.index, m.candidate)] else []
  {
  }

  /** A message that fails to decode surfaces its error; only a bare OFFER
      has an effect, the connection rebuilt before its field 1 was read. */
  lemma MalformedInbound(p: Peer, text: string)
    requires Decode(text).Failure?
    ensures Step(p, Inbound(text)).fault == Some(Decode(text).error)
    ensures Step(p, Inbound(text)).actions == if Split(text)[0] == OfferTag then [BuildConnection(false)] else []
  {
  }

  /** A message whose first field is not exactly OFFER, ANSWER or ICE does nothing at all. */
  lemma UnknownTagIgnored(p: Peer, text: string)
    requires Split(text)[0] !in {OfferTag, AnswerTag, IceTag}
    ensures Step(p, Inbound(text)) == Reaction(p, [], None)
  {
  }

  /** Each local candidate is sent at once as one ICE message, and nothing else happens. */
  lemma LocalCandidateSent(p: Peer, mid: string, index: Int32, candidate: string)
    ensures Step(p, LocalCandidate(mid, index, candidate))
         == Reaction(p, [Send(Encode(Ice(mid, index, candidate)))], None)
  {
  }

  /** The OFFER one endpoint sends makes the other rebuild as non-caller and
      set the description it carries, cut at its first separator. */
  lemma OfferDelivered(sender: Peer, receiver: Peer, desc: string)
    ensures |Outbound(Step(sender, OfferCreated(desc)).actions)| == 1
    ensures Step(receiver, Inbound(Outbound(Step(sender, OfferCreated(desc)).actions)[0]))
         == Reaction(Peer(true), [BuildConnection(false), SetRemote(OfferSdp, FirstField(desc))], None)
  {
    var sent := Encode(Offer(desc));
    assert Outbound(Step(sender, OfferCreated(desc)).actions) == [sent];
    assert sent == OfferTag + [Delim] + desc;
    DecodeTruncatesDescription(desc);
    InboundOffer(receiver, sent, FirstField(desc));
  }

  /** The ANSWER one endpoint sends is set as remote description by a connected receiver. */
  lemma AnswerDelivered(sender: Peer, receiver: Peer, desc: string)
    requires receiver.hasConnection
    ensures |Outbound(Step(sender, AnswerCreated(desc)).actions)| == 1
    ensures Step(receiver, Inbound(Outbound(Step(sender, AnswerCreated(desc)).actions)[0]))
         == Reaction(receiver, [SetRemote(AnswerSdp, FirstField(desc))], None)
  {
    var sent := Encode(Answer(desc));
    assert Outbound(Step(sender, AnswerCreated(desc)).actions) == [sent];
    assert sent == AnswerTag + [Delim] + desc;
    DecodeTruncatesDescription(desc);
    InboundAnswer(receiver, sent, FirstField(desc));
  }

  /** The ICE message one endpoint sends for a local candidate is applied by a
      connected receiver with the same mid and index. */
  lemma CandidateDelivered(sender: Peer, receiver: Peer, mid: string, index: Int32, candidate: string)
    requires receiver.hasConnection && Clean(mid)
    ensures |Outbound(Step(sender, LocalCandidate(mid, index, candidate)).actions)| == 1
    ensures Step(receiver, Inbound(Outbound(Step(sender, LocalCandidate(mid, index, candidate)).actions)[0]))
         == Reaction(receiver, [AddCandidate(mid, index, FirstField(candidate))], None)
  {
    var sent := Encode(Ice(mid, index, candidate));
    assert Outbound(Step(sender, LocalCandidate(mid, index, candidate)).actions) == [sent];
    DecodeTruncatesCandidate(mid, index, candidate);
    InboundIce(receiver, sent, Ice(mid, index, FirstField(candidate)));
  }

  /** True when some action in `actions` sets a remote offer. */
  predicate SetsRemoteOffer(actions: seq<Action>) {
    exists k :: 0 <= k < |actions| && actions[k].SetRemote? && actions[k].kind == OfferSdp
  }

  /** True when `actions` already hold the request whose completion callback `e` is. */
  predicate Requested(actions: seq<Action>, e: Event) {
    match e
    case OfferCreated(_) => CreateOffer in actions
    case RemoteOfferSet => SetsRemoteOffer(actions)
    case AnswerCreated(_) => CreateAnswer in actions
    case _ => true
  }

  /** A run in which every completion callback follows at least one earlier
      request of its kind: `createOffer` for an offer (MainActivity.kt:101),
      the remote offer being set for its success (:119), `createAnswer` for an
      answer (:121). Requests are not matched one to one, so two callbacks
      may follow a single request. */
  predicate Caused(p: Peer, events: seq<Event>) {
    forall i :: 0 <= i < |events| ==> Requested(Run(p, events[..i]).actions, events[i])
  }

  /** Every action of a run is issued by one of its events, from the state the
      events before it left. */
  lemma {:induction false} ActionOrigin(p: Peer, events: seq<Event>, a: Action)
    requires a in Run(p, events).actions
    ensures exists k :: IssuedAt(p, events, k, a)
    decreases |events|
  {
    var r := Step(p, events[0]);
    var tail := events[1..];
    RunCons(p, events[0], tail);
    assert [events[0]] + tail == events;
    if a in r.actions {
      assert events[..0] == [];
      assert IssuedAt(p, events, 0, a);
    } else {
      ActionOrigin(r.peer, tail, a);
      var k :| IssuedAt(r.peer, tail, k, a);
      IssuedShift(p, events, k, a);
    }
  }

  /** Whether action `a` is among those event `k` of a run issues. */
  predicate IssuedAt(p: Peer, events: seq<Event>, k: int, a: Action) {
    0 <= k < |events| && a in Step(Run(p, events[..k]).peer, events[k]).actions
  }

  /** An action issued by event `k` of a run's tail is issued by event `k + 1` of the run. */
  lemma IssuedShift(p: Peer, events: seq<Event>, k: int, a: Action)
    requires |events| > 0 && IssuedAt(Step(p, events[0]).peer, events[1..], k, a)
    ensures IssuedAt(p, events, k + 1, a)
  {
    PrefixPeer(p, events, k);
    assert events[1..][k] == events[k + 1];
  }

  lemma PrefixPeer(p: Peer, events: seq<Event>, k: nat)
    requires k < |events|
    ensures Run(p, events[..k + 1]).peer == Run(Step(p, events[0]).peer, events[1..][..k]).peer
  {
    assert events[..k + 1] == [events[0]] + events[1..][..k];
    RunCons(p, events[0], events[1..][..k]);
  }

  /** True of an inbound message that decodes to an OFFER. */
  predicate InboundOfferEvent(e: Event) {
    e.Inbound? && Decode(e.text).Success? && Decode(e.text).value.Some? && Decode(e.text).value.value.Offer?
  }

  /** Only socket open asks for an offer. */
  lemma OfferRequestOrigin(p: Peer, events: seq<Event>)
    requires CreateOffer in Run(p, events).actions
    ensures SocketOpened in events
  {
    ActionOrigin(p, events, CreateOffer);
    var k :| IssuedAt(p, events, k, CreateOffer);
  }

  /** Only a remote offer being set asks for an answer. */
  lemma AnswerRequestOrigin(p: Peer, events: seq<Event>)
    requires CreateAnswer in Run(p, events).actions
    ensures exists j :: 0 <= j < |events| && events[j] == RemoteOfferSet
  {
    ActionOrigin(p, events, CreateAnswer);
    var j :| IssuedAt(p, events, j, CreateAnswer);
    StepAnswerRequest(Run(p, events[..j]).peer, events[j]);
  }

  lemma StepAnswerRequest(q: Peer, e: Event)
    requires CreateAnswer in Step(q, e).actions
    ensures e == RemoteOfferSet
  {
    if e.Inbound? {
      HandleSignalRequestsNoAnswer(q, e.text);
    }
  }

  lemma HandleSignalRequestsNoAnswer(q: Peer, text: string)
    ensures CreateAnswer !in HandleSignal(q, text).actions
  {
  }

  /** Only an inbound OFFER sets a remote offer. */
  lemma RemoteOfferOrigin(p: Peer, events: seq<Event>)
    requires SetsRemoteOffer(Run(p, events).actions)
    ensures exists k :: 0 <= k < |events| && InboundOfferEvent(events[k])
  {
    var actions := Run(p, events).actions;
    var m :| 0 <= m < |actions| && actions[m].SetRemote? && actions[m].kind == OfferSdp;
    ActionOrigin(p, events, actions[m]);
    var k :| IssuedAt(p, events, k, actions[m]);
    StepRemoteOffer(Run(p, events[..k]).peer, events[k], actions[m]);
  }

  lemma StepRemoteOffer(q: Peer, e: Event, a: Action)
    requires a in Step(q, e).actions && a.SetRemote? && a.kind == OfferSdp
    ensures InboundOfferEvent(e)
  {
    if !e.Inbound? {
      assert false;
    } else {
      assert Step(q, e) == HandleSignal(q, e.text);
      match Decode(e.text)
      case Success(Some(Offer(_))) =>
      case Success(Some(Answer(_))) => assert false;
      case Success(Some(Ice(_, _, _))) => assert false;
      case Success(None) => assert false;
      case Failure(_) => assert false;
    }
  }

  /** The tag of each text an event sends names the event that sent it. */
  lemma SentTag(e: Event, t: string)
    requires t in Emits(e)
    ensures Split(t)[0] == OfferTag ==> e.OfferCreated?
    ensures Split(t)[0] == AnswerTag ==> e.AnswerCreated?
    ensures Split(t)[0] == IceTag ==> e.LocalCandidate?
  {
  }

  /** In any run where callbacks follow their requests, an OFFER is only ever
      sent after the socket opened: nothing but `onOpen` asks for an offer. */
  lemma OfferSentOnlyAfterOpen(p: Peer, events: seq<Event>, i: nat, t: string)
    requires Caused(p, events)
    requires i < |events| && t in Emits(events[i]) && Split(t)[0] == OfferTag
    ensures SocketOpened in events[..i]
  {
    SentTag(events[i], t);
    assert Requested(Run(p, events[..i]).actions, events[i]);
    OfferRequestOrigin(p, events[..i]);
  }

  /** In any run where callbacks follow their requests, an ANSWER is only ever
      sent after a well-formed inbound OFFER: the answer needs `createAnswer`,
      which needs the remote offer set, which only an inbound OFFER does. */
  lemma AnswerSentOnlyAfterOffer(p: Peer, events: seq<Event>, i: nat, t: string)
    requires Caused(p, events)
    requires i < |events| && t in Emits(events[i]) && Split(t)[0] == AnswerTag
    ensures OfferArrived(events[..i])
  {
    SentTag(events[i], t);
    var j := RemoteSetBeforeAnswer(p, events, i);
    OfferBeforeRemoteSet(p, events, j);
    OfferArrivedExtends(events, j, i);
  }

  /** Under `Caused`, an answer callback at `i` follows a remote-offer callback. */
  lemma RemoteSetBeforeAnswer(p: Peer, events: seq<Event>, i: nat) returns (j: nat)
    requires Caused(p, events)
    requires i < |events| && events[i].AnswerCreated?
    ensures j < i && events[j] == RemoteOfferSet
  {
    assert Requested(Run(p, events[..i]).actions, events[i]);
    AnswerRequestOrigin(p, events[..i]);
    var k :| 0 <= k < i && events[..i][k] == RemoteOfferSet;
    j := k;
  }

  /** Under `Caused`, a remote-offer callback at `j` follows a well-formed OFFER. */
  lemma OfferBeforeRemoteSet(p: Peer, events: seq<Event>, j: nat)
    requires Caused(p, events)
    requires j < |events| && events[j] == RemoteOfferSet
    ensures OfferArrived(events[..j])
  {
    assert Requested(Run(p, events[..j]).actions, events[j]);
    RemoteOfferOrigin(p, events[..j]);
  }

  /** An OFFER that arrived among the first `j` events arrived among the first `i`. */
  lemma OfferArrivedExtends(events: seq<Event>, j: nat, i: nat)
    requires j <= i <= |events| && OfferArrived(events[..j])
    ensures OfferArrived(events[..i])
  {
    var k :| 0 <= k < j && InboundOfferEvent(events[..j][k]);
    assert events[..i][k] == events[..j][k];
  }

  /** Whether a well-formed OFFER arrived among `events`. */
  predicate OfferArrived(events: seq<Event>) {
    exists k :: 0 <= k < |events| && InboundOfferEvent(events[k])
  }

  /** An inbound event that rebuilds as non-caller and sets a remote offer,
      followed by the two answer callbacks, has each callback after its request. */
  lemma CalleeRunCaused(p: Peer, e: Event, sdp: string, desc: string)
    requires e.Inbound?
    requires Step(p, e) == Reaction(Peer(true), [BuildConnection(false), SetRemote(OfferSdp, sdp)], None)
    ensures Caused(p, [e, RemoteOfferSet, AnswerCreated(desc)])
  {
    var events := [e, RemoteOfferSet, AnswerCreated(desc)];
    var first := Step(p, e);
    var second := Step(first.peer, RemoteOfferSet);
    RunCons(p, e, []);
    assert events[..1] == [e] + [];
    assert Run(p, events[..1]).actions == first.actions;
    assert first.actions[1] == SetRemote(OfferSdp, sdp);
    assert SetsRemoteOffer(Run(p, events[..1]).actions);
    RunCons(first.peer, RemoteOfferSet, []);
    RunCons(p, e, [RemoteOfferSet]);
    assert events[..2] == [e] + [RemoteOfferSet];
    assert [RemoteOfferSet] + [] == [RemoteOfferSet];
    assert Run(p, events[..2]).actions == first.actions + (second.actions + []);
    assert CreateAnswer in Run(p, events[..2]).actions;
    forall i | 0 <= i < |events|
      ensures Requested(Run(p, events[..i]).actions, events[i])
    {
      if i == 1 {
      } else if i == 2 {
      }
    }
  }

  /** The callee exchange is such a run: each of its callbacks follows its request. */
  lemma CalleeExchangeCaused(p: Peer, events: seq<Event>, text: string, sdp: string, desc: string)
    requires Decode(text) == Success(Some(Offer(sdp)))
    requires events == [Inbound(text), RemoteOfferSet, AnswerCreated(desc)]
    ensures Caused(p, events)
  {
    InboundOffer(p, text, sdp);
    CalleeRunCaused(p, Inbound(text), sdp, desc);
  }

  /** Whether handling `e` builds a connection: a socket open, or an inbound
      text whose first field is OFFER, even one that then fails to decode. */
  predicate BuildsConnection(e: Event) {
    e.SocketOpened? || (e.Inbound? && Split(e.text)[0] == OfferTag)
  }

  /** Without a connection, an event that builds none leaves the state alone
      and issues nothing but socket sends. */
  lemma StepWithoutConnection(e: Event)
    requires !BuildsConnection(e)
    ensures Step(Initial, e).peer == Initial
    ensures forall a :: a in Step(Initial, e).actions ==> a.Send?
  {
    if e.Inbound? && Decode(e.text).Success? && Decode(e.text).value.Some? {
      assert !Decode(e.text).value.value.Offer?;
    }
  }

  /** From the start state, until a socket open or an inbound OFFER builds a
      connection, every inbound ANSWER and ICE message is dropped: the run
      stays unconnected, and its only actions are socket sends, so no
      description is set and no candidate is added. */
  lemma {:induction false} DroppedBeforeConnection(events: seq<Event>)
    requires forall i :: 0 <= i < |events| ==> !BuildsConnection(events[i])
    ensures Run(Initial, events).peer == Initial
    ensures forall a :: a in Run(Initial, events).actions ==> a.Send?
    decreases |events|
  {
    if |events| > 0 {
      StepWithoutConnection(events[0]);
      assert forall i :: 0 <= i < |events[1..]| ==> !BuildsConnection(events[1..][i]) by {
        forall i | 0 <= i < |events[1..]| ensures !BuildsConnection(events[1..][i]) {
          assert events[1..][i] == events[i + 1];
        }
      }
      DroppedBeforeConnection(events[1..]);
    }
  }
}
