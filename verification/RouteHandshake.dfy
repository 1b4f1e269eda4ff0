/**
 Why a route is ready, and why it is not. The theorems speak of the schedule of events alone: which
 messages, continuations and timeouts came in which order.
 */
module RouteHandshake {
  import opened Wrappers
  import opened RouteProtocol

  // ---------------------------------------------------------------- what came in which order

  /** A challenge that cannot be signed, or the timeout, ends the authentication of socket g. */
  predicate BreaksAuth(e: Event, g: int) {
    e == AuthTimeout(g) || e == SocketMessage(g, Challenge(false))
  }

  /** A refusal, or the timeout, ends its control exchange. */
  predicate BreaksControl(e: Event, g: int) {
    e == ControlTimeout(g) || e == SocketMessage(g, Response(g, None))
  }

  /** Socket g opened with its pin matching, and its authentication was not broken since. */
  ghost predicate Opened(events: seq<Event>, g: int) {
    exists i :: 0 <= i < |events| && events[i] == SocketOpen(g, true)
                && forall m :: i < m < |events| ==> !BreaksAuth(events[m], g)
  }

  ghost predicate Acked(events: seq<Event>, g: int) {
    exists j :: 0 <= j < |events| && events[j] == SocketMessage(g, HelloAck) && Opened(events[..j], g)
  }

  /** The control frame was signed and sent, and the exchange was not broken since. */
  ghost predicate Asked(events: seq<Event>, g: int) {
    exists l :: 0 <= l < |events| && events[l] == AuthSettled(g, true, true) && Acked(events[..l], g)
                && forall m :: l < m < |events| ==> !BreaksControl(events[m], g)
  }

  ghost predicate Answered(events: seq<Event>, g: int, caps: Capabilities) {
    exists k :: 0 <= k < |events| && events[k] == SocketMessage(g, Response(g, Some(caps))) && Asked(events[..k], g)
  }

  /** The whole handshake, up to the continuation of the control exchange. */
  ghost predicate Finished(events: seq<Event>, g: int, caps: Capabilities) {
    exists m :: 0 <= m < |events| && events[m] == ControlSettled(g) && Answered(events[..m], g, caps)
  }

  ghost predicate AuthBroken(events: seq<Event>, g: int) {
    exists j :: 0 <= j < |events| && BreaksAuth(events[j], g) && Opened(events[..j], g)
  }

  /** The exchange was broken, or its frame could not be sent. */
  ghost predicate ControlBroken(events: seq<Event>, g: int) {
    exists k :: 0 <= k < |events|
      && ((BreaksControl(events[k], g) && Asked(events[..k], g)) || (events[k] == AuthSettled(g, true, false) && Acked(events[..k], g)))
  }

  ghost predicate AuthLost(events: seq<Event>, g: int) {
    exists l :: 0 <= l < |events| && events[l].AuthSettled? && events[l].gen == g
                && (AuthBroken(events[..l], g) || (!events[l].signed && Acked(events[..l], g)))
  }

  ghost predicate ControlLost(events: seq<Event>, g: int) {
    exists m :: 0 <= m < |events| && events[m] == ControlSettled(g) && ControlBroken(events[..m], g)
  }

  ghost predicate PinRefused(events: seq<Event>, g: int) {
    exists i :: 0 <= i < |events| && events[i] == SocketOpen(g, false)
  }

  // ---------------------------------------------------------------- one more event

  lemma OpenedOn(events: seq<Event>, e: Event, g: int)
    ensures Opened(events, g) && !BreaksAuth(e, g) ==> Opened(events + [e], g)
    ensures e == SocketOpen(g, true) ==> Opened(events + [e], g)
  {
    var more := events + [e];
    assert more[|events|] == e;
    if Opened(events, g) {
      var i :| 0 <= i < |events| && events[i] == SocketOpen(g, true) && forall m :: i < m < |events| ==> !BreaksAuth(events[m], g);
      assert more[i] == events[i];
      assert forall m :: i < m < |events| ==> more[m] == events[m];
    }
  }

  lemma AckedOn(events: seq<Event>, e: Event, g: int)
    ensures Acked(events, g) || (e == SocketMessage(g, HelloAck) && Opened(events, g)) ==> Acked(events + [e], g)
  {
    hide Opened;
    var more := events + [e];
    assert more[|events|] == e && more[..|events|] == events;
    if Acked(events, g) {
      var j :| 0 <= j < |events| && events[j] == SocketMessage(g, HelloAck) && Opened(events[..j], g);
      assert more[j] == events[j] && more[..j] == events[..j];
    }
  }

  lemma AskedOn(events: seq<Event>, e: Event, g: int)
    ensures (Asked(events, g) && !BreaksControl(e, g)) || (e == AuthSettled(g, true, true) && Acked(events, g)) ==> Asked(events + [e], g)
  {
    hide Acked;
    var more := events + [e];
    assert more[|events|] == e && more[..|events|] == events;
    if Asked(events, g) {
      var l :| 0 <= l < |events| && events[l] == AuthSettled(g, true, true) && Acked(events[..l], g)
               && forall m :: l < m < |events| ==> !BreaksControl(events[m], g);
      assert more[l] == events[l] && more[..l] == events[..l];
      assert forall m :: l < m < |events| ==> more[m] == events[m];
    }
  }

  lemma AnsweredOn(events: seq<Event>, e: Event, g: int, caps: Capabilities)
    ensures Answered(events, g, caps) || (e == SocketMessage(g, Response(g, Some(caps))) && Asked(events, g)) ==> Answered(events + [e], g, caps)
  {
    hide Asked;
    var more := events + [e];
    assert more[|events|] == e && more[..|events|] == events;
    if Answered(events, g, caps) {
      var k :| 0 <= k < |events| && events[k] == SocketMessage(g, Response(g, Some(caps))) && Asked(events[..k], g);
      assert more[k] == events[k] && more[..k] == events[..k];
    }
  }

  lemma FinishedOn(events: seq<Event>, e: Event, g: int, caps: Capabilities)
    ensures Finished(events, g, caps) || (e == ControlSettled(g) && Answered(events, g, caps)) ==> Finished(events + [e], g, caps)
  {
    hide Answered;
    var more := events + [e];
    assert more[|events|] == e && more[..|events|] == events;
    if Finished(events, g, caps) {
      var m :| 0 <= m < |events| && events[m] == ControlSettled(g) && Answered(events[..m], g, caps);
      assert more[m] == events[m] && more[..m] == events[..m];
    }
  }

  lemma AuthBrokenOn(events: seq<Event>, e: Event, g: int)
    ensures AuthBroken(events, g) || (BreaksAuth(e, g) && Opened(events, g)) ==> AuthBroken(events + [e], g)
  {
    hide Opened, BreaksAuth;
    var more := events + [e];
    assert more[|events|] == e && more[..|events|] == events;
    if AuthBroken(events, g) {
      var j :| 0 <= j < |events| && BreaksAuth(events[j], g) && Opened(events[..j], g);
      assert more[j] == events[j] && more[..j] == events[..j];
    }
  }

  lemma ControlBrokenOn(events: seq<Event>, e: Event, g: int)
    ensures ControlBroken(events, g) || (BreaksControl(e, g) && Asked(events, g)) || (e == AuthSettled(g, true, false) && Acked(events, g))
            ==> ControlBroken(events + [e], g)
  {
    hide Asked, Acked, BreaksControl;
    var more := events + [e];
    assert more[|events|] == e && more[..|events|] == events;
    if ControlBroken(events, g) {
      var k :| 0 <= k < |events|
        && ((BreaksControl(events[k], g) && Asked(events[..k], g)) || (events[k] == AuthSettled(g, true, false) && Acked(events[..k], g)));
      assert more[k] == events[k] && more[..k] == events[..k];
    }
  }

  lemma AuthLostOn(events: seq<Event>, e: Event, g: int)
    requires AuthLost(events, g) || (e.AuthSettled? && e.gen == g && (AuthBroken(events, g) || (!e.signed && Acked(events, g))))
    ensures AuthLost(events + [e], g)
  {
    hide AuthBroken, Acked;
    var more := events + [e];
    assert more[|events|] == e && more[..|events|] == events;
    if AuthLost(events, g) {
      var l :| 0 <= l < |events| && events[l].AuthSettled? && events[l].gen == g
               && (AuthBroken(events[..l], g) || (!events[l].signed && Acked(events[..l], g)));
      assert more[l] == events[l] && more[..l] == events[..l];
    }
  }

  lemma ControlLostOn(events: seq<Event>, e: Event, g: int)
    ensures ControlLost(events, g) || (e == ControlSettled(g) && ControlBroken(events, g)) ==> ControlLost(events + [e], g)
  {
    hide ControlBroken;
    var more := events + [e];
    assert more[|events|] == e && more[..|events|] == events;
    if ControlLost(events, g) {
      var m :| 0 <= m < |events| && events[m] == ControlSettled(g) && ControlBroken(events[..m], g);
      assert more[m] == events[m] && more[..m] == events[..m];
    }
  }

  lemma PinRefusedOn(events: seq<Event>, e: Event, g: int)
    ensures PinRefused(events, g) || e == SocketOpen(g, false) ==> PinRefused(events + [e], g)
  {
    var more := events + [e];
    assert more[|events|] == e;
    if PinRefused(events, g) {
      var i :| 0 <= i < |events| && events[i] == SocketOpen(g, false);
      assert more[i] == events[i];
    }
  }

  // ---------------------------------------------------------------- every phase has its history

  ghost predicate Explained(events: seq<Event>, g: int, phase: Phase) {
    match phase
    case Authenticating(auth) =>
      && (auth == AuthWaiting || auth == AuthAcked || auth == AuthFailed)
      && (auth == AuthWaiting ==> Opened(events, g)) && (auth == AuthAcked ==> Acked(events, g))
      && (auth == AuthFailed ==> AuthBroken(events, g))
    case Negotiating(control) =>
      && control != ControlIdle && control != ControlDone
      && (control == ControlWaiting ==> Asked(events, g)) && (control == ControlRejected ==> ControlBroken(events, g))
      && (control.ControlResolved? ==> Answered(events, g, control.caps))
    case Ready(caps) => Finished(events, g, caps)
    case Unavailable(reason) =>
      && (reason == PinMismatch ==> PinRefused(events, g)) && (reason == AuthenticationFailed ==> AuthLost(events, g))
      && (reason == NegotiationFailed ==> ControlLost(events, g))
    case _ => true
  }

  lemma AuthExplainedOn(cfg: Config, events: seq<Event>, r: Route, e: Event)
    requires Explained(events, r.gen, r.phase) && (InProgress(r.phase) ==> r.hasSocket)
    ensures var next := Step(cfg, r, e); next.phase.Authenticating? ==> Explained(events + [e], next.gen, next.phase)
  {
    hide Opened, Acked, Asked, Answered, Finished, AuthBroken, ControlBroken, AuthLost, ControlLost, PinRefused;
    OpenedOn(events, e, r.gen);
    AckedOn(events, e, r.gen);
    AuthBrokenOn(events, e, r.gen);
  }

  lemma ControlExplainedOn(cfg: Config, events: seq<Event>, r: Route, e: Event)
    requires Explained(events, r.gen, r.phase) && (InProgress(r.phase) ==> r.hasSocket)
    ensures var next := Step(cfg, r, e); next.phase.Negotiating? ==> Explained(events + [e], next.gen, next.phase)
  {
    hide Opened, Acked, Asked, Answered, Finished, AuthBroken, ControlBroken, AuthLost, ControlLost, PinRefused;
    AskedOn(events, e, r.gen);
    ControlBrokenOn(events, e, r.gen);
    if e.SocketMessage? && e.msg.Response? && e.msg.caps.Some? { AnsweredOn(events, e, r.gen, e.msg.caps.value); }
    if r.phase.Negotiating? && r.phase.control.ControlResolved? { AnsweredOn(events, e, r.gen, r.phase.control.caps); }
  }

  lemma OutcomeExplainedOn(cfg: Config, events: seq<Event>, r: Route, e: Event)
    requires Explained(events, r.gen, r.phase)
    ensures var next := Step(cfg, r, e);
            next.phase.Ready? || next.phase.Unavailable? ==> Explained(events + [e], next.gen, next.phase)
  {
    hide Opened, Acked, Asked, Answered, Finished, AuthBroken, ControlBroken, AuthLost, ControlLost, PinRefused;
    if AuthLost(events, r.gen)
       || (e.AuthSettled? && e.gen == r.gen && (AuthBroken(events, r.gen) || (!e.signed && Acked(events, r.gen)))) {
      AuthLostOn(events, e, r.gen);
    }
    ControlLostOn(events, e, r.gen);
    PinRefusedOn(events, e, r.gen);
    if r.phase.Negotiating? && r.phase.control.ControlResolved? { FinishedOn(events, e, r.gen, r.phase.control.caps); }
    if r.phase.Ready? { FinishedOn(events, e, r.gen, r.phase.caps); }
  }

  /** What an event of the socket, or a timer or continuation of the generation, leads to. */
  lemma ExplainedOn(cfg: Config, events: seq<Event>, r: Route, e: Event)
    requires Explained(events, r.gen, r.phase) && (InProgress(r.phase) ==> r.hasSocket)
    ensures var next := Step(cfg, r, e); Explained(events + [e], next.gen, next.phase)
  {
    hide Opened, Acked, Asked, Answered, Finished, AuthBroken, ControlBroken, AuthLost, ControlLost, PinRefused, Step;
    AuthExplainedOn(cfg, events, r, e);
    ControlExplainedOn(cfg, events, r, e);
    OutcomeExplainedOn(cfg, events, r, e);
  }

  ghost predicate OutputExplained(events: seq<Event>, o: Output) {
    match o
    case Resolved(g, caps) => Finished(events, g, caps)
    case OnReady(g) => exists caps :: Finished(events, g, caps)
    case _ => true
  }

  lemma OutputsExplainedOn(cfg: Config, events: seq<Event>, r: Route, e: Event)
    requires Explained(events, r.gen, r.phase) && (InProgress(r.phase) ==> r.hasSocket)
    requires forall i :: 0 <= i < |r.outputs| ==> OutputExplained(events, r.outputs[i])
    ensures var next := Step(cfg, r, e); forall i :: 0 <= i < |next.outputs| ==> OutputExplained(events + [e], next.outputs[i])
  {
    hide Finished, Step;
    var next := Step(cfg, r, e);
    ExplainedOn(cfg, events, r, e);
    StepExtendsOutputs(cfg, r, e);
    NewOutputs(cfg, r, e);
    forall i | 0 <= i < |next.outputs| ensures OutputExplained(events + [e], next.outputs[i]) {
      if i < |r.outputs| {
        assert next.outputs[i] == r.outputs[i];
        OutputStaysExplained(events, e, r.outputs[i]);
      }
    }
  }

  lemma OutputStaysExplained(events: seq<Event>, e: Event, o: Output)
    requires OutputExplained(events, o)
    ensures OutputExplained(events + [e], o)
  {
    hide Finished;
    match o
    case Resolved(g, caps) => FinishedOn(events, e, g, caps);
    case OnReady(g) =>
      var caps :| Finished(events, g, caps);
      FinishedOn(events, e, g, caps);
    case _ =>
  }

  lemma NewOutputs(cfg: Config, r: Route, e: Event)
    ensures var next := Step(cfg, r, e);
            forall i :: |r.outputs| <= i < |next.outputs| ==>
              (next.outputs[i].Resolved? || next.outputs[i].OnReady? ==>
                 next.phase.Ready? && next.outputs[i].gen == next.gen
                 && (next.outputs[i].Resolved? ==> next.outputs[i].caps == next.phase.caps))
  {
  }

  lemma {:induction false} RunIsExplained(cfg: Config, events: seq<Event>)
    ensures var r := Run(cfg, events);
            && Explained(events, r.gen, r.phase)
            && forall i :: 0 <= i < |r.outputs| ==> OutputExplained(events, r.outputs[i])
  {
    hide Step, Explained, OutputExplained;
    if events == [] {
      NothingToExplain();
    } else {
      var prior, e := events[..|events| - 1], events[|events| - 1];
      RunIsExplained(cfg, prior);
      Handshaking(cfg, prior);
      ExplainedOn(cfg, prior, Run(cfg, prior), e);
      OutputsExplainedOn(cfg, prior, Run(cfg, prior), e);
      assert events == prior + [e];
    }
  }

  lemma NothingToExplain()
    ensures Explained([], INITIAL.gen, INITIAL.phase)
  {
  }

  // ---------------------------------------------------------------- why a route is ready, or is not

  lemma ReadyIsFinished(cfg: Config, events: seq<Event>, x: nat)
    requires x < |Run(cfg, events).outputs|
    ensures var o := Run(cfg, events).outputs[x];
            && (o.Resolved? ==> Finished(events, o.gen, o.caps))
            && (o.OnReady? ==> exists caps :: Finished(events, o.gen, caps))
    ensures Run(cfg, events).phase.Ready? ==> Finished(events, Run(cfg, events).gen, Run(cfg, events).phase.caps)
  {
    hide Finished;
    RunIsExplained(cfg, events);
    assert OutputExplained(events, Run(cfg, events).outputs[x]);
  }

  lemma OpenedAt(events: seq<Event>, g: int) returns (i: nat)
    requires Opened(events, g)
    ensures i < |events| && events[i] == SocketOpen(g, true) && forall n :: i < n < |events| ==> !BreaksAuth(events[n], g)
  {
    i :| i < |events| && events[i] == SocketOpen(g, true) && forall n :: i < n < |events| ==> !BreaksAuth(events[n], g);
  }

  lemma AckedAt(events: seq<Event>, g: int) returns (i: nat, j: nat)
    requires Acked(events, g)
    ensures i < j < |events| && events[i] == SocketOpen(g, true) && events[j] == SocketMessage(g, HelloAck)
    ensures forall n :: i < n < j ==> !BreaksAuth(events[n], g)
  {
    hide Opened, BreaksAuth;
    j :| j < |events| && events[j] == SocketMessage(g, HelloAck) && Opened(events[..j], g);
    i := OpenedAt(events[..j], g);
    assert forall n :: 0 <= n < j ==> events[..j][n] == events[n];
  }

  lemma AskedAt(events: seq<Event>, g: int) returns (i: nat, j: nat, l: nat)
    requires Asked(events, g)
    ensures i < j < l < |events| && events[i] == SocketOpen(g, true) && events[j] == SocketMessage(g, HelloAck)
    ensures events[l] == AuthSettled(g, true, true) && forall n :: i < n < j ==> !BreaksAuth(events[n], g)
    ensures forall n :: l < n < |events| ==> !BreaksControl(events[n], g)
  {
    hide Acked, BreaksAuth, BreaksControl;
    l :| l < |events| && events[l] == AuthSettled(g, true, true) && Acked(events[..l], g)
         && forall n :: l < n < |events| ==> !BreaksControl(events[n], g);
    i, j := AckedAt(events[..l], g);
    assert forall n :: 0 <= n < l ==> events[..l][n] == events[n];
  }

  /** The events of a handshake, one after the other. */
  lemma HandshakeInOrder(events: seq<Event>, g: int, caps: Capabilities) returns (i: nat, j: nat, l: nat, k: nat, m: nat)
    requires Finished(events, g, caps)
    ensures i < j < l < k < m < |events|
    ensures events[i] == SocketOpen(g, true) && events[j] == SocketMessage(g, HelloAck)
    ensures events[l] == AuthSettled(g, true, true) && events[k] == SocketMessage(g, Response(g, Some(caps)))
    ensures events[m] == ControlSettled(g)
    ensures forall n :: i < n < j ==> events[n] != SocketMessage(g, Challenge(false)) && events[n] != AuthTimeout(g)
    ensures forall n :: l < n < k ==> events[n] != SocketMessage(g, Response(g, None)) && events[n] != ControlTimeout(g)
  {
    hide Asked;
    m :| m < |events| && events[m] == ControlSettled(g) && Answered(events[..m], g, caps);
    k :| k < m && events[..m][k] == SocketMessage(g, Response(g, Some(caps))) && Asked(events[..m][..k], g);
    assert events[..m][..k] == events[..k];
    i, j, l := AskedAt(events[..k], g);
    assert forall n :: 0 <= n < k ==> events[..k][n] == events[n];
  }

  /** A negotiation is announced or resolved only by a whole handshake of its own socket: open with the
      pin matching, then the acknowledgement with no broken authentication in between, then the control
      frame sent, then its answer with no broken exchange in between, and these capabilities in it. */
  lemma ReadyOnlyByHandshake(cfg: Config, events: seq<Event>, x: nat)
    returns (i: nat, j: nat, l: nat, k: nat, m: nat, caps: Capabilities)
    requires x < |Run(cfg, events).outputs| && (Run(cfg, events).outputs[x].OnReady? || Run(cfg, events).outputs[x].Resolved?)
    ensures var o := Run(cfg, events).outputs[x];
            var g := o.gen;
            && i < j < l < k < m < |events| && (o.Resolved? ==> caps == o.caps)
            && events[i] == SocketOpen(g, true) && events[j] == SocketMessage(g, HelloAck)
            && events[l] == AuthSettled(g, true, true) && events[k] == SocketMessage(g, Response(g, Some(caps)))
            && events[m] == ControlSettled(g)
            && (forall n :: i < n < j ==> events[n] != SocketMessage(g, Challenge(false)) && events[n] != AuthTimeout(g))
            && (forall n :: l < n < k ==> events[n] != SocketMessage(g, Response(g, None)) && events[n] != ControlTimeout(g))
  {
    hide Finished, Run;
    ReadyIsFinished(cfg, events, x);
    var o := Run(cfg, events).outputs[x];
    if o.Resolved? { caps := o.caps; } else { caps :| Finished(events, o.gen, caps); }
    i, j, l, k, m := HandshakeInOrder(events, o.gen, caps);
  }

  /** Every terminal failure has its own cause. */
  lemma FailedOnlyFor(cfg: Config, events: seq<Event>)
    requires Run(cfg, events).phase.Unavailable?
    ensures var r := Run(cfg, events);
            && (r.phase.reason == PinMismatch ==> PinRefused(events, r.gen))
            && (r.phase.reason == AuthenticationFailed ==> AuthLost(events, r.gen))
            && (r.phase.reason == NegotiationFailed ==> ControlLost(events, r.gen))
  {
    RunIsExplained(cfg, events);
  }

  // ---------------------------------------------------------------- and what follows from a handshake

  /** An event that has nothing to do with the negotiation of g, nor moves it. */
  predicate Neutral(e: Event, g: int) {
    match e
    case Close => false
    case SocketMessage(h, msg) => h != g || msg == Challenge(true) || msg.OtherMessage?
    case SocketOpen(h, _) => h != g
    case SocketClose(h) => h != g
    case SocketError(h) => h != g
    case AuthTimeout(h) => h != g
    case AuthSettled(h, _, _) => h != g
    case ControlTimeout(h) => h != g
    case ControlSettled(h) => h != g
    case _ => true
  }

  lemma NeutralStep(cfg: Config, r: Route, e: Event)
    requires Inv(cfg, r) && InProgress(r.phase) && Neutral(e, r.gen)
    ensures Step(cfg, r, e).phase == r.phase && Step(cfg, r, e).gen == r.gen
  {
  }

  lemma {:induction false} NeutralRun(cfg: Config, events: seq<Event>, more: seq<Event>)
    requires InProgress(Run(cfg, events).phase) && forall i :: 0 <= i < |more| ==> Neutral(more[i], Run(cfg, events).gen)
    ensures Run(cfg, events + more).phase == Run(cfg, events).phase && Run(cfg, events + more).gen == Run(cfg, events).gen
  {
    hide Neutral, Step, Inv;
    if more == [] {
      assert events + more == events;
    } else {
      var prior, e := more[..|more| - 1], more[|more| - 1];
      NeutralRun(cfg, events, prior);
      assert events + more == (events + prior) + [e];
      RunSnoc(cfg, events + prior, e);
      RunKeepsInv(cfg, events + prior);
      assert Neutral(e, Run(cfg, events).gen);
      NeutralStep(cfg, Run(cfg, events + prior), e);
    }
  }

  /** One event of the negotiation in progress, after events that are none. */
  lemma ThenEvent(cfg: Config, events: seq<Event>, more: seq<Event>, e: Event)
    requires InProgress(Run(cfg, events).phase) && forall i :: 0 <= i < |more| ==> Neutral(more[i], Run(cfg, events).gen)
    ensures var r, before := Run(cfg, events), Run(cfg, events + more);
            before.phase == r.phase && before.gen == r.gen && Run(cfg, events + more + [e]) == Step(cfg, before, e)
  {
    NeutralRun(cfg, events, more);
    RunSnoc(cfg, events + more, e);
  }

  /** From a connecting socket, these five events in this order, with anything neutral in between, make
      the route ready with the capabilities answered, resolve the promise and announce it. */
  lemma HandshakeMakesReady(cfg: Config, prior: seq<Event>, g: int, caps: Capabilities,
                            a: seq<Event>, b: seq<Event>, c: seq<Event>, d: seq<Event>)
    requires Run(cfg, prior).phase.Connecting? && g == Run(cfg, prior).gen
    requires forall i :: 0 <= i < |a| ==> Neutral(a[i], g)
    requires forall i :: 0 <= i < |b| ==> Neutral(b[i], g)
    requires forall i :: 0 <= i < |c| ==> Neutral(c[i], g)
    requires forall i :: 0 <= i < |d| ==> Neutral(d[i], g)
    ensures var acked := prior + [SocketOpen(g, true)] + a + [SocketMessage(g, HelloAck)];
            var answered := acked + b + [AuthSettled(g, true, true)] + c + [SocketMessage(g, Response(g, Some(caps)))];
            var before, r := Run(cfg, answered + d), Run(cfg, answered + d + [ControlSettled(g)]);
            && r.phase == Ready(caps) && r.gen == g && r.everReady && r.attempts == 0
            && r.outputs == before.outputs + [Resolved(g, caps), OnReady(g)]
  {
    hide Neutral, Run;
    RunSnoc(cfg, prior, SocketOpen(g, true));
    var begun := prior + [SocketOpen(g, true)];
    ThenEvent(cfg, begun, a, SocketMessage(g, HelloAck));
    var acked := begun + a + [SocketMessage(g, HelloAck)];
    Handshaking(cfg, begun + a);
    ThenEvent(cfg, acked, b, AuthSettled(g, true, true));
    var asked := acked + b + [AuthSettled(g, true, true)];
    Handshaking(cfg, acked + b);
    ThenEvent(cfg, asked, c, SocketMessage(g, Response(g, Some(caps))));
    var answered := asked + c + [SocketMessage(g, Response(g, Some(caps)))];
    Handshaking(cfg, asked + c);
    ThenEvent(cfg, answered, d, ControlSettled(g));
  }

  /** The socket of the current generation is there while its negotiation is in progress. */
  lemma Handshaking(cfg: Config, events: seq<Event>)
    ensures InProgress(Run(cfg, events).phase) ==> Run(cfg, events).hasSocket
  {
    RunKeepsInv(cfg, events);
  }

  /** Each cause of a failure has its effect, at once or with the continuation that follows. */
  lemma FailuresFollow(cfg: Config, events: seq<Event>, e: Event, signed: bool, sent: bool)
    ensures var r, g := Run(cfg, events), Run(cfg, events).gen;
            var next := Run(cfg, events + [e]);
            && (r.phase.Connecting? && e == SocketOpen(g, false) ==>
                  next.phase == Unavailable(PinMismatch) && next.outputs == r.outputs + [Rejected(g)])
            && (r.phase == Authenticating(AuthWaiting) && BreaksAuth(e, g) ==>
                  Run(cfg, events + [e] + [AuthSettled(g, signed, sent)]).phase == Unavailable(AuthenticationFailed))
            && (r.phase == Authenticating(AuthAcked) && e == AuthSettled(g, false, sent) ==>
                  next.phase == Unavailable(AuthenticationFailed) && next.outputs == r.outputs + [Rejected(g)])
            && (r.phase == Authenticating(AuthAcked) && e == AuthSettled(g, true, false) ==>
                  Run(cfg, events + [e] + [ControlSettled(g)]).phase == Unavailable(NegotiationFailed))
            && (r.phase == Negotiating(ControlWaiting) && BreaksControl(e, g) ==>
                  Run(cfg, events + [e] + [ControlSettled(g)]).phase == Unavailable(NegotiationFailed))
  {
    hide Run;
    Handshaking(cfg, events);
    RunSnoc(cfg, events, e);
    RunSnoc(cfg, events + [e], AuthSettled(Run(cfg, events).gen, signed, sent));
    RunSnoc(cfg, events + [e], ControlSettled(Run(cfg, events).gen));
  }

  // ---------------------------------------------------------------- losses, retries and their delays

  /** How often the run has entered reconnecting since it was last made ready. */
  function Retries(cfg: Config, events: seq<Event>): nat {
    if events == [] then 0
    else
      var before, now := Run(cfg, events[..|events| - 1]), Run(cfg, events);
      if now.phase.Ready? && !before.phase.Ready? then 0
      else Retries(cfg, events[..|events| - 1]) + if now.phase.Reconnecting? && !before.phase.Reconnecting? then 1 else 0
  }

  lemma StepCounts(cfg: Config, r: Route, e: Event)
    requires Budgeted(cfg, r)
    ensures var next := Step(cfg, r, e);
            next.attempts == if next.phase.Ready? && !r.phase.Ready? then 0
                             else r.attempts + if next.phase.Reconnecting? && !r.phase.Reconnecting? then 1 else 0
  {
  }

  /** The attempts count the retries since the route was last ready, and the timer is armed with the
      delay of the latest: the base, doubled with each retry, but never more than the maximum. */
  lemma {:induction false} DelaysGrowWithRetries(cfg: Config, events: seq<Event>)
    ensures var r := Run(cfg, events);
            && r.attempts == Retries(cfg, events)
            && (r.phase.Reconnecting? ==> r.attempts >= 1 && r.phase.delay == Backoff(cfg, Retries(cfg, events)))
  {
    hide Step, Accounted, Published, Backoff;
    RunKeepsInv(cfg, events);
    if events != [] {
      var prior := events[..|events| - 1];
      DelaysGrowWithRetries(cfg, prior);
      RunKeepsInv(cfg, prior);
      StepCounts(cfg, Run(cfg, prior), events[|events| - 1]);
    }
  }

  /** Whether another attempt may be made. */
  predicate HasBudget(cfg: Config, r: Route) {
    r.everReady || r.attempts < cfg.limit
  }

  /** The route waits for a reconnect, or has given up. */
  predicate RetriesFor(cfg: Config, r: Route, next: Route, why: Reason) {
    if HasBudget(cfg, r)
    then next.phase == Reconnecting(why, Backoff(cfg, r.attempts + 1)) && next.attempts == r.attempts + 1
    else next.phase == Unavailable(RetryExhausted) && next.attempts == r.attempts
  }

  /** What the end of the current socket does: before it opened, its promise is rejected and the same
      generation waits; after it had opened, the loss is published and the generation is over. */
  lemma EndsOfSocket(cfg: Config, events: seq<Event>, e: Event)
    requires e == SocketClose(Run(cfg, events).gen) || e == SocketError(Run(cfg, events).gen)
    ensures var r, next := Run(cfg, events), Run(cfg, events + [e]);
            && (r.phase.Connecting? ==>
                  RetriesFor(cfg, r, next, ConnectionFailed) && next.gen == r.gen && next.outputs == r.outputs + [Rejected(r.gen)])
            && (r.phase.Authenticating? || r.phase.Negotiating? || r.phase.Ready? ==>
                  if e.SocketError? then next == r
                  else RetriesFor(cfg, r, next, TransportClosed) && next.gen == r.gen + 1
                       && next.outputs == r.outputs + (if r.phase.Ready? then [] else [Rejected(r.gen)]) + [OnRouteLost(r.gen)])
  {
    RunSnoc(cfg, events, e);
  }

  // ---------------------------------------------------------------- starting, sharing, delivering

  /** `negotiate` and the timer open the next generation when they should, and otherwise do nothing;
      a promise that has settled is shared no longer. */
  lemma StartsExactly(cfg: Config, events: seq<Event>, e: Event)
    requires e.Negotiate? || e.ReconnectFires?
    ensures var r, next := Run(cfg, events), Run(cfg, events + [e]);
            var starts := if e.Negotiate? then !r.phase.Closed? && !r.phase.Ready? && r.shared == None else r.phase.Reconnecting?;
            if starts
            then next.gen == r.gen + 1 && next.phase == Connecting && next.shared == Some(r.gen + 1)
                 && next.hasSocket && next.attempts == r.attempts && next.outputs == r.outputs + [Connect(r.gen + 1)]
            else next == r
  {
    RunSnoc(cfg, events, e);
  }

  lemma SharedUntilSettled(cfg: Config, events: seq<Event>, g: int)
    ensures var r, next := Run(cfg, events), Run(cfg, events + [SharedSettled(g)]);
            && next.phase == r.phase && next.gen == r.gen && next.outputs == r.outputs
            && next.shared == if r.shared == Some(g) && !(g == r.gen && InProgress(r.phase)) then None else r.shared
  {
    RunSnoc(cfg, events, SharedSettled(g));
  }

  /** A message of the current socket is delivered to the owner unless a control exchange is pending,
      and no other message is. */
  lemma DeliveredExactly(cfg: Config, events: seq<Event>, g: int, msg: Message)
    ensures var r, next := Run(cfg, events), Run(cfg, events + [SocketMessage(g, msg)]);
            next.outputs == if g == r.gen && r.hasSocket && r.phase != Negotiating(ControlWaiting)
                            then r.outputs + [OnMessage(g)] else r.outputs
  {
    RunSnoc(cfg, events, SocketMessage(g, msg));
  }

  /** After `close`, with the promise in progress rejected. */
  lemma ClosesExactly(cfg: Config, events: seq<Event>)
    ensures var r, next := Run(cfg, events), Run(cfg, events + [Close]);
            && next.phase == Closed && !next.hasSocket
            && next.outputs == if InProgress(r.phase) then r.outputs + [Rejected(r.gen)] else r.outputs
  {
    RunSnoc(cfg, events, Close);
  }
}
