/**
 The fields of the signed-WSS route controller, the invariant they keep, and the protocol state
 they stand for.

 A socket and the promise of its establishment are named by the generation that created them.
 The locals of an establishment's closures (`connected`, `settled`, the two handshake promises)
 live in `establishments`, because the closures of an old generation keep running.
 The Refines lemmas say, path by path, that an update of the fields is the step RouteProtocol
 prescribes; module RouteController shows that its methods perform exactly these updates.
 */
module RouteFields {
  import opened Wrappers
  import P = RouteProtocol

  datatype State =
    | Disconnected | Connecting | Authenticating | Negotiating | Ready | Reconnecting | Unavailable | Closed

  datatype Establishment = Establishment(
    sawOpen: bool, connected: bool, established: bool, settled: bool,
    auth: P.AuthPromise, control: P.ControlPromise, controlTimer: bool)

  const FRESH := Establishment(false, false, false, false, P.AuthIdle, P.ControlIdle, false)

  type Establishments = map<int, Establishment>

  datatype Fields = Fields(
    state: State, generation: int, negotiatedGeneration: int,
    reasonCode: Option<P.Reason>, capabilities: Option<P.Capabilities>,
    socket: Option<int>, connectingSocket: Option<int>, establishing: Option<int>,
    activeEstablishment: Option<int>, pendingControl: Option<int>,
    reconnectAttempts: nat, reconnectTimer: Option<nat>, closed: bool, everReady: bool,
    establishments: Establishments, outputs: seq<P.Output>)

  // ---------------------------------------------------------------- invariant

  /** The promise of the current generation is still to be settled. */
  ghost predicate Unsettled(f: Fields) {
    f.generation in f.establishments && !f.establishments[f.generation].settled
  }

  predicate HoldsSocket(s: State) {
    s.Authenticating? || s.Negotiating? || s.Ready?
  }

  predicate Establishing(s: State) {
    s.Connecting? || s.Authenticating? || s.Negotiating?
  }

  ghost predicate OldGenerations(f: Fields) {
    && f.generation >= 0
    && (forall g :: g in f.establishments ==> 1 <= g <= f.generation)
    && (forall g :: g in f.establishments && g != f.generation ==> f.establishments[g].settled)
    && (forall g :: g in f.establishments && f.establishments[g].controlTimer ==> f.pendingControl == Some(g))
  }

  /** Which of the shared fields are set, state by state. */
  ghost predicate SharedFields(f: Fields) {
    && (f.closed <==> f.state.Closed?)
    && (f.capabilities.Some? <==> f.state.Ready?)
    && f.negotiatedGeneration == (if f.state.Ready? then f.generation else -1)
    && (f.reconnectTimer.Some? <==> f.state.Reconnecting?)
    && (f.pendingControl.Some? ==> f.state.Negotiating? && f.pendingControl == Some(f.generation))
    && f.socket == (if HoldsSocket(f.state) then Some(f.generation) else None)
    && (Establishing(f.state) <==> Unsettled(f))
    && (Unsettled(f) ==> f.activeEstablishment == Some(f.generation) && f.establishing == Some(f.generation))
    && (f.activeEstablishment.Some? ==> f.activeEstablishment.value in f.establishments)
    && (f.establishing.Some? ==> f.establishing.value in f.establishments)
    && (f.reasonCode.Some? <==> f.state.Reconnecting? || f.state.Unavailable? || f.state.Closed?)
    && (f.state.Closed? ==> f.reasonCode == Some(P.TransportClosed))
    && (f.state.Ready? ==> f.everReady)
  }

  /** Neither the current socket's close event nor its error event can count as a lost route. */
  ghost predicate NeverConnected(f: Fields) {
    f.generation in f.establishments ==>
      !f.establishments[f.generation].connected && !f.establishments[f.generation].established
  }

  /** What the establishment of the current generation looks like, state by state. */
  ghost predicate CurrentEstablishment(f: Fields) {
    match f.state
    case Disconnected => f.generation !in f.establishments
    case Connecting => f.generation in f.establishments && f.establishments[f.generation] == FRESH
    case Authenticating =>
      f.generation in f.establishments &&
      (var e := f.establishments[f.generation];
       e == FRESH.(sawOpen := true, connected := true, auth := e.auth)
       && (e.auth.AuthWaiting? || e.auth.AuthAcked? || e.auth.AuthFailed?))
    case Negotiating =>
      f.generation in f.establishments &&
      (var e := f.establishments[f.generation];
       e == FRESH.(sawOpen := true, connected := true, auth := P.AuthDone, control := e.control, controlTimer := e.controlTimer)
       && (e.control.ControlWaiting? || e.control.ControlResolved? || e.control.ControlRejected?)
       && (e.control.ControlWaiting? <==> e.controlTimer)
       && (e.control.ControlWaiting? <==> f.pendingControl.Some?))
    case Ready =>
      f.generation in f.establishments && f.establishments[f.generation].connected && f.establishments[f.generation].auth.AuthDone?
    case Reconnecting => NeverConnected(f)
    case Unavailable =>
      f.reasonCode.Some? &&
      (if f.reasonCode.value.AuthenticationFailed? || f.reasonCode.value.NegotiationFailed?
       then f.generation in f.establishments && f.establishments[f.generation].connected
       else NeverConnected(f))
    case Closed => f.generation !in f.establishments
  }

  ghost predicate WellFormed(f: Fields) {
    OldGenerations(f) && SharedFields(f) && CurrentEstablishment(f)
  }

  // ---------------------------------------------------------------- the protocol state the fields stand for

  ghost function PhaseOf(f: Fields): P.Phase
    requires WellFormed(f)
  {
    match f.state
    case Disconnected => P.Disconnected
    case Connecting => P.Connecting
    case Authenticating => P.Authenticating(f.establishments[f.generation].auth)
    case Negotiating => P.Negotiating(f.establishments[f.generation].control)
    case Ready => P.Ready(f.capabilities.value)
    case Reconnecting => P.Reconnecting(f.reasonCode.value, f.reconnectTimer.value)
    case Unavailable => P.Unavailable(f.reasonCode.value)
    case Closed => P.Closed
  }

  ghost function RouteOf(f: Fields): P.Route
    requires WellFormed(f)
  {
    P.Route(f.generation, f.generation in f.establishments, PhaseOf(f), f.reconnectAttempts, f.everReady,
            f.establishing, f.outputs)
  }

  // ---------------------------------------------------------------- updates

  function Settle(m: Establishments, g: int): Establishments
    requires g in m
  {
    m[g := m[g].(settled := true)]
  }

  /** Drop the timer of a control exchange. */
  function Untimed(m: Establishments, c: int): Establishments {
    if c in m then m[c := m[c].(controlTimer := false)] else m
  }

  function RejectControl(p: P.ControlPromise): P.ControlPromise {
    if p.ControlWaiting? then P.ControlRejected else p
  }

  /** Drop the timer and reject the promise of a control exchange. */
  function ControlCut(m: Establishments, c: Option<int>): Establishments
    requires c.Some? ==> c.value in m
  {
    if c.None? then m else m[c.value := m[c.value].(controlTimer := false, control := RejectControl(m[c.value].control))]
  }

  /** State, reason, attempts and timer after asking for a reconnect. */
  datatype Plan = Plan(state: State, reasonCode: Option<P.Reason>, attempts: nat, timer: Option<nat>)

  function Planned(cfg: P.Config, everReady: bool, attempts: nat, why: P.Reason): Plan {
    if !everReady && attempts >= cfg.limit
    then Plan(Unavailable, Some(P.RetryExhausted), attempts, None)
    else Plan(Reconnecting, Some(why), attempts + 1, Some(P.Backoff(cfg, attempts + 1)))
  }

  // ---------------------------------------------------------------- facts

  /** What the methods need to know about a negotiation in progress. */
  lemma InProgressFacts(f: Fields, g: int)
    requires WellFormed(f) && g in f.establishments && !f.establishments[g].settled
    ensures g == f.generation && !f.closed && Establishing(f.state)
    ensures f.reconnectTimer.None? && f.capabilities.None? && f.negotiatedGeneration == -1 && f.establishing == Some(g)
    ensures f.pendingControl.Some? ==> f.pendingControl.value == g && f.state.Negotiating?
    ensures f.establishments[g].connected <==> !f.state.Connecting?
    ensures f.socket == (if f.establishments[g].connected then Some(g) else None)
    ensures f.activeEstablishment == Some(g)
    ensures !f.establishments[g].established
  {
  }

  /** What leaving the current generation needs to know. */
  lemma LossFacts(f: Fields)
    requires WellFormed(f)
    ensures f.pendingControl.Some? ==> f.pendingControl.value in f.establishments
    ensures f.activeEstablishment.Some? ==> f.activeEstablishment.value in f.establishments
    ensures Unsettled(f) ==> f.activeEstablishment == Some(f.generation) && f.reconnectTimer.None?
    ensures f.generation in f.establishments && f.establishments[f.generation].connected ==> f.reconnectTimer.None?
    ensures f.generation in f.establishments && f.establishments[f.generation].established ==> f.reconnectTimer.None?
  {
  }

  /** A promise that is not current has nothing left to do: its continuations change nothing visible. */
  lemma SettledIsIgnored(f: Fields, g: int)
    requires WellFormed(f) && g in f.establishments && f.establishments[g].settled
    ensures var r := RouteOf(f);
            && (forall b :: P.OnSocketOpen(r, g, b) == r)
            && P.OnAuthTimeout(r, g) == P.OnControlTimeout(r, g) == P.OnControlSettled(r, g) == r
            && (forall b, c :: P.OnAuthSettled(r, g, b, c) == r)
  {
  }

  /** The handshake promises of a settled establishment are inert. */
  lemma SettledIsInert(f: Fields, f': Fields, g: int)
    requires WellFormed(f) && g in f.establishments && f.establishments[g].settled && g in f'.establishments
    requires f' == f.(establishments := f.establishments[g :=
                        f.establishments[g].(sawOpen := f'.establishments[g].sawOpen, auth := f'.establishments[g].auth,
                                             control := f'.establishments[g].control)])
    requires f.establishments[g].auth.AuthDone? ==> f'.establishments[g].auth.AuthDone?
    ensures WellFormed(f') && RouteOf(f') == RouteOf(f)
  {
  }

  // ---------------------------------------------------------------- refinement, path by path

  lemma StartRefines(f: Fields, f': Fields)
    requires WellFormed(f) && !Establishing(f.state) && !f.state.Ready? && !f.closed
    requires f' == f.(state := Connecting, generation := f.generation + 1, reasonCode := None,
                      connectingSocket := f'.connectingSocket, establishing := Some(f.generation + 1),
                      activeEstablishment := Some(f.generation + 1), reconnectTimer := None,
                      establishments := f.establishments[f.generation + 1 := FRESH],
                      outputs := f.outputs + [P.Connect(f.generation + 1)])
    ensures WellFormed(f') && RouteOf(f') == P.Start(RouteOf(f))
  {
  }

  lemma NegotiateCases(f: Fields)
    requires WellFormed(f)
    ensures var r := RouteOf(f);
            && (f.closed || f.state.Ready? || f.establishing.Some? ==> P.OnNegotiate(r) == r)
            && (!f.closed && !f.state.Ready? && f.establishing.None? ==>
                  !Establishing(f.state) && P.OnNegotiate(r) == P.Start(r))
            && (f.closed ==> r.phase.Closed?)
            && (f.state.Ready? <==> r.phase.Ready?)
            && (f.state.Ready? ==> f.capabilities == Some(r.phase.caps) && f.negotiatedGeneration == f.generation)
            && (r.phase.Closed? ==> f.closed)
            && (f.reconnectTimer.Some? <==> r.phase.Reconnecting?)
            && (f.reconnectTimer.Some? ==> !f.closed && !Establishing(f.state) && !f.state.Ready?)
            && r.shared == f.establishing && r.gen == f.generation
  {
  }

  lemma CloseRefines(f: Fields, f': Fields)
    requires WellFormed(f)
    requires f' == f.(state := Closed, generation := f.generation + 1, negotiatedGeneration := -1,
                      reasonCode := Some(P.TransportClosed), capabilities := None, socket := None,
                      connectingSocket := None, activeEstablishment := f'.activeEstablishment,
                      pendingControl := None, reconnectTimer := None, closed := true,
                      establishments := f'.establishments, outputs := f'.outputs)
    requires f'.activeEstablishment.Some? ==> f'.activeEstablishment.value in f'.establishments
    requires var cut := ControlCut(f.establishments, f.pendingControl);
             if Unsettled(f)
             then f'.establishments == Settle(cut, f.generation) && f'.outputs == f.outputs + [P.Rejected(f.generation)]
             else f'.establishments == cut && f'.outputs == f.outputs
    ensures WellFormed(f') && RouteOf(f') == P.OnClose(RouteOf(f))
  {
  }

  lemma OpenRefines(f: Fields, f': Fields, g: int)
    requires WellFormed(f) && g in f.establishments && !f.establishments[g].settled && !f.establishments[g].sawOpen
    requires f' == f.(state := Authenticating, socket := Some(g), connectingSocket := f'.connectingSocket,
                      establishments := f.establishments[g :=
                        f.establishments[g].(sawOpen := true, connected := true, auth := P.AuthWaiting)])
    ensures WellFormed(f') && RouteOf(f') == P.OnSocketOpen(RouteOf(f), g, true)
  {
  }

  /** A terminal failure of the negotiation in progress. */
  lemma TerminalRefines(f: Fields, f': Fields, g: int, reason: P.Reason)
    requires WellFormed(f) && g in f.establishments && !f.establishments[g].settled && f.pendingControl.None?
    requires g in f'.establishments
    requires f' == f.(state := Unavailable, reasonCode := Some(reason), socket := None,
                      connectingSocket := f'.connectingSocket, activeEstablishment := None,
                      establishments := f'.establishments, outputs := f.outputs + [P.Rejected(g)])
    requires f'.establishments == f.establishments[g := f'.establishments[g]]
    requires var e, e' := f.establishments[g], f'.establishments[g];
             && e'.settled && e'.connected == e.connected && !e'.established && !e'.controlTimer
             && (e.connected <==> reason.AuthenticationFailed? || reason.NegotiationFailed?)
    ensures WellFormed(f')
    ensures RouteOf(f') == P.Emit(RouteOf(f), [P.Rejected(g)]).(phase := P.Unavailable(reason))
  {
  }

  lemma TerminalCases(f: Fields, g: int)
    requires WellFormed(f) && g in f.establishments && !f.establishments[g].settled
    ensures var r := RouteOf(f);
            var rejected := P.Emit(r, [P.Rejected(g)]);
            && (f.state.Connecting? ==> f.pendingControl.None? && !f.establishments[g].controlTimer && P.OnSocketOpen(r, g, false) == rejected.(phase := P.Unavailable(P.PinMismatch)))
            && (f.establishments[g].auth.AuthFailed? ==>
                  f.pendingControl.None? && f.establishments[g].connected && !f.establishments[g].controlTimer
                  && forall b, c :: P.OnAuthSettled(r, g, b, c) == rejected.(phase := P.Unavailable(P.AuthenticationFailed)))
            && (f.establishments[g].auth.AuthAcked? ==>
                  f.pendingControl.None? && f.establishments[g].connected && !f.establishments[g].controlTimer
                  && forall c :: P.OnAuthSettled(r, g, false, c) == rejected.(phase := P.Unavailable(P.AuthenticationFailed)))
            && (f.establishments[g].control.ControlRejected? ==>
                  f.pendingControl.None? && f.establishments[g].connected && !f.establishments[g].controlTimer
                  && P.OnControlSettled(r, g) == rejected.(phase := P.Unavailable(P.NegotiationFailed)))
            && (!f.establishments[g].sawOpen ==> f.state.Connecting?)
  {
  }

  lemma ControlStartRefines(f: Fields, f': Fields, g: int, sent: bool)
    requires WellFormed(f) && g in f.establishments && !f.establishments[g].settled && f.establishments[g].auth.AuthAcked?
    requires f' == f.(state := Negotiating, pendingControl := if sent then Some(g) else None,
                      establishments := f.establishments[g :=
                        f.establishments[g].(auth := P.AuthDone, controlTimer := sent,
                                             control := if sent then P.ControlWaiting else P.ControlRejected)])
    ensures WellFormed(f') && RouteOf(f') == P.OnAuthSettled(RouteOf(f), g, true, sent)
  {
  }

  lemma ReadyRefines(f: Fields, f': Fields, g: int, caps: P.Capabilities)
    requires WellFormed(f) && g in f.establishments && !f.establishments[g].settled
    requires f.establishments[g].control == P.ControlResolved(caps)
    requires f' == f.(state := Ready, negotiatedGeneration := g, reasonCode := None, capabilities := Some(caps),
                      activeEstablishment := None, reconnectAttempts := 0, everReady := true,
                      establishments := f.establishments[g :=
                        f.establishments[g].(settled := true, established := true, control := P.ControlDone)],
                      outputs := f.outputs + [P.Resolved(g, caps), P.OnReady(g)])
    ensures WellFormed(f') && RouteOf(f') == P.OnControlSettled(RouteOf(f), g)
  {
  }

  lemma AuthMovesRefine(f: Fields, f': Fields, g: int, auth: P.AuthPromise)
    requires WellFormed(f) && g in f.establishments && !f.establishments[g].settled && f.establishments[g].auth.AuthWaiting?
    requires auth.AuthAcked? || auth.AuthFailed?
    requires f' == f.(establishments := f.establishments[g := f.establishments[g].(auth := auth)])
    ensures WellFormed(f') && RouteOf(f') == RouteOf(f).(phase := P.Authenticating(auth))
    ensures RouteOf(f).phase == P.Authenticating(P.AuthWaiting) && RouteOf(f).hasSocket && RouteOf(f).gen == g
  {
  }

  lemma ControlMovesRefine(f: Fields, f': Fields, g: int, control: P.ControlPromise)
    requires WellFormed(f) && f.pendingControl == Some(g) && g in f.establishments
    requires control.ControlResolved? || control.ControlRejected?
    requires f' == f.(pendingControl := None,
                      establishments := f.establishments[g :=
                        f.establishments[g].(control := control, controlTimer := false)])
    ensures WellFormed(f') && RouteOf(f') == RouteOf(f).(phase := P.Negotiating(control))
    ensures RouteOf(f).phase == P.Negotiating(P.ControlWaiting) && RouteOf(f).hasSocket && RouteOf(f).gen == g
    ensures f.establishments[g].control.ControlWaiting?
  {
  }

  lemma MessageCases(f: Fields, g: int, msg: P.Message)
    requires WellFormed(f) && g in f.establishments
    ensures var r := RouteOf(f);
            && (f.pendingControl.Some? ==> f.pendingControl.value in f.establishments && !f.establishments[f.pendingControl.value].settled && !f.closed)
            && (g != f.generation || f.closed ==> P.OnSocketMessage(r, g, msg) == r)
            && (f.pendingControl.Some? && !(msg.Response? && Some(msg.id) == f.pendingControl) ==>
                  P.OnSocketMessage(r, g, msg) == r)
            && (g == f.generation && f.pendingControl.None? ==>
                  r.hasSocket && r.gen == g && r.phase != P.Negotiating(P.ControlWaiting) && !f.closed)
            && (f.establishments[g].auth.AuthWaiting? && g == f.generation && !f.closed && f.socket == Some(g) ==>
                  f.pendingControl.None? && !f.establishments[g].settled)
            && (r.phase == P.Authenticating(P.AuthWaiting) && g == f.generation ==>
                  f.establishments[g].auth.AuthWaiting? && f.socket == Some(g) && !f.establishments[g].settled)
  {
  }

  /** One more output changes nothing else. */
  lemma EmitRefines(f: Fields, f': Fields, o: P.Output)
    requires WellFormed(f) && f' == f.(outputs := f.outputs + [o])
    ensures WellFormed(f') && RouteOf(f') == P.Emit(RouteOf(f), [o])
  {
  }

  /** Closed or failed before the socket opened. */
  lemma EarlyEndRefines(cfg: P.Config, f: Fields, f': Fields, g: int)
    requires WellFormed(f) && g in f.establishments && !f.establishments[g].settled && f.state.Connecting?
    requires var plan := Planned(cfg, f.everReady, f.reconnectAttempts, P.ConnectionFailed);
             f' == f.(state := plan.state, reasonCode := plan.reasonCode, reconnectAttempts := plan.attempts,
                      reconnectTimer := plan.timer, connectingSocket := f'.connectingSocket,
                      activeEstablishment := f'.activeEstablishment,
                      establishments := Settle(f.establishments, g), outputs := f.outputs + [P.Rejected(g)])
    requires f'.activeEstablishment.Some? ==> f'.activeEstablishment.value in f'.establishments
    ensures WellFormed(f')
    ensures RouteOf(f') == P.OnSocketClose(cfg, RouteOf(f), g) == P.OnSocketError(cfg, RouteOf(f), g)
  {
  }

  lemma LossRefines(cfg: P.Config, f: Fields, f': Fields, g: int)
    requires WellFormed(f) && g == f.generation && !f.closed
    requires g in f.establishments && (f.establishments[g].connected || f.establishments[g].established)
    requires f.pendingControl.Some? ==> f.pendingControl.value in f.establishments
    requires var plan := Planned(cfg, f.everReady, f.reconnectAttempts, P.TransportClosed);
             f' == f.(state := plan.state, reasonCode := plan.reasonCode, reconnectAttempts := plan.attempts,
                      reconnectTimer := plan.timer, generation := g + 1, negotiatedGeneration := -1,
                      capabilities := None, socket := None, connectingSocket := f'.connectingSocket,
                      activeEstablishment := f'.activeEstablishment, pendingControl := None,
                      establishments := f'.establishments, outputs := f'.outputs)
    requires f'.activeEstablishment.Some? ==> f'.activeEstablishment.value in f'.establishments
    requires var cut := ControlCut(f.establishments, f.pendingControl);
             if Unsettled(f)
             then f'.establishments == Settle(cut, g) && f'.outputs == f.outputs + [P.Rejected(g)] + [P.OnRouteLost(g)]
             else f'.establishments == cut && f'.outputs == f.outputs + [P.OnRouteLost(g)]
    ensures WellFormed(f') && RouteOf(f') == P.OnSocketClose(cfg, RouteOf(f), g)
    ensures f'.establishments[g].settled
  {
  }

  lemma EndCases(cfg: P.Config, f: Fields, g: int)
    requires WellFormed(f) && g in f.establishments
    ensures var r := RouteOf(f);
            && (f.closed || g != f.generation ==> f.establishments[g].settled && P.OnSocketClose(cfg, r, g) == r)
            && (f.closed || g != f.generation || f.establishments[g].connected || f.establishments[g].settled ==>
                  P.OnSocketError(cfg, r, g) == r)
            && (!f.establishments[g].connected && !f.establishments[g].established && f.establishments[g].settled ==>
                  P.OnSocketClose(cfg, r, g) == r)
            && (!f.establishments[g].settled && !f.establishments[g].connected ==> f.state.Connecting?)
  {
  }

  lemma SharedSettledRefines(f: Fields, f': Fields, g: int)
    requires WellFormed(f) && g in f.establishments && f.establishments[g].settled
    requires f' == f.(establishing := if f.establishing == Some(g) then None else f.establishing)
    ensures WellFormed(f') && RouteOf(f') == P.OnSharedSettled(RouteOf(f), g)
  {
  }

  /** `ready` means negotiated in the current generation, over a socket that generation created. */
  lemma ReadyMeansNegotiated(f: Fields)
    requires WellFormed(f)
    ensures f.state.Ready? <==> RouteOf(f).phase.Ready?
    ensures f.state.Ready? ==>
              && f.negotiatedGeneration == f.generation && f.socket == Some(f.generation)
              && f.capabilities == Some(RouteOf(f).phase.caps)
              && f.generation in f.establishments && f.establishments[f.generation].settled
              && f.everReady && f.reconnectTimer.None? && f.pendingControl.None? && !f.closed
    ensures f.state.Reconnecting? <==> f.reconnectTimer.Some?
    ensures Establishing(f.state) <==> Unsettled(f)
  {
  }

  /** The state and the reason that the owner sees are those of the protocol. */
  lemma StatesMatch(f: Fields)
    requires WellFormed(f)
    ensures var p := RouteOf(f).phase;
            && (f.state == Disconnected <==> p.Disconnected?) && (f.state == Connecting <==> p.Connecting?)
            && (f.state == Authenticating <==> p.Authenticating?) && (f.state == Negotiating <==> p.Negotiating?)
            && (f.state == Ready <==> p.Ready?) && (f.state == Reconnecting <==> p.Reconnecting?)
            && (f.state == Unavailable <==> p.Unavailable?) && (f.state == Closed <==> p.Closed?)
            && (p.Reconnecting? ==> f.reasonCode == Some(p.why) && f.reconnectTimer == Some(p.delay))
            && (p.Unavailable? ==> f.reasonCode == Some(p.reason))
            && (p.Closed? ==> f.reasonCode == Some(P.TransportClosed))
            && (!p.Reconnecting? && !p.Unavailable? && !p.Closed? ==> f.reasonCode.None?)
    ensures var r := RouteOf(f);
            r.gen == f.generation && r.attempts == f.reconnectAttempts && r.everReady == f.everReady && r.outputs == f.outputs
  {
  }

  // ---------------------------------------------------------------- which events can happen

  /** What the runtime guarantees about an event: it belongs to a socket that was created, an open
      is emitted once, a timer is armed, a continuation's promise has settled. */
  predicate Enabled(f: Fields, e: P.Event) {
    match e
    case SocketOpen(g, _) => g in f.establishments && !f.establishments[g].sawOpen
    case SocketMessage(g, _) => g in f.establishments
    case SocketClose(g) => g in f.establishments
    case SocketError(g) => g in f.establishments
    case AuthTimeout(g) => g in f.establishments && f.establishments[g].auth.AuthWaiting?
    case AuthSettled(g, _, _) => g in f.establishments && (f.establishments[g].auth.AuthAcked? || f.establishments[g].auth.AuthFailed?)
    case ControlTimeout(g) => g in f.establishments && f.establishments[g].controlTimer
    case ControlSettled(g) => g in f.establishments && (f.establishments[g].control.ControlResolved? || f.establishments[g].control.ControlRejected?)
    case ReconnectFires => f.reconnectTimer.Some?
    case SharedSettled(g) => g in f.establishments && f.establishments[g].settled
    case _ => true
  }

  /** The protocol ignores every event that cannot happen. */
  lemma DisabledIsIgnored(cfg: P.Config, f: Fields, e: P.Event)
    requires WellFormed(f) && !Enabled(f, e)
    ensures P.Step(cfg, RouteOf(f), e) == RouteOf(f)
  {
  }

  /** A negotiation in progress always has a due event that can happen: the socket's own events while
      connecting, then an armed timer or a promise continuation waiting to run. It settles the
      establishment or brings it strictly nearer to that. */
  lemma ProgressIsEnabled(cfg: P.Config, f: Fields)
    requires WellFormed(f) && Establishing(f.state)
    ensures exists e :: Enabled(f, e) && P.IsDue(RouteOf(f), e) && BringsOn(cfg, RouteOf(f), e)
  {
    var g := f.generation;
    var e :=
      if f.state.Connecting? then P.SocketClose(g)
      else if f.state.Authenticating? then
        if f.establishments[g].auth.AuthWaiting? then P.AuthTimeout(g) else P.AuthSettled(g, true, true)
      else if f.establishments[g].controlTimer then P.ControlTimeout(g)
      else P.ControlSettled(g);
    assert Enabled(f, e) && P.IsDue(RouteOf(f), e);
    hide WellFormed, RouteOf, Enabled;
    DueBringsOn(cfg, RouteOf(f), e);
  }

  /** The establishment is abandoned or settled, or still the current one and strictly further on. */
  ghost predicate BringsOn(cfg: P.Config, r: P.Route, e: P.Event) {
    var next := P.Step(cfg, r, e);
    next.gen == r.gen && P.InProgress(next.phase) ==> P.Distance(next.phase) < P.Distance(r.phase)
  }

  lemma DueBringsOn(cfg: P.Config, r: P.Route, e: P.Event)
    requires P.IsDue(r, e)
    ensures BringsOn(cfg, r, e)
  {
  }
}
