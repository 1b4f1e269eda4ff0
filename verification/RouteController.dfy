/**
 The signed-WSS route controller as a class with the fields it really has.

 Sockets, timers and promise continuations are the environment: they may call the On... methods
 for any generation, at any time and in any order, subject only to what the runtime guarantees
 (a socket opens once, a continuation runs only after its promise settled, a cleared timer does
 not fire). Every method keeps the invariant and takes exactly the step RouteProtocol prescribes.
 */
module RouteController {
  import opened Wrappers
  import opened RouteFields
  import P = RouteProtocol

  datatype NegotiateResult = TransportIsClosed | AlreadyReady(caps: P.Capabilities) | Promised(gen: int)

  class RouteController {
    const cfg: P.Config
    var state: State
    var generation: int
    var negotiatedGeneration: int
    var reasonCode: Option<P.Reason>
    var capabilities: Option<P.Capabilities>
    var socket: Option<int>
    var connectingSocket: Option<int>
    var establishing: Option<int>
    var activeEstablishment: Option<int>
    var pendingControl: Option<int>
    var reconnectAttempts: nat
    var reconnectTimer: Option<nat>
    var closed: bool
    var everReady: bool
    var establishments: Establishments
    var outputs: seq<P.Output>

    function Now(): Fields
      reads this
    {
      Fields(state, generation, negotiatedGeneration, reasonCode, capabilities, socket, connectingSocket,
             establishing, activeEstablishment, pendingControl, reconnectAttempts, reconnectTimer, closed,
             everReady, establishments, outputs)
    }

    ghost predicate Valid()
      reads this
    {
      WellFormed(Now())
    }

    /** The protocol state this controller is in. */
    ghost function Abstract(): P.Route
      requires Valid()
      reads this
    {
      RouteOf(Now())
    }

    constructor (cfg: P.Config)
      ensures Valid() && Abstract() == P.INITIAL && this.cfg == cfg
    {
      this.cfg := cfg;
      state, generation, negotiatedGeneration := Disconnected, 0, -1;
      reasonCode, capabilities, socket, connectingSocket := None, None, None, None;
      establishing, activeEstablishment, pendingControl := None, None, None;
      reconnectAttempts, reconnectTimer, closed, everReady := 0, None, false, false;
      establishments, outputs := map[], [];
    }

    // -------------------------------------------------------------- private helpers

    method DetachSocket(g: int)
      modifies `socket, `connectingSocket, `pendingControl, `establishments
      ensures socket == if old(socket) == Some(g) then None else old(socket)
      ensures connectingSocket == if old(connectingSocket) == Some(g) then None else old(connectingSocket)
      ensures old(pendingControl).Some? && g == generation ==>
                pendingControl == None && establishments == Untimed(old(establishments), old(pendingControl).value)
      ensures old(pendingControl).None? || g != generation ==>
                pendingControl == old(pendingControl) && establishments == old(establishments)
    {
      if socket == Some(g) { socket := None; }
      if connectingSocket == Some(g) { connectingSocket := None; }
      if pendingControl.Some? && g == generation {
        establishments := Untimed(establishments, pendingControl.value);
        pendingControl := None;
      }
    }

    method ScheduleReconnect()
      modifies `state, `reasonCode, `reconnectAttempts, `reconnectTimer
      ensures closed || old(reconnectTimer).Some? ==>
                state == old(state) && reasonCode == old(reasonCode)
                && reconnectAttempts == old(reconnectAttempts) && reconnectTimer == old(reconnectTimer)
      ensures !closed && old(reconnectTimer).None? && old(state).Reconnecting? && old(reasonCode).Some? ==>
                Plan(state, reasonCode, reconnectAttempts, reconnectTimer)
                == Planned(cfg, everReady, old(reconnectAttempts), old(reasonCode).value)
      ensures !closed && old(reconnectTimer).None? && (everReady || old(reconnectAttempts) < cfg.limit) ==>
                && state == old(state) && reasonCode == old(reasonCode) && reconnectAttempts == old(reconnectAttempts) + 1
                && reconnectTimer == Some(P.Backoff(cfg, reconnectAttempts))
      ensures !closed && old(reconnectTimer).None? && !(everReady || old(reconnectAttempts) < cfg.limit) ==>
                && state == Unavailable && reasonCode == Some(P.RetryExhausted)
                && reconnectAttempts == old(reconnectAttempts) && reconnectTimer.None?
    {
      if closed || reconnectTimer.Some? { return; }
      if !everReady && reconnectAttempts >= cfg.limit {
        state := Unavailable;
        reasonCode := Some(P.RetryExhausted);
        return;
      }
      reconnectAttempts := reconnectAttempts + 1;
      reconnectTimer := Some(P.Backoff(cfg, reconnectAttempts));
    }

    /** The `fail` closure of establishment g. */
    method Fail(g: int, reason: P.Reason, transient: bool)
      requires g in establishments
      requires !establishments[g].settled && g == generation ==>
                 pendingControl.None? && reconnectTimer.None? && capabilities.None? && negotiatedGeneration == -1
      modifies `establishments, `activeEstablishment, `socket, `connectingSocket, `pendingControl, `outputs,
               `state, `reasonCode, `reconnectAttempts, `reconnectTimer, `capabilities, `negotiatedGeneration
      ensures old(establishments[g].settled) ==> unchanged(this)
      ensures !old(establishments[g].settled) ==>
                && establishments == Settle(old(establishments), g)
                && activeEstablishment == (if old(activeEstablishment) == Some(g) then None else old(activeEstablishment))
                && socket == (if old(socket) == Some(g) then None else old(socket))
                && outputs == old(outputs) + [P.Rejected(g)]
      ensures pendingControl == old(pendingControl)
      ensures capabilities == old(capabilities) && negotiatedGeneration == old(negotiatedGeneration)
      ensures !old(establishments[g].settled) && (closed || g != generation) ==>
                state == old(state) && reasonCode == old(reasonCode)
                && reconnectAttempts == old(reconnectAttempts) && reconnectTimer == old(reconnectTimer)
      ensures !old(establishments[g].settled) && !(closed || g != generation) ==>
                Plan(state, reasonCode, reconnectAttempts, reconnectTimer)
                == if transient then Planned(cfg, everReady, old(reconnectAttempts), reason)
                   else Plan(Unavailable, Some(reason), old(reconnectAttempts), None)
    {
      if establishments[g].settled { return; }
      SettleRejected(g);
      DetachSocket(g);
      if closed || g != generation { return; }
      if transient {
        state := Reconnecting;
        reasonCode := Some(reason);
        ScheduleReconnect();
      } else {
        BecomeUnavailable(reason);
      }
    }

    method SettleRejected(g: int)
      requires g in establishments
      modifies `establishments, `activeEstablishment, `outputs
      ensures establishments == Settle(old(establishments), g)
      ensures activeEstablishment == if old(activeEstablishment) == Some(g) then None else old(activeEstablishment)
      ensures outputs == old(outputs) + [P.Rejected(g)]
    {
      establishments := Settle(establishments, g);
      if activeEstablishment == Some(g) { activeEstablishment := None; }
      outputs := outputs + [P.Rejected(g)];
    }

    method BecomeUnavailable(reason: P.Reason)
      modifies `state, `reasonCode, `capabilities, `negotiatedGeneration
      ensures state == Unavailable && reasonCode == Some(reason) && capabilities == None && negotiatedGeneration == -1
    {
      state := Unavailable;
      reasonCode := Some(reason);
      capabilities := None;
      negotiatedGeneration := -1;
    }

    /** Fail the active establishment of a generation that has just been left. */
    method FailActive(g: int)
      requires g != generation
      requires activeEstablishment == Some(g) ==> g in establishments
      modifies `establishments, `activeEstablishment, `socket, `connectingSocket, `pendingControl, `outputs,
               `state, `reasonCode, `reconnectAttempts, `reconnectTimer, `capabilities, `negotiatedGeneration
      ensures old(activeEstablishment) == Some(g) && !old(establishments)[g].settled ==>
                establishments == Settle(old(establishments), g) && outputs == old(outputs) + [P.Rejected(g)]
      ensures old(activeEstablishment) != Some(g) || old(establishments)[g].settled ==>
                establishments == old(establishments) && outputs == old(outputs)
      ensures activeEstablishment == if old(activeEstablishment) == Some(g) then None else old(activeEstablishment)
      ensures pendingControl == old(pendingControl) && state == old(state) && reasonCode == old(reasonCode)
      ensures reconnectAttempts == old(reconnectAttempts) && reconnectTimer == old(reconnectTimer)
      ensures capabilities == old(capabilities) && negotiatedGeneration == old(negotiatedGeneration)
    {
      if activeEstablishment == Some(g) {
        activeEstablishment := None;
        Fail(g, P.TransportClosed, true);
      }
    }

    /** Drop what the current generation negotiated, move past it and settle its establishment. */
    method LeaveGeneration()
      requires pendingControl.Some? ==> pendingControl.value in establishments
      requires activeEstablishment == Some(generation) ==> generation in establishments
      modifies `establishments, `activeEstablishment, `socket, `connectingSocket, `pendingControl, `outputs, `generation,
               `state, `reasonCode, `reconnectAttempts, `reconnectTimer, `capabilities, `negotiatedGeneration
      ensures generation == old(generation) + 1
      ensures capabilities == None && negotiatedGeneration == -1 && pendingControl == None
      ensures activeEstablishment == if old(activeEstablishment) == Some(old(generation)) then None else old(activeEstablishment)
      ensures var cut := ControlCut(old(establishments), old(pendingControl));
              if old(activeEstablishment) == Some(old(generation)) && !cut[old(generation)].settled
              then establishments == Settle(cut, old(generation)) && outputs == old(outputs) + [P.Rejected(old(generation))]
              else establishments == cut && outputs == old(outputs)
      ensures state == old(state) && reasonCode == old(reasonCode)
      ensures reconnectAttempts == old(reconnectAttempts) && reconnectTimer == old(reconnectTimer)
    {
      var g := generation;
      capabilities := None;
      negotiatedGeneration := -1;
      establishments := ControlCut(establishments, pendingControl);
      pendingControl := None;
      generation := generation + 1;
      FailActive(g);
    }

    /** Open the next generation; the promise it returns is the one later `negotiate` calls share. */
    method Establish() returns (gen: int)
      modifies `generation, `state, `reasonCode, `connectingSocket, `activeEstablishment, `establishments, `establishing, `outputs
      ensures gen == generation == old(generation) + 1
      ensures state == Connecting && reasonCode == None && activeEstablishment == establishing == Some(gen)
      ensures establishments == old(establishments)[gen := FRESH]
      ensures outputs == old(outputs) + [P.Connect(gen)]
    {
      generation := generation + 1;
      gen := generation;
      state := Connecting;
      reasonCode := None;
      outputs := outputs + [P.Connect(gen)];
      establishments := establishments[gen := FRESH];
      connectingSocket := Some(gen);
      activeEstablishment := Some(gen);
      establishing := Some(gen);
    }

    method LoseRoute(g: int)
      requires Valid() && g in establishments && !closed && g == generation
      requires establishments[g].connected || establishments[g].established
      modifies this
      ensures Valid()
      ensures Abstract() == P.OnSocketClose(cfg, old(Abstract()), g)
      ensures g in establishments && establishments[g].settled
    {
      ghost var f := Now();
      LossFacts(f);
      hide WellFormed, RouteOf, P.OnSocketClose;
      if closed || g != generation { return; }
      LeaveGeneration();
      PublishLoss(g);
      LossRefines(cfg, f, Now(), g);
    }

    method PublishLoss(g: int)
      requires !closed && reconnectTimer.None?
      modifies `state, `reasonCode, `socket, `outputs, `reconnectAttempts, `reconnectTimer
      ensures Plan(state, reasonCode, reconnectAttempts, reconnectTimer)
              == Planned(cfg, everReady, old(reconnectAttempts), P.TransportClosed)
      ensures socket == None && outputs == old(outputs) + [P.OnRouteLost(g)]
    {
      state := Reconnecting;
      reasonCode := Some(P.TransportClosed);
      socket := None;
      outputs := outputs + [P.OnRouteLost(g)];
      ScheduleReconnect();
    }

    // -------------------------------------------------------------- the owner's operations

    method IsReady(socketOpen: bool) returns (r: bool)
      requires Valid()
      ensures r <==> Abstract().phase.Ready? && socketOpen
      ensures r ==> socket == Some(generation) && negotiatedGeneration == generation && capabilities.Some?
                    && generation in establishments && everReady && reconnectTimer.None? && !closed
    {
      ReadyMeansNegotiated(Now());
      r := state == Ready && generation == negotiatedGeneration && capabilities.Some? && socket.Some? && socketOpen;
    }

    method Negotiate() returns (r: NegotiateResult)
      requires Valid()
      modifies this
      ensures Valid()
      ensures Abstract() == P.OnNegotiate(old(Abstract()))
      ensures r == (match old(Abstract()).phase
                    case Closed => TransportIsClosed
                    case Ready(caps) => AlreadyReady(caps)
                    case _ => Promised(if old(Abstract()).shared.Some? then old(Abstract()).shared.value else generation))
    {
      ghost var f := Now();
      NegotiateCases(f);
      hide WellFormed, RouteOf, P.OnNegotiate;
      if closed { return TransportIsClosed; }
      if state == Ready && capabilities.Some? && generation == negotiatedGeneration {
        return AlreadyReady(capabilities.value);
      }
      if establishing.Some? { return Promised(establishing.value); }
      var attempt := EstablishNow();
      return Promised(attempt);
    }

    method EstablishNow() returns (gen: int)
      requires Valid() && !Establishing(state) && !state.Ready? && !closed
      modifies this
      ensures Valid()
      ensures Abstract() == P.Start(old(Abstract())) && gen == generation
    {
      hide WellFormed, RouteOf;
      ghost var f := Now();
      StandBy();
      gen := Establish();
      StartRefines(f, Now());
    }

    /** Drop the pending retry and any terminal reason. */
    method StandBy()
      modifies `reconnectTimer, `reasonCode, `state
      ensures reconnectTimer == None
      ensures state == if old(state).Unavailable? then Disconnected else old(state)
    {
      reconnectTimer := None;
      if state == Unavailable {
        reasonCode := None;
        state := Disconnected;
      }
    }

    method Close()
      requires Valid()
      modifies this
      ensures Valid()
      ensures Abstract() == P.OnClose(old(Abstract()))
    {
      ghost var f := Now();
      LossFacts(f);
      hide WellFormed, RouteOf, P.OnClose;
      MarkClosed();
      LeaveGeneration();
      DropSockets();
      CloseRefines(f, Now());
    }

    method DropSockets()
      modifies `connectingSocket, `socket
      ensures connectingSocket == socket == None
    {
      connectingSocket := None;
      socket := None;
    }

    method MarkClosed()
      modifies `closed, `state, `reasonCode, `reconnectTimer
      ensures closed && state == Closed && reasonCode == Some(P.TransportClosed) && reconnectTimer == None
    {
      closed := true;
      state := Closed;
      reasonCode := Some(P.TransportClosed);
      reconnectTimer := None;
    }

    /** `accepted` is whether the socket took the frame without throwing. */
    method Send(socketOpen: bool, accepted: bool) returns (ok: bool)
      requires Valid()
      modifies `outputs
      ensures Valid()
      ensures Abstract() == P.OnSend(old(Abstract()), socketOpen, accepted)
      ensures ok <==> old(Abstract()).phase.Ready? && socketOpen && accepted
      ensures ok ==> outputs == old(outputs) + [P.Sent(generation)] && socket == Some(generation) == Some(negotiatedGeneration)
    {
      ghost var f := Now();
      hide WellFormed, RouteOf;
      var ready := IsReady(socketOpen);
      if !ready || socket.None? { return false; }
      if accepted {
        outputs := outputs + [P.Sent(socket.value)];
        EmitRefines(f, Now(), P.Sent(generation));
        ReadyMeansNegotiated(f);
        assert f.generation == RouteOf(f).gen by { NegotiateCases(f); }
      }
      return accepted;
    }

    // -------------------------------------------------------------- socket events

    method OnSocketOpen(g: int, pinMatches: bool)
      requires Valid() && g in establishments && !establishments[g].sawOpen
      modifies this
      ensures Valid()
      ensures Abstract() == P.OnSocketOpen(old(Abstract()), g, pinMatches)
    {
      ghost var f := Now();
      hide WellFormed, RouteOf, P.OnSocketOpen;
      if !establishments[g].settled { InProgressFacts(f, g); TerminalCases(f, g); }
      establishments := establishments[g := establishments[g].(sawOpen := true)];
      if establishments[g].settled || closed || g != generation {
        SettledIsInert(f, Now(), g);
        SettledIsIgnored(f, g);
        return;
      }
      if !pinMatches {
        Fail(g, P.PinMismatch, false);
        TerminalRefines(f, Now(), g, P.PinMismatch);
        return;
      }
      AcceptSocket(g);
      OpenRefines(f, Now(), g);
    }

    method AcceptSocket(g: int)
      requires g in establishments
      modifies `socket, `connectingSocket, `establishments, `state
      ensures socket == Some(g) && state == Authenticating
      ensures connectingSocket == if old(connectingSocket) == Some(g) then None else old(connectingSocket)
      ensures establishments == old(establishments)[g := old(establishments)[g].(connected := true, auth := P.AuthWaiting)]
    {
      socket := Some(g);
      if connectingSocket == Some(g) { connectingSocket := None; }
      establishments := establishments[g := establishments[g].(connected := true, auth := P.AuthWaiting)];
      state := Authenticating;
    }

    method HandleControlMessage(msg: P.Message)
      requires Valid() && pendingControl.Some? && generation in establishments
      modifies `pendingControl, `establishments
      ensures Valid()
      ensures Abstract() == P.OnSocketMessage(old(Abstract()), generation, msg)
      ensures establishments.Keys == old(establishments.Keys)
      ensures forall g :: g in establishments ==> establishments[g].auth == old(establishments[g].auth)
    {
      ghost var f := Now();
      MessageCases(f, generation, msg);
      hide WellFormed, RouteOf;
      if !msg.Response? || Some(msg.id) != pendingControl { return; }
      var c := pendingControl.value;
      pendingControl := None;
      var settledAs := if msg.caps.Some? then P.ControlResolved(msg.caps.value) else P.ControlRejected;
      establishments := Untimed(establishments, c);
      establishments := establishments[c := establishments[c].(control := settledAs)];
      ControlMovesRefine(f, Now(), c, settledAs);
    }

    /** The two message listeners of socket g: the controller's, then the one `authenticate` adds. */
    method OnSocketMessage(g: int, msg: P.Message)
      requires Valid() && g in establishments
      modifies this
      ensures Valid()
      ensures Abstract() == P.OnSocketMessage(old(Abstract()), g, msg)
      ensures P.MessageDecides(old(Abstract()), g, msg, Abstract().phase)
    {
      hide P.MessageDecides;
      P.MessagesDecide(Abstract(), g, msg);
      ghost var f := Now();
      MessageCases(f, g, msg);
      hide WellFormed, RouteOf;
      if !(g != generation || closed) {
        if pendingControl.Some? {
          HandleControlMessage(msg);
        } else {
          outputs := outputs + [P.OnMessage(g)];
          EmitRefines(f, Now(), P.OnMessage(g));
        }
      }
      ghost var f' := Now();
      MessageCases(f', g, msg);
      if establishments[g].auth.AuthWaiting? && g == generation && !closed && socket == Some(g) {
        if msg.Challenge? && !msg.signed {
          establishments := establishments[g := establishments[g].(auth := P.AuthFailed)];
          AuthMovesRefine(f', Now(), g, P.AuthFailed);
        } else if msg.HelloAck? {
          establishments := establishments[g := establishments[g].(auth := P.AuthAcked)];
          AuthMovesRefine(f', Now(), g, P.AuthAcked);
        }
      }
    }

    method EstablishmentClose(g: int)
      requires Valid() && g in establishments
      modifies this
      ensures Valid()
      ensures Abstract() == P.OnSocketClose(cfg, old(Abstract()), g)
      ensures g in establishments && establishments[g].settled
    {
      ghost var f := Now();
      EndCases(cfg, f, g);
      hide WellFormed, RouteOf, P.OnSocketClose;
      if closed {
        if !establishments[g].settled {
          assert false;  // `close` has already settled every promise: nothing is left to reject here
        }
        return;
      }
      if g != generation { return; }
      if establishments[g].connected || establishments[g].established {
        LoseRoute(g);
        return;
      }
      if establishments[g].settled { return; }
      InProgressFacts(f, g);
      LossFacts(f);
      EndBeforeOpen(g);
      EarlyEndRefines(cfg, f, Now(), g);
    }

    method EndBeforeOpen(g: int)
      requires g in establishments && !closed && reconnectTimer.None?
      modifies `state, `reasonCode, `reconnectAttempts, `reconnectTimer, `establishments, `outputs
      ensures Plan(state, reasonCode, reconnectAttempts, reconnectTimer)
              == Planned(cfg, everReady, old(reconnectAttempts), P.ConnectionFailed)
      ensures establishments == Settle(old(establishments), g) && outputs == old(outputs) + [P.Rejected(g)]
    {
      state := Reconnecting;
      reasonCode := Some(P.ConnectionFailed);
      ScheduleReconnect();
      establishments := Settle(establishments, g);
      outputs := outputs + [P.Rejected(g)];
    }

    /** The controller's close listener, then the one `authenticate` adds. */
    method OnSocketClose(g: int)
      requires Valid() && g in establishments
      modifies this
      ensures Valid()
      ensures Abstract() == P.OnSocketClose(cfg, old(Abstract()), g)
    {
      hide WellFormed, RouteOf, P.OnSocketClose;
      EstablishmentClose(g);
      ghost var f := Now();
      if establishments[g].auth.AuthWaiting? {
        establishments := establishments[g := establishments[g].(auth := P.AuthFailed)];
        SettledIsInert(f, Now(), g);
      }
    }

    method OnSocketError(g: int)
      requires Valid() && g in establishments
      modifies this
      ensures Valid()
      ensures Abstract() == P.OnSocketError(cfg, old(Abstract()), g)
    {
      ghost var f := Now();
      EndCases(cfg, f, g);
      hide WellFormed, RouteOf, P.OnSocketError;
      if closed {
        if !establishments[g].settled {
          assert false;  // as in EstablishmentClose
        }
        return;
      }
      if g != generation { return; }
      if !establishments[g].connected {
        if !establishments[g].settled { InProgressFacts(f, g); }
        Fail(g, P.ConnectionFailed, true);
        if !f.establishments[g].settled {
          LossFacts(f);
          EarlyEndRefines(cfg, f, Now(), g);
        }
      }
    }

    // -------------------------------------------------------------- timers and continuations

    method OnAuthTimeout(g: int)
      requires Valid() && g in establishments && establishments[g].auth.AuthWaiting?
      modifies this
      ensures Valid()
      ensures Abstract() == P.OnAuthTimeout(old(Abstract()), g)
    {
      ghost var f := Now();
      hide WellFormed, RouteOf;
      establishments := establishments[g := establishments[g].(auth := P.AuthFailed)];
      if f.establishments[g].settled {
        SettledIsInert(f, Now(), g);
        SettledIsIgnored(f, g);
      } else {
        AuthMovesRefine(f, Now(), g, P.AuthFailed);
      }
    }

    /** The continuation of `authenticate`. `signed` is whether signing the control frame succeeds,
        `sent` whether the socket takes it. */
    method OnAuthSettled(g: int, signed: bool, sent: bool)
      requires Valid() && g in establishments
      requires establishments[g].auth.AuthAcked? || establishments[g].auth.AuthFailed?
      modifies this
      ensures Valid()
      ensures Abstract() == P.OnAuthSettled(old(Abstract()), g, signed, sent)
    {
      if establishments[g].auth.AuthAcked? && signed {
        OnAuthAcked(g, sent);
      } else {
        OnAuthFailed(g, signed, sent);
      }
    }

    /** Acknowledged, and the control frame could be signed: `runControlNegotiate`. */
    method OnAuthAcked(g: int, sent: bool)
      requires Valid() && g in establishments && establishments[g].auth.AuthAcked?
      modifies this
      ensures Valid()
      ensures Abstract() == P.OnAuthSettled(old(Abstract()), g, true, sent)
    {
      ghost var f := Now();
      hide WellFormed, RouteOf, P.OnAuthSettled;
      if establishments[g].settled || closed || g != generation {
        if !establishments[g].settled { InProgressFacts(f, g); }
        establishments := establishments[g := establishments[g].(auth := P.AuthDone)];
        SettledIsInert(f, Now(), g);
        SettledIsIgnored(f, g);
        return;
      }
      InProgressFacts(f, g);
      TerminalCases(f, g);
      state := Negotiating;
      if g != generation || closed || socket != Some(g) {
        assert false;  // the guard above just passed, and a connected generation holds its own socket
      }
      pendingControl := if sent then Some(g) else None;
      establishments := establishments[g :=
        establishments[g].(auth := P.AuthDone, controlTimer := sent,
                           control := if sent then P.ControlWaiting else P.ControlRejected)];
      ControlStartRefines(f, Now(), g, sent);
    }

    /** Refused or timed out, or signing the control frame threw. */
    method OnAuthFailed(g: int, signed: bool, sent: bool)
      requires Valid() && g in establishments
      requires establishments[g].auth.AuthFailed? || (establishments[g].auth.AuthAcked? && !signed)
      modifies this
      ensures Valid()
      ensures Abstract() == P.OnAuthSettled(old(Abstract()), g, signed, sent)
    {
      ghost var f := Now();
      hide WellFormed, RouteOf, P.OnAuthSettled;
      if !establishments[g].settled { InProgressFacts(f, g); TerminalCases(f, g); }
      establishments := establishments[g := establishments[g].(auth := P.AuthDone)];
      Fail(g, P.AuthenticationFailed, false);
      if f.establishments[g].settled {
        SettledIsInert(f, Now(), g);
        SettledIsIgnored(f, g);
      } else {
        TerminalRefines(f, Now(), g, P.AuthenticationFailed);
      }
    }

    /** The timeout drops whatever control is pending and rejects its own promise. */
    method OnControlTimeout(g: int)
      requires Valid() && g in establishments && establishments[g].controlTimer
      modifies this
      ensures Valid()
      ensures Abstract() == P.OnControlTimeout(old(Abstract()), g)
    {
      ghost var f := Now();
      assert pendingControl == Some(g);
      hide WellFormed, RouteOf;
      pendingControl := None;
      establishments := ControlCut(establishments, Some(g));
      ControlMovesRefine(f, Now(), g, P.ControlRejected);
    }

    /** The continuation of `runControlNegotiate`. */
    method OnControlSettled(g: int)
      requires Valid() && g in establishments
      requires establishments[g].control.ControlResolved? || establishments[g].control.ControlRejected?
      modifies this
      ensures Valid()
      ensures Abstract() == P.OnControlSettled(old(Abstract()), g)
    {
      if establishments[g].control.ControlResolved? {
        OnControlResolved(g, establishments[g].control.caps);
      } else {
        OnControlRejected(g);
      }
    }

    method OnControlResolved(g: int, caps: P.Capabilities)
      requires Valid() && g in establishments && establishments[g].control == P.ControlResolved(caps)
      modifies this
      ensures Valid()
      ensures Abstract() == P.OnControlSettled(old(Abstract()), g)
    {
      ghost var f := Now();
      hide WellFormed, RouteOf, P.OnControlSettled;
      if establishments[g].settled || closed || g != generation {
        if !f.establishments[g].settled { InProgressFacts(f, g); }
        establishments := establishments[g := establishments[g].(control := P.ControlDone)];
        SettledIsInert(f, Now(), g);
        SettledIsIgnored(f, g);
        return;
      }
      InProgressFacts(f, g);
      BecomeReady(g, caps);
      ReadyRefines(f, Now(), g, caps);
    }

    method BecomeReady(g: int, caps: P.Capabilities)
      requires g in establishments
      modifies `establishments, `activeEstablishment, `capabilities, `negotiatedGeneration, `reconnectAttempts,
               `state, `reasonCode, `everReady, `outputs
      ensures establishments == old(establishments)[g :=
                old(establishments)[g].(settled := true, established := true, control := P.ControlDone)]
      ensures activeEstablishment == if old(activeEstablishment) == Some(g) then None else old(activeEstablishment)
      ensures capabilities == Some(caps) && negotiatedGeneration == g && reconnectAttempts == 0
      ensures state == Ready && reasonCode == None && everReady
      ensures outputs == old(outputs) + [P.Resolved(g, caps), P.OnReady(g)]
    {
      establishments := establishments[g :=
        establishments[g].(settled := true, established := true, control := P.ControlDone)];
      if activeEstablishment == Some(g) { activeEstablishment := None; }
      capabilities := Some(caps);
      negotiatedGeneration := g;
      reconnectAttempts := 0;
      state := Ready;
      reasonCode := None;
      everReady := true;
      outputs := outputs + [P.Resolved(g, caps), P.OnReady(g)];
    }

    method OnControlRejected(g: int)
      requires Valid() && g in establishments && establishments[g].control == P.ControlRejected
      modifies this
      ensures Valid()
      ensures Abstract() == P.OnControlSettled(old(Abstract()), g)
    {
      ghost var f := Now();
      hide WellFormed, RouteOf, P.OnControlSettled;
      if !establishments[g].settled { InProgressFacts(f, g); TerminalCases(f, g); }
      establishments := establishments[g := establishments[g].(control := P.ControlDone)];
      Fail(g, P.NegotiationFailed, false);
      if f.establishments[g].settled {
        SettledIsInert(f, Now(), g);
        SettledIsIgnored(f, g);
      } else {
        TerminalRefines(f, Now(), g, P.NegotiationFailed);
      }
    }

    method OnReconnectTimer()
      requires Valid() && reconnectTimer.Some?
      modifies this
      ensures Valid()
      ensures Abstract() == P.OnReconnectFires(old(Abstract()))
    {
      ghost var f := Now();
      NegotiateCases(f);
      hide WellFormed, RouteOf;
      reconnectTimer := None;
      if closed { return; }
      var _ := Establish();
      StartRefines(f, Now());
    }

    /** The continuation that clears `establishing` once promise g has settled. */
    method OnSharedSettled(g: int)
      requires Valid() && g in establishments && establishments[g].settled
      modifies `establishing
      ensures Valid()
      ensures Abstract() == P.OnSharedSettled(old(Abstract()), g)
    {
      ghost var f := Now();
      hide WellFormed, RouteOf, P.OnSharedSettled;
      if establishing == Some(g) { establishing := None; }
      SharedSettledRefines(f, Now(), g);
    }

    // -------------------------------------------------------------- whole runs

    /** Any event that can happen now. */
    method Dispatch(e: P.Event)
      requires Valid() && Enabled(Now(), e)
      modifies this
      ensures Valid()
      ensures Abstract() == P.Step(cfg, old(Abstract()), e)
    {
      match e
      case Negotiate => var _ := Negotiate();
      case Close => Close();
      case SocketOpen(g, pinMatches) => OnSocketOpen(g, pinMatches);
      case SocketMessage(g, msg) => OnSocketMessage(g, msg);
      case SocketClose(g) => OnSocketClose(g);
      case SocketError(g) => OnSocketError(g);
      case AuthTimeout(g) => OnAuthTimeout(g);
      case AuthSettled(g, signed, sent) => OnAuthSettled(g, signed, sent);
      case ControlTimeout(g) => OnControlTimeout(g);
      case ControlSettled(g) => OnControlSettled(g);
      case ReconnectFires => OnReconnectTimer();
      case SharedSettled(g) => OnSharedSettled(g);
      case Send(open, accepted) => var _ := Send(open, accepted);
    }
  }

  /** A controller fed any schedule of events, of which those that are impossible when their turn
      comes do not happen, goes through exactly the run of the protocol on that schedule. */
  method Drive(cfg: P.Config, schedule: seq<P.Event>) returns (c: RouteController)
    ensures c.Valid() && c.cfg == cfg && c.Abstract() == P.Run(cfg, schedule)
  {
    c := new RouteController(cfg);
    for i := 0 to |schedule|
      invariant c.Valid() && c.cfg == cfg && fresh(c)
      invariant c.Abstract() == P.Run(cfg, schedule[..i])
    {
      assert schedule[..i + 1] == schedule[..i] + [schedule[i]];
      P.RunSnoc(cfg, schedule[..i], schedule[i]);
      if Enabled(c.Now(), schedule[i]) {
        c.Dispatch(schedule[i]);
      } else {
        DisabledIsIgnored(cfg, c.Now(), schedule[i]);
      }
    }
    assert schedule[..|schedule|] == schedule;
  }
}
