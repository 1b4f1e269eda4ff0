/**
 The signed-WSS route as a protocol automaton.

 The route controller keeps a dozen mutable fields, a closure per socket, timers and
 promise continuations, and old sockets may still fire long after they were replaced.
 This module is the small machine it is meant to be: one current generation in one phase.
 Module RouteController proves that the controller's methods implement it step by step;
 the lemmas here are about every run of the machine.
 */
module RouteProtocol {
  import opened Wrappers
  import opened Arithmetic

  datatype Capabilities = Capabilities(version: int, methods: seq<string>, features: set<string>)

  datatype Reason =
    | ConnectionFailed | PinMismatch | AuthenticationFailed | NegotiationFailed
    | RetryExhausted | TransportClosed

  /** Life of the promise returned by `authenticate`; Done once its continuation has run. */
  datatype AuthPromise = AuthIdle | AuthWaiting | AuthAcked | AuthFailed | AuthDone

  /** Life of the promise returned by `runControlNegotiate`. */
  datatype ControlPromise =
    ControlIdle | ControlWaiting | ControlResolved(caps: Capabilities) | ControlRejected | ControlDone

  /** Observable effects: sockets created, promises settled, callbacks, frames sent. */
  datatype Output =
    | Connect(gen: int)
    | Resolved(gen: int, caps: Capabilities)
    | Rejected(gen: int)
    | OnReady(gen: int)
    | OnRouteLost(gen: int)
    | OnMessage(gen: int)
    | Sent(gen: int)

  datatype Config = Config(base: nat, max: nat, limit: int)

  datatype Phase =
    | Disconnected
    | Connecting
    | Authenticating(auth: AuthPromise)
    | Negotiating(control: ControlPromise)
    | Ready(caps: Capabilities)
    | Reconnecting(why: Reason, delay: nat)  // the timer is armed with this delay
    | Unavailable(reason: Reason)
    | Closed

  /** `shared` is the promise that concurrent `negotiate` calls share, named by its generation;
      `hasSocket` tells whether the current generation created a socket. */
  datatype Route = Route(
    gen: int, hasSocket: bool, phase: Phase, attempts: nat, everReady: bool,
    shared: Option<int>, outputs: seq<Output>)

  datatype Message = Challenge(signed: bool) | HelloAck | Response(id: int, caps: Option<Capabilities>) | OtherMessage

  datatype Event =
    | Negotiate
    | Close
    | SocketOpen(gen: int, pinMatches: bool)
    | SocketMessage(gen: int, msg: Message)
    | SocketClose(gen: int)
    | SocketError(gen: int)
    | AuthTimeout(gen: int)
    | AuthSettled(gen: int, signed: bool, sent: bool)
    | ControlTimeout(gen: int)
    | ControlSettled(gen: int)
    | ReconnectFires
    | SharedSettled(gen: int)
    | Send(open: bool, accepted: bool)

  const INITIAL := Route(0, false, Disconnected, 0, false, None, [])

  // ---------------------------------------------------------------- backoff

  function Pow2(n: nat): (p: nat)
    ensures p >= 1
  {
    if n == 0 then 1 else 2 * Pow2(n - 1)
  }

  /** `backoffDelay`: how long the timer of the attempt-th reconnect waits. */
  function Backoff(cfg: Config, attempt: nat): nat
    requires attempt >= 1
  {
    var d := cfg.base * Pow2(attempt - 1);
    if d < cfg.max then d else cfg.max
  }

  lemma {:induction false} Pow2Doubles(m: nat, n: nat)
    requires m <= n
    ensures Pow2(m) <= Pow2(n)
  {
    if m < n {
      Pow2Doubles(m, n - 1);
    }
  }

  /** The first delay is the base, and every later one twice the one before, unless the maximum is less. */
  lemma BackoffDoubles(cfg: Config, n: nat)
    ensures Backoff(cfg, 1) == if cfg.base < cfg.max then cfg.base else cfg.max
    ensures n >= 1 ==> Backoff(cfg, n + 1) == if 2 * Backoff(cfg, n) < cfg.max then 2 * Backoff(cfg, n) else cfg.max
  {
    assert cfg.base * Pow2(0) == cfg.base;
    if n >= 1 {
      var p := Pow2(n - 1);
      assert cfg.base * (2 * p) == 2 * (cfg.base * p);
    }
  }

  /** Delays never shrink and never pass the maximum. */
  lemma BackoffGrows(cfg: Config, m: nat, n: nat)
    requires 1 <= m <= n
    ensures Backoff(cfg, m) <= Backoff(cfg, n) <= cfg.max
  {
    Pow2Doubles(m - 1, n - 1);
    ScaleKeepsOrder(cfg.base, Pow2(m - 1), Pow2(n - 1));
  }

  lemma {:induction false} Pow2Exceeds(n: nat)
    ensures Pow2(n) > n
  {
    if n > 0 {
      Pow2Exceeds(n - 1);
    }
  }

  /** With a positive base the maximum is reached, at the latest after `max` attempts. */
  lemma BackoffReachesTheMaximum(cfg: Config, n: nat)
    requires cfg.base > 0 && n > cfg.max
    ensures Backoff(cfg, n) == cfg.max
  {
    Pow2Exceeds(n - 1);
    ScaleKeepsOrder(Pow2(n - 1), 1, cfg.base);
    Commutes(Pow2(n - 1), cfg.base);
  }

  // ---------------------------------------------------------------- steps

  /** A negotiation is under way: its promise is not settled yet. */
  predicate InProgress(p: Phase) {
    p.Connecting? || p.Authenticating? || p.Negotiating?
  }

  /** The current socket was connected, so its close event counts as a lost route. */
  predicate ClosesAsLoss(p: Phase) {
    p.Authenticating? || p.Negotiating? || p.Ready?
    || (p.Unavailable? && p.reason in {AuthenticationFailed, NegotiationFailed})
  }

  function Emit(r: Route, out: seq<Output>): Route {
    r.(outputs := r.outputs + out)
  }

  /** Open the next generation. */
  function Start(r: Route): Route {
    Emit(r, [Connect(r.gen + 1)]).(gen := r.gen + 1, hasSocket := true, phase := Connecting, shared := Some(r.gen + 1))
  }

  /** Wait for a reconnect, or give up when the budget before the first ready is spent. */
  function Retry(cfg: Config, r: Route, why: Reason): Route {
    if !r.everReady && r.attempts >= cfg.limit then
      r.(phase := Unavailable(RetryExhausted))
    else
      r.(phase := Reconnecting(why, Backoff(cfg, r.attempts + 1)), attempts := r.attempts + 1)
  }

  /** Reject the promise of the negotiation in progress, if there is one. */
  function Abandon(r: Route): Route {
    if InProgress(r.phase) then Emit(r, [Rejected(r.gen)]).(phase := Disconnected) else r
  }

  /** Publish the loss of the current generation, move past it, and try again. */
  function Lose(cfg: Config, r: Route): Route {
    Retry(cfg, Emit(r, [OnRouteLost(r.gen)]).(gen := r.gen + 1, hasSocket := false, phase := Disconnected), TransportClosed)
  }

  function OnNegotiate(r: Route): Route {
    if r.phase.Closed? || r.phase.Ready? || r.shared.Some? then r else Start(r)
  }

  function OnClose(r: Route): Route {
    Abandon(r).(gen := r.gen + 1, hasSocket := false, phase := Closed)
  }

  function OnSocketOpen(r: Route, g: int, pinMatches: bool): Route {
    if g != r.gen || !r.phase.Connecting? then r
    else if pinMatches then r.(phase := Authenticating(AuthWaiting))
    else Emit(r, [Rejected(g)]).(phase := Unavailable(PinMismatch))
  }

  /** While a control exchange is pending, messages go to it alone; otherwise they are delivered,
      and during authentication also looked at for the challenge and its acknowledgement. */
  function OnSocketMessage(r: Route, g: int, msg: Message): Route {
    if g != r.gen || !r.hasSocket then r
    else if r.phase == Negotiating(ControlWaiting) then
      if msg.Response? && msg.id == g
      then r.(phase := Negotiating(if msg.caps.Some? then ControlResolved(msg.caps.value) else ControlRejected))
      else r
    else
      var heard := Emit(r, [OnMessage(g)]);
      if r.phase == Authenticating(AuthWaiting) && msg.HelloAck? then heard.(phase := Authenticating(AuthAcked))
      else if r.phase == Authenticating(AuthWaiting) && msg == Challenge(false) then heard.(phase := Authenticating(AuthFailed))
      else heard
  }

  /** What a message decides: the acknowledgement authenticates, a challenge that cannot be signed fails
      it, and the response of this generation to the control exchange settles that. */
  ghost predicate MessageDecides(r: Route, g: int, msg: Message, phase: Phase) {
    if g == r.gen && r.hasSocket && r.phase == Authenticating(AuthWaiting) then
      match msg
      case HelloAck => phase == Authenticating(AuthAcked)
      case Challenge(signed) => phase == Authenticating(if signed then AuthWaiting else AuthFailed)
      case _ => phase == r.phase
    else if g == r.gen && r.hasSocket && r.phase == Negotiating(ControlWaiting) then
      match msg
      case Response(id, Some(caps)) => phase == Negotiating(if id == g then ControlResolved(caps) else ControlWaiting)
      case Response(id, None) => phase == Negotiating(if id == g then ControlRejected else ControlWaiting)
      case _ => phase == r.phase
    else phase == r.phase
  }

  lemma MessagesDecide(r: Route, g: int, msg: Message)
    ensures MessageDecides(r, g, msg, OnSocketMessage(r, g, msg).phase)
  {
  }

  function OnSocketClose(cfg: Config, r: Route, g: int): Route {
    if g != r.gen then r
    else if r.phase.Connecting? then Retry(cfg, Abandon(r), ConnectionFailed)
    else if ClosesAsLoss(r.phase) then Lose(cfg, Abandon(r))
    else r
  }

  function OnSocketError(cfg: Config, r: Route, g: int): Route {
    if g == r.gen && r.phase.Connecting? then Retry(cfg, Abandon(r), ConnectionFailed) else r
  }

  function OnAuthTimeout(r: Route, g: int): Route {
    if g == r.gen && r.phase == Authenticating(AuthWaiting) then r.(phase := Authenticating(AuthFailed)) else r
  }

  function OnAuthSettled(r: Route, g: int, signed: bool, sent: bool): Route {
    if g != r.gen || !r.phase.Authenticating? || r.phase.auth !in {AuthAcked, AuthFailed} then r
    else if r.phase.auth == AuthFailed || !signed then
      Emit(r, [Rejected(g)]).(phase := Unavailable(AuthenticationFailed))
    else
      r.(phase := Negotiating(if sent then ControlWaiting else ControlRejected))
  }

  function OnControlTimeout(r: Route, g: int): Route {
    if g == r.gen && r.phase == Negotiating(ControlWaiting) then r.(phase := Negotiating(ControlRejected)) else r
  }

  function OnControlSettled(r: Route, g: int): Route {
    if g != r.gen || !r.phase.Negotiating? then r
    else
      match r.phase.control
      case ControlResolved(caps) =>
        Emit(r, [Resolved(g, caps), OnReady(g)]).(phase := Ready(caps), attempts := 0, everReady := true)
      case ControlRejected =>
        Emit(r, [Rejected(g)]).(phase := Unavailable(NegotiationFailed))
      case _ => r
  }

  function OnReconnectFires(r: Route): Route {
    if r.phase.Reconnecting? then Start(r) else r
  }

  function OnSharedSettled(r: Route, g: int): Route {
    if r.shared == Some(g) && !(g == r.gen && InProgress(r.phase)) then r.(shared := None) else r
  }

  function OnSend(r: Route, open: bool, accepted: bool): Route {
    if r.phase.Ready? && open && accepted then Emit(r, [Sent(r.gen)]) else r
  }

  function Step(cfg: Config, r: Route, e: Event): Route {
    match e
    case Negotiate => OnNegotiate(r)
    case Close => OnClose(r)
    case SocketOpen(g, pinMatches) => OnSocketOpen(r, g, pinMatches)
    case SocketMessage(g, msg) => OnSocketMessage(r, g, msg)
    case SocketClose(g) => OnSocketClose(cfg, r, g)
    case SocketError(g) => OnSocketError(cfg, r, g)
    case AuthTimeout(g) => OnAuthTimeout(r, g)
    case AuthSettled(g, signed, sent) => OnAuthSettled(r, g, signed, sent)
    case ControlTimeout(g) => OnControlTimeout(r, g)
    case ControlSettled(g) => OnControlSettled(r, g)
    case ReconnectFires => OnReconnectFires(r)
    case SharedSettled(g) => OnSharedSettled(r, g)
    case Send(open, accepted) => OnSend(r, open, accepted)
  }

  /** The route after a whole run of events, in any order whatever. */
  function Run(cfg: Config, events: seq<Event>): Route {
    if events == [] then INITIAL
    else Step(cfg, Run(cfg, events[..|events| - 1]), events[|events| - 1])
  }

  // ---------------------------------------------------------------- trace vocabulary

  /** Effects that may happen at most once per generation; messages and frames are free. */
  datatype Kind = Opening | Settling | Announcing | Losing | Free

  function KindOf(o: Output): Kind {
    match o
    case Connect(_) => Opening
    case Resolved(_, _) => Settling
    case Rejected(_) => Settling
    case OnReady(_) => Announcing
    case OnRouteLost(_) => Losing
    case _ => Free
  }

  /** Callbacks and domain frames: what the owner of the route sees or does. */
  predicate Visible(o: Output) {
    o.OnReady? || o.OnRouteLost? || o.OnMessage? || o.Sent?
  }

  /** Some effect of that kind happened for generation g. */
  ghost predicate Happened(outs: seq<Output>, k: Kind, g: int) {
    exists i :: 0 <= i < |outs| && KindOf(outs[i]) == k && outs[i].gen == g
  }

  /** No generation opens, settles, announces or loses twice. */
  ghost predicate AtMostOnce(outs: seq<Output>) {
    forall i, j :: 0 <= i < j < |outs| && KindOf(outs[i]) == KindOf(outs[j]) != Free ==> outs[i].gen != outs[j].gen
  }

  /** After the loss of a generation is published, nothing is published for it again. */
  ghost predicate SilentAfterLoss(outs: seq<Output>) {
    forall i, j :: 0 <= i < j < |outs| && outs[i].OnRouteLost? && Visible(outs[j]) ==> outs[i].gen != outs[j].gen
  }

  /** A domain frame leaves only after its generation was announced ready. */
  ghost predicate SentAfterReady(outs: seq<Output>) {
    forall j :: 0 <= j < |outs| && outs[j].Sent? ==> Happened(outs[..j], Announcing, outs[j].gen)
  }

  ghost predicate UpTo(outs: seq<Output>, gen: int) {
    && (forall i :: 0 <= i < |outs| ==> outs[i].gen <= gen)
    && (forall i :: 0 <= i < |outs| && outs[i].OnRouteLost? ==> outs[i].gen < gen)
  }

  // ---------------------------------------------------------------- the invariant

  /** Every socket created has its promise settled, except the one now in progress. */
  ghost predicate Accounted(r: Route) {
    && (forall g :: Happened(r.outputs, Settling, g) <==>
          Happened(r.outputs, Opening, g) && !(g == r.gen && InProgress(r.phase)))
    && (forall g :: Happened(r.outputs, Announcing, g) ==> Happened(r.outputs, Settling, g))
    && (r.hasSocket <==> Happened(r.outputs, Opening, r.gen))
    && (InProgress(r.phase) || ClosesAsLoss(r.phase) ==> r.hasSocket)
    && (InProgress(r.phase) ==> r.shared == Some(r.gen))
  }

  ghost predicate Published(r: Route) {
    && UpTo(r.outputs, r.gen)
    && AtMostOnce(r.outputs)
    && SilentAfterLoss(r.outputs)
    && SentAfterReady(r.outputs)
    && (r.phase.Ready? ==> Happened(r.outputs, Announcing, r.gen))
  }

  ghost predicate Budgeted(cfg: Config, r: Route) {
    && (!r.everReady ==> r.attempts == 0 || r.attempts <= cfg.limit)
    && (r.phase.Ready? ==> r.everReady && r.attempts == 0)
    && (r.phase.Reconnecting? ==> r.attempts >= 1 && r.phase.delay == Backoff(cfg, r.attempts))
    && (r.everReady ==> r.phase != Unavailable(RetryExhausted))
    && (r.phase.Unavailable? ==> r.phase.reason !in {ConnectionFailed, TransportClosed})
  }

  ghost predicate Inv(cfg: Config, r: Route) {
    Accounted(r) && Published(r) && Budgeted(cfg, r)
  }

  lemma HappenedAppend(outs: seq<Output>, o: Output)
    ensures forall k, g :: Happened(outs + [o], k, g) <==> Happened(outs, k, g) || (KindOf(o) == k && o.gen == g)
  {
    var more := outs + [o];
    forall k, g ensures Happened(more, k, g) <==> Happened(outs, k, g) || (KindOf(o) == k && o.gen == g) {
      if Happened(outs, k, g) {
        var i :| 0 <= i < |outs| && KindOf(outs[i]) == k && outs[i].gen == g;
        assert more[i] == outs[i];
      }
      if KindOf(o) == k && o.gen == g {
        assert more[|outs|] == o;
      }
    }
  }

  /** One more effect of the current generation keeps the trace well published. */
  lemma PublishedAppend(outs: seq<Output>, gen: int, o: Output, next: int)
    requires UpTo(outs, gen) && AtMostOnce(outs) && SilentAfterLoss(outs) && SentAfterReady(outs)
    requires o.Sent? ==> Happened(outs, Announcing, o.gen)
    requires gen <= next && o.gen <= next && (Visible(o) ==> o.gen == gen) && (o.OnRouteLost? ==> gen < next)
    requires KindOf(o) == Free || !Happened(outs, KindOf(o), o.gen)
    ensures UpTo(outs + [o], next) && AtMostOnce(outs + [o]) && SilentAfterLoss(outs + [o]) && SentAfterReady(outs + [o])
  {
    var more := outs + [o];
    forall j | 0 <= j < |more| && more[j].Sent? ensures Happened(more[..j], Announcing, more[j].gen) {
      assert more[..j] == outs[..j];
      assert outs[..|outs|] == outs;
    }
  }

  lemma EmitTwice(r: Route, a: Output, b: Output)
    ensures Emit(r, [a, b]) == Emit(Emit(r, [a]), [b])
  {
    assert r.outputs + [a, b] == (r.outputs + [a]) + [b];
  }

  lemma StartKeepsInv(cfg: Config, r: Route)
    requires Inv(cfg, r) && !InProgress(r.phase)
    ensures Inv(cfg, Start(r))
  {
    HappenedAppend(r.outputs, Connect(r.gen + 1));
    PublishedAppend(r.outputs, r.gen, Connect(r.gen + 1), r.gen + 1);
  }

  /** Settling the promise in progress with a rejection, and leaving that generation or not. */
  lemma RejectKeepsInv(cfg: Config, r: Route, phase: Phase)
    requires Inv(cfg, r) && InProgress(r.phase)
    requires !InProgress(phase) && !phase.Ready? && !phase.Reconnecting? && (phase.Unavailable? ==> phase.reason in {PinMismatch, AuthenticationFailed, NegotiationFailed})
    ensures Inv(cfg, Emit(r, [Rejected(r.gen)]).(phase := phase))
  {
    HappenedAppend(r.outputs, Rejected(r.gen));
    PublishedAppend(r.outputs, r.gen, Rejected(r.gen), r.gen);
  }

  lemma RetryKeepsInv(cfg: Config, r: Route, why: Reason)
    requires Inv(cfg, r) && !InProgress(r.phase)
    ensures Inv(cfg, Retry(cfg, r, why))
  {
  }

  lemma AbandonKeepsInv(cfg: Config, r: Route)
    requires Inv(cfg, r)
    ensures Inv(cfg, Abandon(r)) && !InProgress(Abandon(r).phase)
  {
    if InProgress(r.phase) {
      RejectKeepsInv(cfg, r, Disconnected);
    }
  }

  lemma LossKeepsInv(cfg: Config, r: Route)
    requires Inv(cfg, r) && !InProgress(r.phase)
    ensures Inv(cfg, Emit(r, [OnRouteLost(r.gen)]).(gen := r.gen + 1, hasSocket := false, phase := Disconnected))
  {
    LossKeepsAccounts(r);
    LossIsPublished(r);
    hide Accounted, Published;
  }

  lemma LossKeepsAccounts(r: Route)
    requires Accounted(r) && UpTo(r.outputs, r.gen) && !InProgress(r.phase)
    ensures Accounted(Emit(r, [OnRouteLost(r.gen)]).(gen := r.gen + 1, hasSocket := false, phase := Disconnected))
  {
    HappenedAppend(r.outputs, OnRouteLost(r.gen));
  }

  lemma LossIsPublished(r: Route)
    requires Published(r)
    ensures Published(Emit(r, [OnRouteLost(r.gen)]).(gen := r.gen + 1, hasSocket := false, phase := Disconnected))
  {
    PublishedAppend(r.outputs, r.gen, OnRouteLost(r.gen), r.gen + 1);
  }

  lemma LoseKeepsInv(cfg: Config, r: Route)
    requires Inv(cfg, r) && !InProgress(r.phase)
    ensures Inv(cfg, Lose(cfg, r))
  {
    hide Inv, Emit, Retry;
    LossKeepsInv(cfg, r);
    RetryKeepsInv(cfg, Emit(r, [OnRouteLost(r.gen)]).(gen := r.gen + 1, hasSocket := false, phase := Disconnected), TransportClosed);
  }

  lemma ReadyKeepsInv(cfg: Config, r: Route, caps: Capabilities)
    requires Inv(cfg, r) && InProgress(r.phase)
    ensures Inv(cfg, Emit(r, [Resolved(r.gen, caps), OnReady(r.gen)]).(phase := Ready(caps), attempts := 0, everReady := true))
  {
    EmitTwice(r, Resolved(r.gen, caps), OnReady(r.gen));
    HappenedAppend(r.outputs, Resolved(r.gen, caps));
    PublishedAppend(r.outputs, r.gen, Resolved(r.gen, caps), r.gen);
    HappenedAppend(r.outputs + [Resolved(r.gen, caps)], OnReady(r.gen));
    PublishedAppend(r.outputs + [Resolved(r.gen, caps)], r.gen, OnReady(r.gen), r.gen);
  }

  lemma FreeEffectKeepsInv(cfg: Config, r: Route, o: Output)
    requires Inv(cfg, r) && KindOf(o) == Free && o.gen == r.gen && (o.Sent? ==> r.phase.Ready?)
    ensures Inv(cfg, Emit(r, [o]))
  {
    HappenedAppend(r.outputs, o);
    PublishedAppend(r.outputs, r.gen, o, r.gen);
  }

  lemma CloseKeepsInv(cfg: Config, r: Route)
    requires Inv(cfg, r)
    ensures Inv(cfg, Step(cfg, r, Close))
  {
    AbandonKeepsInv(cfg, r);
  }

  lemma SocketEndKeepsInv(cfg: Config, r: Route, e: Event)
    requires Inv(cfg, r) && (e == SocketClose(r.gen) || e == SocketError(r.gen))
    ensures Inv(cfg, Step(cfg, r, e))
  {
    AbandonKeepsInv(cfg, r);
    RetryKeepsInv(cfg, Abandon(r), ConnectionFailed);
    LoseKeepsInv(cfg, Abandon(r));
  }

  /** Moving on within the negotiation in progress. */
  lemma ProgressKeepsInv(cfg: Config, r: Route, phase: Phase)
    requires Inv(cfg, r) && InProgress(r.phase) && InProgress(phase)
    ensures Inv(cfg, r.(phase := phase))
  {
  }

  lemma SocketMessageKeepsInv(cfg: Config, r: Route, msg: Message)
    requires Inv(cfg, r)
    ensures Inv(cfg, Step(cfg, r, SocketMessage(r.gen, msg)))
  {
    var next := Step(cfg, r, SocketMessage(r.gen, msg));
    if next.outputs == r.outputs {
      if InProgress(r.phase) { ProgressKeepsInv(cfg, r, next.phase); }
    } else {
      var heard := Emit(r, [OnMessage(r.gen)]);
      FreeEffectKeepsInv(cfg, r, OnMessage(r.gen));
      if InProgress(r.phase) { ProgressKeepsInv(cfg, heard, next.phase); }
    }
  }

  /** Steps of the handshake in progress: open, authentication and control promises. */
  lemma HandshakeKeepsInv(cfg: Config, r: Route, e: Event)
    requires Inv(cfg, r) && InProgress(r.phase)
    requires e.SocketOpen? || e.AuthTimeout? || e.AuthSettled? || e.ControlTimeout? || e.ControlSettled?
    ensures Inv(cfg, Step(cfg, r, e))
  {
    var next := Step(cfg, r, e);
    match next.phase
    case Unavailable(_) => RejectKeepsInv(cfg, r, next.phase);
    case Ready(caps) => ReadyKeepsInv(cfg, r, caps);
    case _ => ProgressKeepsInv(cfg, r, next.phase);
  }

  /** Every step, whatever the order of events, keeps the invariant. */
  lemma StepKeepsInv(cfg: Config, r: Route, e: Event)
    requires Inv(cfg, r)
    ensures Inv(cfg, Step(cfg, r, e))
  {
    match e
    case Negotiate => if Step(cfg, r, e) != r { StartKeepsInv(cfg, r); }
    case ReconnectFires => if Step(cfg, r, e) != r { StartKeepsInv(cfg, r); }
    case Close => CloseKeepsInv(cfg, r);
    case SocketMessage(g, msg) => if g == r.gen { SocketMessageKeepsInv(cfg, r, msg); }
    case SocketClose(g) => if g == r.gen { SocketEndKeepsInv(cfg, r, e); }
    case SocketError(g) => if g == r.gen { SocketEndKeepsInv(cfg, r, e); }
    case Send(_, _) => if r.phase.Ready? { FreeEffectKeepsInv(cfg, r, Sent(r.gen)); }
    case SharedSettled(_) =>
    case _ => if Step(cfg, r, e) != r { HandshakeKeepsInv(cfg, r, e); }
  }

  lemma {:induction false} RunKeepsInv(cfg: Config, events: seq<Event>)
    ensures Inv(cfg, Run(cfg, events))
  {
    if events != [] {
      RunKeepsInv(cfg, events[..|events| - 1]);
      StepKeepsInv(cfg, Run(cfg, events[..|events| - 1]), events[|events| - 1]);
    }
  }

  // ---------------------------------------------------------------- main results

  /** No negotiation is stranded: a socket is opened at most once per generation, its promise
      settles at most once, and it is settled unless it is the one of the current generation,
      still in progress. */
  lemma NoNegotiationIsStranded(cfg: Config, events: seq<Event>, g: int)
    ensures var r := Run(cfg, events);
            && AtMostOnce(r.outputs)
            && (Happened(r.outputs, Opening, g) ==>
                  (Happened(r.outputs, Settling, g) <==> !(g == r.gen && InProgress(r.phase))))
            && (Happened(r.outputs, Settling, g) ==> Happened(r.outputs, Opening, g))
  {
    RunKeepsInv(cfg, events);
  }

  /** Whenever a step moves to another generation, the one it leaves is settled by the end of the step. */
  lemma LeavingSettles(cfg: Config, events: seq<Event>, e: Event)
    ensures var r, next := Run(cfg, events), Step(cfg, Run(cfg, events), e);
            next.gen != r.gen && Happened(r.outputs, Opening, r.gen) ==> Happened(next.outputs, Settling, r.gen)
  {
    var r, next := Run(cfg, events), Step(cfg, Run(cfg, events), e);
    RunKeepsInv(cfg, events);
    StepKeepsInv(cfg, r, e);
    if next.gen != r.gen && Happened(r.outputs, Opening, r.gen) {
      StepExtendsOutputs(cfg, r, e);
      HappenedLater(r.outputs, next.outputs, Opening, r.gen);
    }
  }

  lemma StepExtendsOutputs(cfg: Config, r: Route, e: Event)
    ensures r.outputs <= Step(cfg, r, e).outputs
  {
  }

  lemma HappenedLater(outs: seq<Output>, more: seq<Output>, k: Kind, g: int)
    requires outs <= more && Happened(outs, k, g)
    ensures Happened(more, k, g)
  {
    var i :| 0 <= i < |outs| && KindOf(outs[i]) == k && outs[i].gen == g;
    assert more[i] == outs[i];
  }

  /** Callbacks per generation: ready at most once, lost at most once, ready never after lost,
      nothing at all after lost, and frames sent only in between. */
  lemma CallbackOrder(cfg: Config, events: seq<Event>, i: nat, j: nat)
    requires i < j < |Run(cfg, events).outputs|
    ensures var outs := Run(cfg, events).outputs;
            && (outs[i].OnReady? && outs[j].OnReady? ==> outs[i].gen != outs[j].gen)
            && (outs[i].OnRouteLost? && Visible(outs[j]) ==> outs[i].gen != outs[j].gen)
            && (outs[j].Sent? ==> Happened(outs[..j], Announcing, outs[j].gen))
  {
    RunKeepsInv(cfg, events);
    var outs := Run(cfg, events).outputs;
    assert KindOf(outs[i]) == KindOf(outs[i]);
  }

  lemma RunSnoc(cfg: Config, events: seq<Event>, e: Event)
    ensures Run(cfg, events + [e]) == Step(cfg, Run(cfg, events), e)
  {
    assert (events + [e])[..|events|] == events;
  }

  /** After `close` the route stays closed and no effect of any kind happens, in any continuation. */
  lemma {:induction false} ClosedForever(cfg: Config, events: seq<Event>, later: seq<Event>)
    ensures var closed, r := Run(cfg, events + [Close]), Run(cfg, events + [Close] + later);
            r.phase.Closed? && !r.hasSocket && r.outputs == closed.outputs
    decreases |later|
  {
    hide Run, Step;
    var front := events + [Close];
    RunSnoc(cfg, events, Close);
    CloseCloses(cfg, Run(cfg, events));
    if later == [] {
      assert front + later == front;
    } else {
      var prior, last := later[..|later| - 1], later[|later| - 1];
      ClosedForever(cfg, events, prior);
      assert front + later == (front + prior) + [last];
      RunSnoc(cfg, front + prior, last);
      ClosedStays(cfg, Run(cfg, front + prior), last);
    }
  }

  lemma CloseCloses(cfg: Config, r: Route)
    ensures Step(cfg, r, Close).phase.Closed? && !Step(cfg, r, Close).hasSocket
  {
  }

  lemma ClosedStays(cfg: Config, r: Route, e: Event)
    requires r.phase.Closed? && !r.hasSocket
    ensures var next := Step(cfg, r, e); next.phase.Closed? && !next.hasSocket && next.outputs == r.outputs
  {
  }

  // ---------------------------------------------------------------- reconnect budget

  /** How many sockets the reconnect timer opened in a run. */
  function AutomaticStarts(cfg: Config, events: seq<Event>): nat {
    if events == [] then 0
    else
      var prior := events[..|events| - 1];
      AutomaticStarts(cfg, prior) +
      if events[|events| - 1].ReconnectFires? && Run(cfg, prior).phase.Reconnecting? then 1 else 0
  }

  /** Automatic starts so far, and the one the timer is armed for, are paid from the budget. */
  ghost predicate Paid(r: Route, starts: nat) {
    !r.everReady ==> starts + (if r.phase.Reconnecting? then 1 else 0) <= r.attempts
  }

  lemma StepIsPaid(cfg: Config, r: Route, e: Event, starts: nat)
    requires Budgeted(cfg, r) && Paid(r, starts)
    ensures Paid(Step(cfg, r, e), starts + if e.ReconnectFires? && r.phase.Reconnecting? then 1 else 0)
  {
  }

  /** Until the route has been ready once, every automatic start is paid from the budget. */
  lemma {:induction false} BudgetBeforeFirstReady(cfg: Config, events: seq<Event>)
    ensures var r := Run(cfg, events);
            Paid(r, AutomaticStarts(cfg, events)) && (!r.everReady ==> r.attempts == 0 || r.attempts <= cfg.limit)
  {
    hide Accounted, Published, Step, Paid;
    RunKeepsInv(cfg, events);
    if events == [] {
      NothingToPay();
    } else {
      var prior := events[..|events| - 1];
      BudgetBeforeFirstReady(cfg, prior);
      RunKeepsInv(cfg, prior);
      StepIsPaid(cfg, Run(cfg, prior), events[|events| - 1], AutomaticStarts(cfg, prior));
    }
  }

  lemma NothingToPay()
    ensures Paid(INITIAL, 0)
  {
  }

  /** A route that was ready once never gives up for lack of attempts. */
  lemma NeverExhaustedOnceReady(cfg: Config, events: seq<Event>)
    ensures var r := Run(cfg, events);
            && (r.everReady ==> r.phase != Unavailable(RetryExhausted))
            && (r.everReady && ClosesAsLoss(r.phase) ==> Step(cfg, r, SocketClose(r.gen)).phase.Reconnecting?)
            && (r.phase.Reconnecting? ==> r.attempts >= 1 && r.phase.delay == Backoff(cfg, r.attempts))
  {
    RunKeepsInv(cfg, events);
  }

  /** What changes an unavailable route's state or reason, other than the owner's `negotiate` and
      `close`: only the close event of the current socket, and only after a failed
      authentication or negotiation. `pin_mismatch` and `retry_exhausted` are stable. */
  lemma UnavailableIsLeftOnlyByClose(cfg: Config, events: seq<Event>, e: Event)
    requires Run(cfg, events).phase.Unavailable? && !e.Negotiate? && !e.Close?
    ensures var r := Run(cfg, events);
            Step(cfg, r, e).phase != r.phase <==>
              e == SocketClose(r.gen) && r.phase.reason in {AuthenticationFailed, NegotiationFailed}
  {
    RunKeepsInv(cfg, events);
  }

  /** Short of the owner's `negotiate`, an unavailable route becomes one that reconnects exactly by the
      close event of its socket after a failed authentication or negotiation, with budget left. */
  lemma RevivesExactly(cfg: Config, events: seq<Event>, e: Event)
    requires Run(cfg, events).phase.Unavailable? && !e.Negotiate?
    ensures var r := Run(cfg, events);
            Step(cfg, r, e).phase.Reconnecting? <==>
              && e == SocketClose(r.gen) && r.phase.reason in {AuthenticationFailed, NegotiationFailed}
              && (r.everReady || r.attempts < cfg.limit)
    ensures var r := Run(cfg, events);
            Step(cfg, r, e).phase == Unavailable(RetryExhausted) != r.phase <==>
              && e == SocketClose(r.gen) && r.phase.reason in {AuthenticationFailed, NegotiationFailed}
              && !(r.everReady || r.attempts < cfg.limit)
  {
    RunKeepsInv(cfg, events);
  }

  /** A run in which a rejected authentication is turned back into a reconnect by the same
      socket's close event, although its failure is classified as terminal. */
  lemma TerminalFailureCanRevive(cfg: Config)
    requires cfg.limit >= 1
    ensures var failed := [Negotiate, SocketOpen(1, true), AuthTimeout(1), AuthSettled(1, true, true)];
            && Run(cfg, failed).phase == Unavailable(AuthenticationFailed)
            && Run(cfg, failed + [SocketClose(1)]).phase == Reconnecting(TransportClosed, if cfg.base < cfg.max then cfg.base else cfg.max)
  {
    BackoffDoubles(cfg, 1);
    RunSnoc(cfg, [], Negotiate);
    assert [] + [Negotiate] == [Negotiate];
    RunSnoc(cfg, [Negotiate], SocketOpen(1, true));
    RunSnoc(cfg, [Negotiate] + [SocketOpen(1, true)], AuthTimeout(1));
    RunSnoc(cfg, [Negotiate] + [SocketOpen(1, true)] + [AuthTimeout(1)], AuthSettled(1, true, true));
    var failed := [Negotiate, SocketOpen(1, true), AuthTimeout(1), AuthSettled(1, true, true)];
    assert [Negotiate] + [SocketOpen(1, true)] + [AuthTimeout(1)] + [AuthSettled(1, true, true)] == failed;
    RunSnoc(cfg, failed, SocketClose(1));
  }

  // ---------------------------------------------------------------- progress of an establishment

  /** How many due events the negotiation in progress can still need. */
  function Distance(p: Phase): nat {
    match p
    case Connecting => 5
    case Authenticating(auth) => if auth.AuthAcked? then 3 else if auth.AuthFailed? then 1 else 4
    case Negotiating(control) => if control.ControlWaiting? then 2 else 1
    case _ => 0
  }

  /** The event the current phase is waiting for: an end of the connecting socket or its opening, an
      armed timeout, or the continuation of a settled promise. */
  predicate IsDue(r: Route, e: Event) {
    match r.phase
    case Connecting => (e.SocketOpen? || e.SocketClose? || e.SocketError?) && e.gen == r.gen
    case Authenticating(auth) =>
      if auth.AuthWaiting? then e == AuthTimeout(r.gen) else auth in {AuthAcked, AuthFailed} && e.AuthSettled? && e.gen == r.gen
    case Negotiating(control) =>
      if control.ControlWaiting? then e == ControlTimeout(r.gen)
      else (control.ControlResolved? || control.ControlRejected?) && e == ControlSettled(r.gen)
    case _ => false
  }

  /** No event sets a negotiation back, and a due one brings it on; other than by settling it. */
  lemma StepBringsOn(cfg: Config, r: Route, e: Event)
    requires Inv(cfg, r) && InProgress(r.phase)
    ensures var next := Step(cfg, r, e);
            || Happened(next.outputs, Settling, r.gen)
            || (next.gen == r.gen && InProgress(next.phase)
                && Distance(next.phase) + (if IsDue(r, e) then 1 else 0) <= Distance(r.phase))
  {
    var next := Step(cfg, r, e);
    StepKeepsInv(cfg, r, e);
    StepExtendsOutputs(cfg, r, e);
    HappenedLater(r.outputs, next.outputs, Opening, r.gen);
    if next.gen == r.gen && InProgress(next.phase) {
      StillInProgress(cfg, r, e);
    }
  }

  lemma StillInProgress(cfg: Config, r: Route, e: Event)
    requires InProgress(r.phase) && InProgress(Step(cfg, r, e).phase) && Step(cfg, r, e).gen == r.gen
    ensures Distance(Step(cfg, r, e).phase) + (if IsDue(r, e) then 1 else 0) <= Distance(r.phase)
  {
  }

  /** How many of the later events were due for the negotiation of generation g when they came. */
  ghost function DueEvents(cfg: Config, events: seq<Event>, later: seq<Event>, g: int): nat {
    if later == [] then 0
    else
      var prior, last := later[..|later| - 1], later[|later| - 1];
      var r := Run(cfg, events + prior);
      DueEvents(cfg, events, prior, g) + if r.gen == g && IsDue(r, last) then 1 else 0
  }

  lemma {:induction false} DistanceIsUsedUp(cfg: Config, events: seq<Event>, later: seq<Event>)
    requires InProgress(Run(cfg, events).phase)
    ensures var r, now := Run(cfg, events), Run(cfg, events + later);
            || Happened(now.outputs, Settling, r.gen)
            || (now.gen == r.gen && InProgress(now.phase)
                && Distance(now.phase) + DueEvents(cfg, events, later, r.gen) <= Distance(r.phase))
  {
    hide Inv, Happened, Distance, IsDue, Step;
    if later == [] {
      assert events + later == events;
    } else {
      var prior, last := later[..|later| - 1], later[|later| - 1];
      DistanceIsUsedUp(cfg, events, prior);
      assert events + later == (events + prior) + [last];
      RunSnoc(cfg, events + prior, last);
      RunKeepsInv(cfg, events + prior);
      var before := Run(cfg, events + prior);
      StepExtendsOutputs(cfg, before, last);
      if Happened(before.outputs, Settling, Run(cfg, events).gen) {
        HappenedLater(before.outputs, Step(cfg, before, last).outputs, Settling, Run(cfg, events).gen);
      } else {
        StepBringsOn(cfg, before, last);
      }
    }
  }

  /** An establishment settles at the latest with its fifth due event, whatever else happens. */
  lemma SettlesWithinFive(cfg: Config, events: seq<Event>, later: seq<Event>)
    requires InProgress(Run(cfg, events).phase) && DueEvents(cfg, events, later, Run(cfg, events).gen) >= 5
    ensures Happened(Run(cfg, events + later).outputs, Settling, Run(cfg, events).gen)
  {
    DistanceIsUsedUp(cfg, events, later);
  }
}
