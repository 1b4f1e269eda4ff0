/**
 Conversations of the sealed proxy from their very beginning: the hello, its timers, and everything
 that arrives before the acknowledgement. From the acknowledgement on, a conversation is one of those
 SealedProxy is about.
 */
module SealedGreeting {
  import opened Wrappers
  import opened Text
  import opened Utf8
  import opened SealedProxy

  // ---------------------------------------------------------------- up to the acknowledgement

  /** What a pass over the buffer has behind the frame that authenticates; None if no frame does. */
  function BehindAck(parse: Parser, s: Session): Option<string>
    requires !s.authenticated
    decreases |s.buffer|
  {
    var i := NewlineAt(s.buffer);
    if i < 0 then None
    else
      var h := OnFrame(parse, s.(buffer := s.buffer[i + 1..]), s.buffer[..i]);
      if h.session.authenticated then Some(h.session.buffer)
      else if h.goesOn then BehindAck(parse, h.session)
      else None
  }

  /** A session in which nothing was asked or answered yet. */
  predicate Unasked(s: Session) {
    !s.authenticated && s.alive && s.pending == [] && s.answers == []
  }

  /** A frame before authentication. */
  lemma FrameBeforeAck(parse: Parser, s: Session, raw: string)
    requires Unasked(s)
    ensures var h := OnFrame(parse, s, raw);
            && (h.session.authenticated ==> h.goesOn && h.session == READY.(buffer := s.buffer) && IsAck(parse, raw))
            && (h.goesOn && !h.session.authenticated ==> Unasked(h.session) && h.session.buffer == s.buffer)
            && (!h.goesOn ==> !h.session.alive && !h.session.authenticated && h.session.pending == [] && h.session.answers == [])
            && (h.goesOn ==> Small(raw))
  {
  }

  /** What a pass from s to s' comes to, with `rest` behind the acknowledgement: g is the part of the
      buffer consumed up to the acknowledgement, or else up to what is left buffered. */
  ghost predicate PassedTo(parse: Parser, s: Session, g: string, s': Session, rest: Option<string>) {
    if rest.Some?
    then s' == Drain(parse, READY.(buffer := rest.value)) && s.buffer == g + rest.value && Whole(g)
    else !s'.authenticated && s'.pending == [] && s'.answers == [] && (s'.alive ==> s.buffer == g + s'.buffer && Whole(g))
  }

  lemma PassEnds(parse: Parser, s: Session, s': Session)
    requires !s'.authenticated && s'.pending == [] && s'.answers == [] && (s'.alive ==> s'.buffer == s.buffer)
    ensures PassedTo(parse, s, "", s', None)
  {
    hide Whole;
    NothingIsWhole(parse);
    assert s.buffer == "" + s.buffer;
  }

  lemma PassAcks(parse: Parser, s: Session, i: int)
    requires i == NewlineAt(s.buffer) >= 0 && Small(s.buffer[..i])
    ensures PassedTo(parse, s, s.buffer[..i] + "\n", Drain(parse, READY.(buffer := s.buffer[i + 1..])), Some(s.buffer[i + 1..]))
  {
    hide Whole, Drain, Small, Received;
    var line := s.buffer[..i] + "\n";
    NothingIsWhole(parse);
    FrameIsWhole(parse, s.buffer[..i], "");
    assert line + "" == line;
    assert s.buffer == line + s.buffer[i + 1..];
  }

  lemma PassGoesOn(parse: Parser, s: Session, i: int, t: Session, g: string, s': Session, rest: Option<string>)
    requires i == NewlineAt(s.buffer) >= 0 && Small(s.buffer[..i]) && t.buffer == s.buffer[i + 1..]
    requires PassedTo(parse, t, g, s', rest)
    ensures PassedTo(parse, s, s.buffer[..i] + "\n" + g, s', rest)
  {
    hide Whole, Drain, Small, Received;
    var line := s.buffer[..i] + "\n";
    assert s.buffer == line + t.buffer;
    Associative(line, g, if rest.Some? then rest.value else s'.buffer);
    if Whole(g) { FrameIsWhole(parse, s.buffer[..i], g); }
  }

  lemma BehindFrame(parse: Parser, s: Session)
    requires !s.authenticated && NewlineAt(s.buffer) >= 0
    ensures var i := NewlineAt(s.buffer);
            var h := OnFrame(parse, s.(buffer := s.buffer[i + 1..]), s.buffer[..i]);
            BehindAck(parse, s) ==
              if h.session.authenticated then Some(h.session.buffer)
              else if h.goesOn then BehindAck(parse, h.session)
              else None
  {
  }

  /** A pass over the buffer before authentication. */
  lemma {:induction false} PassBeforeAck(parse: Parser, s: Session) returns (g: string)
    requires Unasked(s)
    ensures PassedTo(parse, s, g, Drain(parse, s), BehindAck(parse, s))
    decreases |s.buffer|
  {
    hide OnFrame, Drain, BehindAck, PassedTo, Small;
    var i := NewlineAt(s.buffer);
    if i < 0 {
      DrainRest(parse, s);
      NothingBehind(parse, s);
      PassEnds(parse, s, Drain(parse, s));
      return "";
    }
    var raw, rest := s.buffer[..i], s.buffer[i + 1..];
    var h := OnFrame(parse, s.(buffer := rest), raw);
    FrameBeforeAck(parse, s.(buffer := rest), raw);
    DrainFrame(parse, s);
    BehindFrame(parse, s);
    if !h.goesOn {
      PassEnds(parse, s, h.session);
      return "";
    }
    if h.session.authenticated {
      PassAcks(parse, s, i);
      return raw + "\n";
    }
    g := PassBeforeAck(parse, h.session);
    PassGoesOn(parse, s, i, h.session, g, Drain(parse, s), BehindAck(parse, s));
    g := raw + "\n" + g;
  }

  lemma NothingBehind(parse: Parser, s: Session)
    requires !s.authenticated && NewlineAt(s.buffer) < 0
    ensures BehindAck(parse, s) == None
  {
  }

  // ---------------------------------------------------------------- the conversation since then

  /** The events since the acknowledgement, of whose chunk only what came behind it counts. */
  function SinceAck(parse: Parser, events: seq<Event>): Option<seq<Event>> {
    if events == [] then None
    else
      var prior, last := SinceAck(parse, events[..|events| - 1]), events[|events| - 1];
      var s := After(parse, FRESH, events[..|events| - 1]);
      if prior.Some? then Some(prior.value + [last])
      else if !s.alive || s.authenticated || !last.Data? then None
      else
        var rest := BehindAck(parse, s.(buffer := s.buffer + last.chunk));
        if rest.Some? then Some([Data(rest.value)]) else None
  }

  /** What the session is, against the events since the acknowledgement: `greeting` is the part of the
      stream up to it. */
  ghost predicate Follows(parse: Parser, s: Session, since: Option<seq<Event>>, stream: string, greeting: string) {
    if since.Some?
    then s == After(parse, READY, since.value) && Whole(greeting) && stream == greeting + Stream(since.value)
    else !s.authenticated && s.pending == [] && s.answers == [] && (s.alive ==> stream == greeting + s.buffer && Whole(greeting))
  }

  lemma StartOfReady(parse: Parser, rest: string)
    ensures After(parse, READY, [Data(rest)]) == Drain(parse, READY.(buffer := rest)) && Stream([Data(rest)]) == rest
  {
    assert [Data(rest)][..0] == [];
    assert "" + rest == rest;
  }

  lemma DataBeforeAck(parse: Parser, s: Session, stream: string, greeting: string, chunk: string) returns (g: string)
    requires Unasked(s) && Whole(greeting) && stream == greeting + s.buffer
    ensures var rest := BehindAck(parse, s.(buffer := s.buffer + chunk));
            Follows(parse, Drain(parse, s.(buffer := s.buffer + chunk)), if rest.Some? then Some([Data(rest.value)]) else None,
                    stream + chunk, g)
  {
    hide Drain, BehindAck, Whole, After, Stream, Received;
    var s1 := s.(buffer := s.buffer + chunk);
    var taken := PassBeforeAck(parse, s1);
    g := greeting + taken;
    Associative(greeting, s.buffer, chunk);
    var rest := BehindAck(parse, s1);
    var left := if rest.Some? then rest.value else Drain(parse, s1).buffer;
    Associative(greeting, taken, left);
    if rest.Some? { StartOfReady(parse, rest.value); }
    if rest.Some? || Drain(parse, s1).alive { WholeSplits(parse, greeting, taken); }
  }

  lemma SinceSnoc(parse: Parser, events: seq<Event>)
    requires events != [] && SinceAck(parse, events[..|events| - 1]).Some?
    ensures SinceAck(parse, events) == Some(SinceAck(parse, events[..|events| - 1]).value + [events[|events| - 1]])
  {
  }

  lemma FollowsOn(parse: Parser, s: Session, es: seq<Event>, stream: string, greeting: string, e: Event)
    requires Follows(parse, s, Some(es), stream, greeting)
    ensures Follows(parse, if s.alive then OnEvent(parse, s, e) else s, Some(es + [e]), stream + if e.Data? then e.chunk else "", greeting)
  {
    AfterSnoc(parse, READY, es, e);
    Associative(greeting, Stream(es), if e.Data? then e.chunk else "");
  }

  /** A conversation is either not authenticated, and then nothing was answered and no call is pending,
      or it is one that starts authenticated, with the events since the acknowledgement. */
  lemma {:induction false} ConversationFollows(parse: Parser, events: seq<Event>) returns (greeting: string)
    ensures Follows(parse, After(parse, FRESH, events), SinceAck(parse, events), Stream(events), greeting)
  {
    hide Drain, Whole, BehindAck;
    NothingIsWhole(parse);
    if events == [] {
      assert "" == "" + "";
      return "";
    }
    var prior, e := events[..|events| - 1], events[|events| - 1];
    greeting := ConversationFollows(parse, prior);
    var s := After(parse, FRESH, prior);
    if SinceAck(parse, prior).Some? {
      FollowsOn(parse, s, SinceAck(parse, prior).value, Stream(prior), greeting, e);
    } else if e.Data? && s.alive {
      greeting := DataBeforeAck(parse, s, Stream(prior), greeting, e.chunk);
    } else {
      assert Stream(prior) + "" == Stream(prior);
    }
  }

  /** From the fresh session on, with its hellos and their timers, and for every chunking and
      interleaving: once authenticated, the k-th reply answers the k-th call, the rest stay queued, and
      the proxy dies exactly if a frame is too large, exactly if the host has since then at no time
      replied more often than it was called, nor with a null. Before, nothing is answered or pending. */
  lemma RepliesAnswerFromHello(parse: Parser, events: seq<Event>)
    ensures var s, since := After(parse, FRESH, events), SinceAck(parse, events);
            && (s.authenticated <==> since.Some?)
            && (since.None? ==> s.answers == [] && s.pending == [])
            && (since.Some? ==>
                  (InStep(parse, s, Stream(since.value), Calls(since.value)) <==> Solicited(parse, since.value)))
            && (since.Some? && Solicited(parse, since.value) ==>
                  AnsweredEach(s.answers, Calls(since.value), Received(parse, Stream(since.value))))
  {
    hide InStep, Solicited, AnsweredEach;
    var greeting := ConversationFollows(parse, events);
    if SinceAck(parse, events).Some? {
      RepliesAnswerInOrder(parse, SinceAck(parse, events).value);
      ReadyStaysAuthenticated(parse, SinceAck(parse, events).value);
    }
  }

  lemma {:induction false} ReadyStaysAuthenticated(parse: Parser, events: seq<Event>)
    ensures After(parse, READY, events).authenticated
  {
    hide Drain;
    if events != [] {
      var prior := events[..|events| - 1];
      ReadyStaysAuthenticated(parse, prior);
      var s := After(parse, READY, prior);
      if s.alive && events[|events| - 1].Data? {
        var c := DrainTakes(parse, s.(buffer := s.buffer + events[|events| - 1].chunk));
        TakesFacts(parse, s.(buffer := s.buffer + events[|events| - 1].chunk), c, OnEvent(parse, s, events[|events| - 1]));
      }
    }
  }

  // ---------------------------------------------------------------- what settles an authentication

  predicate Greets(parse: Parser, frame: string) {
    !Blank(frame) && parse(frame).Record? && parse(frame).ok == Some(true) && parse(frame).hello
  }

  predicate Refuses(parse: Parser, frame: string) {
    !Blank(frame) && parse(frame).Record? && !(parse(frame).ok == Some(true) && parse(frame).hello)
    && (parse(frame).ok == Some(false) || parse(frame).error != Undefined)
  }

  predicate IsNull(parse: Parser, frame: string) {
    !Blank(frame) && parse(frame).NullValue?
  }

  /** A frame that says nothing about an authentication. */
  predicate Idle(parse: Parser, frame: string) {
    !Greets(parse, frame) && !Refuses(parse, frame) && !IsNull(parse, frame)
  }

  /** The first frame that is not idle, if none up to it is too large. */
  ghost predicate Decisive(parse: Parser, frames: seq<string>, i: nat) {
    && i < |frames| && !Idle(parse, frames[i])
    && (forall j :: 0 <= j < i ==> Idle(parse, frames[j]))
    && (forall j :: 0 <= j <= i ==> Small(frames[j]))
  }

  /** What the session knows about authentication, but for the buffer. */
  predicate SameStanding(s: Session, s': Session) {
    s'.authenticated == s.authenticated && s'.awaiting == s.awaiting && s'.promised == s.promised && s'.verdict == s.verdict
  }

  lemma FrameStanding(parse: Parser, s: Session, raw: string)
    requires s.authenticated
    ensures SameStanding(s, OnFrame(parse, s, raw).session) && OnFrame(parse, s, raw).session.buffer == s.buffer
  {
    hide Small, Trim;
  }

  lemma {:induction false} AuthenticatedStanding(parse: Parser, s: Session)
    requires s.authenticated
    ensures SameStanding(s, Drain(parse, s))
    decreases |s.buffer|
  {
    hide OnFrame, Drain, Small;
    var i := NewlineAt(s.buffer);
    if i < 0 {
      DrainRest(parse, s);
    } else {
      DrainFrame(parse, s);
      FrameStanding(parse, s.(buffer := s.buffer[i + 1..]), s.buffer[..i]);
      var h := OnFrame(parse, s.(buffer := s.buffer[i + 1..]), s.buffer[..i]);
      if h.goesOn { AuthenticatedStanding(parse, h.session); }
    }
  }

  lemma FrameFacts(parse: Parser, s: Session, raw: string)
    requires !s.authenticated && s.alive && Small(raw)
    ensures var h := OnFrame(parse, s, raw);
            if !s.awaiting || Idle(parse, raw) then h == Handled(s, true)
            else if Greets(parse, raw) then h == Handled(s.(authenticated := true, awaiting := false, promised := false, verdict := Some(true)), true)
            else if Refuses(parse, raw) then h == Handled(s.(awaiting := false, promised := false, verdict := Some(false)), true)
            else h == Handled(s.(alive := false), false)
  {
    hide Small, Trim;
    TrimmedAway(raw);
  }

  /** Without an authentication in progress the handler only consumes the frames: none of them is kept
      for later, and none changes anything. */
  lemma {:induction false} UnawaitedIgnored(parse: Parser, s: Session)
    requires !s.authenticated && s.alive && !s.awaiting
    ensures var s' := Drain(parse, s);
            && SameStanding(s, s') && s'.pending == s.pending && s'.answers == s.answers
            && (s'.alive <==> Bounded(s.buffer)) && (s'.alive ==> s'.buffer == Tail(s.buffer))
    decreases |s.buffer|
  {
    hide OnFrame, Drain, Bounded, Tail, Small;
    var i := NewlineAt(s.buffer);
    if i < 0 {
      DrainRest(parse, s);
      NoFrame(parse, s.buffer);
    } else {
      DrainFrame(parse, s);
      if Small(s.buffer[..i]) {
        ReadableFrame(parse, s.buffer, i);
        FrameFacts(parse, s.(buffer := s.buffer[i + 1..]), s.buffer[..i]);
        UnawaitedIgnored(parse, s.(buffer := s.buffer[i + 1..]));
      } else {
        UnreadableFrame(parse, s.buffer, i);
        TooLarge(parse, s.(buffer := s.buffer[i + 1..]), s.buffer[..i]);
      }
    }
  }

  lemma TooLarge(parse: Parser, s: Session, raw: string)
    requires !Small(raw)
    ensures OnFrame(parse, s, raw) == Handled(s.(alive := false), false)
  {
  }

  lemma DecisiveBehind(parse: Parser, first: string, frames: seq<string>, i: nat)
    requires Decisive(parse, [first] + frames, i)
    ensures Small(first)
    ensures if i == 0 then !Idle(parse, first) else Idle(parse, first) && Decisive(parse, frames, i - 1)
  {
    hide Idle, Small;
    var all := [first] + frames;
    assert all[0] == first && forall j :: 0 <= j < |frames| ==> frames[j] == all[j + 1];
  }

  /** An awaited authentication is settled by the first frame that says anything about one, and by no
      other: a greeting authenticates, a refusal or an error fails it, a null ends the process. */
  lemma {:induction false} FirstWordSettles(parse: Parser, s: Session, i: nat)
    requires !s.authenticated && s.alive && s.awaiting && Decisive(parse, Frames(s.buffer), i)
    ensures var s', frame := Drain(parse, s), Frames(s.buffer)[i];
            && (s'.authenticated <==> Greets(parse, frame))
            && (Greets(parse, frame) ==> !s'.awaiting && !s'.promised && s'.verdict == Some(true))
            && (Refuses(parse, frame) ==> !s'.awaiting && !s'.promised && s'.verdict == Some(false))
            && (IsNull(parse, frame) ==> !s'.alive && SameStanding(s, s'))
    decreases |s.buffer|
  {
    hide OnFrame, Drain, Frames, Decisive, Small, Greets, Refuses, IsNull, Idle, Bounded, Tail, NewlineAt;
    var k := NewlineAt(s.buffer);
    if k < 0 { NoFrames(parse, s.buffer, i); }
    var raw, rest := s.buffer[..k], s.buffer[k + 1..];
    FirstFrame(s.buffer, k);
    DecisiveBehind(parse, raw, Frames(rest), i);
    DrainFrame(parse, s);
    FrameFacts(parse, s.(buffer := rest), raw);
    WordsDiffer(parse, raw);
    var h := OnFrame(parse, s.(buffer := rest), raw);
    if i > 0 {
      FirstWordSettles(parse, h.session, i - 1);
    } else if Greets(parse, raw) {
      AuthenticatedStanding(parse, h.session);
    } else if Refuses(parse, raw) {
      UnawaitedIgnored(parse, h.session);
    }
  }

  lemma NoFrames(parse: Parser, buffer: string, i: nat)
    requires Decisive(parse, Frames(buffer), i)
    ensures NewlineAt(buffer) >= 0
  {
    if NewlineAt(buffer) < 0 { OneLine(buffer); }
  }

  lemma WordsDiffer(parse: Parser, frame: string)
    ensures Greets(parse, frame) ==> !Refuses(parse, frame) && !IsNull(parse, frame)
    ensures Refuses(parse, frame) ==> !IsNull(parse, frame)
    ensures Idle(parse, frame) <==> !Greets(parse, frame) && !Refuses(parse, frame) && !IsNull(parse, frame)
  {
  }

  /** One authentication at a time: a second request shares it, its own timer fails it, and after that
      another one can be awaited; a timer with nothing awaited does nothing. */
  lemma AuthenticationCycle(parse: Parser, s: Session, own: bool)
    requires s.alive && !s.authenticated && !s.promised && !s.awaiting
    ensures var asked := After(parse, s, [Hello]);
            && asked == s.(awaiting := true, promised := true)
            && After(parse, s, [Hello, Hello]) == asked
            && After(parse, s, [Hello, HelloTimeout(true)]) == s.(verdict := Some(false))
            && After(parse, s, [Hello, HelloTimeout(true), Hello]).awaiting
            && After(parse, s, [HelloTimeout(own)]) == s
  {
    hide After;
    AfterNone(parse, s);
    AfterSnoc(parse, s, [], Hello);
    AfterSnoc(parse, s, [], HelloTimeout(own));
    assert [] + [Hello] == [Hello] && [] + [HelloTimeout(own)] == [HelloTimeout(own)];
    AfterSnoc(parse, s, [Hello], Hello);
    AfterSnoc(parse, s, [Hello], HelloTimeout(true));
    assert [Hello] + [Hello] == [Hello, Hello] && [Hello] + [HelloTimeout(true)] == [Hello, HelloTimeout(true)];
    AfterSnoc(parse, s, [Hello, HelloTimeout(true)], Hello);
    assert [Hello, HelloTimeout(true)] + [Hello] == [Hello, HelloTimeout(true), Hello];
  }

  /** While every frame is idle it goes on being awaited. */
  lemma {:induction false} IdleLeavesAwaited(parse: Parser, s: Session)
    requires !s.authenticated && s.alive && Bounded(s.buffer)
    requires forall j :: 0 <= j < |Frames(s.buffer)| ==> Idle(parse, Frames(s.buffer)[j])
    ensures Drain(parse, s) == s.(buffer := Tail(s.buffer))
    decreases |s.buffer|
  {
    hide OnFrame, Drain, Frames, Bounded, Tail, Idle, Small;
    var i := NewlineAt(s.buffer);
    if i < 0 {
      DrainRest(parse, s);
      NoFrame(parse, s.buffer);
    } else {
      var rest := s.buffer[i + 1..];
      DrainFrame(parse, s);
      FirstFrame(s.buffer, i);
      assert Frames(s.buffer)[0] == s.buffer[..i];
      assert forall j :: 0 <= j < |Frames(rest)| ==> Frames(rest)[j] == Frames(s.buffer)[j + 1];
      if !Small(s.buffer[..i]) { UnreadableFrame(parse, s.buffer, i); }
      ReadableFrame(parse, s.buffer, i);
      FrameFacts(parse, s.(buffer := rest), s.buffer[..i]);
      IdleLeavesAwaited(parse, s.(buffer := rest));
    }
  }

  // ---------------------------------------------------------------- a timer that outlives its authentication

  /** An authentication is promised that no greeting can settle any more. */
  predicate Stalled(s: Session) {
    !s.authenticated && !s.awaiting && s.promised
  }

  lemma {:induction false} DrainStaysStalled(parse: Parser, s: Session)
    requires Stalled(s)
    ensures Stalled(Drain(parse, s))
    decreases |s.buffer|
  {
    var i := NewlineAt(s.buffer);
    if i >= 0 {
      var h := OnFrame(parse, s.(buffer := s.buffer[i + 1..]), s.buffer[..i]);
      if h.goesOn { DrainStaysStalled(parse, h.session); }
    }
  }

  /** Whatever the host sends and whoever calls, such a proxy never authenticates. */
  lemma {:induction false} StalledForever(parse: Parser, s: Session, events: seq<Event>)
    requires Stalled(s)
    ensures Stalled(After(parse, s, events))
  {
    hide Drain;
    if events != [] {
      var prior, e := events[..|events| - 1], events[|events| - 1];
      StalledForever(parse, s, prior);
      if e.Data? {
        var t := After(parse, s, prior);
        DrainStaysStalled(parse, t.(buffer := t.buffer + e.chunk));
      }
    }
  }

  /** A promised authentication is either awaited or stalled, and neither once authenticated. */
  predicate Paired(s: Session) {
    (s.awaiting ==> s.promised) && (s.promised ==> !s.authenticated && (s.awaiting || Stalled(s)))
  }

  lemma {:induction false} DrainStaysPaired(parse: Parser, s: Session)
    requires Paired(s)
    ensures Paired(Drain(parse, s)) && (Stalled(Drain(parse, s)) <==> Stalled(s))
    decreases |s.buffer|
  {
    var i := NewlineAt(s.buffer);
    if i >= 0 {
      var t := s.(buffer := s.buffer[i + 1..]);
      var h := OnFrame(parse, t, s.buffer[..i]);
      FrameStaysPaired(parse, t, s.buffer[..i]);
      if h.goesOn { DrainStaysPaired(parse, h.session); }
    }
  }

  lemma FrameStaysPaired(parse: Parser, s: Session, raw: string)
    requires Paired(s)
    ensures Paired(OnFrame(parse, s, raw).session) && (Stalled(OnFrame(parse, s, raw).session) <==> Stalled(s))
  {
  }

  /** The timer of an earlier authentication has fired while a later one was awaited. */
  predicate StaleTimerFired(parse: Parser, events: seq<Event>) {
    events != [] &&
      var prior := events[..|events| - 1];
      var s := After(parse, FRESH, prior);
      StaleTimerFired(parse, prior) || (events[|events| - 1] == HelloTimeout(false) && s.alive && s.awaiting)
  }

  /** A proxy has stalled exactly if such a timer has fired. */
  lemma {:induction false} StalledExactly(parse: Parser, events: seq<Event>)
    ensures Stalled(After(parse, FRESH, events)) <==> StaleTimerFired(parse, events)
    ensures Paired(After(parse, FRESH, events))
  {
    hide Drain;
    if events != [] {
      var prior, e := events[..|events| - 1], events[|events| - 1];
      StalledExactly(parse, prior);
      if e.Data? {
        var t := After(parse, FRESH, prior);
        DrainStaysPaired(parse, t.(buffer := t.buffer + e.chunk));
      }
    }
  }

  function Refuse(line: string): Payload {
    Record(Some(false), false, Undefined, Undefined)
  }

  lemma RefusedHello(s: Session)
    requires s == FRESH.(awaiting := true, promised := true, buffer := "n\n")
    ensures Drain(Refuse, s) == FRESH.(verdict := Some(false))
  {
    assert s.buffer[0] == 'n' && s.buffer[1] == '\n';
    assert NewlineAt(s.buffer) == 1 by { assert s.buffer[1..][0] == '\n'; }
    assert s.buffer[..1] == "n" && s.buffer[2..] == "";
    assert Bytes("n") == 1 by { assert "n"[..0] == ""; }
    assert Trim("n") == "n";
  }

  /** A refused hello, a second one, and then the timer of the first: the second can never succeed. */
  lemma StaleTimeoutStalls()
    ensures Stalled(After(Refuse, FRESH, [Hello, Data("n\n"), Hello, HelloTimeout(false)]))
  {
    hide Drain;
    var e := [Hello, Data("n\n"), Hello, HelloTimeout(false)];
    AfterSnoc(Refuse, FRESH, [], Hello);
    assert [] + [Hello] == e[..1];
    RefusedHello(FRESH.(awaiting := true, promised := true, buffer := "n\n"));
    AfterSnoc(Refuse, FRESH, e[..1], Data("n\n"));
    assert e[..1] + [Data("n\n")] == e[..2] && "" + "n\n" == "n\n";
    AfterSnoc(Refuse, FRESH, e[..2], Hello);
    assert e[..2] + [Hello] == e[..3];
    AfterSnoc(Refuse, FRESH, e[..3], HelloTimeout(false));
    assert e[..3] + [HelloTimeout(false)] == e;
  }
}
