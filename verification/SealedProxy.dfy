/**
 The proxy between an agent and the host's sealed tool service: replies arrive as newline-terminated
 frames in chunks of any size, and the k-th reply answers the k-th forwarded call.
 */
module SealedProxy {
  import opened Wrappers
  import opened Text
  import opened Utf8

  const FRAME_MAX_BYTES := 65_536

  predicate Small(line: string) {
    Bytes(line) <= FRAME_MAX_BYTES
  }

  datatype Field = Undefined | Text(text: string) | Value(json: string)

  /** What parsing a line gives: the members of the record that are looked at. */
  datatype Payload =
    | Malformed
    | NullValue
    | Record(ok: Option<bool>, hello: bool, result: Field, error: Field)

  type Parser = string -> Payload

  datatype Answer = Result(text: string) | Failure(message: string)

  datatype Answered = Answered(id: int, answer: Answer)

  function AnswerOf(p: Payload): Answer
    requires p.Record?
  {
    if p.ok == Some(true) && p.result.Text? then Result(p.result.text)
    else if p.ok == Some(true) && p.result.Value? then Result(p.result.json)
    else Failure(if p.error.Text? then p.error.text else "sealed_tool_call_failed")
  }

  /** What the agent is told for a reply: its result if it says ok and has one, as the text it is or as
      JSON; otherwise an error, with the text of the reply's error if that is a text. */
  predicate IsAnswerTo(a: Answer, p: Payload)
    requires p.Record?
  {
    && (a.Result? <==> p.ok == Some(true) && p.result != Undefined)
    && (a.Result? ==> p.result == Field.Text(a.text) || p.result == Value(a.text))
    && (a.Failure? && p.error.Text? ==> a.message == p.error.text)
    && (a.Failure? && !p.error.Text? ==> a.message == "sealed_tool_call_failed")
  }

  /** The relation leaves no choice. */
  lemma AnswerMeans(p: Payload, a: Answer)
    requires p.Record?
    ensures IsAnswerTo(a, p) <==> a == AnswerOf(p)
  {
  }

  /** `promised` is whether there is an authentication that concurrent calls share, `awaiting` whether a
      greeting would settle it, and `verdict` how the last one was settled. */
  datatype Session = Session(buffer: string, authenticated: bool, awaiting: bool, promised: bool, verdict: Option<bool>,
                             pending: seq<int>, answers: seq<Answered>, alive: bool)

  /** Index of the first newline, or -1. */
  function NewlineAt(s: string): (i: int)
    ensures -1 <= i < |s|
    ensures i >= 0 ==> s[i] == '\n' && '\n' !in s[..i]
    ensures i < 0 ==> '\n' !in s
  {
    if s == "" then -1
    else if s[0] == '\n' then 0
    else
      var i := NewlineAt(s[1..]);
      assert s == [s[0]] + s[1..];
      assert i >= 0 ==> s[..i + 1] == [s[0]] + s[1..][..i];
      if i < 0 then -1 else i + 1
  }

  /** One frame: what the session becomes, and whether the handler goes on to the next one. */
  datatype Handled = Handled(session: Session, goesOn: bool)

  /** The authentication in progress ends. */
  function Settled(s: Session, ok: bool): Session {
    s.(awaiting := false, promised := false, verdict := Some(ok))
  }

  function OnGreeting(s: Session, p: Payload): Handled
    requires !p.Malformed?
  {
    if !s.awaiting then Handled(s, true)
    else if p.NullValue? then Handled(s.(alive := false), false)
    else if p.ok == Some(true) && p.hello then Handled(Settled(s.(authenticated := true), true), true)
    else if p.ok == Some(false) || !p.error.Undefined? then Handled(Settled(s, false), true)
    else Handled(s, true)
  }

  function OnFrame(parse: Parser, s: Session, raw: string): Handled {
    if !Small(raw) then Handled(s.(alive := false), false)
    else if Trim(raw) == "" then Handled(s, true)
    else
      var p := parse(raw);
      if p.Malformed? then Handled(s, true)
      else if !s.authenticated then OnGreeting(s, p)
      else if s.pending == [] then Handled(s, false)
      else if p.NullValue? then Handled(s.(pending := s.pending[1..], alive := false), false)
      else Handled(s.(pending := s.pending[1..], answers := s.answers + [Answered(s.pending[0], AnswerOf(p))]), true)
  }

  /** Every frame in the buffer, then the bound on what is left. */
  function Drain(parse: Parser, s: Session): Session
    decreases |s.buffer|
  {
    var i := NewlineAt(s.buffer);
    if i < 0 then s.(alive := s.alive && Small(s.buffer))
    else
      var h := OnFrame(parse, s.(buffer := s.buffer[i + 1..]), s.buffer[..i]);
      if h.goesOn then Drain(parse, h.session) else h.session
  }

  /** Nothing said and nothing received yet. */
  const FRESH := Session("", false, false, false, None, [], [], true)

  function OnHello(s: Session): Session {
    if s.authenticated || s.promised then s else s.(awaiting := true, promised := true)
  }

  function OnHelloTimeout(s: Session, own: bool): Session {
    if !s.awaiting then s else if own then Settled(s, false) else s.(awaiting := false)
  }

  /** Calls are forwarded once authenticated; before, they wait for that or are answered with an error. */
  function OnCall(s: Session, id: int): Session {
    if s.authenticated then s.(pending := s.pending + [id]) else s
  }

  lemma DrainFrame(parse: Parser, s: Session)
    requires NewlineAt(s.buffer) >= 0
    ensures var i := NewlineAt(s.buffer);
            var h := OnFrame(parse, s.(buffer := s.buffer[i + 1..]), s.buffer[..i]);
            Drain(parse, s) == if h.goesOn then Drain(parse, h.session) else h.session
  {
  }

  lemma DrainRest(parse: Parser, s: Session)
    requires NewlineAt(s.buffer) < 0
    ensures Drain(parse, s) == s.(alive := s.alive && Small(s.buffer))
  {
  }

  class Proxy {
    const parse: Parser
    var socketBuffer: string
    var authenticated: bool
    var awaiting: bool
    var promised: bool
    var verdict: Option<bool>
    var pendingCalls: seq<int>
    var answers: seq<Answered>
    var alive: bool

    function View(): Session
      reads this
    {
      Session(socketBuffer, authenticated, awaiting, promised, verdict, pendingCalls, answers, alive)
    }

    constructor (parse: Parser)
      ensures this.parse == parse && View() == FRESH
    {
      this.parse := parse;
      socketBuffer, authenticated, awaiting, promised, verdict := "", false, false, false, None;
      pendingCalls, answers, alive := [], [], true;
    }

    /** One authentication at a time: others share its promise. */
    method Authenticate()
      modifies `awaiting, `promised
      ensures View() == OnHello(old(View()))
    {
      if authenticated || promised { return; }
      awaiting, promised := true, true;
    }

    /** The timer of an authentication, which settles its own promise only: `own` is whether that is the
        one in progress. An older one's timer still takes away what a greeting would settle. */
    method AuthenticationTimeout(own: bool)
      modifies `awaiting, `promised, `verdict
      ensures View() == OnHelloTimeout(old(View()), own)
    {
      if awaiting {
        awaiting := false;
        if own { promised, verdict := false, Some(false); }
      }
    }

    /** A tool call of the agent whose turn has come. */
    method ForwardToolCall(id: int)
      modifies `pendingCalls
      ensures View() == OnCall(old(View()), id)
    {
      if !authenticated { return; }
      pendingCalls := pendingCalls + [id];
    }

    /** The socket's data handler. */
    method OnData(chunk: string)
      requires alive
      modifies this
      ensures View() == Drain(parse, old(View()).(buffer := old(socketBuffer) + chunk))
      ensures old(authenticated) ==> PassAnswers(parse, old(View()).(buffer := old(socketBuffer) + chunk), View())
      ensures !old(authenticated) && old(pendingCalls) == [] ==> answers == old(answers)
    {
      hide OnFrame, Drain, PassAnswers, NewlineAt, Bytes, Trim;
      socketBuffer := socketBuffer + chunk;
      ghost var start := View();
      PassFacts(parse, start);
      var newline := NewlineAt(socketBuffer);
      while newline >= 0
        invariant alive && newline == NewlineAt(socketBuffer)
        invariant Drain(parse, View()) == Drain(parse, start)
        decreases |socketBuffer|
      {
        DrainFrame(parse, View());
        var raw := socketBuffer[..newline];
        socketBuffer := socketBuffer[newline + 1..];
        newline := NewlineAt(socketBuffer);
        var goesOn := HandleFrame(raw);
        if !goesOn { return; }
      }
      DrainRest(parse, View());
      if Bytes(socketBuffer) > FRAME_MAX_BYTES {
        alive := false;
      }
    }

    /** The body of the handler's loop; false if it leaves the loop. */
    method HandleFrame(raw: string) returns (goesOn: bool)
      requires alive
      modifies `authenticated, `awaiting, `promised, `verdict, `pendingCalls, `answers, `alive
      ensures Handled(View(), goesOn) == OnFrame(parse, old(View()), raw)
      ensures goesOn ==> alive
    {
      if Bytes(raw) > FRAME_MAX_BYTES {
        alive := false;
        return false;
      }
      if Trim(raw) == "" { return true; }
      var payload := parse(raw);
      if payload.Malformed? { return true; }
      if !authenticated {
        goesOn := HandleGreeting(payload);
        return;
      }
      if pendingCalls == [] { return false; }
      var id := pendingCalls[0];
      pendingCalls := pendingCalls[1..];
      if payload.NullValue? {
        alive := false;
        return false;
      }
      answers := answers + [Answered(id, AnswerOf(payload))];
      return true;
    }

    /** Before authentication only the outcome of a pending hello counts. */
    method HandleGreeting(payload: Payload) returns (goesOn: bool)
      requires alive && !authenticated && !payload.Malformed?
      modifies `authenticated, `awaiting, `promised, `verdict, `alive
      ensures Handled(View(), goesOn) == OnGreeting(old(View()), payload)
      ensures goesOn ==> alive
    {
      if !awaiting { return true; }
      if payload.NullValue? {
        alive := false;
        return false;
      }
      if payload.ok == Some(true) && payload.hello {
        awaiting, promised, authenticated, verdict := false, false, true, Some(true);
      } else if payload.ok == Some(false) || !payload.error.Undefined? {
        awaiting, promised, verdict := false, false, Some(false);
      }
      return true;
    }
  }

  // ---------------------------------------------------------------- the replies in a stream

  /** The frames of a stream: its lines but the last, which is not terminated yet. */
  function Frames(stream: string): seq<string> {
    SplitLines(stream)[..|SplitLines(stream)| - 1]
  }

  function Tail(stream: string): string {
    SplitLines(stream)[|SplitLines(stream)| - 1]
  }

  /** The frames before the first that is too large. */
  function Readable(frames: seq<string>): seq<string> {
    if frames == [] || !Small(frames[0]) then [] else [frames[0]] + Readable(frames[1..])
  }

  predicate IsReply(parse: Parser, frame: string) {
    Trim(frame) != "" && !parse(frame).Malformed?
  }

  function Replies(parse: Parser, frames: seq<string>): seq<Payload> {
    if frames == [] then []
    else (if IsReply(parse, frames[0]) then [parse(frames[0])] else []) + Replies(parse, frames[1..])
  }

  /** The replies that reach the correlation queue. */
  function Received(parse: Parser, stream: string): seq<Payload> {
    Replies(parse, Readable(Frames(stream)))
  }

  ghost predicate NoNull(ps: seq<Payload>) {
    forall i :: 0 <= i < |ps| ==> ps[i].Record?
  }

  /** The k-th reply answers the k-th call. */
  function Correlated(calls: seq<int>, replies: seq<Payload>): (r: seq<Answered>)
    requires |replies| <= |calls| && NoNull(replies)
    ensures |r| == |replies|
    ensures forall k :: 0 <= k < |replies| ==> r[k] == Answered(calls[k], AnswerOf(replies[k]))
  {
    seq(|replies|, k requires 0 <= k < |replies| => Answered(calls[k], AnswerOf(replies[k])))
  }

  /** No frame and no unfinished frame exceeds the bound. */
  ghost predicate Bounded(stream: string) {
    AllSmall(Frames(stream)) && Small(Tail(stream))
  }

  ghost predicate AllSmall(frames: seq<string>) {
    forall i :: 0 <= i < |frames| ==> Small(frames[i])
  }

  lemma FirstFrame(s: string, i: int)
    requires i == NewlineAt(s) >= 0
    ensures Frames(s) == [s[..i]] + Frames(s[i + 1..]) && Tail(s) == Tail(s[i + 1..])
  {
    hide SplitLines;
    FirstLine(s[..i], s[i + 1..]);
    assert s == s[..i] + "\n" + s[i + 1..];
  }

  lemma NoFrame(parse: Parser, s: string)
    requires NewlineAt(s) < 0
    ensures Received(parse, s) == [] && Tail(s) == s && (Bounded(s) <==> Small(s))
  {
    OneLine(s);
  }

  lemma ReadableFrame(parse: Parser, s: string, i: int)
    requires i == NewlineAt(s) >= 0 && Small(s[..i])
    ensures var rest := s[i + 1..];
            Received(parse, s) == (if IsReply(parse, s[..i]) then [parse(s[..i])] else []) + Received(parse, rest)
            && (Bounded(s) <==> Bounded(rest)) && Tail(s) == Tail(rest)
  {
    FirstFrame(s, i);
    var frames, more := Frames(s), Frames(s[i + 1..]);
    assert frames[0] == s[..i] && frames[1..] == more;
    var readable := Readable(frames);
    assert readable[0] == s[..i] && readable[1..] == Readable(more);
    assert forall j :: 0 <= j < |more| ==> more[j] == frames[j + 1];
  }

  /** Which frame is a reply: none is received from a frame that exceeds 64 KiB on; a blank frame and one
      that is no JSON count for nothing; every other one is a reply. */
  lemma ReceivedFrame(parse: Parser, frame: string, rest: string)
    requires '\n' !in frame
    ensures Received(parse, frame + "\n" + rest) ==
              if Bytes(frame) > 65_536 then []
              else if Blank(frame) || parse(frame).Malformed? then Received(parse, rest)
              else [parse(frame)] + Received(parse, rest)
  {
    var s := frame + "\n" + rest;
    assert s[|frame|] == '\n' && s[..|frame|] == frame && s[|frame| + 1..] == rest;
    NewlineIsFirst(s, |frame|);
    TrimmedAway(frame);
    if Small(frame) { ReadableFrame(parse, s, |frame|); } else { UnreadableFrame(parse, s, |frame|); }
    hide Received;
    assert [] + Received(parse, rest) == Received(parse, rest);
  }

  /** Nothing is received from an unfinished frame. */
  lemma ReceivedNothing(parse: Parser, rest: string)
    requires '\n' !in rest
    ensures Received(parse, rest) == []
  {
    OneLine(rest);
  }

  lemma UnreadableFrame(parse: Parser, s: string, i: int)
    requires i == NewlineAt(s) >= 0 && !Small(s[..i])
    ensures Received(parse, s) == [] && !Bounded(s)
  {
    FirstFrame(s, i);
    assert Frames(s)[0] == s[..i];
  }

  lemma CorrelatedSplits(calls: seq<int>, p: Payload, replies: seq<Payload>)
    requires |replies| < |calls| && p.Record? && NoNull(replies)
    ensures NoNull([p] + replies)
    ensures Correlated(calls, [p] + replies) == [Answered(calls[0], AnswerOf(p))] + Correlated(calls[1..], replies)
  {
    assert forall i :: 1 <= i < |[p] + replies| ==> ([p] + replies)[i] == replies[i - 1];
  }

  lemma NoNullSplits(p: Payload, replies: seq<Payload>)
    requires NoNull([p] + replies)
    ensures p.Record? && NoNull(replies)
  {
    assert ([p] + replies)[0] == p;
    assert forall i :: 0 <= i < |replies| ==> replies[i] == ([p] + replies)[i + 1];
  }

  /** What one pass over the buffer of session s leaves, if all replies in it are solicited. */
  ghost predicate DrainedTo(parse: Parser, s: Session, s': Session) {
    var replies := Received(parse, s.buffer);
    && |replies| <= |s.pending| && NoNull(replies)
    && s'.answers == s.answers + Correlated(s.pending, replies)
    && s'.pending == s.pending[|replies|..]
    && (s'.alive <==> Bounded(s.buffer))
    && (s'.alive ==> s'.buffer == Tail(s.buffer))
    && s'.authenticated
  }

  lemma QueueShifts(s: Session, p: Payload, replies: seq<Payload>, s': Session)
    requires |replies| < |s.pending| && p.Record? && NoNull(replies)
    requires s'.answers == s.answers + [Answered(s.pending[0], AnswerOf(p))] + Correlated(s.pending[1..], replies)
    requires s'.pending == s.pending[1..][|replies|..]
    ensures NoNull([p] + replies)
    ensures s'.answers == s.answers + Correlated(s.pending, [p] + replies)
    ensures s'.pending == s.pending[|[p] + replies|..]
  {
    CorrelatedSplits(s.pending, p, replies);
    Associative(s.answers, [Answered(s.pending[0], AnswerOf(p))], Correlated(s.pending[1..], replies));
    TailOfTail(s.pending, |replies|);
  }

  lemma Associative<T>(a: seq<T>, b: seq<T>, c: seq<T>)
    ensures a + b + c == a + (b + c)
  {
  }

  lemma TailOfTail<T>(a: seq<T>, n: nat)
    requires n < |a|
    ensures a[1..][n..] == a[n + 1..]
  {
  }

  lemma ReplyDrained(parse: Parser, s: Session, i: int, s': Session)
    requires i == NewlineAt(s.buffer) >= 0 && Small(s.buffer[..i]) && IsReply(parse, s.buffer[..i])
    requires s.pending != [] && parse(s.buffer[..i]).Record?
    requires DrainedTo(parse, s.(buffer := s.buffer[i + 1..], pending := s.pending[1..],
                                 answers := s.answers + [Answered(s.pending[0], AnswerOf(parse(s.buffer[..i])))]), s')
    ensures DrainedTo(parse, s, s')
  {
    ReadableFrame(parse, s.buffer, i);
    hide Received, Bounded, Tail, NoNull, Correlated, Small, IsReply, AnswerOf;
    QueueShifts(s, parse(s.buffer[..i]), Received(parse, s.buffer[i + 1..]), s');
  }

  /** One pass over a buffer whose replies are all solicited. */
  lemma {:induction false} DrainAnswers(parse: Parser, s: Session)
    requires s.authenticated && s.alive
    requires |Received(parse, s.buffer)| <= |s.pending| && NoNull(Received(parse, s.buffer))
    ensures DrainedTo(parse, s, Drain(parse, s))
    decreases |s.buffer|
  {
    var i := NewlineAt(s.buffer);
    if i < 0 {
      NoFrame(parse, s.buffer);
    } else {
      var raw, rest := s.buffer[..i], s.buffer[i + 1..];
      if !Small(raw) {
        UnreadableFrame(parse, s.buffer, i);
      } else {
        SmallFrameDrained(parse, s, i);
      }
    }
  }

  lemma {:induction false} SmallFrameDrained(parse: Parser, s: Session, i: int)
    requires s.authenticated && s.alive && i == NewlineAt(s.buffer) >= 0 && Small(s.buffer[..i])
    requires |Received(parse, s.buffer)| <= |s.pending| && NoNull(Received(parse, s.buffer))
    ensures DrainedTo(parse, s, Drain(parse, s))
    decreases |s.buffer|, 0
  {
    hide Received, Bounded, Tail, NoNull, Correlated, Bytes, Trim, DrainedTo, Drain;
    ReadableFrame(parse, s.buffer, i);
    DrainFrame(parse, s);
    var raw, rest := s.buffer[..i], s.buffer[i + 1..];
    var h := OnFrame(parse, s.(buffer := rest), raw);
    if IsReply(parse, raw) {
      NoNullSplits(parse(raw), Received(parse, rest));
      DrainAnswers(parse, h.session);
      ReplyDrained(parse, s, i, Drain(parse, s));
    } else {
      assert [] + Received(parse, rest) == Received(parse, rest);
      DrainAnswers(parse, h.session);
      IgnoredDrained(parse, s, rest, Drain(parse, s));
    }
  }

  lemma IgnoredDrained(parse: Parser, s: Session, rest: string, s': Session)
    requires Received(parse, rest) == Received(parse, s.buffer)
    requires (Bounded(rest) <==> Bounded(s.buffer)) && Tail(rest) == Tail(s.buffer)
    requires DrainedTo(parse, s.(buffer := rest), s')
    ensures DrainedTo(parse, s, s')
  {
  }

  lemma AfterFrame(parse: Parser, buffer: string, i: int, k: nat)
    requires i == NewlineAt(buffer) >= 0 && Small(buffer[..i]) && k < |Received(parse, buffer)|
    ensures var raw, more, all := buffer[..i], Received(parse, buffer[i + 1..]), Received(parse, buffer);
            if IsReply(parse, raw) then all[0] == parse(raw) && all[1..] == more && |all| == |more| + 1
            else all == more
  {
    ReadableFrame(parse, buffer, i);
    hide Received;
    assert [] + Received(parse, buffer[i + 1..]) == Received(parse, buffer[i + 1..]);
  }

  ghost predicate RecordsBefore(replies: seq<Payload>, k: nat) {
    k <= |replies| && forall j :: 0 <= j < k ==> replies[j].Record?
  }

  /** What one pass leaves that comes upon its k-th reply without a call for it, or finds it to be null. */
  ghost predicate StoppedAt(parse: Parser, s: Session, k: nat, s': Session) {
    var replies := Received(parse, s.buffer);
    && RecordsBefore(replies, k) && k < |replies| && k <= |s.pending|
    && AnsweredFirst(s, replies, k, s')
    && s'.authenticated && (s'.alive <==> k == |s.pending|)
    && s'.pending == (if k == |s.pending| then [] else s.pending[k + 1..])
    && Received(parse, s'.buffer) == replies[k + 1..]
  }

  /** The new answers are those to the first k replies, one for one. */
  ghost predicate AnsweredFirst(s: Session, replies: seq<Payload>, k: nat, s': Session) {
    && k <= |s.pending| && RecordsBefore(replies, k)
    && |s'.answers| == |s.answers| + k && s'.answers[..|s.answers|] == s.answers
    && forall j :: 0 <= j < k ==>
         s'.answers[|s.answers| + j].id == s.pending[j] && IsAnswerTo(s'.answers[|s.answers| + j].answer, replies[j])
  }

  lemma OneMoreAnswered(s: Session, a: Answer, replies: seq<Payload>, k: nat, s': Session)
    requires s.pending != [] && replies != [] && replies[0].Record? && IsAnswerTo(a, replies[0])
    requires AnsweredFirst(s.(pending := s.pending[1..], answers := s.answers + [Answered(s.pending[0], a)]), replies[1..], k, s')
    ensures AnsweredFirst(s, replies, k + 1, s')
  {
    hide IsAnswerTo;
    var more := s.answers + [Answered(s.pending[0], a)];
    assert s'.answers[..|more|] == more;
    assert s'.answers[..|s.answers|] == more[..|s.answers|];
    assert s'.answers[|s.answers|] == more[|s.answers|];
    forall j | 0 <= j < k + 1
      ensures s'.answers[|s.answers| + j].id == s.pending[j] && replies[j].Record?
              && IsAnswerTo(s'.answers[|s.answers| + j].answer, replies[j])
    {
      if j > 0 { assert replies[j] == replies[1..][j - 1] && s.pending[j] == s.pending[1..][j - 1]; }
    }
  }

  /** One pass over a buffer whose k-th reply is the first that is null or finds no call outstanding: the
      replies before it are answered, it takes its call with it, and only a null ends the process. */
  lemma {:induction false} DrainStops(parse: Parser, s: Session, k: nat)
    requires s.authenticated && s.alive && k < |Received(parse, s.buffer)| && k <= |s.pending|
    requires RecordsBefore(Received(parse, s.buffer), k)
    requires k == |s.pending| || !Received(parse, s.buffer)[k].Record?
    ensures StoppedAt(parse, s, k, Drain(parse, s))
    decreases |s.buffer|
  {
    hide Received, Drain, StoppedAt, Small, IsAnswerTo, AnswerOf, AnsweredFirst, Trim;
    var i := NewlineAt(s.buffer);
    if i < 0 { NoFrame(parse, s.buffer); }
    var raw, rest := s.buffer[..i], s.buffer[i + 1..];
    if !Small(raw) { UnreadableFrame(parse, s.buffer, i); }
    AfterFrame(parse, s.buffer, i, k);
    DrainFrame(parse, s);
    var h := OnFrame(parse, s.(buffer := rest), raw);
    if !IsReply(parse, raw) {
      DrainStops(parse, h.session, k);
      StoppedLater(parse, s, rest, k, Drain(parse, s));
    } else if k > 0 {
      var p := parse(raw);
      assert Received(parse, s.buffer)[0] == p;
      assert forall j :: 0 <= j < k - 1 ==> Received(parse, rest)[j] == Received(parse, s.buffer)[j + 1];
      assert Received(parse, rest)[k - 1] == Received(parse, s.buffer)[k];
      DrainStops(parse, h.session, k - 1);
      AnswerMeans(p, AnswerOf(p));
      StoppedOneLater(parse, s, rest, AnswerOf(p), k, Drain(parse, s));
    } else {
      StopsHere(parse, s, h.session);
    }
  }

  lemma StoppedLater(parse: Parser, s: Session, rest: string, k: nat, s': Session)
    requires Received(parse, rest) == Received(parse, s.buffer) && StoppedAt(parse, s.(buffer := rest), k, s')
    ensures StoppedAt(parse, s, k, s')
  {
    hide Received, IsAnswerTo;
  }

  lemma StoppedOneLater(parse: Parser, s: Session, rest: string, a: Answer, k: nat, s': Session)
    requires k > 0 && s.pending != []
    requires var replies := Received(parse, s.buffer);
             replies != [] && replies[1..] == Received(parse, rest) && replies[0].Record? && IsAnswerTo(a, replies[0])
    requires StoppedAt(parse, s.(buffer := rest, pending := s.pending[1..], answers := s.answers + [Answered(s.pending[0], a)]),
                       k - 1, s')
    ensures StoppedAt(parse, s, k, s')
  {
    hide Received, IsAnswerTo;
    var replies := Received(parse, s.buffer);
    OneMoreAnswered(s.(buffer := rest), a, replies, k - 1, s');
    assert replies[1..][k..] == replies[k + 1..];
    if k < |s.pending| { assert s.pending[1..][k..] == s.pending[k + 1..]; }
  }

  lemma StopsHere(parse: Parser, s: Session, s': Session)
    requires var replies := Received(parse, s.buffer); replies != [] && Received(parse, s'.buffer) == replies[1..]
    requires s'.authenticated && s'.answers == s.answers && (s'.alive <==> s.pending == [])
    requires s'.pending == if s.pending == [] then [] else s.pending[1..]
    ensures StoppedAt(parse, s, 0, s')
  {
    hide Received;
  }

  /** Every new answer of a pass belongs to one reply in the buffer, the j-th answer to the j-th reply and
      to the j-th call that was outstanding. */
  ghost predicate PassAnswers(parse: Parser, s: Session, s': Session) {
    exists k: nat :: k <= |Received(parse, s.buffer)| && AnsweredFirst(s, Received(parse, s.buffer), k, s')
  }

  lemma DrainAnswersReplies(parse: Parser, s: Session)
    requires s.authenticated && s.alive
    ensures PassAnswers(parse, s, Drain(parse, s))
  {
    hide Received, Drain, AnsweredFirst, StoppedAt, DrainedTo;
    var replies := Received(parse, s.buffer);
    var k := FirstUnanswerable(replies, |s.pending|);
    if k < |replies| {
      DrainStops(parse, s, k);
      StoppedAnswers(parse, s, k, Drain(parse, s));
    } else {
      DrainAnswers(parse, s);
      DrainedAnswers(parse, s, Drain(parse, s));
    }
  }

  lemma StoppedAnswers(parse: Parser, s: Session, k: nat, s': Session)
    requires StoppedAt(parse, s, k, s')
    ensures k <= |Received(parse, s.buffer)| && AnsweredFirst(s, Received(parse, s.buffer), k, s')
  {
    hide Received, AnsweredFirst;
  }

  lemma DrainedAnswers(parse: Parser, s: Session, s': Session)
    requires DrainedTo(parse, s, s')
    ensures AnsweredFirst(s, Received(parse, s.buffer), |Received(parse, s.buffer)|, s')
  {
    hide Received, Bounded, Tail, AnsweredFirst;
    AppendedAnswer(s, Received(parse, s.buffer), s');
  }

  lemma AppendedAnswer(s: Session, replies: seq<Payload>, s': Session)
    requires |replies| <= |s.pending| && NoNull(replies) && s'.answers == s.answers + Correlated(s.pending, replies)
    ensures AnsweredFirst(s, replies, |replies|, s')
  {
    hide IsAnswerTo, AnswerOf, Correlated;
    CorrelatedAnswers(s.pending, replies);
    var r := Correlated(s.pending, replies);
    assert |r| == |replies|;
    assert s'.answers[..|s.answers|] == s.answers;
    assert forall j :: 0 <= j < |replies| ==> s'.answers[|s.answers| + j] == r[j];
  }

  lemma CorrelatedAnswers(calls: seq<int>, replies: seq<Payload>)
    requires |replies| <= |calls| && NoNull(replies)
    ensures var r := Correlated(calls, replies);
            forall j :: 0 <= j < |replies| ==> r[j].id == calls[j] && IsAnswerTo(r[j].answer, replies[j])
  {
    hide IsAnswerTo, AnswerOf;
    forall j | 0 <= j < |replies| ensures IsAnswerTo(Correlated(calls, replies)[j].answer, replies[j]) {
      AnswerMeans(replies[j], AnswerOf(replies[j]));
    }
  }

  lemma PassFacts(parse: Parser, s: Session)
    requires s.alive
    ensures s.authenticated ==> PassAnswers(parse, s, Drain(parse, s))
    ensures !s.authenticated && s.pending == [] ==> Drain(parse, s).answers == s.answers
  {
    hide PassAnswers, Drain, Frames, Acked;
    if s.authenticated { DrainAnswersReplies(parse, s); } else if s.pending == [] { OnlyAnAckAuthenticates(parse, s); }
  }

  /** The first reply that is null or for which there is no call. */
  lemma FirstUnanswerable(replies: seq<Payload>, calls: nat) returns (k: nat)
    ensures k <= |replies| && k <= calls && RecordsBefore(replies, k)
    ensures k < |replies| ==> k == calls || !replies[k].Record?
  {
    k := 0;
    while k < |replies| && k < calls && replies[k].Record?
      invariant k <= |replies| && k <= calls && RecordsBefore(replies, k)
    {
      k := k + 1;
    }
  }

  ghost predicate IsAck(parse: Parser, frame: string) {
    var p := parse(frame);
    p.Record? && p.ok == Some(true) && p.hello
  }

  ghost predicate Acked(parse: Parser, frames: seq<string>) {
    exists i :: 0 <= i < |frames| && IsAck(parse, frames[i])
  }

  lemma AckAmong(parse: Parser, frame: string, frames: seq<string>)
    ensures Acked(parse, [frame] + frames) <==> IsAck(parse, frame) || Acked(parse, frames)
  {
    var all := [frame] + frames;
    assert all[0] == frame && forall i :: 0 <= i < |frames| ==> all[i + 1] == frames[i];
  }

  lemma FrameWithoutCalls(parse: Parser, s: Session, raw: string)
    requires s.alive && s.pending == []
    ensures var h := OnFrame(parse, s, raw);
            && h.session.answers == s.answers && h.session.pending == [] && h.session.buffer == s.buffer
            && (h.goesOn ==> h.session.alive)
            && (h.session.awaiting ==> s.awaiting) && (s.authenticated ==> h.session.authenticated)
            && (h.session.authenticated && !s.authenticated ==> s.awaiting && IsAck(parse, raw))
  {
  }

  /** With no call outstanding nothing is answered, and only an acknowledgement of a pending hello
      authenticates. */
  lemma {:induction false} OnlyAnAckAuthenticates(parse: Parser, s: Session)
    requires s.alive && s.pending == []
    ensures var s' := Drain(parse, s);
            && s'.answers == s.answers && s'.pending == []
            && (s'.authenticated && !s.authenticated ==> s.awaiting && Acked(parse, Frames(s.buffer)))
    decreases |s.buffer|
  {
    hide Frames, Acked, OnFrame, IsAck;
    var i := NewlineAt(s.buffer);
    if i >= 0 {
      var raw, rest := s.buffer[..i], s.buffer[i + 1..];
      FirstFrame(s.buffer, i);
      AckAmong(parse, raw, Frames(rest));
      FrameWithoutCalls(parse, s.(buffer := rest), raw);
      var h := OnFrame(parse, s.(buffer := rest), raw);
      if h.goesOn { OnlyAnAckAuthenticates(parse, h.session); }
    }
  }

  /** A text of whole lines, none too large. */
  ghost predicate Whole(text: string) {
    Bounded(text) && Tail(text) == ""
  }

  /** What a pass over the buffer of s takes, whatever it holds: never more answers than replies, and
      fewer if a reply finds no call outstanding. */
  ghost predicate Takes(parse: Parser, s: Session, c: string, s': Session) {
    && c <= s.buffer && Whole(c) && s'.authenticated
    && (s'.alive ==> s.buffer == c + s'.buffer)
    && |s'.answers| <= |s.answers| + |Received(parse, c)|
    && (|s.pending| < |Received(parse, s.buffer)| && NoNull(Received(parse, s.buffer)) ==>
          s'.alive && |s'.answers| < |s.answers| + |Received(parse, c)|)
  }

  lemma NothingIsWhole(parse: Parser)
    ensures Whole("") && Received(parse, "") == []
  {
    NoFrame(parse, "");
  }

  /** One more frame in front. */
  lemma FrameIsWhole(parse: Parser, raw: string, c: string)
    requires '\n' !in raw && Small(raw) && Whole(c)
    ensures Whole(raw + "\n" + c)
    ensures Received(parse, raw + "\n" + c) == (if IsReply(parse, raw) then [parse(raw)] else []) + Received(parse, c)
  {
    var s := raw + "\n" + c;
    assert s[|raw|] == '\n' && s[..|raw|] == raw && s[|raw| + 1..] == c;
    NewlineIsFirst(s, |raw|);
    ReadableFrame(parse, s, |raw|);
  }

  lemma NewlineIsFirst(s: string, i: nat)
    requires i < |s| && s[i] == '\n' && '\n' !in s[..i]
    ensures NewlineAt(s) == i
  {
    var k := NewlineAt(s);
    assert forall j :: 0 <= j < i ==> s[j] == s[..i][j];
    assert forall j :: 0 <= j < k ==> s[j] == s[..k][j];
  }

  /** What is left after a frame and the c behind it. */
  lemma BehindFrame(buffer: string, i: int, c: string, rest: string)
    requires 0 <= i < |buffer| && buffer[i] == '\n' && c <= buffer[i + 1..]
    ensures var front := buffer[..i] + "\n" + c;
            front <= buffer && (buffer[i + 1..] == c + rest ==> buffer == front + rest)
  {
    var line := buffer[..i] + "\n";
    assert buffer == line + buffer[i + 1..];
    assert buffer[i + 1..] == c + buffer[i + 1..][|c|..];
    Associative(line, c, buffer[i + 1..][|c|..]);
    Associative(line, c, rest);
  }

  lemma TakesIgnored(parse: Parser, s: Session, i: int, c: string, s': Session)
    requires i == NewlineAt(s.buffer) >= 0 && Small(s.buffer[..i]) && !IsReply(parse, s.buffer[..i])
    requires Takes(parse, s.(buffer := s.buffer[i + 1..]), c, s')
    ensures Takes(parse, s, s.buffer[..i] + "\n" + c, s')
  {
    var raw, rest := s.buffer[..i], s.buffer[i + 1..];
    ReadableFrame(parse, s.buffer, i);
    FrameIsWhole(parse, raw, c);
    BehindFrame(s.buffer, i, c, s'.buffer);
    hide Received, Whole, NoNull, IsReply, Small;
    assert [] + Received(parse, rest) == Received(parse, rest);
    assert [] + Received(parse, c) == Received(parse, c);
  }

  lemma TakesReply(parse: Parser, s: Session, i: int, c: string, answer: Answered, s': Session)
    requires i == NewlineAt(s.buffer) >= 0 && Small(s.buffer[..i]) && IsReply(parse, s.buffer[..i])
    requires s.pending != []
    requires Takes(parse, s.(buffer := s.buffer[i + 1..], pending := s.pending[1..], answers := s.answers + [answer]), c, s')
    ensures Takes(parse, s, s.buffer[..i] + "\n" + c, s')
  {
    var raw, rest := s.buffer[..i], s.buffer[i + 1..];
    ReadableFrame(parse, s.buffer, i);
    FrameIsWhole(parse, raw, c);
    BehindFrame(s.buffer, i, c, s'.buffer);
    if NoNull(Received(parse, s.buffer)) { NoNullSplits(parse(raw), Received(parse, rest)); }
    hide Received, Whole, NoNull, IsReply, Small;
  }

  /** A reply nobody asked for, or a null, ends the pass. */
  lemma TakesLast(parse: Parser, s: Session, i: int, s': Session)
    requires i == NewlineAt(s.buffer) >= 0 && Small(s.buffer[..i]) && IsReply(parse, s.buffer[..i])
    requires s'.authenticated && s'.answers == s.answers && s'.buffer == s.buffer[i + 1..]
    requires if s.pending == [] then s'.alive else !s'.alive && parse(s.buffer[..i]).NullValue?
    ensures Takes(parse, s, s.buffer[..i] + "\n", s')
  {
    var raw := s.buffer[..i];
    ReadableFrame(parse, s.buffer, i);
    NothingIsWhole(parse);
    FrameIsWhole(parse, raw, "");
    BehindFrame(s.buffer, i, "", s'.buffer);
    assert raw + "\n" + "" == raw + "\n";
    if NoNull(Received(parse, s.buffer)) { NoNullSplits(parse(raw), Received(parse, s.buffer[i + 1..])); }
    hide Received, Whole, NoNull, IsReply, Small;
  }

  lemma {:induction false} DrainTakes(parse: Parser, s: Session) returns (c: string)
    requires s.authenticated && s.alive
    ensures Takes(parse, s, c, Drain(parse, s))
    decreases |s.buffer|
  {
    hide Takes, Whole, Received, NoNull;
    var i := NewlineAt(s.buffer);
    if i < 0 {
      TakesNothing(parse, s, Drain(parse, s));
      return "";
    }
    var raw, rest := s.buffer[..i], s.buffer[i + 1..];
    if !Small(raw) {
      UnreadableFrame(parse, s.buffer, i);
      TakesNothing(parse, s, Drain(parse, s));
      return "";
    }
    var h := OnFrame(parse, s.(buffer := rest), raw);
    if !IsReply(parse, raw) {
      c := DrainTakes(parse, h.session);
      TakesIgnored(parse, s, i, c, Drain(parse, s));
      c := raw + "\n" + c;
    } else if h.goesOn {
      c := DrainTakes(parse, h.session);
      TakesReply(parse, s, i, c, h.session.answers[|s.answers|], Drain(parse, s));
      c := raw + "\n" + c;
    } else {
      TakesLast(parse, s, i, h.session);
      c := raw + "\n";
    }
  }

  lemma TakesNothing(parse: Parser, s: Session, s': Session)
    requires s'.authenticated && s'.answers == s.answers && (s'.alive ==> s'.buffer == s.buffer)
    requires NewlineAt(s.buffer) < 0 || Received(parse, s.buffer) == []
    ensures Takes(parse, s, "", s')
  {
    NothingIsWhole(parse);
    if NewlineAt(s.buffer) < 0 { NoFrame(parse, s.buffer); }
    assert s.buffer == "" + s.buffer;
  }

  // ---------------------------------------------------------------- whole conversations

  datatype Event = Hello | HelloTimeout(own: bool) | Call(id: int) | Data(chunk: string)

  function OnEvent(parse: Parser, s: Session, e: Event): Session {
    match e
    case Hello => OnHello(s)
    case HelloTimeout(own) => OnHelloTimeout(s, own)
    case Call(id) => OnCall(s, id)
    case Data(chunk) => Drain(parse, s.(buffer := s.buffer + chunk))
  }

  /** A dead process handles nothing. */
  function After(parse: Parser, s: Session, events: seq<Event>): Session {
    if events == [] then s
    else
      var prior := After(parse, s, events[..|events| - 1]);
      if prior.alive then OnEvent(parse, prior, events[|events| - 1]) else prior
  }

  /** Authenticated, nothing asked or received yet. */
  const READY := Session("", true, false, false, Some(true), [], [], true)

  function Stream(events: seq<Event>): string {
    if events == [] then ""
    else Stream(events[..|events| - 1]) + if events[|events| - 1].Data? then events[|events| - 1].chunk else ""
  }

  function Calls(events: seq<Event>): seq<int> {
    if events == [] then []
    else Calls(events[..|events| - 1]) + if events[|events| - 1].Call? then [events[|events| - 1].id] else []
  }

  /** At no time has the host replied more often than it was called, and its replies are records. */
  ghost predicate Solicited(parse: Parser, events: seq<Event>) {
    var replies := Received(parse, Stream(events));
    |replies| <= |Calls(events)| && NoNull(replies) && (events != [] ==> Solicited(parse, events[..|events| - 1]))
  }

  lemma {:induction false} RepliesConcat(parse: Parser, a: seq<string>, b: seq<string>)
    ensures Replies(parse, a + b) == Replies(parse, a) + Replies(parse, b)
  {
    hide IsReply;
    if a == [] {
      assert a + b == b;
    } else {
      assert (a + b)[1..] == a[1..] + b && (a + b)[0] == a[0];
      RepliesConcat(parse, a[1..], b);
      Associative(if IsReply(parse, a[0]) then [parse(a[0])] else [], Replies(parse, a[1..]), Replies(parse, b));
    }
  }

  lemma {:induction false} ReadableConcat(a: seq<string>, b: seq<string>)
    ensures Readable(a + b) == if AllSmall(a) then a + Readable(b) else Readable(a)
  {
    if a == [] {
      assert a + b == b;
    } else {
      assert (a + b)[1..] == a[1..] + b && (a + b)[0] == a[0];
      assert a == [a[0]] + a[1..];
      ReadableConcat(a[1..], b);
      assert AllSmall(a) <==> Small(a[0]) && AllSmall(a[1..]) by {
        assert forall i :: 1 <= i < |a| ==> a[i] == a[1..][i - 1];
      }
    }
  }

  lemma AllSmallConcat(a: seq<string>, b: seq<string>)
    ensures AllSmall(a + b) <==> AllSmall(a) && AllSmall(b)
  {
    assert forall i :: 0 <= i < |a| ==> (a + b)[i] == a[i];
    assert forall i :: 0 <= i < |b| ==> (a + b)[|a| + i] == b[i];
  }

  lemma {:induction false} AllReadable(a: seq<string>)
    requires AllSmall(a)
    ensures Readable(a) == a
  {
    if a != [] {
      AllReadable(a[1..]);
    }
  }

  lemma StreamGrows(stream: string, chunk: string)
    ensures Frames(stream + chunk) == Frames(stream) + Frames(Tail(stream) + chunk)
    ensures Tail(stream + chunk) == Tail(Tail(stream) + chunk)
  {
    SplitContinues(stream, chunk);
  }

  lemma BoundedGrows(parse: Parser, stream: string, chunk: string)
    requires Bounded(stream)
    ensures Received(parse, stream + chunk) == Received(parse, stream) + Received(parse, Tail(stream) + chunk)
    ensures Bounded(stream + chunk) <==> Bounded(Tail(stream) + chunk)
    ensures Tail(stream + chunk) == Tail(Tail(stream) + chunk)
  {
    StreamGrows(stream, chunk);
    ReadableConcat(Frames(stream), Frames(Tail(stream) + chunk));
    AllSmallConcat(Frames(stream), Frames(Tail(stream) + chunk));
    AllReadable(Frames(stream));
    RepliesConcat(parse, Frames(stream), Readable(Frames(Tail(stream) + chunk)));
  }

  /** The first line of what a tail grows into begins with that tail. */
  lemma TailLeads(tail: string, chunk: string)
    requires NewlineAt(tail) < 0 && !Small(tail)
    ensures Readable(Frames(tail + chunk)) == [] && !Bounded(tail + chunk)
  {
    var s := tail + chunk;
    var i := NewlineAt(s);
    if i < 0 {
      BytesConcat(tail, chunk);
      assert !Small(s);
      OneLine(s);
    } else {
      assert forall j :: 0 <= j < |tail| ==> s[j] == tail[j];
      assert s[..i] == tail + s[|tail|..i];
      BytesConcat(tail, s[|tail|..i]);
      assert !Small(s[..i]);
      FirstFrame(s, i);
      assert Frames(s)[0] == s[..i];
    }
  }

  /** Once a frame was too large, nothing later is received. */
  lemma UnboundedStays(parse: Parser, stream: string, chunk: string)
    requires !Bounded(stream)
    ensures Received(parse, stream + chunk) == Received(parse, stream) && !Bounded(stream + chunk)
  {
    var more := Tail(stream) + chunk;
    StreamGrows(stream, chunk);
    ReadableConcat(Frames(stream), Frames(more));
    AllSmallConcat(Frames(stream), Frames(more));
    if AllSmall(Frames(stream)) {
      SplitHasNoNewlines(stream);
      TailLeads(Tail(stream), chunk);
      AllReadable(Frames(stream));
      assert Frames(stream) + [] == Frames(stream);
    }
  }

  lemma CorrelatedConcat(calls: seq<int>, a: seq<Payload>, b: seq<Payload>)
    requires |a + b| <= |calls| && NoNull(a + b)
    ensures NoNull(a) && NoNull(b)
    ensures Correlated(calls, a + b) == Correlated(calls, a) + Correlated(calls[|a|..], b)
  {
    assert forall i :: 0 <= i < |a| ==> a[i] == (a + b)[i];
    assert forall i :: 0 <= i < |b| ==> b[i] == (a + b)[|a| + i];
  }

  lemma CorrelatedIgnoresLater(calls: seq<int>, more: seq<int>, replies: seq<Payload>)
    requires |replies| <= |calls| && NoNull(replies)
    ensures Correlated(calls + more, replies) == Correlated(calls, replies)
  {
  }

  /** How a conversation stands after these events. */
  ghost predicate InStep(parse: Parser, s: Session, stream: string, calls: seq<int>) {
    var replies := Received(parse, stream);
    && |replies| <= |calls| && NoNull(replies)
    && s.authenticated && s.answers == Correlated(calls, replies)
    && (s.alive <==> Bounded(stream))
    && (s.alive ==> s.pending == calls[|replies|..] && s.buffer == Tail(stream))
  }

  lemma CallKeepsStep(parse: Parser, s: Session, stream: string, calls: seq<int>, id: int)
    requires InStep(parse, s, stream, calls)
    ensures InStep(parse, if s.alive then s.(pending := s.pending + [id]) else s, stream, calls + [id])
  {
    CorrelatedIgnoresLater(calls, [id], Received(parse, stream));
    hide Bounded, Received, Correlated;
  }

  lemma DataKeepsStep(parse: Parser, s: Session, stream: string, calls: seq<int>, chunk: string)
    requires InStep(parse, s, stream, calls) && s.alive
    requires |Received(parse, stream + chunk)| <= |calls| && NoNull(Received(parse, stream + chunk))
    ensures InStep(parse, Drain(parse, s.(buffer := s.buffer + chunk)), stream + chunk, calls)
  {
    BoundedGrows(parse, stream, chunk);
    hide Bounded, Received, Correlated, Drain, Tail, NoNull;
    var before, more := Received(parse, stream), Received(parse, Tail(stream) + chunk);
    CorrelatedConcat(calls, before, more);
    DrainAnswers(parse, s.(buffer := s.buffer + chunk));
    assert calls[|before|..][|more|..] == calls[|before + more|..];
  }

  lemma {:induction false} SolicitedStaysInStep(parse: Parser, events: seq<Event>)
    requires Solicited(parse, events)
    ensures InStep(parse, After(parse, READY, events), Stream(events), Calls(events))
  {
    if events == [] {
      NoFrame(parse, "");
    } else {
      var prior, e := events[..|events| - 1], events[|events| - 1];
      SolicitedStaysInStep(parse, prior);
      var s := After(parse, READY, prior);
      match e
      case Call(id) =>
        CallKeepsStep(parse, s, Stream(prior), Calls(prior), id);
        assert Stream(prior) + "" == Stream(prior);
      case Data(chunk) =>
        assert Calls(prior) + [] == Calls(prior);
        if s.alive {
          DataKeepsStep(parse, s, Stream(prior), Calls(prior), chunk);
        } else {
          UnboundedStays(parse, Stream(prior), chunk);
        }
      case _ =>
        assert Stream(prior) + "" == Stream(prior) && Calls(prior) + [] == Calls(prior);
    }
  }

  // ---------------------------------------------------------------- out of step for good

  /** Fewer answers than replies in the part of the stream already consumed. */
  ghost predicate Behind(parse: Parser, s: Session, stream: string) {
    if s.alive then exists c :: stream == c + s.buffer && Whole(c) && |s.answers| < |Received(parse, c)|
    else |s.answers| < |Received(parse, stream)|
  }

  ghost predicate OutOfStep(parse: Parser, s: Session, stream: string) {
    s.authenticated && (NoNull(Received(parse, stream)) ==> Behind(parse, s, stream))
  }

  lemma ReceivedGrows(parse: Parser, stream: string, chunk: string)
    ensures Received(parse, stream) <= Received(parse, stream + chunk)
  {
    if Bounded(stream) {
      BoundedGrows(parse, stream, chunk);
    } else {
      UnboundedStays(parse, stream, chunk);
    }
  }

  lemma WholeSplits(parse: Parser, c: string, x: string)
    requires Whole(c)
    ensures Received(parse, c + x) == Received(parse, c) + Received(parse, x)
    ensures Whole(x) ==> Whole(c + x)
  {
    BoundedGrows(parse, c, x);
    assert "" + x == x;
  }

  /** The finished frames of a stream. */
  lemma FinishedPart(parse: Parser, stream: string) returns (f: string)
    requires Bounded(stream)
    ensures stream == f + Tail(stream) && Whole(f) && Received(parse, f) == Received(parse, stream)
  {
    hide SplitLines;
    var frames, tail := Frames(stream), Tail(stream);
    var ls := frames + [""];
    SplitHasNoNewlines(stream);
    JoinSplit(stream);
    SplitJoin(ls);
    f := JoinLines(ls);
    assert SplitLines(stream) == frames + [tail];
    assert (frames + [tail])[..|frames|] == frames && ls[..|frames|] == frames;
    assert Frames(f) == frames && Tail(f) == "";
    OneLine("");
    NothingIsWhole(parse);
    if frames != [] {
      assert JoinLines(frames) + "\n" + "" + tail == JoinLines(frames) + "\n" + tail;
    }
  }

  lemma NullStays(parse: Parser, stream: string, chunk: string)
    requires !NoNull(Received(parse, stream))
    ensures !NoNull(Received(parse, stream + chunk))
  {
    ReceivedGrows(parse, stream, chunk);
    var i :| 0 <= i < |Received(parse, stream)| && !Received(parse, stream)[i].Record?;
    assert Received(parse, stream + chunk)[i] == Received(parse, stream)[i];
  }

  lemma TakesFront(parse: Parser, s: Session, taken: string, s': Session)
    requires Takes(parse, s, taken, s')
    ensures Whole(taken) && taken <= s.buffer && s.buffer == taken + s.buffer[|taken|..]
    ensures s'.alive ==> s.buffer[|taken|..] == s'.buffer
  {
  }

  /** A session that has consumed c, behind already or behind after this pass, is behind from then on. */
  lemma DrainedBehind(parse: Parser, s: Session, c: string, taken: string, s': Session)
    requires Takes(parse, s, taken, s') && Whole(c)
    requires |s'.answers| < |Received(parse, c)| + |Received(parse, taken)|
    ensures Behind(parse, s', c + s.buffer)
  {
    TakesFront(parse, s, taken, s');
    WholeSplits(parse, c, taken);
    hide Takes, Whole, Received;
    var rest := s.buffer[|taken|..];
    Associative(c, taken, rest);
    if s'.alive {
      assert rest == s'.buffer;
    } else {
      ReceivedGrows(parse, c + taken, rest);
    }
  }

  lemma DataStaysOutOfStep(parse: Parser, s: Session, stream: string, chunk: string)
    requires OutOfStep(parse, s, stream)
    ensures OutOfStep(parse, if s.alive then Drain(parse, s.(buffer := s.buffer + chunk)) else s, stream + chunk)
  {
    hide Received, Whole, NoNull, Takes, Drain;
    if !NoNull(Received(parse, stream)) { NullStays(parse, stream, chunk); }
    if s.alive {
      var s1 := s.(buffer := s.buffer + chunk);
      var taken := DrainTakes(parse, s1);
      TakesFacts(parse, s1, taken, Drain(parse, s1));
      if NoNull(Received(parse, stream)) {
        var c :| stream == c + s.buffer && Whole(c) && |s.answers| < |Received(parse, c)|;
        DrainedBehind(parse, s1, c, taken, Drain(parse, s1));
        assert c + s1.buffer == stream + chunk;
      }
    } else {
      ReceivedGrows(parse, stream, chunk);
    }
  }

  lemma TakesFacts(parse: Parser, s: Session, c: string, s': Session)
    requires Takes(parse, s, c, s')
    ensures s'.authenticated && |s'.answers| <= |s.answers| + |Received(parse, c)|
  {
  }

  lemma CallStaysOutOfStep(parse: Parser, s: Session, stream: string, id: int)
    requires OutOfStep(parse, s, stream)
    ensures OutOfStep(parse, if s.alive then s.(pending := s.pending + [id]) else s, stream)
  {
    hide Received, Whole, NoNull;
  }

  lemma StepCounts(parse: Parser, s: Session, stream: string, calls: seq<int>)
    requires InStep(parse, s, stream, calls)
    ensures s.authenticated && |s.answers| == |Received(parse, stream)| && (s.alive <==> Bounded(stream))
    ensures s.alive ==> |s.pending| == |calls| - |s.answers| && s.buffer == Tail(stream)
    ensures |Received(parse, stream)| <= |calls| && NoNull(Received(parse, stream))
  {
  }

  lemma UnsolicitedTaken(parse: Parser, s: Session, taken: string, s': Session)
    requires Takes(parse, s, taken, s') && |s.pending| < |Received(parse, s.buffer)| && NoNull(Received(parse, s.buffer))
    ensures |s'.answers| < |s.answers| + |Received(parse, taken)|
  {
  }

  /** The data with which a host first replies more than it was asked, or with a null. */
  lemma DataLosesStep(parse: Parser, s: Session, stream: string, calls: seq<int>, chunk: string)
    requires InStep(parse, s, stream, calls) && s.alive
    requires !(|Received(parse, stream + chunk)| <= |calls| && NoNull(Received(parse, stream + chunk)))
    ensures OutOfStep(parse, Drain(parse, s.(buffer := s.buffer + chunk)), stream + chunk)
  {
    hide InStep, Received, Whole, Drain, Tail, Bounded, NoNull, Takes, Behind;
    StepCounts(parse, s, stream, calls);
    var s1 := s.(buffer := s.buffer + chunk);
    BoundedGrows(parse, stream, chunk);
    var f := FinishedPart(parse, stream);
    var taken := DrainTakes(parse, s1);
    TakesFacts(parse, s1, taken, Drain(parse, s1));
    if NoNull(Received(parse, stream + chunk)) {
      CorrelatedConcatNull(Received(parse, stream), Received(parse, s1.buffer));
      UnsolicitedTaken(parse, s1, taken, Drain(parse, s1));
      DrainedBehind(parse, s1, f, taken, Drain(parse, s1));
      assert f + s1.buffer == stream + chunk;
    }
  }

  lemma DeadStaysSolicited(parse: Parser, s: Session, stream: string, calls: seq<int>, chunk: string)
    requires InStep(parse, s, stream, calls) && !s.alive
    ensures |Received(parse, stream + chunk)| <= |calls| && NoNull(Received(parse, stream + chunk))
  {
    UnboundedStays(parse, stream, chunk);
  }

  lemma GreetingStaysOutOfStep(parse: Parser, s: Session, stream: string, e: Event)
    requires OutOfStep(parse, s, stream) && (e.Hello? || e.HelloTimeout?)
    ensures OutOfStep(parse, if s.alive then OnEvent(parse, s, e) else s, stream)
  {
    hide Received, Whole, NoNull;
  }

  lemma OtherStaysSolicited(parse: Parser, events: seq<Event>)
    requires events != [] && !events[|events| - 1].Data? && Solicited(parse, events[..|events| - 1])
    ensures Solicited(parse, events)
  {
    var prior := events[..|events| - 1];
    assert Stream(prior) + "" == Stream(prior) && Calls(prior) + [] == Calls(prior);
  }

  lemma CorrelatedConcatNull(a: seq<Payload>, b: seq<Payload>)
    requires NoNull(a + b)
    ensures NoNull(b)
  {
    assert forall i :: 0 <= i < |b| ==> b[i] == (a + b)[|a| + i];
  }

  lemma OutOfStepIsNotInStep(parse: Parser, s: Session, stream: string, calls: seq<int>)
    requires OutOfStep(parse, s, stream)
    ensures !InStep(parse, s, stream, calls)
  {
    hide Received, Whole;
    if NoNull(Received(parse, stream)) && s.alive {
      var c :| stream == c + s.buffer && Whole(c) && |s.answers| < |Received(parse, c)|;
      ReceivedGrows(parse, c, s.buffer);
    }
  }

  lemma {:induction false} UnsolicitedStaysOutOfStep(parse: Parser, events: seq<Event>)
    requires !Solicited(parse, events)
    ensures OutOfStep(parse, After(parse, READY, events), Stream(events))
  {
    if events == [] {
      NothingIsWhole(parse);
      assert false;
    } else {
      var prior, e := events[..|events| - 1], events[|events| - 1];
      var s := After(parse, READY, prior);
      if Solicited(parse, prior) {
        SolicitedStaysInStep(parse, prior);
        if !e.Data? {
          OtherStaysSolicited(parse, events);
          assert false;
        } else {
          hide InStep, OutOfStep, Received, NoNull, Drain;
          assert Calls(prior) + [] == Calls(prior);
          if !s.alive {
            DeadStaysSolicited(parse, s, Stream(prior), Calls(prior), e.chunk);
            assert false;
          }
          DataLosesStep(parse, s, Stream(prior), Calls(prior), e.chunk);
        }
      } else {
        UnsolicitedStaysOutOfStep(parse, prior);
        hide InStep, OutOfStep, Received, NoNull, Drain;
        match e
        case Call(id) =>
          CallStaysOutOfStep(parse, s, Stream(prior), id);
          assert Stream(prior) + "" == Stream(prior);
        case Data(chunk) =>
          DataStaysOutOfStep(parse, s, Stream(prior), chunk);
        case _ =>
          GreetingStaysOutOfStep(parse, s, Stream(prior), e);
          assert Stream(prior) + "" == Stream(prior);
      }
    }
  }

  /** As many answers as replies, the k-th for the k-th call, and telling what the k-th reply says. */
  ghost predicate AnsweredEach(answers: seq<Answered>, calls: seq<int>, replies: seq<Payload>) {
    && |answers| == |replies| <= |calls| && NoNull(replies)
    && forall k :: 0 <= k < |answers| ==> answers[k].id == calls[k] && IsAnswerTo(answers[k].answer, replies[k])
  }

  lemma InStepAnswersEach(parse: Parser, s: Session, stream: string, calls: seq<int>)
    requires InStep(parse, s, stream, calls)
    ensures AnsweredEach(s.answers, calls, Received(parse, stream))
  {
    hide Received, IsAnswerTo, AnswerOf;
    CorrelatedAnswers(calls, Received(parse, stream));
  }

  /** However the replies are cut into chunks and interleaved with the calls: the k-th reply answers
      the k-th call, the calls not yet answered stay queued in order, an unfinished frame stays
      buffered, and the proxy dies exactly when some frame exceeds the bound. This holds exactly if
      the host has at no time replied more often than it was called, nor with a null. */
  lemma RepliesAnswerInOrder(parse: Parser, events: seq<Event>)
    ensures InStep(parse, After(parse, READY, events), Stream(events), Calls(events)) <==> Solicited(parse, events)
    ensures Solicited(parse, events) ==>
              AnsweredEach(After(parse, READY, events).answers, Calls(events), Received(parse, Stream(events)))
  {
    hide InStep, OutOfStep, Solicited, AnsweredEach;
    if Solicited(parse, events) {
      SolicitedStaysInStep(parse, events);
      InStepAnswersEach(parse, After(parse, READY, events), Stream(events), Calls(events));
    } else {
      UnsolicitedStaysOutOfStep(parse, events);
      OutOfStepIsNotInStep(parse, After(parse, READY, events), Stream(events), Calls(events));
    }
  }

  /** Neither the chunking nor the interleaving matters: the same bytes and the same calls give the
      same answers and the same fate. */
  lemma ChunkingIsInvisible(parse: Parser, events: seq<Event>, others: seq<Event>)
    requires Solicited(parse, events) && Solicited(parse, others)
    requires Stream(events) == Stream(others) && Calls(events) == Calls(others)
    ensures var s, t := After(parse, READY, events), After(parse, READY, others);
            && s.answers == t.answers && s.alive == t.alive
            && (s.alive ==> s.pending == t.pending && s.buffer == t.buffer)
  {
    RepliesAnswerInOrder(parse, events);
    RepliesAnswerInOrder(parse, others);
  }

  function Echo(line: string): Payload {
    Record(Some(true), false, Field.Text(line), Undefined)
  }

  /** A frame of one letter, echoed, in front of `rest`. */
  lemma LetterFrame(s: Session, c: char, rest: string)
    requires 'a' <= c <= 'z' && s.authenticated && s.buffer == [c, '\n'] + rest
    ensures s.pending == [] ==> Drain(Echo, s) == s.(buffer := rest)
    ensures s.pending != [] ==>
              Drain(Echo, s) == Drain(Echo, s.(buffer := rest, pending := s.pending[1..],
                                               answers := s.answers + [Answered(s.pending[0], Result([c]))]))
  {
    assert s.buffer[0] == c && s.buffer[1] == '\n';
    assert NewlineAt(s.buffer) == 1 by {
      assert s.buffer[1..][0] == '\n';
    }
    assert s.buffer[..1] == [c] && s.buffer[2..] == rest;
    assert Bytes([c]) == 1 by { assert [c][..0] == ""; }
    assert Trim([c]) == [c];
  }

  lemma AfterNothing(s: Session)
    ensures After(Echo, s, []) == s && Stream([]) == "" && Calls([]) == []
  {
  }

  lemma DroppedThenAsked()
    ensures var one := After(Echo, READY, [Data("a\nb\n"), Call(1)]);
            var two := After(Echo, READY, [Data("a\n"), Data("b\n"), Call(1)]);
            one == READY.(buffer := "b\n", pending := [1]) && two == READY.(pending := [1])
  {
    hide After, Stream, Calls, Drain, NewlineAt, IsSpace;
    var a, b, ab, call := Data("a\n"), Data("b\n"), Data("a\nb\n"), Call(1);
    AfterNothing(READY);
    AfterSnoc(Echo, READY, [], ab);
    assert [] + [ab] == [ab] && "" + "a\nb\n" == "a\nb\n";
    LetterFrame(READY.(buffer := "a\nb\n"), 'a', "b\n");
    AfterSnoc(Echo, READY, [ab], call);
    assert [ab] + [call] == [ab, call] && [] + [1] == [1];
    AfterSnoc(Echo, READY, [], a);
    assert [] + [a] == [a] && "" + "a\n" == "a\n";
    LetterFrame(READY.(buffer := "a\n"), 'a', "");
    AfterSnoc(Echo, READY, [a], b);
    assert [a] + [b] == [a, b] && "" + "b\n" == "b\n";
    LetterFrame(READY.(buffer := "b\n"), 'b', "");
    AfterSnoc(Echo, READY, [a, b], call);
    assert [a, b] + [call] == [a, b, call];
  }

  /** A reply nobody asked for makes the handler return with later frames still in its buffer. Which
      reply the next call gets then depends on where the chunks were cut. */
  lemma UnsolicitedReplyMisleads()
    ensures var events := [Data("a\nb\n"), Call(1), Data("c\n")];
            var others := [Data("a\n"), Data("b\n"), Call(1), Data("c\n")];
            && Stream(events) == Stream(others) && Calls(events) == Calls(others)
            && After(Echo, READY, events).answers == [Answered(1, Result("b"))]
            && After(Echo, READY, others).answers == [Answered(1, Result("c"))]
  {
    InOneChunk("a\n" + "b\n", "c\n");
    InTwoChunks("a\n", "b\n", "c\n");
    assert "a\n" + "b\n" == "a\nb\n";
    hide Stream, Calls;
    OneChunkAnswer();
    TwoChunksAnswer();
  }

  lemma OneChunkAnswer()
    ensures After(Echo, READY, [Data("a\nb\n"), Call(1), Data("c\n")]).answers == [Answered(1, Result("b"))]
  {
    DroppedThenAsked();
    hide After, Stream, Calls, Drain, NewlineAt, IsSpace;
    var prior := [Data("a\nb\n"), Call(1)];
    AfterSnoc(Echo, READY, prior, Data("c\n"));
    assert prior + [Data("c\n")] == [Data("a\nb\n"), Call(1), Data("c\n")] && "b\n" + "c\n" == "b\nc\n";
    var s := READY.(buffer := "b\nc\n", pending := [1]);
    assert s.pending[1..] == [] && [] + [Answered(1, Result("b"))] == [Answered(1, Result("b"))];
    LetterFrame(s, 'b', "c\n");
    LetterFrame(READY.(buffer := "c\n", answers := [Answered(1, Result("b"))]), 'c', "");
  }

  lemma TwoChunksAnswer()
    ensures After(Echo, READY, [Data("a\n"), Data("b\n"), Call(1), Data("c\n")]).answers == [Answered(1, Result("c"))]
  {
    DroppedThenAsked();
    hide After, Stream, Calls, Drain, NewlineAt, IsSpace;
    var prior := [Data("a\n"), Data("b\n"), Call(1)];
    AfterSnoc(Echo, READY, prior, Data("c\n"));
    assert prior + [Data("c\n")] == [Data("a\n"), Data("b\n"), Call(1), Data("c\n")] && "" + "c\n" == "c\n";
    var s := READY.(buffer := "c\n", pending := [1]);
    assert s.pending[1..] == [] && [] + [Answered(1, Result("c"))] == [Answered(1, Result("c"))];
    LetterFrame(s, 'c', "");
    EmptyBuffer(READY.(answers := [Answered(1, Result("c"))]));
  }

  lemma EmptyBuffer(s: Session)
    requires s.buffer == ""
    ensures Drain(Echo, s) == s
  {
  }

  lemma InOneChunk(xy: string, z: string)
    ensures Stream([Data(xy), Call(1), Data(z)]) == xy + z && Calls([Data(xy), Call(1), Data(z)]) == [1]
  {
    hide Stream, Calls, After;
    var d, call, c := Data(xy), Call(1), Data(z);
    AfterNothing(READY);
    AfterSnoc(Echo, READY, [], d);
    AfterSnoc(Echo, READY, [d], call);
    AfterSnoc(Echo, READY, [d, call], c);
    assert [] + [d] == [d] && [d] + [call] == [d, call] && [d, call] + [c] == [d, call, c];
    assert "" + xy == xy && xy + "" == xy;
  }

  lemma InTwoChunks(x: string, y: string, z: string)
    ensures Stream([Data(x), Data(y), Call(1), Data(z)]) == x + y + z && Calls([Data(x), Data(y), Call(1), Data(z)]) == [1]
  {
    hide Stream, Calls, After;
    var a, b, call, c := Data(x), Data(y), Call(1), Data(z);
    AfterNothing(READY);
    AfterSnoc(Echo, READY, [], a);
    AfterSnoc(Echo, READY, [a], b);
    AfterSnoc(Echo, READY, [a, b], call);
    AfterSnoc(Echo, READY, [a, b, call], c);
    assert [] + [a] == [a] && [a] + [b] == [a, b] && [a, b] + [call] == [a, b, call] && [a, b, call] + [c] == [a, b, call, c];
    assert "" + x == x && x + y + "" == x + y;
  }

  lemma AfterSnoc(parse: Parser, s: Session, events: seq<Event>, e: Event)
    ensures After(parse, s, events + [e]) ==
              var prior := After(parse, s, events);
              if prior.alive then OnEvent(parse, prior, e) else prior
    ensures Stream(events + [e]) == Stream(events) + if e.Data? then e.chunk else ""
    ensures Calls(events + [e]) == Calls(events) + if e.Call? then [e.id] else []
  {
    assert (events + [e])[..|events|] == events;
  }

  method Deliver(p: Proxy, e: Event)
    requires p.alive
    modifies p
    ensures p.View() == OnEvent(p.parse, old(p.View()), e)
  {
    match e
    case Hello => p.Authenticate();
    case HelloTimeout(own) => p.AuthenticationTimeout(own);
    case Call(id) => p.ForwardToolCall(id);
    case Data(chunk) => p.OnData(chunk);
  }

  lemma AfterNone(parse: Parser, s: Session)
    ensures After(parse, s, []) == s
  {
  }

  /** A proxy whose environment calls and delivers chunks in any order goes through that conversation. */
  method Converse(p: Proxy, events: seq<Event>)
    requires p.alive
    modifies p
    ensures p.View() == After(p.parse, old(p.View()), events)
  {
    hide OnEvent, After;
    AfterNone(p.parse, p.View());
    for i := 0 to |events|
      invariant p.alive && p.View() == After(p.parse, old(p.View()), events[..i])
    {
      AfterSnoc(p.parse, old(p.View()), events[..i], events[i]);
      assert events[..i] + [events[i]] == events[..i + 1];
      Deliver(p, events[i]);
      if !p.alive {
        StaysDead(p.parse, old(p.View()), events, i + 1);
        return;
      }
    }
    assert events[..|events|] == events;
  }

  lemma {:induction false} StaysDead(parse: Parser, s: Session, events: seq<Event>, i: nat)
    requires i <= |events| && !After(parse, s, events[..i]).alive
    ensures After(parse, s, events) == After(parse, s, events[..i])
  {
    if i < |events| {
      assert events[..|events| - 1][..i] == events[..i];
      StaysDead(parse, s, events[..|events| - 1], i);
    } else {
      assert events[..i] == events;
    }
  }
}
