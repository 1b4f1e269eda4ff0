/**
 What the outbox writes, as JSON text (RFC 8259), and its length in UTF-8: the bounds on entries and
 files are bounds on this text.
 */
module OutboxJson {
  import opened Wrappers
  import opened Utf8
  import opened Outbox

  // ---------------------------------------------------------------- strings

  function Hex(n: nat): char
    requires n < 16
  {
    if n < 10 then '0' + n as char else 'a' + (n - 10) as char
  }

  /** A character inside a JSON string: short escapes where there are, `\u00xy` for other control
      characters, everything else as it is (section 7). */
  function Escaped(c: char): string {
    if c == '\"' then "\\\""
    else if c == '\\' then "\\\\"
    else if c == '\n' then "\\n"
    else if c == '\r' then "\\r"
    else if c == '\t' then "\\t"
    else if c as int == 8 then "\\b"
    else if c as int == 12 then "\\f"
    else if c as int < 32 then ['\\', 'u', '0', '0', Hex(c as int / 16), Hex(c as int % 16)]
    else [c]
  }

  function EscapedText(s: string): string {
    if s == "" then "" else EscapedText(s[..|s| - 1]) + Escaped(s[|s| - 1])
  }

  function Quoted(s: string): string {
    "\"" + EscapedText(s) + "\""
  }

  predicate Ascii(s: string) {
    forall i :: 0 <= i < |s| ==> s[i] as int < 128
  }

  lemma {:induction false} AsciiBytes(s: string)
    requires Ascii(s)
    ensures Bytes(s) == |s|
  {
    if s != "" {
      AsciiBytes(s[..|s| - 1]);
    }
  }

  lemma OneChar(c: char)
    ensures Bytes([c]) == Width(c)
  {
    assert [c][..0] == "";
  }

  lemma EscapedBytes(c: char)
    ensures Bytes(Escaped(c)) == CharBytes(c)
  {
    hide Bytes;
    if Escaped(c) == [c] { OneChar(c); } else { AsciiBytes(Escaped(c)); }
  }

  lemma {:induction false} EscapedTextBytes(s: string)
    ensures Bytes(EscapedText(s)) == CharsBytes(s)
  {
    if s != "" {
      hide Escaped, CharBytes, Bytes;
      EscapedTextBytes(s[..|s| - 1]);
      EscapedBytes(s[|s| - 1]);
      BytesConcat(EscapedText(s[..|s| - 1]), Escaped(s[|s| - 1]));
    } else {
      assert Bytes("") == 0;
    }
  }

  lemma QuotedBytes(s: string)
    ensures Bytes(Quoted(s)) == StringBytes(s)
  {
    hide Bytes, EscapedText;
    EscapedTextBytes(s);
    OneChar('\"');
    BytesConcat("\"", EscapedText(s));
    BytesConcat("\"" + EscapedText(s), "\"");
  }

  // ---------------------------------------------------------------- reading strings back

  function HexValue(c: char): Option<nat> {
    if '0' <= c <= '9' then Some(c as int - '0' as int)
    else if 'a' <= c <= 'f' then Some(c as int - 'a' as int + 10)
    else None
  }

  /** The first character of the rest of a string and how much of the text it takes. */
  function First(t: string): Option<(char, nat)> {
    if t == "" || t[0] == '\"' || t[0] as int < 32 then None
    else if t[0] != '\\' then Some((t[0], 1))
    else if |t| < 2 then None
    else if t[1] == '\"' || t[1] == '\\' || t[1] == '/' then Some((t[1], 2))
    else if t[1] == 'n' then Some(('\n', 2))
    else if t[1] == 'r' then Some(('\r', 2))
    else if t[1] == 't' then Some(('\t', 2))
    else if t[1] == 'b' then Some((8 as char, 2))
    else if t[1] == 'f' then Some((12 as char, 2))
    else if t[1] == 'u' && |t| >= 6 && t[2] == '0' && t[3] == '0' && HexValue(t[4]).Some? && HexValue(t[5]).Some? then
      Some(((HexValue(t[4]).value * 16 + HexValue(t[5]).value) as char, 6))
    else None
  }

  lemma FirstOfEscaped(c: char, rest: string)
    ensures First(Escaped(c) + rest) == Some((c, |Escaped(c)|)) && Escaped(c) != "" && Escaped(c)[0] != '\"'
  {
    var t := Escaped(c) + rest;
    assert forall i :: 0 <= i < |Escaped(c)| ==> t[i] == Escaped(c)[i];
  }

  /** The text of a string whose opening quote has been read, and what follows its closing one. */
  function ReadString(t: string): Option<(string, string)>
    decreases |t|
  {
    if t == "" then None
    else if t[0] == '\"' then Some(("", t[1..]))
    else
      match First(t)
      case None => None
      case Some((c, n)) =>
        if n == 0 || n > |t| then None
        else
          match ReadString(t[n..])
          case None => None
          case Some((s, rest)) => Some(([c] + s, rest))
  }

  lemma {:induction false} EscapedFront(c: char, s: string)
    ensures EscapedText([c] + s) == Escaped(c) + EscapedText(s)
  {
    hide Escaped;
    if s == "" {
      assert [c] + s == [c] && [c][..0] == "";
      assert EscapedText([c]) == EscapedText("") + Escaped(c);
    } else {
      EscapedFront(c, s[..|s| - 1]);
      assert ([c] + s)[..|s|] == [c] + s[..|s| - 1];
    }
  }

  /** Any text survives being written as a JSON string, whatever follows it. */
  lemma {:induction false} StringReadsBack(s: string, rest: string)
    ensures ReadString(EscapedText(s) + "\"" + rest) == Some((s, rest))
    decreases |s|
  {
    hide Escaped, First;
    var t := EscapedText(s) + "\"" + rest;
    if s == "" {
      assert EscapedText("") == "" && t[1..] == rest;
    } else {
      var c, more := s[0], s[1..];
      assert s == [c] + more;
      EscapedFront(c, more);
      var tail := EscapedText(more) + "\"" + rest;
      assert t == Escaped(c) + tail;
      FirstOfEscaped(c, tail);
      StringReadsBack(more, rest);
      assert t[0] == Escaped(c)[0] && t[|Escaped(c)|..] == tail;
    }
  }

  // ---------------------------------------------------------------- numbers

  function NumberText(n: nat): string {
    var digit := ['0' + (n % 10) as char];
    if n < 10 then digit else NumberText(n / 10) + digit
  }

  function ReadNumber(t: string): nat {
    if t == "" then 0
    else
      var c := t[|t| - 1];
      10 * ReadNumber(t[..|t| - 1]) + if '0' <= c <= '9' then c as int - '0' as int else 0
  }

  lemma {:induction false} NumberReadsBack(n: nat)
    ensures ReadNumber(NumberText(n)) == n && Ascii(NumberText(n)) && |NumberText(n)| == Digits(n)
  {
    var t := NumberText(n);
    if n >= 10 {
      NumberReadsBack(n / 10);
      assert t[..|t| - 1] == NumberText(n / 10);
    } else {
      assert t[..0] == "";
    }
  }

  lemma NumberBytes(n: nat)
    ensures Bytes(NumberText(n)) == Digits(n)
  {
    NumberReadsBack(n);
    AsciiBytes(NumberText(n));
  }

  // ---------------------------------------------------------------- objects and arrays

  function Member(key: string, text: string): string {
    "\"" + key + "\":" + text
  }

  lemma MemberBytes(key: string, text: string)
    requires Ascii(key)
    ensures Bytes(Member(key, text)) == |key| + 3 + Bytes(text)
  {
    hide Bytes;
    AsciiBytes("\"" + key + "\":");
    BytesConcat("\"" + key + "\":", text);
  }

  function Joined(ts: seq<string>): string {
    if ts == [] then ""
    else if |ts| == 1 then ts[0]
    else Joined(ts[..|ts| - 1]) + "," + ts[|ts| - 1]
  }

  /** The bytes of these texts, a comma after each. */
  function Sum(ts: seq<string>): nat {
    if ts == [] then 0 else Sum(ts[..|ts| - 1]) + Bytes(ts[|ts| - 1]) + 1
  }

  lemma {:induction false} JoinedBytes(ts: seq<string>)
    requires ts != []
    ensures Bytes(Joined(ts)) + 1 == Sum(ts)
  {
    hide Bytes;
    var front, last := ts[..|ts| - 1], ts[|ts| - 1];
    if front == [] {
      assert Sum(front) == 0;
    } else {
      JoinedBytes(front);
      OneChar(',');
      BytesConcat(Joined(front), ",");
      BytesConcat(Joined(front) + ",", last);
    }
  }

  lemma SumOne(ts: seq<string>, t: string)
    ensures Sum(ts + [t]) == Sum(ts) + Bytes(t) + 1
  {
    assert (ts + [t])[..|ts|] == ts;
  }

  function Object(members: seq<string>): string {
    "{" + Joined(members) + "}"
  }

  function Array(elements: seq<string>): string {
    "[" + Joined(elements) + "]"
  }

  lemma Around(a: char, t: string, b: char)
    requires a as int < 128 && b as int < 128
    ensures Bytes([a] + t + [b]) == Bytes(t) + 2
  {
    hide Bytes;
    OneChar(a);
    OneChar(b);
    BytesConcat([a], t);
    BytesConcat([a] + t, [b]);
  }

  // ---------------------------------------------------------------- entries

  /** How times are printed, and what stands in an old file for one that is no time. */
  datatype Clock = Clock(iso: int -> string, other: nat -> string)

  /** `toISOString` prints four-digit years in 24 characters. */
  ghost predicate PrintsTimes(clock: Clock) {
    && (forall ms :: |clock.iso(ms)| == 24 && Ascii(clock.iso(ms)))
    && (forall n :: Bytes(clock.other(n)) == n)
  }

  function Time(clock: Clock, ms: int): string {
    "\"" + clock.iso(ms) + "\""
  }

  function StateText(s: DeliveryState): string {
    match s
    case Admitted => "\"admitted\""
    case InFlight => "\"in_flight\""
    case RetryWait => "\"retry_wait\""
    case TerminalUnknown => "\"terminal_unknown\""
  }

  function FailureText(f: Failure): string {
    match f
    case Timeout => "\"timeout\""
    case SendFailed => "\"send_failed\""
    case SocketLost => "\"socket_lost\""
    case GenerationLost => "\"generation_lost\""
    case ConnectionRefused => "\"connection_refused\""
  }

  function Optional(key: string, text: Option<string>): seq<string> {
    if text.Some? then [Member(key, text.value)] else []
  }

  function StampText(clock: Clock, t: Stamp): Option<string> {
    match t
    case Unset => None
    case At(ms) => Some(Time(clock, ms))
    case NotATime(n) => Some(clock.other(n))
  }

  /** The members both formats share. */
  function RequestMembers(id: string, methodName: string, requestId: string, key: Option<string>, body: string,
                          version: nat, payload: Option<string>): seq<string> {
    [Member("id", Quoted(id))] + [Member("method", Quoted(methodName))] + [Member("requestId", Quoted(requestId))]
    + Optional("idempotencyKey", if key.Some? then Some(Quoted(key.value)) else None)
    + [Member("body", Quoted(body))] + [Member("version", NumberText(version))] + Optional("payload", payload)
  }

  function Members(clock: Clock, e: Entry): seq<string> {
    RequestMembers(e.id, e.methodName, e.requestId, e.idempotencyKey, e.body, e.version, e.payload)
    + [Member("state", StateText(e.state))] + [Member("createdAt", Time(clock, e.createdAt))]
    + [Member("deadlineAt", Time(clock, e.deadlineAt))] + [Member("attempts", NumberText(e.attempts))]
    + Optional("lastAttemptAt", StampText(clock, e.lastAttemptAt))
    + Optional("nextAttemptAt", if e.nextAttemptAt.Some? then Some(Time(clock, e.nextAttemptAt.value)) else None)
    + Optional("lastFailure", if e.lastFailure.Some? then Some(FailureText(e.lastFailure.value)) else None)
  }

  function EntryText(clock: Clock, e: Entry): string {
    Object(Members(clock, e))
  }

  lemma AddMember(ts: seq<string>, key: string, text: string)
    requires Ascii(key)
    ensures Sum(ts + [Member(key, text)]) == Sum(ts) + |key| + 4 + Bytes(text)
  {
    hide Bytes, Sum, Member;
    SumOne(ts, Member(key, text));
    MemberBytes(key, text);
  }

  lemma AddOptional(ts: seq<string>, key: string, text: Option<string>)
    requires Ascii(key)
    ensures Sum(ts + Optional(key, text)) == Sum(ts) + if text.Some? then |key| + 4 + Bytes(text.value) else 0
  {
    hide Bytes, Sum, Member;
    if text.Some? { AddMember(ts, key, text.value); } else { assert ts + [] == ts; }
  }

  lemma TimeBytes(clock: Clock, ms: int)
    requires PrintsTimes(clock)
    ensures Bytes(Time(clock, ms)) == STAMP_BYTES
  {
    hide Bytes;
    AsciiBytes(Time(clock, ms));
  }

  lemma StampIs(clock: Clock, t: Stamp)
    requires PrintsTimes(clock)
    ensures var text := StampText(clock, t);
            StampBytes(t) == if text.Some? then 17 + Bytes(text.value) else 0
  {
    hide Bytes;
    if t.At? { TimeBytes(clock, t.ms); }
  }

  lemma StateIs(s: DeliveryState)
    ensures Bytes(StateText(s)) == StateBytes(s)
  {
    hide Bytes;
    AsciiBytes(StateText(s));
  }

  lemma FailureIs(f: Failure)
    ensures Bytes(FailureText(f)) == FailureBytes(f)
  {
    hide Bytes;
    AsciiBytes(FailureText(f));
  }

  lemma RequestIs(id: string, methodName: string, requestId: string, key: Option<string>, body: string,
                  version: nat, payload: Option<string>)
    ensures Sum(RequestMembers(id, methodName, requestId, key, body, version, payload)) ==
              RequestBytes(id, methodName, requestId, key, body, version, payload)
  {
    hide Bytes, Sum, Member, Optional, Quoted, NumberText, StringBytes, Digits;
    QuotedBytes(id);
    QuotedBytes(methodName);
    QuotedBytes(requestId);
    QuotedBytes(body);
    NumberBytes(version);
    if key.Some? { QuotedBytes(key.value); }
    SumNone();
    var ts := [Member("id", Quoted(id))];
    AddMember([], "id", Quoted(id));
    assert [] + [Member("id", Quoted(id))] == ts;
    AddMember(ts, "method", Quoted(methodName));
    ts := ts + [Member("method", Quoted(methodName))];
    AddMember(ts, "requestId", Quoted(requestId));
    ts := ts + [Member("requestId", Quoted(requestId))];
    var k := if key.Some? then Some(Quoted(key.value)) else None;
    AddOptional(ts, "idempotencyKey", k);
    ts := ts + Optional("idempotencyKey", k);
    AddMember(ts, "body", Quoted(body));
    ts := ts + [Member("body", Quoted(body))];
    AddMember(ts, "version", NumberText(version));
    ts := ts + [Member("version", NumberText(version))];
    AddOptional(ts, "payload", payload);
  }

  lemma SumNone()
    ensures Sum([]) == 0
  {
  }

  lemma FixedMembersAre(clock: Clock, e: Entry) returns (ts: seq<string>)
    requires PrintsTimes(clock)
    ensures ts == RequestMembers(e.id, e.methodName, e.requestId, e.idempotencyKey, e.body, e.version, e.payload)
                  + [Member("state", StateText(e.state))] + [Member("createdAt", Time(clock, e.createdAt))]
                  + [Member("deadlineAt", Time(clock, e.deadlineAt))] + [Member("attempts", NumberText(e.attempts))]
    ensures Sum(ts) == CoreBytes(e) - 1 + 9 + StateBytes(e.state) + 12 + Digits(e.attempts)
  {
    hide Bytes, Sum, Member, Optional, Quoted, NumberText, StringBytes, Digits, Time, PrintsTimes, StateText, FailureText,
         StampText, RequestMembers, RequestBytes, Joined, StateBytes, FailureBytes, StampBytes, EncodedText;
    ts := RequestMembers(e.id, e.methodName, e.requestId, e.idempotencyKey, e.body, e.version, e.payload);
    RequestIs(e.id, e.methodName, e.requestId, e.idempotencyKey, e.body, e.version, e.payload);
    AddMember(ts, "state", StateText(e.state));
    ts := ts + [Member("state", StateText(e.state))];
    StateIs(e.state);
    AddMember(ts, "createdAt", Time(clock, e.createdAt));
    ts := ts + [Member("createdAt", Time(clock, e.createdAt))];
    TimeBytes(clock, e.createdAt);
    AddMember(ts, "deadlineAt", Time(clock, e.deadlineAt));
    ts := ts + [Member("deadlineAt", Time(clock, e.deadlineAt))];
    TimeBytes(clock, e.deadlineAt);
    AddMember(ts, "attempts", NumberText(e.attempts));
    ts := ts + [Member("attempts", NumberText(e.attempts))];
    NumberBytes(e.attempts);
  }

  /** The size an entry is bounded by is the length of its JSON text in UTF-8. */
  lemma EntryIsItsText(clock: Clock, e: Entry)
    requires PrintsTimes(clock)
    ensures Bytes(EntryText(clock, e)) == |EncodedText(EntryText(clock, e))| == EntryBytes(e)
  {
    hide Bytes, Sum, Member, Optional, Quoted, NumberText, StringBytes, Digits, Time, PrintsTimes, StateText, FailureText,
         StampText, RequestMembers, RequestBytes, Joined, StateBytes, FailureBytes, StampBytes, EncodedText, CoreBytes;
    var ts := FixedMembersAre(clock, e);
    AddOptional(ts, "lastAttemptAt", StampText(clock, e.lastAttemptAt));
    ts := ts + Optional("lastAttemptAt", StampText(clock, e.lastAttemptAt));
    StampIs(clock, e.lastAttemptAt);
    var next := if e.nextAttemptAt.Some? then Some(Time(clock, e.nextAttemptAt.value)) else None;
    AddOptional(ts, "nextAttemptAt", next);
    ts := ts + Optional("nextAttemptAt", next);
    if e.nextAttemptAt.Some? { TimeBytes(clock, e.nextAttemptAt.value); }
    var failure := if e.lastFailure.Some? then Some(FailureText(e.lastFailure.value)) else None;
    AddOptional(ts, "lastFailure", failure);
    ts := ts + Optional("lastFailure", failure);
    if e.lastFailure.Some? { FailureIs(e.lastFailure.value); }
    assert ts == Members(clock, e);
    JoinedBytes(ts);
    Around('{', Joined(ts), '}');
    BytesAreEncoded(EntryText(clock, e));
  }

  function EntryV1Text(clock: Clock, e: EntryV1): string {
    var ts := RequestMembers(e.id, e.methodName, e.requestId, e.idempotencyKey, e.body, e.version, e.payload)
              + [Member("createdAt", Time(clock, e.createdAt))] + [Member("attempts", NumberText(e.attempts))]
              + Optional("lastAttemptAt", StampText(clock, e.lastAttemptAt));
    "{" + (Joined(ts) + clock.other(e.otherBytes)) + "}"
  }

  /** The same for an entry of the first format, whose ignored fields come last here. */
  lemma EntryV1IsItsText(clock: Clock, e: EntryV1)
    requires PrintsTimes(clock)
    ensures Bytes(EntryV1Text(clock, e)) == EntryV1Bytes(e)
  {
    hide Bytes, Sum, Member, Optional, Quoted, NumberText, StringBytes, Digits, Time, StampText, RequestMembers,
         RequestBytes, Joined, StampBytes;
    var ts := RequestMembers(e.id, e.methodName, e.requestId, e.idempotencyKey, e.body, e.version, e.payload);
    RequestIs(e.id, e.methodName, e.requestId, e.idempotencyKey, e.body, e.version, e.payload);
    AddMember(ts, "createdAt", Time(clock, e.createdAt));
    ts := ts + [Member("createdAt", Time(clock, e.createdAt))];
    TimeBytes(clock, e.createdAt);
    AddMember(ts, "attempts", NumberText(e.attempts));
    ts := ts + [Member("attempts", NumberText(e.attempts))];
    NumberBytes(e.attempts);
    AddOptional(ts, "lastAttemptAt", StampText(clock, e.lastAttemptAt));
    ts := ts + Optional("lastAttemptAt", StampText(clock, e.lastAttemptAt));
    StampIs(clock, e.lastAttemptAt);
    JoinedBytes(ts);
    BytesConcat(Joined(ts), clock.other(e.otherBytes));
    Around('{', Joined(ts) + clock.other(e.otherBytes), '}');
  }

  // ---------------------------------------------------------------- arrays and files

  /** The elements of an array, `other` standing for those that are no entries. */
  function Texts<T>(text: T -> string, other: nat -> string, rs: seq<Raw<T>>): (ts: seq<string>)
    ensures |ts| == |rs|
    ensures forall i :: 0 <= i < |rs| ==> ts[i] == if rs[i].Typed? then text(rs[i].value) else other(rs[i].bytes)
  {
    seq(|rs|, i requires 0 <= i < |rs| => if rs[i].Typed? then text(rs[i].value) else other(rs[i].bytes))
  }

  function FileText(clock: Clock, peer: string, es: seq<Entry>): string {
    var entries := Array(Texts(e => EntryText(clock, e), clock.other, Typeds(es)));
    Object([Member("version", "2")] + [Member("peer", Quoted(peer))] + [Member("entries", entries)])
  }

  /** The size of an array is the length of its JSON text, if that holds of its elements. */
  lemma {:induction false} ArrayIsItsText<T>(text: T -> string, other: nat -> string, size: T -> nat, rs: seq<Raw<T>>)
    requires forall t :: Bytes(text(t)) == size(t)
    requires forall n :: Bytes(other(n)) == n
    ensures Bytes(Array(Texts(text, other, rs))) == ArrayBytes(size, rs)
  {
    hide Bytes, Joined;
    var ts := Texts(text, other, rs);
    Around('[', Joined(ts), ']');
    if rs == [] {
      JoinedNone();
    } else {
      var front := rs[..|rs| - 1];
      ArrayIsItsText(text, other, size, front);
      assert ts[..|ts| - 1] == Texts(text, other, front);
      Around('[', Joined(Texts(text, other, front)), ']');
      if front == [] {
        JoinedNone();
        assert Joined(ts) == ts[0] by { JoinedOne(ts[0]); assert ts == [ts[0]]; }
      } else {
        JoinedSnoc(ts);
      }
    }
  }

  lemma JoinedNone()
    ensures Bytes(Joined([])) == 0
  {
  }

  lemma JoinedOne(t: string)
    ensures Joined([t]) == t
  {
  }

  lemma JoinedSnoc(ts: seq<string>)
    requires |ts| > 1
    ensures Bytes(Joined(ts)) == Bytes(Joined(ts[..|ts| - 1])) + 1 + Bytes(ts[|ts| - 1])
  {
    hide Bytes;
    OneChar(',');
    BytesConcat(Joined(ts[..|ts| - 1]), ",");
    BytesConcat(Joined(ts[..|ts| - 1]) + ",", ts[|ts| - 1]);
  }

  /** Arrays of either format, as `load` measures them. */
  lemma EntriesAreTheirText(clock: Clock, rs: seq<Raw<Entry>>, rs1: seq<Raw<EntryV1>>)
    requires PrintsTimes(clock)
    ensures Bytes(Array(Texts(e => EntryText(clock, e), clock.other, rs))) == ArrayBytes(EntryBytes, rs)
    ensures Bytes(Array(Texts(e => EntryV1Text(clock, e), clock.other, rs1))) == ArrayBytes(EntryV1Bytes, rs1)
  {
    hide Bytes, EntryText, EntryBytes, EntryV1Text, EntryV1Bytes, Array, Texts, ArrayBytes, EncodedText;
    forall e ensures Bytes(EntryText(clock, e)) == EntryBytes(e) { EntryIsItsText(clock, e); }
    forall e ensures Bytes(EntryV1Text(clock, e)) == EntryV1Bytes(e) { EntryV1IsItsText(clock, e); }
    ArrayIsItsText(e => EntryText(clock, e), clock.other, EntryBytes, rs);
    ArrayIsItsText(e => EntryV1Text(clock, e), clock.other, EntryV1Bytes, rs1);
  }

  /** The size a file is bounded by is the length of its JSON text in UTF-8. */
  lemma FileIsItsText(clock: Clock, peer: string, es: seq<Entry>)
    requires PrintsTimes(clock)
    ensures Bytes(FileText(clock, peer, es)) == |EncodedText(FileText(clock, peer, es))| == FileBytes(peer, es)
  {
    hide Bytes, Sum, Member, Quoted, StringBytes, PrintsTimes, Joined, Array, Texts, EncodedText, ArrayBytes, EntryBytes;
    var entries := Array(Texts(e => EntryText(clock, e), clock.other, Typeds(es)));
    EntriesAreTheirText(clock, Typeds(es), []);
    QuotedBytes(peer);
    AsciiBytes("2");
    SumNone();
    var ts := [Member("version", "2")];
    assert [] + ts == ts;
    AddMember([], "version", "2");
    AddMember(ts, "peer", Quoted(peer));
    AddMember(ts + [Member("peer", Quoted(peer))], "entries", entries);
    ts := ts + [Member("peer", Quoted(peer))] + [Member("entries", entries)];
    JoinedBytes(ts);
    Around('{', Joined(ts), '}');
    BytesAreEncoded(FileText(clock, peer, es));
  }
}
