/** Dotenv files as lines, some of which are assignments. */
module Dotenv {
  import opened Text

  datatype Line = Assignment(key: string, value: string, raw: string) | Other(raw: string)

  /** Index of the first `=`, or -1. */
  function IndexOfEquals(s: string): (i: int)
    ensures -1 <= i < |s|
    ensures i >= 0 ==> s[i] == '='
  {
    if s == "" then -1
    else if s[0] == '=' then 0
    else var i := IndexOfEquals(s[1..]); if i < 0 then -1 else i + 1
  }

  lemma {:induction false} IndexOfEqualsAt(name: string, rest: string)
    requires '=' !in name
    ensures IndexOfEquals(name + "=" + rest) == |name|
  {
    var s := name + "=" + rest;
    if name != "" {
      assert s[0] == name[0] && s[1..] == name[1..] + "=" + rest;
      IndexOfEqualsAt(name[1..], rest);
    }
  }

  predicate NameStart(c: char) {
    'A' <= c <= 'Z' || c == '_'
  }

  predicate IsEnvName(s: string) {
    s != "" && NameStart(s[0]) && forall i :: 0 < i < |s| ==> NameStart(s[i]) || '0' <= s[i] <= '9'
  }

  predicate EndsWith(s: string, suffix: string) {
    |suffix| <= |s| && s[|s| - |suffix|..] == suffix
  }

  predicate IsSecretEnvName(s: string) {
    IsEnvName(s)
    && (EndsWith(s, "_KEY") || EndsWith(s, "_TOKEN") || EndsWith(s, "_SECRET") || EndsWith(s, "_PASSWORD") || EndsWith(s, "_API_ID"))
  }

  function Unquote(s: string): string {
    if |s| >= 2 && ((s[0] == '\"' && s[|s| - 1] == '\"') || (s[0] == '\'' && s[|s| - 1] == '\''))
    then s[1..|s| - 1] else s
  }

  function ParseLine(raw: string): (l: Line)
    ensures l.raw == raw
    ensures l.Assignment? ==> IsEnvName(l.key)
  {
    var trimmed := Trim(raw);
    if trimmed == "" || trimmed[0] == '#' then Other(raw)
    else
      var eq := IndexOfEquals(trimmed);
      if eq < 1 || !IsEnvName(trimmed[..eq]) then Other(raw)
      else Assignment(trimmed[..eq], Unquote(Trim(trimmed[eq + 1..])), raw)
  }

  lemma {:induction false} TrimStartDrops(s: string) returns (a: nat)
    ensures a <= |s| && TrimStart(s) == s[a..] && forall i :: 0 <= i < a ==> IsSpace(s[i])
  {
    if s != "" && IsSpace(s[0]) {
      a := TrimStartDrops(s[1..]);
      assert forall i :: 1 <= i < a + 1 ==> s[i] == s[1..][i - 1];
      a := a + 1;
    } else {
      a := 0;
    }
  }

  lemma {:induction false} TrimEndDrops(s: string) returns (b: nat)
    ensures b <= |s| && TrimEnd(s) == s[..b]
  {
    if s != "" && IsSpace(s[|s| - 1]) {
      b := TrimEndDrops(s[..|s| - 1]);
    } else {
      b := |s|;
    }
  }

  lemma {:induction false} TrimsToName(spaces: string, name: string)
    requires forall i :: 0 <= i < |spaces| ==> IsSpace(spaces[i])
    requires name != "" && !IsSpace(name[0]) && !IsSpace(name[|name| - 1])
    ensures Trim(spaces + name) == name
  {
    var s := spaces + name;
    if spaces == "" {
      assert s == name;
      TrimKeeps(name);
    } else {
      assert s[0] == spaces[0] && s[1..] == spaces[1..] + name;
      TrimsToName(spaces[1..], name);
    }
  }

  /** In equal quotes, single or double. */
  predicate Enclosed(v: string) {
    |v| >= 2 && v[0] == v[|v| - 1] && (v[0] == '\"' || v[0] == '\'')
  }

  lemma UnquotesEnclosed(v: string)
    ensures Unquote(v) == if Enclosed(v) then v[1..|v| - 1] else v
  {
  }

  /** The part of a line from its name to its value, without white space around. */
  lemma AssignmentCore(a: string, name: string, b: string, v: string, c: string)
    requires Blank(a) && Blank(b) && Blank(c) && IsEnvName(name) && Trimmed(v)
    ensures var trimmed := Trim(a + name + "=" + b + v + c);
            && trimmed == (if v == "" then name + "=" else name + "=" + (b + v))
            && IndexOfEquals(trimmed) == |name| && name != "" && trimmed[0] != '#' && trimmed[..|name|] == name
            && trimmed[|name| + 1..] == (if v == "" then "" else b + v)
  {
    hide Trim, IndexOfEquals;
    var tail := if v == "" then "" else b + v;
    var core, rest := name + "=" + tail, if v == "" then b + c else c;
    assert a + name + "=" + b + v + c == a + core + rest;
    NameIsPlain(name);
    assert core[0] == name[0];
    assert core[|core| - 1] == if v == "" then '=' else v[|v| - 1];
    TrimsAround(a, core, rest);
    assert name + "=" + "" == name + "=";
    IndexOfEqualsAt(name, tail);
    assert core[..|name|] == name && core[|name| + 1..] == tail;
  }

  lemma NameIsPlain(name: string)
    requires IsEnvName(name)
    ensures name != "" && !IsSpace(name[0]) && name[0] != '#' && '=' !in name && !IsSpace('=')
  {
  }

  /** A name, an equals sign and a value, with any white space around the line and the value, is read as
      that value, or as what is inside its quotes if it is enclosed in equal ones. */
  lemma ParsesAssignment(a: string, name: string, b: string, v: string, c: string)
    requires Blank(a) && Blank(b) && Blank(c) && IsEnvName(name) && Trimmed(v)
    ensures var line := a + name + "=" + b + v + c;
            ParseLine(line) == Assignment(name, if Enclosed(v) then v[1..|v| - 1] else v, line)
  {
    hide Trim, IndexOfEquals, IsEnvName, Blank, Trimmed;
    AssignmentCore(a, name, b, v, c);
    ValueTrims(b, v);
    UnquotesEnclosed(v);
  }

  lemma ValueTrims(b: string, v: string)
    requires Blank(b) && Trimmed(v)
    ensures Trim(if v == "" then "" else b + v) == v
  {
    hide Trim;
    assert b + v == b + v + "" && "" + "" + "" == "";
    TrimsAround(b, v, "");
    TrimsAround("", "", "");
  }

  /** An environment name at the start of a line, before its first equals sign. */
  ghost predicate HasName(raw: string) {
    exists a, name, rest :: StartsWithName(raw, a, name, rest)
  }

  predicate StartsWithName(raw: string, a: string, name: string, rest: string) {
    raw == a + name + "=" + rest && Blank(a) && IsEnvName(name)
  }

  /** A line is no assignment exactly if no environment name precedes its first equals sign: blank lines
      and comments, and malformed ones. */
  lemma OtherExactly(raw: string)
    ensures ParseLine(raw).Other? <==> !HasName(raw)
    ensures Blank(raw) || (exists a, rest :: raw == a + "#" + rest && Blank(a)) ==> ParseLine(raw).Other?
  {
    hide ParseLine, IsEnvName, Blank, Trimmed;
    if HasName(raw) {
      var a, name, rest :| StartsWithName(raw, a, name, rest);
      var b, v, c := SplitBlanks(rest);
      assert raw == a + name + "=" + b + v + c;
      ParsesAssignment(a, name, b, v, c);
    }
    if ParseLine(raw).Assignment? {
      var a, rest := NameOfAssignment(raw);
      assert StartsWithName(raw, a, ParseLine(raw).key, rest);
    }
    if HasName(raw) { NamedIsNoComment(raw); }
  }

  /** The line is this name, an equals sign and this value, which may be in equal quotes, with white space
      around the line and the value. */
  ghost predicate Reads(raw: string, name: string, value: string) {
    IsEnvName(name) && exists a, b, text, c :: Laid(raw, a, name, b, text, c) && value == if Enclosed(text) then text[1..|text| - 1] else text
  }

  predicate Laid(raw: string, a: string, name: string, b: string, text: string, c: string) {
    raw == a + name + "=" + b + text + c && Blank(a) && Blank(b) && Blank(c) && Trimmed(text)
  }

  /** The parser finds an assignment of that value to that name exactly on such a line. */
  lemma ReadsExactly(raw: string, name: string, value: string)
    ensures ParseLine(raw) == Assignment(name, value, raw) <==> Reads(raw, name, value)
  {
    hide ParseLine, IsEnvName, Blank, Trimmed;
    if Reads(raw, name, value) {
      var a, b, text, c :| Laid(raw, a, name, b, text, c) && value == if Enclosed(text) then text[1..|text| - 1] else text;
      ParsesAssignment(a, name, b, text, c);
    }
    if ParseLine(raw) == Assignment(name, value, raw) {
      var a, rest := NameOfAssignment(raw);
      var b, text, c := SplitBlanks(rest);
      assert raw == a + name + "=" + b + text + c;
      ParsesAssignment(a, name, b, text, c);
      assert Laid(raw, a, name, b, text, c);
    }
  }

  lemma NamedIsNoComment(raw: string)
    requires HasName(raw)
    ensures !Blank(raw) && !exists a, rest :: raw == a + "#" + rest && Blank(a)
  {
    var a, name, rest :| StartsWithName(raw, a, name, rest);
    NameIsPlain(name);
    HashIsNoSpace();
    hide IsEnvName, IsSpace;
    assert forall i :: 0 <= i < |a| ==> raw[i] == a[i];
    assert raw[|a|] == name[0];
    forall x, y | raw == x + "#" + y ensures !Blank(x) {
      assert raw[|x|] == '#';
      if |x| > |a| { assert x[|a|] == raw[|a|]; }
    }
  }

  lemma HashIsNoSpace()
    ensures !IsSpace('#')
  {
  }

  lemma NameOfAssignment(raw: string) returns (a: string, rest: string)
    requires ParseLine(raw).Assignment?
    ensures raw == a + ParseLine(raw).key + "=" + rest && Blank(a)
  {
    hide ParseLine, Trim, TrimStart, TrimEnd, IsSpace, IsEnvName;
    NameStartsLine(raw);
    var name := ParseLine(raw).key;
    var k := TrimStartDrops(raw);
    var b := TrimEndDrops(raw[k..]);
    TrimIsBoth(raw);
    assert Trim(raw) == raw[k..][..b];
    a, rest := raw[..k], raw[k + |name| + 1..];
    assert raw[k..][..|name|] == name && raw[k..][|name|] == '=';
  }

  lemma TrimIsBoth(raw: string)
    ensures Trim(raw) == TrimEnd(TrimStart(raw))
  {
  }

  /** Credential names are environment names with one of five suffixes. */
  lemma SecretNamesExactly(n: string)
    ensures IsSecretEnvName(n) <==>
              && n != "" && (forall i :: 0 <= i < |n| ==> 'A' <= n[i] <= 'Z' || n[i] == '_' || (i > 0 && '0' <= n[i] <= '9'))
              && exists p :: n == p + "_KEY" || n == p + "_TOKEN" || n == p + "_SECRET" || n == p + "_PASSWORD" || n == p + "_API_ID"
  {
    EndsExactly(n, "_KEY");
    EndsExactly(n, "_TOKEN");
    EndsExactly(n, "_SECRET");
    EndsExactly(n, "_PASSWORD");
    EndsExactly(n, "_API_ID");
    hide EndsWith;
  }

  lemma EndsExactly(n: string, suffix: string)
    ensures EndsWith(n, suffix) <==> exists p :: n == p + suffix
  {
    if EndsWith(n, suffix) { assert n == n[..|n| - |suffix|] + suffix; }
  }

  /** What precedes the first `=` of a line, trimmed: how names are found when planning has failed. */
  function ScannedName(line: string): string {
    var eq := IndexOfEquals(line);
    if eq > 0 then Trim(line[..eq]) else ""
  }

  lemma NameStartsLine(raw: string)
    requires ParseLine(raw).Assignment?
    ensures var name, trimmed := ParseLine(raw).key, Trim(raw);
            name != "" && '=' !in name && !IsSpace(name[0]) && !IsSpace(name[|name| - 1])
            && |name| < |trimmed| && trimmed[..|name|] == name && trimmed[|name|] == '='
  {
    hide Trim;
  }

  /** The scan misses no assignment that the parser sees. */
  lemma ScanFindsAssignments(raw: string)
    requires ParseLine(raw).Assignment?
    ensures ScannedName(raw) == ParseLine(raw).key
  {
    NameStartsLine(raw);
    var name := ParseLine(raw).key;
    var a := TrimStartDrops(raw);
    var b := TrimEndDrops(raw[a..]);
    assert Trim(raw) == raw[a..][..b];
    hide ParseLine, Trim, IndexOfEquals;
    ScansIndented(raw, a, b, name);
  }

  lemma ScansIndented(raw: string, a: nat, b: nat, name: string)
    requires a <= |raw| && b <= |raw| - a && forall i :: 0 <= i < a ==> IsSpace(raw[i])
    requires name != "" && '=' !in name && !IsSpace(name[0]) && !IsSpace(name[|name| - 1])
    requires |name| < b && raw[a..][..|name|] == name && raw[a..][|name|] == '='
    ensures ScannedName(raw) == name
  {
    hide Trim, IndexOfEquals;
    var eq := a + |name|;
    assert raw[..eq] == raw[..a] + name;
    assert raw == raw[..eq] + "=" + raw[eq + 1..];
    IndexOfEqualsAt(raw[..eq], raw[eq + 1..]);
    TrimsToName(raw[..a], name);
  }

  function ParseAll(raws: seq<string>): (ls: seq<Line>)
    ensures |ls| == |raws| && forall i :: 0 <= i < |raws| ==> ls[i] == ParseLine(raws[i])
  {
    seq(|raws|, i requires 0 <= i < |raws| => ParseLine(raws[i]))
  }

  function Raws(ls: seq<Line>): (raws: seq<string>)
    ensures |raws| == |ls| && forall i :: 0 <= i < |ls| ==> raws[i] == ls[i].raw
  {
    seq(|ls|, i requires 0 <= i < |ls| => ls[i].raw)
  }

  /** The parse loop. Parsing loses nothing: the raw lines joined are the file. */
  method ParseDotenvLines(content: string) returns (lines: seq<Line>)
    ensures lines == ParseAll(SplitLines(content))
    ensures JoinLines(Raws(lines)) == content
    ensures forall i, name, value :: 0 <= i < |lines| ==>
              (lines[i] == Assignment(name, value, lines[i].raw) <==> Reads(lines[i].raw, name, value))
  {
    hide ParseLine, SplitLines, JoinLines, Reads;
    lines := [];
    var raws := SplitLines(content);
    for i := 0 to |raws|
      invariant |lines| == i && forall j :: 0 <= j < i ==> lines[j] == ParseLine(raws[j])
    {
      var line := ParseOne(raws[i]);
      lines := lines + [line];
    }
    JoinSplit(content);
    assert Raws(lines) == raws;
    forall i, name, value | 0 <= i < |lines|
      ensures lines[i] == Assignment(name, value, lines[i].raw) <==> Reads(lines[i].raw, name, value)
    {
      ReadsExactly(lines[i].raw, name, value);
    }
  }

  /** The body of the parse loop. */
  method ParseOne(raw: string) returns (line: Line)
    ensures line == ParseLine(raw)
  {
    hide Trim, IndexOfEquals, IsEnvName;
    var trimmed := Trim(raw);
    if trimmed == "" || trimmed[0] == '#' { return Other(raw); }
    var eq := IndexOfEquals(trimmed);
    if eq < 1 || !IsEnvName(trimmed[..eq]) { return Other(raw); }
    var key := trimmed[..eq];
    var value := Trim(trimmed[eq + 1..]);
    if |value| >= 2 && ((value[0] == '\"' && value[|value| - 1] == '\"') || (value[0] == '\'' && value[|value| - 1] == '\'')) {
      value := value[1..|value| - 1];
    }
    return Assignment(key, value, raw);
  }
}
