/** Text as lines: splitting, joining, trimming. */
module Text {
  /** `content.split("\n")`: never empty, and no line holds a newline. */
  function SplitLines(s: string): (ls: seq<string>)
    ensures |ls| > 0
  {
    if s == "" then [""]
    else
      var front, last := SplitLines(s[..|s| - 1]), s[|s| - 1];
      if last == '\n' then front + [""] else front[..|front| - 1] + [front[|front| - 1] + [last]]
  }

  /** `lines.join("\n")`. */
  function JoinLines(ls: seq<string>): string {
    if ls == [] then ""
    else if |ls| == 1 then ls[0]
    else JoinLines(ls[..|ls| - 1]) + "\n" + ls[|ls| - 1]
  }

  lemma JoinLongerLast(ls: seq<string>, c: char)
    requires |ls| > 0
    ensures JoinLines(ls[..|ls| - 1] + [ls[|ls| - 1] + [c]]) == JoinLines(ls) + [c]
  {
    var front, last := ls[..|ls| - 1], ls[|ls| - 1];
    var longer := front + [last + [c]];
    assert longer[..|longer| - 1] == front;
    if |ls| > 1 {
      assert (JoinLines(front) + "\n" + last) + [c] == JoinLines(front) + "\n" + (last + [c]);
    }
  }

  /** Splitting and joining give the file back exactly. */
  lemma {:induction false} JoinSplit(s: string)
    ensures JoinLines(SplitLines(s)) == s
  {
    if s != "" {
      var prior, last := s[..|s| - 1], s[|s| - 1];
      var front := SplitLines(prior);
      JoinSplit(prior);
      assert s == prior + [last];
      if last == '\n' {
        assert (front + [""])[..|front|] == front;
        assert prior + "\n" + "" == s;
      } else {
        JoinLongerLast(front, last);
      }
    }
  }

  lemma {:induction false} SplitHasNoNewlines(s: string)
    ensures forall i :: 0 <= i < |SplitLines(s)| ==> '\n' !in SplitLines(s)[i]
  {
    if s != "" {
      SplitHasNoNewlines(s[..|s| - 1]);
    }
  }

  lemma {:induction false} SplitAppendsToLast(s: string, t: string)
    requires '\n' !in t
    ensures var ls := SplitLines(s); SplitLines(s + t) == ls[..|ls| - 1] + [ls[|ls| - 1] + t]
  {
    var ls := SplitLines(s);
    if t == "" {
      assert s + t == s;
      assert ls[|ls| - 1] + t == ls[|ls| - 1];
    } else {
      var prior, c := t[..|t| - 1], t[|t| - 1];
      SplitAppendsToLast(s, prior);
      assert (s + t)[..|s + t| - 1] == s + prior;
      assert ls[|ls| - 1] + t == (ls[|ls| - 1] + prior) + [c];
    }
  }

  /** Lines without newlines come back from the text they are joined into. */
  lemma {:induction false} SplitJoin(ls: seq<string>)
    requires |ls| > 0 && forall i :: 0 <= i < |ls| ==> '\n' !in ls[i]
    ensures SplitLines(JoinLines(ls)) == ls
  {
    var front, last := ls[..|ls| - 1], ls[|ls| - 1];
    if |ls| == 1 {
      SplitAppendsToLast("", last);
      assert "" + last == last;
      assert SplitLines("") == [""] && [""][..0] == [];
    } else {
      SplitJoin(front);
      var s := JoinLines(front) + "\n";
      assert s[..|s| - 1] == JoinLines(front);
      assert SplitLines(s) == front + [""];
      SplitAppendsToLast(s, last);
      assert "" + last == last;
    }
  }

  /** One more character of a text in lines. */
  function Pushed(ls: seq<string>, c: char): seq<string>
    requires |ls| > 0
  {
    if c == '\n' then ls + [""] else ls[..|ls| - 1] + [ls[|ls| - 1] + [c]]
  }

  lemma SplitPushed(s: string, c: char)
    ensures SplitLines(s + [c]) == Pushed(SplitLines(s), c)
  {
    assert (s + [c])[..|s|] == s;
  }

  lemma PushedInto(front: seq<string>, more: seq<string>, c: char)
    requires |more| > 0
    ensures Pushed(front + more, c) == front + Pushed(more, c)
  {
    assert (front + more)[..|front + more| - 1] == front + more[..|more| - 1];
  }

  lemma OneLine(s: string)
    requires '\n' !in s
    ensures SplitLines(s) == [s]
  {
    SplitAppendsToLast("", s);
    assert "" + s == s && SplitLines("") == [""];
  }

  /** A terminated line in front of a text. */
  lemma FirstLine(line: string, rest: string)
    requires '\n' !in line
    ensures SplitLines(line + "\n" + rest) == [line] + SplitLines(rest)
  {
    var head := line + "\n";
    OneLine(line);
    SplitPushed(line, '\n');
    assert SplitLines(head) == [line, ""];
    SplitContinues(head, rest);
    assert "" + rest == rest;
  }

  /** Text that arrives later continues the last line. */
  lemma {:induction false} SplitContinues(s: string, t: string)
    ensures var ls := SplitLines(s);
            SplitLines(s + t) == ls[..|ls| - 1] + SplitLines(ls[|ls| - 1] + t)
  {
    hide SplitLines, Pushed;
    var ls := SplitLines(s);
    var front, last := ls[..|ls| - 1], ls[|ls| - 1];
    if t == "" {
      SplitHasNoNewlines(s);
      OneLine(last);
      assert s + t == s && last + t == last;
    } else {
      var prior, c := t[..|t| - 1], t[|t| - 1];
      assert t == prior + [c];
      SplitContinues(s, prior);
      SplitPushed(s + prior, c);
      SplitPushed(last + prior, c);
      PushedInto(front, SplitLines(last + prior), c);
      assert s + t == s + prior + [c] && last + t == last + prior + [c];
    }
  }

  // ---------------------------------------------------------------- white space

  /** What `trim` removes: white space and line terminators. */
  predicate IsSpace(c: char) {
    var u := c as int;
    (9 <= u <= 13) || u == 32 || u == 160 || u == 0x1680 || (0x2000 <= u <= 0x200A)
    || u == 0x2028 || u == 0x2029 || u == 0x202F || u == 0x205F || u == 0x3000 || u == 0xFEFF
  }

  /** The white space and line terminators of ECMAScript 2023 (sections 12.2 and 12.3). */
  lemma SpaceExactly(c: char)
    ensures IsSpace(c) <==>
              c in "\t\n\U{B}\U{C}\r \U{A0}\U{1680}\U{2000}\U{2001}\U{2002}\U{2003}\U{2004}\U{2005}"
                   + "\U{2006}\U{2007}\U{2008}\U{2009}\U{200A}\U{2028}\U{2029}\U{202F}\U{205F}\U{3000}\U{FEFF}"
  {
  }

  function TrimStart(s: string): string {
    if s != "" && IsSpace(s[0]) then TrimStart(s[1..]) else s
  }

  function TrimEnd(s: string): string {
    if s != "" && IsSpace(s[|s| - 1]) then TrimEnd(s[..|s| - 1]) else s
  }

  function Trim(s: string): string {
    TrimEnd(TrimStart(s))
  }

  lemma TrimKeeps(s: string)
    requires s != "" ==> !IsSpace(s[0]) && !IsSpace(s[|s| - 1])
    ensures Trim(s) == s
  {
  }

  predicate Blank(s: string) {
    forall i :: 0 <= i < |s| ==> IsSpace(s[i])
  }

  /** No white space at either end. */
  predicate Trimmed(s: string) {
    s != "" ==> !IsSpace(s[0]) && !IsSpace(s[|s| - 1])
  }

  lemma {:induction false} TrimStartBlank(a: string, x: string)
    requires Blank(a) && (x != "" ==> !IsSpace(x[0]))
    ensures TrimStart(a + x) == x
  {
    hide IsSpace;
    if a == "" {
      assert a + x == x;
    } else {
      assert (a + x)[0] == a[0] && (a + x)[1..] == a[1..] + x;
      TrimStartBlank(a[1..], x);
    }
  }

  lemma {:induction false} TrimEndBlank(x: string, c: string)
    requires Blank(c) && (x != "" ==> !IsSpace(x[|x| - 1]))
    ensures TrimEnd(x + c) == x
  {
    hide IsSpace;
    if c == "" {
      assert x + c == x;
    } else {
      assert (x + c)[|x + c| - 1] == c[|c| - 1] && (x + c)[..|x + c| - 1] == x + c[..|c| - 1];
      TrimEndBlank(x, c[..|c| - 1]);
    }
  }

  /** Trimming removes exactly the white space around. */
  lemma TrimsAround(a: string, core: string, c: string)
    requires Blank(a) && Blank(c) && Trimmed(core)
    ensures Trim(a + core + c) == core
  {
    hide IsSpace, TrimStart, TrimEnd;
    if core == "" {
      assert a + core + c == (a + c) + "";
      TrimStartBlank(a + c, "");
      TrimEndBlank("", "");
      assert "" + "" == "";
    } else {
      assert a + core + c == a + (core + c);
      TrimStartBlank(a, core + c);
      TrimEndBlank(core, c);
    }
  }

  lemma {:induction false} SplitBlanks(s: string) returns (b: string, v: string, c: string)
    ensures s == b + v + c && Blank(b) && Blank(c) && Trimmed(v)
  {
    hide IsSpace;
    if s != "" && IsSpace(s[0]) {
      b, v, c := SplitBlanks(s[1..]);
      b := [s[0]] + b;
      assert s == [s[0]] + s[1..];
    } else if s != "" && IsSpace(s[|s| - 1]) {
      b, v, c := SplitBlanks(s[..|s| - 1]);
      c := c + [s[|s| - 1]];
      assert s == s[..|s| - 1] + [s[|s| - 1]];
    } else {
      b, v, c := "", s, "";
    }
  }

  /** Trimming leaves nothing exactly of white space. */
  lemma TrimmedAway(s: string)
    ensures Trim(s) == "" <==> Blank(s)
  {
    hide IsSpace, Trim;
    var b, v, c := SplitBlanks(s);
    TrimsAround(b, v, c);
    if v == "" {
      assert s == b + c;
    } else {
      assert s[|b|] == v[0];
    }
  }
}
