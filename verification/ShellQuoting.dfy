/**
 Building one shell line from an argument list, and reading it back the way a shell does.
 The reader follows the POSIX.1-2017 Shell Command Language: token recognition (section 2.3),
 backslash and single quotes (2.2.1, 2.2.2) and quote removal (2.6.7). It gives up on anything that
 a shell would not take literally, so that what it returns is exactly what the program receives.
 */
module ShellQuoting {
  import opened Wrappers

  datatype CommandArg = CommandArg(text: string, quote: bool)

  const ARGV_TOKEN := 2048

  predicate SafeChar(c: char) {
    'A' <= c <= 'Z' || 'a' <= c <= 'z' || '0' <= c <= '9' || c in "_./:@%+=,~-"
  }

  predicate IsSafeArgvToken(token: string) {
    0 < |token| <= ARGV_TOKEN && forall i :: 0 <= i < |token| ==> SafeChar(token[i])
  }

  function Escape(text: string): string {
    if text == "" then "" else (if text[0] == '\'' then "'\\''" else [text[0]]) + Escape(text[1..])
  }

  function QuoteArg(text: string): string {
    "'" + Escape(text) + "'"
  }

  predicate Accepted(arg: CommandArg) {
    0 < |arg.text| <= ARGV_TOKEN * 8 && (arg.quote || IsSafeArgvToken(arg.text))
  }

  function Token(arg: CommandArg): string {
    if arg.quote then QuoteArg(arg.text) else arg.text
  }

  /** None stands for the exception on a rejected argument. */
  method BuildTmuxTokens(argv: seq<CommandArg>) returns (tokens: Option<seq<string>>)
    ensures tokens.Some? <==> forall i :: 0 <= i < |argv| ==> Accepted(argv[i])
    ensures tokens.Some? ==> |tokens.value| == |argv| && forall i :: 0 <= i < |argv| ==> tokens.value[i] == Token(argv[i])
    ensures tokens.Some? ==> ShellWords(JoinWithSpaces(tokens.value)) == Some(Texts(argv))
    ensures tokens.Some? ==>
              forall i :: 0 <= i < |argv| ==>
                var token := tokens.value[i];
                if argv[i].quote then |token| >= 2 && token[0] == token[|token| - 1] == '\'' else token == argv[i].text
  {
    var out := [];
    for i := 0 to |argv|
      invariant |out| == i
      invariant forall j :: 0 <= j < i ==> Accepted(argv[j]) && out[j] == Token(argv[j])
    {
      var arg := argv[i];
      if |arg.text| == 0 || |arg.text| > ARGV_TOKEN * 8 { return None; }
      if arg.quote {
        out := out + [QuoteArg(arg.text)];
      } else {
        if !IsSafeArgvToken(arg.text) { return None; }
        out := out + [arg.text];
      }
    }
    LineReadsBack(argv, out);
    return Some(out);
  }

  function Texts(argv: seq<CommandArg>): (r: seq<string>)
    ensures |r| == |argv| && forall i :: 0 <= i < |argv| ==> r[i] == argv[i].text
  {
    seq(|argv|, i requires 0 <= i < |argv| => argv[i].text)
  }

  function JoinWithSpaces(ws: seq<string>): string {
    if ws == [] then "" else if |ws| == 1 then ws[0] else ws[0] + " " + JoinWithSpaces(ws[1..])
  }

  // ---------------------------------------------------------------- the shell's reading

  datatype Mode = Unquoted | SingleQuoted

  /** Characters a shell never takes literally outside quotes, or not in every position. */
  predicate Special(c: char) {
    c in "|&;<>()$`\"*?[]#{}!\n"
  }

  /** The words of the rest of a line, with `word` read so far. None if quotes are left open or
      something outside them is not literal. */
  function Read(s: string, mode: Mode, word: Option<string>): Option<seq<string>>
    decreases |s|
  {
    var sofar := if word.Some? then word.value else "";
    if s == "" then
      if mode.SingleQuoted? then None else Some(if word.Some? then [word.value] else [])
    else if mode.SingleQuoted? then
      if s[0] == '\'' then Read(s[1..], Unquoted, Some(sofar)) else Read(s[1..], SingleQuoted, Some(sofar + [s[0]]))
    else if s[0] == ' ' || s[0] == '\t' then
      match Read(s[1..], Unquoted, None)
      case None => None
      case Some(ws) => Some((if word.Some? then [word.value] else []) + ws)
    else if s[0] == '\'' then Read(s[1..], SingleQuoted, Some(sofar))
    else if s[0] == '\\' then
      if |s| < 2 then None
      else if s[1] == '\n' then Read(s[2..], Unquoted, word)
      else Read(s[2..], Unquoted, Some(sofar + [s[1]]))
    else if Special(s[0]) then None
    else Read(s[1..], Unquoted, Some(sofar + [s[0]]))
  }

  function ShellWords(line: string): Option<seq<string>> {
    Read(line, Unquoted, None)
  }

  // ---------------------------------------------------------------- round trip

  lemma {:induction false} ReadsEscaped(text: string, rest: string, sofar: string)
    ensures Read(Escape(text) + "'" + rest, SingleQuoted, Some(sofar)) == Read(rest, Unquoted, Some(sofar + text))
    decreases |text|
  {
    var s := Escape(text) + "'" + rest;
    if text == "" {
      assert s[1..] == rest;
      assert sofar + text == sofar;
    } else {
      var tail := Escape(text[1..]) + "'" + rest;
      ReadsEscaped(text[1..], rest, sofar + [text[0]]);
      assert sofar + text == (sofar + [text[0]]) + text[1..];
      if text[0] == '\'' {
        assert s == "'\\''" + tail;
        var afterClose := s[1..];
        var reopened := "'" + tail;
        assert afterClose == "\\''" + tail && afterClose[2..] == reopened && reopened[1..] == tail;
        assert Read(s, SingleQuoted, Some(sofar)) == Read(afterClose, Unquoted, Some(sofar));
        assert Read(afterClose, Unquoted, Some(sofar)) == Read(reopened, Unquoted, Some(sofar + [text[0]]));
        assert Read(reopened, Unquoted, Some(sofar + [text[0]])) == Read(tail, SingleQuoted, Some(sofar + [text[0]]));
      } else {
        assert s == [text[0]] + tail && s[1..] == tail;
      }
    }
  }

  lemma ReadsQuoted(text: string, rest: string)
    ensures Read(QuoteArg(text) + rest, Unquoted, None) == Read(rest, Unquoted, Some(text))
  {
    var s := QuoteArg(text) + rest;
    assert s[1..] == Escape(text) + "'" + rest;
    ReadsEscaped(text, rest, "");
    assert "" + text == text;
  }

  /** No safe character means anything to a shell, at any position. */
  lemma SafeIsLiteral(c: char)
    requires SafeChar(c)
    ensures !Special(c) && c != ' ' && c != '\t' && c != '\'' && c != '\\'
  {
  }

  /** What may stand outside quotes: every visible ASCII character but these 21. */
  lemma SafeExactly(c: char)
    ensures SafeChar(c) <==> '!' <= c <= '~' && c !in "!\"#$&'()*;<>?[\\]^`{|}"
  {
  }

  /** Which arguments are accepted: quoted, any non-empty text of at most 16384 characters; unquoted, at
      most 2048 of those characters. */
  lemma AcceptedExactly(arg: CommandArg)
    ensures Accepted(arg) <==>
              if arg.quote then 1 <= |arg.text| <= 16_384
              else 1 <= |arg.text| <= 2_048
                   && forall i :: 0 <= i < |arg.text| ==> '!' <= arg.text[i] <= '~' && arg.text[i] !in "!\"#$&'()*;<>?[\\]^`{|}"
  {
    hide SafeChar;
    forall i | 0 <= i < |arg.text|
      ensures SafeChar(arg.text[i]) <==> '!' <= arg.text[i] <= '~' && arg.text[i] !in "!\"#$&'()*;<>?[\\]^`{|}"
    {
      SafeExactly(arg.text[i]);
    }
  }

  lemma {:induction false} ReadsSafe(text: string, rest: string, word: Option<string>)
    requires text != "" && forall i :: 0 <= i < |text| ==> SafeChar(text[i])
    ensures Read(text + rest, Unquoted, word) == Read(rest, Unquoted, Some((if word.Some? then word.value else "") + text))
    decreases |text|
  {
    hide SafeChar, Special;
    SafeIsLiteral(text[0]);
    var sofar := if word.Some? then word.value else "";
    assert (text + rest)[0] == text[0] && (text + rest)[1..] == text[1..] + rest;
    if |text| == 1 {
      assert text == [text[0]] && text[1..] + rest == rest;
    } else {
      ReadsSafe(text[1..], rest, Some(sofar + [text[0]]));
      assert (sofar + [text[0]]) + text[1..] == sofar + text;
    }
  }

  /** One token is read back as one word, whatever follows it. */
  lemma ReadsToken(arg: CommandArg, rest: string)
    requires Accepted(arg)
    ensures Read(Token(arg) + rest, Unquoted, None) == Read(rest, Unquoted, Some(arg.text))
  {
    if arg.quote {
      ReadsQuoted(arg.text, rest);
    } else {
      ReadsSafe(arg.text, rest, None);
      assert "" + arg.text == arg.text;
    }
  }

  /** Splitting the built line into words and removing quotes yields the original arguments. */
  lemma {:induction false} LineReadsBack(argv: seq<CommandArg>, tokens: seq<string>)
    requires |tokens| == |argv| && forall i :: 0 <= i < |argv| ==> Accepted(argv[i]) && tokens[i] == Token(argv[i])
    ensures ShellWords(JoinWithSpaces(tokens)) == Some(Texts(argv))
    decreases |argv|
  {
    if |argv| == 0 {
    } else if |argv| == 1 {
      ReadsToken(argv[0], "");
      assert tokens[0] + "" == tokens[0];
      assert Texts(argv) == [argv[0].text];
    } else {
      var rest := JoinWithSpaces(tokens[1..]);
      ReadsToken(argv[0], " " + rest);
      assert JoinWithSpaces(tokens) == tokens[0] + (" " + rest);
      assert (" " + rest)[1..] == rest;
      LineReadsBack(argv[1..], tokens[1..]);
      assert Texts(argv) == [argv[0].text] + Texts(argv[1..]);
    }
  }
}
