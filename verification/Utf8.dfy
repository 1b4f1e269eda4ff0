/** The length of a text in UTF-8, against the encoding itself (RFC 3629, sections 3 and 4). */
module Utf8 {
  import opened Wrappers

  function Width(c: char): nat {
    var u := c as int;
    if u < 0x80 then 1 else if u < 0x800 then 2 else if u < 0x10000 then 3 else 4
  }

  function Bytes(s: string): nat {
    if s == "" then 0 else Bytes(s[..|s| - 1]) + Width(s[|s| - 1])
  }

  lemma {:induction false} BytesConcat(s: string, t: string)
    ensures Bytes(s + t) == Bytes(s) + Bytes(t)
  {
    if t == "" {
      assert s + t == s;
    } else {
      BytesConcat(s, t[..|t| - 1]);
      assert (s + t)[..|s + t| - 1] == s + t[..|t| - 1];
    }
  }

  function Encoded(c: char): (os: seq<int>)
    ensures forall i :: 0 <= i < |os| ==> 0 <= os[i] < 256
  {
    var u := c as int;
    if u < 0x80 then [u]
    else if u < 0x800 then [0xC0 + u / 64, 0x80 + u % 64]
    else if u < 0x10000 then [0xE0 + u / 4096, 0x80 + u / 64 % 64, 0x80 + u % 64]
    else [0xF0 + u / 262144, 0x80 + u / 4096 % 64, 0x80 + u / 64 % 64, 0x80 + u % 64]
  }

  function EncodedText(s: string): seq<int> {
    if s == "" then [] else Encoded(s[0]) + EncodedText(s[1..])
  }

  predicate Continues(o: int) {
    0x80 <= o < 0xC0
  }

  predicate Scalar(u: int) {
    0 <= u < 0xD800 || 0xE000 <= u <= 0x10FFFF
  }

  /** The number of octets and the code point at the front: the lead octet tells how many follow, and a
      code point that has a shorter form is refused. */
  function Front(os: seq<int>): Option<(nat, int)> {
    if os == [] then None
    else if 0 <= os[0] < 0x80 then Some((1, os[0]))
    else if 0xC0 <= os[0] < 0xE0 && |os| > 1 && Continues(os[1]) then
      Checked(2, (os[0] - 0xC0) * 64 + (os[1] - 0x80), 0x80)
    else if 0xE0 <= os[0] < 0xF0 && |os| > 2 && Continues(os[1]) && Continues(os[2]) then
      Checked(3, (os[0] - 0xE0) * 4096 + (os[1] - 0x80) * 64 + (os[2] - 0x80), 0x800)
    else if 0xF0 <= os[0] < 0xF8 && |os| > 3 && Continues(os[1]) && Continues(os[2]) && Continues(os[3]) then
      Checked(4, (os[0] - 0xF0) * 262144 + (os[1] - 0x80) * 4096 + (os[2] - 0x80) * 64 + (os[3] - 0x80), 0x10000)
    else None
  }

  function Checked(size: nat, u: int, least: int): (r: Option<(nat, int)>)
    ensures r.Some? <==> Scalar(u) && u >= least
  {
    if Scalar(u) && u >= least then Some((size, u)) else None
  }

  /** Dividing twice is dividing once by the product. */
  lemma DivTwice(u: nat)
    ensures u / 4096 == u / 64 / 64
  {
  }

  lemma Pieces(u: nat)
    ensures u / 64 * 64 + u % 64 == u
    ensures u / 4096 * 4096 + u / 64 % 64 * 64 + u % 64 == u
    ensures u / 262144 * 262144 + u / 4096 % 64 * 4096 + u / 64 % 64 * 64 + u % 64 == u
  {
    var a := u / 64;
    DivTwice(u);
    var b := a / 64;
    assert u / 262144 == b / 64;
    assert a == b * 64 + a % 64 && b == b / 64 * 64 + b % 64;
  }

  lemma FrontOfEncoded(c: char, rest: seq<int>)
    ensures Front(Encoded(c) + rest) == Some((|Encoded(c)|, c as int))
    ensures |Encoded(c)| == Width(c)
  {
    var u := c as int;
    Pieces(u);
    if u >= 0x10000 {
      FrontFour(0xF0 + u / 262144, 0x80 + u / 4096 % 64, 0x80 + u / 64 % 64, 0x80 + u % 64, rest);
    } else {
      var os := Encoded(c) + rest;
      assert |os| >= |Encoded(c)| && forall i :: 0 <= i < |Encoded(c)| ==> os[i] == Encoded(c)[i];
    }
  }

  lemma FrontFour(a: int, b: int, c: int, d: int, rest: seq<int>)
    requires 0xF0 <= a < 0xF8 && Continues(b) && Continues(c) && Continues(d)
    ensures Front([a, b, c, d] + rest) ==
              Checked(4, (a - 0xF0) * 262144 + (b - 0x80) * 4096 + (c - 0x80) * 64 + (d - 0x80), 0x10000)
  {
    var os := [a, b, c, d] + rest;
    assert os[0] == a && os[1] == b && os[2] == c && os[3] == d;
  }

  /** The text these octets are the encoding of; None if they are not well-formed. */
  function Decoded(os: seq<int>): Option<string> {
    if os == [] then Some("")
    else
      match Front(os)
      case None => None
      case Some((size, u)) =>
        if size == 0 || size > |os| || !Scalar(u) then None
        else
          match Decoded(os[size..])
          case None => None
          case Some(s) => Some([u as char] + s)
  }

  /** The encoding is read back, and `Bytes` is its length. */
  lemma {:induction false} BytesAreEncoded(s: string)
    ensures Decoded(EncodedText(s)) == Some(s) && |EncodedText(s)| == Bytes(s)
  {
    if s != "" {
      hide Front, Encoded;
      BytesAreEncoded(s[1..]);
      FrontOfEncoded(s[0], EncodedText(s[1..]));
      assert EncodedText(s)[|Encoded(s[0])|..] == EncodedText(s[1..]);
      assert s == [s[0]] + s[1..];
      BytesConcat([s[0]], s[1..]);
      assert [s[0]][..0] == "" && Bytes([s[0]]) == Width(s[0]);
    }
  }
}
