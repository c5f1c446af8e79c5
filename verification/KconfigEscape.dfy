/** Quoting string values: what is written to a .config file is read back unchanged. */
module KconfigEscape {
  import opened Prelude

  const BACKSLASH := '\\'
  const QUOTE := '"'

  // ---------------------------------------------------------------- writing

  /** str.replace() with a pattern of one character. */
  function Replaced(s: string, c: char, with: string): (r: string) {
    if s == "" then "" else (if s[0] == c then with else [s[0]]) + Replaced(s[1..], c, with)
  }

  /** escape(): backslashes first, then quotes. */
  function Escape(s: string): (r: string) {
    Replaced(Replaced(s, BACKSLASH, [BACKSLASH, BACKSLASH]), QUOTE, [BACKSLASH, QUOTE])
  }

  function Quoted(s: string): (r: string) {
    [QUOTE] + Escape(s) + [QUOTE]
  }

  // ---------------------------------------------------------------- reading

  /** unescape(): a backslash before any character but a newline disappears, from left to right. */
  function Unescape(s: string): (r: string) {
    if s == "" then ""
    else if s[0] == BACKSLASH && |s| > 1 && s[1] != '\n' then [s[1]] + Unescape(s[2..])
    else [s[0]] + Unescape(s[1..])
  }

  /** A string of plain characters and escaped pairs: what the group of the pattern may hold. */
  predicate IsBody(s: string) {
    s == "" ||
    if s[0] == BACKSLASH then |s| > 1 && s[1] != '\n' && IsBody(s[2..]) else s[0] != QUOTE && IsBody(s[1..])
  }

  /** How far the group of the pattern reaches when it takes all it can. */
  function BodyLength(s: string): (n: nat)
    ensures n <= |s|
  {
    if s == "" || s[0] == QUOTE then 0
    else if s[0] != BACKSLASH then 1 + BodyLength(s[1..])
    else if |s| > 1 && s[1] != '\n' then 2 + BodyLength(s[2..])
    else 0
  }

  /** _conf_string_match(): the group between the quotes, if the text starts with a quoted string. */
  function Matched(text: string): (r: Option<string>) {
    if text == "" || text[0] != QUOTE then None
    else
      var n := BodyLength(text[1..]);
      if n + 1 < |text| && text[n + 1] == QUOTE then Some(text[1..n + 1]) else None
  }

  /** The value read from the text of an assignment. */
  function ReadBack(text: string): (r: Option<string>) {
    var g := Matched(text);
    if g.None? then None else Some(Unescape(g.value))
  }

  // ---------------------------------------------------------------- escaping, seen in one pass

  function EscapedChar(c: char): (r: string) {
    if c == BACKSLASH || c == QUOTE then [BACKSLASH, c] else [c]
  }

  function EscapedChars(s: string): (r: string) {
    if s == "" then "" else EscapedChar(s[0]) + EscapedChars(s[1..])
  }

  lemma ReplacedStep(x: char, s: string, c: char, with: string)
    ensures Replaced([x] + s, c, with) == (if x == c then with else [x]) + Replaced(s, c, with)
  {
    assert ([x] + s)[1..] == s;
  }

  lemma {:induction false} ReplacedConcat(a: string, b: string, c: char, with: string)
    ensures Replaced(a + b, c, with) == Replaced(a, c, with) + Replaced(b, c, with)
  {
    if a == "" {
      assert a + b == b;
    } else {
      var first := if a[0] == c then with else [a[0]];
      assert Replaced(a, c, with) == first + Replaced(a[1..], c, with);
      assert a + b == [a[0]] + (a[1..] + b);
      ReplacedStep(a[0], a[1..] + b, c, with);
      ReplacedConcat(a[1..], b, c, with);
      hide Replaced;
      ConcatAssociates(first, Replaced(a[1..], c, with), Replaced(b, c, with));
    }
  }

  lemma ConcatAssociates(a: string, b: string, c: string)
    ensures (a + b) + c == a + (b + c)
  {
  }

  /** Two passes in this order escape every character once. */
  lemma {:induction false} EscapeIsOnePass(s: string)
    ensures Escape(s) == EscapedChars(s)
  {
    if s != "" {
      var rest := Replaced(s[1..], BACKSLASH, [BACKSLASH, BACKSLASH]);
      EscapeIsOnePass(s[1..]);
      var first := if s[0] == BACKSLASH then [BACKSLASH, BACKSLASH] else [s[0]];
      ReplacedConcat(first, rest, QUOTE, [BACKSLASH, QUOTE]);
      SecondPass(s[0]);
    }
  }

  lemma SecondPass(c: char)
    ensures Replaced(if c == BACKSLASH then [BACKSLASH, BACKSLASH] else [c], QUOTE, [BACKSLASH, QUOTE]) == EscapedChar(c)
  {
    if c == BACKSLASH {
      var two := [BACKSLASH, BACKSLASH];
      assert two[1..] == [BACKSLASH] && two[1..][1..] == "";
      assert Replaced(two[1..], QUOTE, [BACKSLASH, QUOTE]) == [BACKSLASH];
    } else {
      assert [c][1..] == "";
    }
  }

  // ---------------------------------------------------------------- the pattern

  lemma {:induction false} BodyLengthIs(body: string, rest: string)
    requires IsBody(body)
    ensures BodyLength(body + [QUOTE] + rest) == |body|
    decreases |body|
  {
    var text := body + [QUOTE] + rest;
    if body != "" {
      if body[0] == BACKSLASH {
        assert text[2..] == body[2..] + [QUOTE] + rest;
        BodyLengthIs(body[2..], rest);
      } else {
        assert text[1..] == body[1..] + [QUOTE] + rest;
        BodyLengthIs(body[1..], rest);
      }
    }
  }

  lemma {:induction false} BodyLengthIsBody(s: string)
    ensures IsBody(s[..BodyLength(s)])
    decreases |s|
  {
    if s != "" && s[0] != QUOTE {
      var n := BodyLength(s);
      if s[0] != BACKSLASH {
        BodyLengthIsBody(s[1..]);
        assert s[..n][1..] == s[1..][..n - 1];
      } else if n > 0 {
        BodyLengthIsBody(s[2..]);
        assert s[..n][2..] == s[2..][..n - 2];
      }
    }
  }

  /** A body between quotes, taken apart. */
  lemma Framed(text: string, body: string, rest: string)
    requires text == [QUOTE] + body + [QUOTE] + rest
    ensures text[1..] == body + [QUOTE] + rest && text[1..|body| + 1] == body && text[0] == text[|body| + 1] == QUOTE
  {
    assert text == [QUOTE] + (body + [QUOTE] + rest);
    assert text[1..] == body + ([QUOTE] + rest);
  }

  /** And put together. */
  lemma Reframed(text: string, n: nat)
    requires n + 1 < |text| && text[0] == text[n + 1] == QUOTE
    ensures text[1..][..n] == text[1..n + 1] && text == [QUOTE] + text[1..n + 1] + [QUOTE] + text[n + 2..]
  {
  }

  /** The match is the one way to read the text as a quoted body, and fails only if there is none. */
  lemma MatchedIff(text: string, body: string)
    ensures Matched(text) == Some(body) <==> IsBody(body) && [QUOTE] + body + [QUOTE] <= text
  {
    hide IsBody, BodyLength;
    if IsBody(body) && [QUOTE] + body + [QUOTE] <= text {
      var rest := text[|body| + 2..];
      Framed(text, body, rest);
      BodyLengthIs(body, rest);
    }
    if Matched(text) == Some(body) {
      var n := BodyLength(text[1..]);
      BodyLengthIsBody(text[1..]);
      Reframed(text, n);
    }
  }

  // ---------------------------------------------------------------- round trips

  lemma {:induction false} EscapedReads(s: string)
    ensures IsBody(EscapedChars(s)) && Unescape(EscapedChars(s)) == s
  {
    if s != "" {
      EscapedReads(s[1..]);
      var e := EscapedChars(s);
      assert e[|EscapedChar(s[0])|..] == EscapedChars(s[1..]);
    }
  }

  /** Every string comes back from its quoted form, whatever follows the closing quote. */
  lemma QuotedReadsBack(s: string, rest: string)
    ensures ReadBack(Quoted(s) + rest) == Some(s)
  {
    EscapeIsOnePass(s);
    EscapedReads(s);
    assert [QUOTE] + Escape(s) + [QUOTE] <= Quoted(s) + rest;
    MatchedIff(Quoted(s) + rest, Escape(s));
  }

  /** A body in which only backslashes and quotes are escaped, as escape() writes it. */
  predicate IsMinimal(s: string) {
    s == "" ||
    if s[0] == BACKSLASH then |s| > 1 && (s[1] == BACKSLASH || s[1] == QUOTE) && IsMinimal(s[2..])
    else s[0] != QUOTE && IsMinimal(s[1..])
  }

  /** Reading a body and writing it again changes nothing exactly when it was minimal. */
  lemma {:induction false} RewritesIff(body: string)
    requires IsBody(body)
    ensures Escape(Unescape(body)) == body <==> IsMinimal(body)
    decreases |body|
  {
    if body != "" {
      var used := if body[0] == BACKSLASH then 2 else 1;
      var c, rest := body[used - 1], Unescape(body[used..]);
      RewritesIff(body[used..]);
      assert Unescape(body) == [c] + rest;
      EscapedCharsStep(c, rest);
      EscapeIsOnePass([c] + rest);
      EscapeIsOnePass(rest);
      var tail := EscapedChars(rest);
      assert body == body[..used] + body[used..] && body[..used][0] == body[0] && body[..used][used - 1] == c;
      assert IsMinimal(body) <==> EscapedChar(c) == body[..used] && IsMinimal(body[used..]);
      hide Escape, Unescape, EscapedChars, IsMinimal, IsBody;
      if EscapedChar(c) + tail == body {
        SplitAt(EscapedChar(c), tail, body[..used], body[used..]);
      }
    }
  }

  lemma EscapedCharsStep(c: char, s: string)
    ensures EscapedChars([c] + s) == EscapedChar(c) + EscapedChars(s)
  {
    assert ([c] + s)[1..] == s;
    hide EscapedChar;
  }

  lemma SplitAt(a: string, b: string, c: string, d: string)
    requires a + b == c + d && a != "" && c != "" && |a| <= 2 && |c| <= 2 && a[|a| - 1] == c[|c| - 1]
    requires |c| == 1 ==> c[0] != BACKSLASH
    requires |c| == 2 ==> c[0] == BACKSLASH
    requires |a| == 2 ==> a[0] == BACKSLASH
    requires |a| == 1 ==> a[0] != BACKSLASH
    ensures a == c && b == d
  {
    assert (a + b)[0] == a[0] && (c + d)[0] == c[0];
    assert |a| == |c|;
    assert (a + b)[|a|..] == b && (c + d)[|c|..] == d;
  }

  // ---------------------------------------------------------------- every way to escape a string

  /** A string with a backslash before the characters chosen. */
  function EscapedAt(v: string, chosen: seq<bool>): (s: string)
    requires |chosen| == |v|
  {
    if v == "" then "" else (if chosen[0] then [BACKSLASH, v[0]] else [v[0]]) + EscapedAt(v[1..], chosen[1..])
  }

  /** Quotes and backslashes are escaped, and newlines are not; other characters may be. */
  ghost predicate Escapes(v: string, chosen: seq<bool>) {
    |chosen| == |v| && forall i :: 0 <= i < |v| ==>
      (v[i] == QUOTE || v[i] == BACKSLASH ==> chosen[i]) && (v[i] == '\n' ==> !chosen[i])
  }

  /** However a string was escaped, what is written is a body and is read back as that string. */
  lemma {:induction false} EscapedReadsBack(v: string, chosen: seq<bool>)
    requires Escapes(v, chosen)
    ensures IsBody(EscapedAt(v, chosen)) && Unescape(EscapedAt(v, chosen)) == v
  {
    if v != "" {
      var rest := EscapedAt(v[1..], chosen[1..]);
      EscapedReadsBack(v[1..], chosen[1..]);
      var s := EscapedAt(v, chosen);
      assert if chosen[0] then s[2..] == rest && s[1] == v[0] else s[1..] == rest;
      assert v == [v[0]] + v[1..];
    }
  }

  /** Every body is one way to escape the string it is read as. */
  lemma {:induction false} BodyIsEscaped(s: string) returns (chosen: seq<bool>)
    requires IsBody(s)
    ensures Escapes(Unescape(s), chosen) && s == EscapedAt(Unescape(s), chosen)
    decreases |s|
  {
    if s == "" {
      chosen := [];
    } else if s[0] == BACKSLASH {
      var more := BodyIsEscaped(s[2..]);
      chosen := [true] + more;
      assert chosen[1..] == more && ([s[1]] + Unescape(s[2..]))[1..] == Unescape(s[2..]);
      assert s == [BACKSLASH, s[1]] + s[2..];
    } else {
      var more := BodyIsEscaped(s[1..]);
      chosen := [false] + more;
      assert chosen[1..] == more && ([s[0]] + Unescape(s[1..]))[1..] == Unescape(s[1..]);
      assert s == [s[0]] + s[1..];
    }
  }
}
