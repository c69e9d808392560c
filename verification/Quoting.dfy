/** bench/redis-src/sds.c: quoting a string so that the splitter reads it back. */
module Quoting {
  import opened AclText

  /** The characters of a byte string. */
  predicate Bytes(s: string) {
    forall i :: 0 <= i < |s| ==> s[i] as int < 256
  }

  /** isprint in the C locale. */
  predicate Printable(c: char) {
    ' ' <= c <= '~'
  }

  /** A hexadecimal digit as printf writes it. */
  function Digit(v: int): (c: char)
    requires 0 <= v < 16
    ensures IsHex(c) && HexValue(c) == v
  {
    if v < 10 then (v + '0' as int) as char else (v - 10 + 'a' as int) as char
  }

  /** One byte as sdscatrepr writes it. */
  function Escape(c: char): (r: string)
    requires c as int < 256
    ensures 1 <= |r| <= 4
  {
    if c == '\\' || c == '"' then ['\\', c]
    else if c == '\n' then ['\\', 'n']
    else if c == '\r' then ['\\', 'r']
    else if c == '\t' then ['\\', 't']
    else if c == '\U{07}' then ['\\', 'a']
    else if c == '\U{08}' then ['\\', 'b']
    else if Printable(c) then [c]
    else ['\\', 'x', Digit(c as int / 16), Digit(c as int % 16)]
  }

  function Escapes(s: string): string
    requires Bytes(s)
  {
    if s == "" then "" else Escape(s[0]) + Escapes(s[1..])
  }

  function Quoted(s: string): string
    requires Bytes(s)
  {
    ['"'] + Escapes(s) + ['"']
  }

  /** sdscatrepr. */
  method CatRepr(s: string, p: string) returns (r: string)
    requires Bytes(p)
    ensures r == s + Quoted(p)
  {
    r := s + ['"'];
    for i := 0 to |p|
      invariant r + Escapes(p[i..]) == s + ['"'] + Escapes(p)
    {
      assert p[i..][1..] == p[i + 1..];
      Regroup(r, Escape(p[i]), Escapes(p[i + 1..]));
      r := r + Escape(p[i]);
    }
    assert p[|p|..] == "";
    assert r + "" == r;
    Regroup(s, ['"'] + Escapes(p), ['"']);
    Regroup(s, ['"'], Escapes(p));
    r := r + ['"'];
  }

  lemma Regroup(a: string, b: string, c: string)
    ensures a + (b + c) == a + b + c
  {
  }

  // --- reading it back -------------------------------------------------------------

  lemma TokenEscape(t: string, at: nat, c: char, cur: string)
    requires c as int < 256 && at + |Escape(c)| <= |t| && t[at..at + |Escape(c)|] == Escape(c)
    ensures Token(t, at, Double, cur) == Token(t, at + |Escape(c)|, Double, cur + [c])
  {
    hide Token, HexValue, Digit, IsHex;
    var e := Escape(c);
    assert forall i :: 0 <= i < |e| ==> e[i] == t[at + i];
    if |e| == 4 {
      TokenHex(t, at, e[2], e[3], cur);
      assert 16 * (c as int / 16) + c as int % 16 == c as int;
    } else if |e| == 2 {
      TokenBackslash(t, at, cur);
    } else {
      TokenPlain(t, at, cur);
    }
  }

  lemma TokenHex(t: string, at: nat, c: char, d: char, cur: string)
    requires at + 4 <= |t| && t[at] == '\\' && t[at + 1] == 'x' && t[at + 2] == c && t[at + 3] == d
    requires IsHex(c) && IsHex(d)
    ensures Token(t, at, Double, cur) == Token(t, at + 4, Double, cur + [(16 * HexValue(c) + HexValue(d)) as char])
  {
  }

  lemma TokenBackslash(t: string, at: nat, cur: string)
    requires at + 2 <= |t| && t[at] == '\\' && t[at + 1] != 'x'
    ensures Token(t, at, Double, cur) == Token(t, at + 2, Double, cur + [Escaped(t[at + 1])])
  {
  }

  lemma TokenPlain(t: string, at: nat, cur: string)
    requires at < |t| && t[at] != '\\' && t[at] != '"'
    ensures Token(t, at, Double, cur) == Token(t, at + 1, Double, cur + [t[at]])
  {
  }

  lemma {:induction false} TokenEscapes(t: string, at: nat, w: string, cur: string)
    requires Bytes(w) && at + |Escapes(w)| <= |t| && t[at..at + |Escapes(w)|] == Escapes(w)
    ensures Token(t, at, Double, cur) == Token(t, at + |Escapes(w)|, Double, cur + w)
    decreases |w|
  {
    hide Token, Escape;
    if w == "" {
      assert cur + w == cur;
    } else {
      var e, rest := Escape(w[0]), Escapes(w[1..]);
      assert t[at..at + |e|] == (e + rest)[..|e|] == e;
      assert t[at + |e|..at + |e| + |rest|] == (e + rest)[|e|..] == rest;
      TokenEscape(t, at, w[0], cur);
      TokenEscapes(t, at + |e|, w[1..], cur + [w[0]]);
      assert cur + [w[0]] + w[1..] == cur + w;
    }
  }

  /** A quoted string is one token, the string itself. */
  lemma QuotedSplit(w: string)
    requires Bytes(w)
    ensures SplitFrom(Quoted(w), 0) == Some([w])
  {
    var t, n := Quoted(w), |Escapes(w)| + 1;
    assert t[1..n] == Escapes(w) && t[0] == '"' && t[n] == '"' && |t| == n + 1;
    TokenEscapes(t, 1, w, "");
    assert "" + w == w;
    assert Token(t, 1, Double, "") == Token(t, n, Double, w) == Some((w, n + 1));
    assert Token(t, 0, Bare, "") == Token(t, 1, Double, "");
    hide Token, SplitFrom, Escapes;
    SplitStep(t, 0);
    SplitStep(t, n + 1);
    assert [w] + [] == [w];
  }

  /** Quoted strings on one line. */
  function Line(ws: seq<string>): string
    requires forall i :: 0 <= i < |ws| ==> Bytes(ws[i])
  {
    if ws == [] then ""
    else if |ws| == 1 then Quoted(ws[0])
    else Quoted(ws[0]) + " " + Line(ws[1..])
  }

  /** Any byte strings, quoted and joined by blanks, are read back. */
  lemma {:induction false} QuotedRoundTrip(ws: seq<string>)
    requires forall i :: 0 <= i < |ws| ==> Bytes(ws[i])
    ensures SplitFrom(Line(ws), 0) == Some(ws)
  {
    hide Quoted, SplitFrom;
    if ws == [] {
      SplitStep("", 0);
    } else {
      QuotedSplit(ws[0]);
      if |ws| > 1 {
        QuotedRoundTrip(ws[1..]);
        SplitOn(Quoted(ws[0]), Line(ws[1..]), 0);
        assert [ws[0]] + ws[1..] == ws;
      } else {
        assert ws == [ws[0]];
      }
    }
  }

  // --- text that is not quoted -----------------------------------------------------

  /** sdsneedsrepr, for one character. */
  predicate Special(c: char) {
    c == '\\' || c == '"' || !Printable(c) || IsSpace(c)
  }

  /** sdsneedsrepr. */
  method NeedsRepr(s: string) returns (needs: bool)
    ensures needs <==> exists i :: 0 <= i < |s| && Special(s[i])
  {
    for i := 0 to |s|
      invariant forall j :: 0 <= j < i ==> !Special(s[j])
    {
      var c := s[i];
      if c == '\\' || c == '"' || c == '\n' || c == '\r' || c == '\t' || c == '\U{07}' || c == '\U{08}'
         || !Printable(c) || IsSpace(c) {
        assert Special(s[i]);
        return true;
      }
    }
    return false;
  }

  /** A string that is said to need no quotes is read back without them exactly when it is
      not empty and holds no single quote. */
  lemma UnquotedExact(w: string)
    requires forall i :: 0 <= i < |w| ==> !Special(w[i])
    ensures SplitFrom(w, 0) == Some([w]) <==> w != "" && '\'' !in w
  {
    hide SplitFrom, Token, Tame;
    NotSpecial(w);
    if w == "" {
      SplitStep(w, 0);
    } else {
      if '\'' !in w {
        SplitWord(w, 0, w);
        SplitEnd(w);
        assert w[0..] == w && [w] + [] == [w];
      }
      if SplitFrom(w, 0) == Some([w]) {
        SplitCost(w, 0);
        assert [w][0] == w && [w][1..] == [] && Total([w]) == |w| + 1;
        TameHolds(w);
      }
    }
  }

  lemma NotSpecial(w: string)
    requires forall i :: 0 <= i < |w| ==> !Special(w[i])
    ensures Tame(w) <==> '\'' !in w
    ensures w != "" ==> !IsSpace(w[0])
  {
    if '\'' in w {
      var i :| 0 <= i < |w| && w[i] == '\'';
      assert IsQuote(w[i]);
    }
    forall i | 0 <= i < |w| && '\'' !in w ensures !Ends(w[i]) && !IsQuote(w[i]) {
      assert w[i] in w && !Special(w[i]);
    }
  }

  lemma TameHolds(w: string)
    requires AllTame([w])
    ensures Tame(w)
  {
    assert [w][0] == w;
  }

  // --- other ways to write a string ----------------------------------------------------

  /** Between single quotes text without a single quote stands for itself, unless it ends in
      a backslash, which then hides the closing quote. */
  lemma SingleExact(w: string)
    requires '\'' !in w
    ensures var t := ['\''] + w + ['\''];
            if w != "" && w[|w| - 1] == '\\' then SplitFrom(t, 0).None? else SplitFrom(t, 0) == Some([w])
  {
    hide SplitFrom;
    var t := ['\''] + w + ['\''];
    assert t[0] == '\'' && t[1..1 + |w|] == w && |t| == |w| + 2;
    SingleReads(t, 1, w, "");
    assert Token(t, 0, Bare, "") == Token(t, 1, Single, "");
    assert "" + w == w;
    SplitStep(t, 0);
    SplitEnd(t);
    assert [w] + [] == [w];
  }

  lemma {:induction false} SingleReads(t: string, p: nat, w: string, cur: string)
    requires |t| == p + |w| + 1 && t[p..p + |w|] == w && t[p + |w|] == '\'' && '\'' !in w
    ensures Token(t, p, Single, cur)
            == if w != "" && w[|w| - 1] == '\\' then None else Some((cur + w, |t|))
    decreases |w|
  {
    if w == "" {
      assert cur + w == cur;
    } else {
      assert t[p] == w[0] && w[0] in w;
      assert |w| > 1 ==> t[p + 1] == w[1] && w[1] in w;
      if |w| > 1 || w[0] != '\\' {
        assert t[p + 1..p + 1 + |w[1..]|] == w[1..];
        SingleReads(t, p + 1, w[1..], cur + [w[0]]);
        assert cur + [w[0]] + w[1..] == cur + w;
      } else {
        assert Token(t, p, Single, cur) == Token(t, p + 2, Single, cur + ['\'']);
      }
    }
  }

  /** Between double quotes a backslash makes a control character of n, r, t, b and a, and
      takes every other character but x as it is. */
  lemma BackslashReads(c: char)
    requires c != 'x'
    ensures var d := if c == 'n' then '\n' else if c == 'r' then '\r' else if c == 't' then '\t'
                     else if c == 'b' then '\U{08}' else if c == 'a' then '\U{07}' else c;
            SplitFrom(['"', '\\', c, '"'], 0) == Some([[d]])
  {
    var t := ['"', '\\', c, '"'];
    assert Token(t, 0, Bare, "") == Token(t, 1, Double, "") == Token(t, 3, Double, "" + [Escaped(c)]);
    assert "" + [Escaped(c)] == [Escaped(c)];
    hide SplitFrom;
    SplitStep(t, 0);
    SplitEnd(t);
    assert [[Escaped(c)]] + [] == [[Escaped(c)]];
  }

  /** Two hexadecimal digits of either case after an x are one byte. */
  lemma HexReads(v: int, w: int, upper: bool, upper': bool)
    requires 0 <= v < 16 && 0 <= w < 16
    ensures SplitFrom(['"', '\\', 'x', Figure(v, upper), Figure(w, upper'), '"'], 0) == Some([[(16 * v + w) as char]])
  {
    var c, d := Figure(v, upper), Figure(w, upper');
    var t := ['"', '\\', 'x', c, d, '"'];
    FigureIs(v, upper);
    FigureIs(w, upper');
    hide HexValue, IsHex;
    var b := (16 * v + w) as char;
    assert Token(t, 0, Bare, "") == Token(t, 1, Double, "") == Token(t, 5, Double, "" + [b]);
    assert "" + [b] == [b];
    hide SplitFrom;
    SplitStep(t, 0);
    SplitEnd(t);
    assert [[b]] + [] == [[b]];
  }

  const FIGURES := "0123456789abcdef"
  const CAPITALS := "0123456789ABCDEF"

  function Figure(v: int, upper: bool): char
    requires 0 <= v < 16
  {
    if upper then CAPITALS[v] else FIGURES[v]
  }

  lemma FigureIs(v: int, upper: bool)
    requires 0 <= v < 16
    ensures IsHex(Figure(v, upper)) && HexValue(Figure(v, upper)) == v
  {
  }
}
