/** The text of a selector's command rules: how rules are deleted from it in place, and how
    it is taken apart again.

    Both work on any text. When the text is rules joined by single blanks, deletion leaves
    the rules that are not covered, and splitting gives the rules back exactly when they
    hold no quotes and no white space. */
module AclText {

  /** A rule is a sign and a name; neither holds a space. */
  predicate Word(w: string) {
    w != "" && ' ' !in w
  }

  predicate Words(ws: seq<string>) {
    forall i :: 0 <= i < |ws| ==> Word(ws[i])
  }

  function Join(ws: seq<string>): string {
    if ws == [] then ""
    else if |ws| == 1 then ws[0]
    else ws[0] + " " + Join(ws[1..])
  }

  /** Every word followed by a space. */
  function Spaced(ws: seq<string>): string {
    if ws == [] then "" else ws[0] + " " + Spaced(ws[1..])
  }

  /** The rule (without its sign) is the new name itself or, after a bar, below it. */
  predicate Covers(name: string, rule: string) {
    rule == name || (|name| < |rule| && rule[..|name|] == name && rule[|name|] == '|')
  }

  /** The rules that survive when `name` is about to be appended. */
  function Surviving(ws: seq<string>, name: string): seq<string>
    requires Words(ws)
  {
    if ws == [] then []
    else if Covers(name, ws[0][1..]) then Surviving(ws[1..], name)
    else [ws[0]] + Surviving(ws[1..], name)
  }

  lemma {:induction false} JoinConcat(a: seq<string>, b: seq<string>)
    requires b != []
    ensures Join(a + b) == Spaced(a) + Join(b)
  {
    if a == [] {
      assert a + b == b;
    } else {
      assert (a + b)[1..] == a[1..] + b;
      JoinConcat(a[1..], b);
      assert Join(a + b) == a[0] + " " + Join(a[1..] + b);
    }
  }

  lemma {:induction false} SpacedJoin(a: seq<string>)
    requires a != []
    ensures Spaced(a) == Join(a) + " "
  {
    if |a| > 1 {
      SpacedJoin(a[1..]);
    } else {
      assert a[1..] == [];
      assert Spaced(a) == a[0] + " " + "";
    }
  }

  lemma {:induction false} SurvivingWords(ws: seq<string>, name: string)
    requires Words(ws)
    ensures Words(Surviving(ws, name))
    ensures forall w :: w in Surviving(ws, name) <==> w in ws && !Covers(name, w[1..])
  {
    if ws != [] {
      SurvivingWords(ws[1..], name);
      assert forall w :: w in ws <==> w == ws[0] || w in ws[1..];
    }
  }

  /** strchr(s + from, ' '), or the end of the string. */
  function Blank(s: string, from: nat): (end: nat)
    requires from <= |s|
    ensures from <= end <= |s| && (end < |s| ==> s[end] == ' ')
    ensures forall j :: from <= j < end ==> s[j] != ' '
    decreases |s| - from
  {
    if from == |s| || s[from] == ' ' then from else Blank(s, from + 1)
  }

  /** memcmp over the shorter length, then the length and bar tests. */
  predicate Matches(existing: string, name: string) {
    var n := if |existing| < |name| then |existing| else |name|;
    existing[..n] == name[..n] &&
    (|existing| == |name| || (|existing| > |name| && existing[|name|] == '|'))
  }

  lemma MatchesCovers(existing: string, name: string)
    ensures Matches(existing, name) == Covers(name, existing)
  {
  }

  /** Where the scan stands: `kept` is behind it and `rest` is still to come. */
  ghost predicate Scanning(s: string, at: nat, kept: seq<string>, rest: seq<string>) {
    && s == Join(kept + rest)
    && at == if rest == [] then |s| else |Spaced(kept)|
  }

  /** The next rule, where it ends and what follows it. */
  ghost predicate Facing(s: string, at: nat, kept: seq<string>, w: string, tail: seq<string>) {
    && at + |w| <= |s| && s[..at] == Spaced(kept) && s[at..at + |w|] == w
    && (tail == [] ==> at + |w| == |s|)
    && (tail != [] ==> at + |w| < |s| && s[at + |w|] == ' ' && s[at + |w| + 1..] == Join(tail))
  }

  lemma ProgressWords(ws: seq<string>, name: string, kept: seq<string>, rest: seq<string>)
    requires Progress(ws, name, kept, rest)
    ensures Words(rest)
  {
  }

  lemma ScanStep(s: string, at: nat, kept: seq<string>, rest: seq<string>)
    requires Words(rest) && Scanning(s, at, kept, rest) && at < |s|
    ensures rest != [] && Word(rest[0]) && Facing(s, at, kept, rest[0], rest[1..])
  {
    JoinConcat(kept, rest);
    var pre, w := Spaced(kept), rest[0];
    if |rest| == 1 {
      assert s == pre + w;
    } else {
      assert s == pre + w + " " + Join(rest[1..]);
    }
  }

  lemma EndsAt(s: string, at: nat, kept: seq<string>, w: string, tail: seq<string>, end: nat)
    requires Word(w) && Facing(s, at, kept, w, tail)
    requires at + 1 <= |s| && end == Blank(s, at + 1)
    ensures end == at + |w| && s[at + 1..end] == w[1..]
  {
    hide Spaced, Join, Blank;
    assert forall j :: at <= j < at + |w| ==> s[j] == s[at..at + |w|][j - at];
    assert forall j :: 0 <= j < |w| ==> w[j] in w;
  }

  lemma SpacedGrows(kept: seq<string>, w: string)
    ensures Spaced(kept + [w]) == Spaced(kept) + w + " "
  {
    SpacedConcat(kept, [w]);
    assert [w][1..] == [];
    assert Spaced([w]) == w + " " + "";
  }

  lemma {:induction false} SpacedConcat(a: seq<string>, b: seq<string>)
    ensures Spaced(a + b) == Spaced(a) + Spaced(b)
  {
    if a == [] {
      assert a + b == b;
    } else {
      assert (a + b)[1..] == a[1..] + b;
      SpacedConcat(a[1..], b);
    }
  }

  /** What the move leaves when the facing rule is deleted. */
  lemma Deleted(s: string, at: nat, kept: seq<string>, w: string, tail: seq<string>, to: nat, from: nat)
    requires Word(w) && Facing(s, at, kept, w, tail)
    requires to == if tail == [] && at != 0 then at - 1 else at
    requires from == if tail == [] then |s| else at + |w| + 1
    ensures Scanning(s[..to] + s[from..], to, kept, tail)
  {
    if tail != [] {
      JoinConcat(kept, tail);
    } else {
      assert kept + tail == kept;
      if kept != [] {
        SpacedJoin(kept);
        assert s[..at - 1] == Join(kept);
      }
      assert s[from..] == [];
    }
  }

  lemma Skipped(s: string, at: nat, kept: seq<string>, rest: seq<string>, from: nat)
    requires rest != [] && Word(rest[0]) && Facing(s, at, kept, rest[0], rest[1..]) && Scanning(s, at, kept, rest)
    requires from == if rest[1..] == [] then |s| else at + |rest[0]| + 1
    ensures Scanning(s, from, kept + [rest[0]], rest[1..])
  {
    SpacedGrows(kept, rest[0]);
    assert kept + [rest[0]] + rest[1..] == kept + rest;
  }

  /** What survives of the rules ahead, after those kept so far, is the answer. */
  ghost predicate Progress(ws: seq<string>, name: string, kept: seq<string>, rest: seq<string>) {
    Words(ws) && Words(rest) && Surviving(ws, name) == kept + Surviving(rest, name)
  }

  lemma ProgressStep(ws: seq<string>, name: string, kept: seq<string>, rest: seq<string>)
    requires Progress(ws, name, kept, rest) && rest != []
    ensures Word(rest[0])
    ensures Covers(name, rest[0][1..]) ==> Progress(ws, name, kept, rest[1..])
    ensures !Covers(name, rest[0][1..]) ==> Progress(ws, name, kept + [rest[0]], rest[1..])
  {
    var tail := rest[1..];
    assert kept + ([rest[0]] + Surviving(tail, name)) == kept + [rest[0]] + Surviving(tail, name);
  }

  /** The text once every rule from `at` on that the name covers is deleted; what follows
      a deleted rule moves over it, and with the last rule goes the blank before it. */
  function Removed(s: string, at: nat, name: string): string
    requires at <= |s|
    decreases |s| - at
  {
    if at == |s| then s
    else
      var end := Blank(s, at + 1);
      var to := if end == |s| && at != 0 then at - 1 else at;
      var from := if end < |s| then end + 1 else end;
      if Matches(s[at + 1..end], name) then Removed(s[..to] + s[from..], to, name)
      else Removed(s, from, name)
  }

  /** ACLSelectorRemoveCommandRule, on any text. */
  method RemoveCommandRule(rules: string, name: string) returns (s: string)
    ensures s == Removed(rules, 0, name)
  {
    hide Matches, Removed;
    s := rules;
    var at := 0;
    while at < |s|
      invariant at <= |s| && Removed(s, at, name) == Removed(rules, 0, name)
      decreases |s| - at
    {
      RemovedStep(s, at, name);
      var copyTo := at;
      var ruleEnd := at + 1;
      while ruleEnd < |s| && s[ruleEnd] != ' '
        invariant at + 1 <= ruleEnd <= |s| && Blank(s, ruleEnd) == Blank(s, at + 1)
      {
        ruleEnd := ruleEnd + 1;
      }
      if ruleEnd == |s| && copyTo != 0 {
        copyTo := copyTo - 1;
      }
      var copyFrom := if ruleEnd < |s| then ruleEnd + 1 else ruleEnd;
      if Matches(s[at + 1..ruleEnd], name) {
        s := s[..copyTo] + s[copyFrom..];
        at := copyTo;
      } else {
        at := copyFrom;
      }
    }
    RemovedEnd(s, name);
  }

  lemma RemovedEnd(s: string, name: string)
    ensures Removed(s, |s|, name) == s
  {
  }

  lemma RemovedStep(s: string, at: nat, name: string)
    requires at < |s|
    ensures var end := Blank(s, at + 1);
            var to := if end == |s| && at != 0 then at - 1 else at;
            var from := if end < |s| then end + 1 else end;
            && to <= |s[..to] + s[from..]|
            && Removed(s, at, name)
               == if Matches(s[at + 1..end], name) then Removed(s[..to] + s[from..], to, name)
                 else Removed(s, from, name)
  {
  }

  lemma {:induction false} RemovedFrom(
    s: string, at: nat, kept: seq<string>, rest: seq<string>, ws: seq<string>, name: string)
    requires at <= |s| && Scanning(s, at, kept, rest) && Progress(ws, name, kept, rest)
    ensures Words(ws) && Removed(s, at, name) == Join(Surviving(ws, name))
    decreases |rest|
  {
    hide Join, Spaced, Surviving, Covers, Matches, Facing, Scanning, Words, Word, Progress;
    if at == |s| {
      Done(s, at, kept, rest, ws, name);
    } else {
      ProgressWords(ws, name, kept, rest);
      ScanStep(s, at, kept, rest);
      var w, tail := rest[0], rest[1..];
      var end := Blank(s, at + 1);
      EndsAt(s, at, kept, w, tail, end);
      FacingEnd(s, at, kept, w, tail);
      var to := if end == |s| && at != 0 then at - 1 else at;
      var from := if end < |s| then end + 1 else end;
      MatchesCovers(s[at + 1..end], name);
      ProgressStep(ws, name, kept, rest);
      if Matches(s[at + 1..end], name) {
        Deleted(s, at, kept, w, tail, to, from);
        RemovedFrom(s[..to] + s[from..], to, kept, tail, ws, name);
      } else {
        Skipped(s, at, kept, rest, from);
        RemovedFrom(s, from, kept + [w], tail, ws, name);
      }
    }
  }

  /** On rules joined by blanks the deletion leaves exactly the rules not covered. */
  lemma RemovedJoin(ws: seq<string>, name: string)
    requires Words(ws)
    ensures Removed(Join(ws), 0, name) == Join(Surviving(ws, name))
  {
    hide Join, Surviving, Scanning, Progress;
    ScanStart(ws, name);
    RemovedFrom(Join(ws), 0, [], ws, ws, name);
  }

  lemma ScanStart(ws: seq<string>, name: string)
    requires Words(ws)
    ensures Scanning(Join(ws), 0, [], ws) && Progress(ws, name, [], ws)
  {
    assert [] + ws == ws;
    assert ws == [] ==> Join(ws) == "";
  }

  lemma FacingEnd(s: string, at: nat, kept: seq<string>, w: string, tail: seq<string>)
    requires Word(w) && Facing(s, at, kept, w, tail)
    ensures at + |w| <= |s| && (tail == [] <==> at + |w| == |s|)
  {
  }

  lemma Done(s: string, at: nat, kept: seq<string>, rest: seq<string>, ws: seq<string>, name: string)
    requires Progress(ws, name, kept, rest) && Scanning(s, at, kept, rest) && at >= |s|
    ensures Words(ws) && s == Join(Surviving(ws, name))
  {
    JoinLonger(kept, rest);
  }

  lemma JoinLonger(kept: seq<string>, rest: seq<string>)
    requires Words(rest)
    ensures rest != [] ==> |Join(kept + rest)| > |Spaced(kept)|
  {
    if rest != [] {
      assert Word(rest[0]);
      JoinConcat(kept, rest);
    }
  }

  // --- taking the text apart again -----------------------------------------------------

  datatype Option<T> = None | Some(value: T)

  /** isspace in the C locale. */
  predicate IsSpace(c: char) {
    c == ' ' || c == '\t' || c == '\n' || c == '\U{0B}' || c == '\U{0C}' || c == '\r'
  }

  /** What ends a token outside quotes; a vertical tab or form feed does not. */
  predicate Ends(c: char) {
    c == ' ' || c == '\n' || c == '\r' || c == '\t'
  }

  predicate IsQuote(c: char) {
    c == '"' || c == '\''
  }

  predicate IsHex(c: char) {
    '0' <= c <= '9' || 'a' <= c <= 'f' || 'A' <= c <= 'F'
  }

  function HexValue(c: char): (v: int)
    requires IsHex(c)
    ensures 0 <= v < 16
  {
    if '0' <= c <= '9' then c as int - '0' as int
    else if 'a' <= c <= 'f' then c as int - 'a' as int + 10
    else c as int - 'A' as int + 10
  }

  function Escaped(c: char): char {
    if c == 'n' then '\n' else if c == 'r' then '\r' else if c == 't' then '\t'
    else if c == 'b' then '\U{08}' else if c == 'a' then '\U{07}' else c
  }

  datatype Mode = Bare | Double | Single

  /** The inner loop of sdssplitargs: the token from p on, read in a mode, with what has
      been read of it so far, and where reading goes on; none for unbalanced quotes or a
      closing quote with more behind it. */
  function Token(s: string, p: nat, mode: Mode, cur: string): (r: Option<(string, nat)>)
    requires p <= |s|
    ensures r.Some? ==> p <= r.value.1 <= |s|
    ensures r.Some? && (mode != Bare || (p < |s|)) ==> p < r.value.1
    decreases |s| - p
  {
    match mode
    case Bare =>
      if p == |s| then Some((cur, p))
      else if Ends(s[p]) then Some((cur, p + 1))
      else if s[p] == '"' then Token(s, p + 1, Double, cur)
      else if s[p] == '\'' then Token(s, p + 1, Single, cur)
      else Token(s, p + 1, Bare, cur + [s[p]])
    case Double =>
      if p == |s| then None
      else if s[p] == '\\' && p + 3 < |s| && s[p + 1] == 'x' && IsHex(s[p + 2]) && IsHex(s[p + 3]) then
        Token(s, p + 4, Double, cur + [(16 * HexValue(s[p + 2]) + HexValue(s[p + 3])) as char])
      else if s[p] == '\\' && p + 1 < |s| then Token(s, p + 2, Double, cur + [Escaped(s[p + 1])])
      else if s[p] == '"' then Closed(s, p, cur)
      else Token(s, p + 1, Double, cur + [s[p]])
    case Single =>
      if p == |s| then None
      else if s[p] == '\\' && p + 1 < |s| && s[p + 1] == '\'' then Token(s, p + 2, Single, cur + ['\''])
      else if s[p] == '\'' then Closed(s, p, cur)
      else Token(s, p + 1, Single, cur + [s[p]])
  }

  /** A closing quote must be followed by white space or nothing. */
  function Closed(s: string, p: nat, cur: string): Option<(string, nat)>
    requires p < |s|
  {
    if p + 1 < |s| && !IsSpace(s[p + 1]) then None else Some((cur, p + 1))
  }

  function SkipSpaces(s: string, p: nat): (q: nat)
    requires p <= |s|
    ensures p <= q <= |s| && (q < |s| ==> !IsSpace(s[q]))
    decreases |s| - p
  {
    if p < |s| && IsSpace(s[p]) then SkipSpaces(s, p + 1) else p
  }

  /** sdssplitargs from p on. */
  function SplitFrom(s: string, p: nat): Option<seq<string>>
    requires p <= |s|
    decreases |s| - p
  {
    var q := SkipSpaces(s, p);
    if q == |s| then Some([])
    else
      match Token(s, q, Bare, "")
      case None => None
      case Some((tok, next)) => Prepend([tok], SplitFrom(s, next))
  }

  function Prepend(ws: seq<string>, r: Option<seq<string>>): Option<seq<string>> {
    match r
    case None => None
    case Some(rest) => Some(ws + rest)
  }

  lemma PrependNone(r: Option<seq<string>>)
    ensures Prepend([], r) == r
  {
    if r.Some? { assert [] + r.value == r.value; }
  }

  lemma PrependTwice(a: seq<string>, b: seq<string>, r: Option<seq<string>>)
    ensures Prepend(a, Prepend(b, r)) == Prepend(a + b, r)
  {
    if r.Some? { assert a + (b + r.value) == a + b + r.value; }
  }

  lemma SplitStep(s: string, p: nat)
    requires p <= |s|
    ensures SplitFrom(s, p) ==
            var q := SkipSpaces(s, p);
            if q == |s| then Some([])
            else match Token(s, q, Bare, "")
                 case None => None
                 case Some((tok, next)) => Prepend([tok], SplitFrom(s, next))
  {
  }

  /** The inner loop of sdssplitargs. */
  method ReadToken(line: string, start: nat) returns (token: Option<(string, nat)>)
    requires start < |line|
    ensures token == Token(line, start, Bare, "")
  {
    var p, mode, cur := start, Bare, "";
    while true
      invariant p <= |line| && Token(line, p, mode, cur) == Token(line, start, Bare, "")
      decreases |line| - p
    {
      if p == |line| {
        return if mode == Bare then Some((cur, p)) else None;
      }
      var c := line[p];
      match mode
      case Bare =>
        if Ends(c) {
          return Some((cur, p + 1));
        } else if IsQuote(c) {
          mode := if c == '"' then Double else Single;
        } else {
          cur := cur + [c];
        }
        p := p + 1;
      case Double =>
        if c == '\\' && p + 3 < |line| && line[p + 1] == 'x' && IsHex(line[p + 2]) && IsHex(line[p + 3]) {
          cur, p := cur + [(16 * HexValue(line[p + 2]) + HexValue(line[p + 3])) as char], p + 4;
        } else if c == '\\' && p + 1 < |line| {
          cur, p := cur + [Escaped(line[p + 1])], p + 2;
        } else if c == '"' {
          return Closed(line, p, cur);
        } else {
          cur, p := cur + [c], p + 1;
        }
      case Single =>
        if c == '\\' && p + 1 < |line| && line[p + 1] == '\'' {
          cur, p := cur + ['\''], p + 2;
        } else if c == '\'' {
          return Closed(line, p, cur);
        } else {
          cur, p := cur + [c], p + 1;
        }
    }
  }

  /** sdssplitargs. */
  method SplitArgs(line: string) returns (argv: Option<seq<string>>)
    ensures argv == SplitFrom(line, 0)
  {
    hide SplitFrom, Token;
    var p, tokens := 0, [];
    PrependNone(SplitFrom(line, 0));
    while true
      invariant p <= |line| && SplitFrom(line, 0) == Prepend(tokens, SplitFrom(line, p))
      decreases |line| - p
    {
      SplitStep(line, p);
      p := SkipSpaces(line, p);
      if p == |line| {
        assert tokens + [] == tokens;
        return Some(tokens);
      }
      var token := ReadToken(line, p);
      if token.None? {
        return None;
      }
      PrependTwice(tokens, [token.value.0], SplitFrom(line, token.value.1));
      tokens, p := tokens + [token.value.0], token.value.1;
    }
  }

  // --- when it gives back what was joined ------------------------------------------------

  /** No quote and nothing that ends a token. */
  predicate Tame(w: string) {
    forall i :: 0 <= i < |w| ==> !Ends(w[i]) && !IsQuote(w[i])
  }

  predicate AllTame(ws: seq<string>) {
    forall i :: 0 <= i < |ws| ==> Tame(ws[i])
  }

  /** Words that start with a sign. */
  predicate Signed(ws: seq<string>) {
    forall i :: 0 <= i < |ws| ==> ws[i] != "" && (ws[i][0] == '+' || ws[i][0] == '-')
  }

  /** Outside quotes tame text is read as it stands. */
  lemma {:induction false} TokenTame(s: string, p: nat, w: string, cur: string)
    requires p + |w| <= |s| && s[p..p + |w|] == w && Tame(w)
    ensures Token(s, p, Bare, cur) == Token(s, p + |w|, Bare, cur + w)
    decreases |w|
  {
    if w == "" {
      assert cur + w == cur;
    } else {
      assert s[p] == w[0];
      assert s[p + 1..p + 1 + |w[1..]|] == w[1..];
      TokenTame(s, p + 1, w[1..], cur + [w[0]]);
      assert cur + [w[0]] + w[1..] == cur + w;
    }
  }

  /** One tame word, followed by something that ends a token or by nothing. */
  lemma SplitWord(s: string, p: nat, w: string)
    requires p + |w| <= |s| && s[p..p + |w|] == w && Tame(w) && w != "" && !IsSpace(w[0])
    requires p + |w| < |s| ==> Ends(s[p + |w|])
    ensures SplitFrom(s, p) == Prepend([w], SplitFrom(s, if p + |w| < |s| then p + |w| + 1 else |s|))
  {
    hide Tame;
    assert s[p] == w[0];
    TokenTame(s, p, w, "");
    assert "" + w == w;
    TokenEnd(s, p + |w|, w);
    hide Token, SplitFrom;
    SplitStep(s, p);
  }

  lemma TokenEnd(s: string, p: nat, cur: string)
    requires p <= |s| && (p < |s| ==> Ends(s[p]))
    ensures Token(s, p, Bare, cur) == Some((cur, if p < |s| then p + 1 else p))
  {
  }

  /** Tame words in front are tokens of their own, whatever follows. */
  lemma {:induction false} SplitSpaced(pre: string, ws: seq<string>, rest: string)
    requires AllTame(ws) && Signed(ws)
    ensures var s := pre + Spaced(ws) + rest;
            SplitFrom(s, |pre|) == Prepend(ws, SplitFrom(s, |pre| + |Spaced(ws)|))
    decreases |ws|
  {
    hide SplitFrom, Tame, Token;
    var s := pre + Spaced(ws) + rest;
    if ws == [] {
      PrependNone(SplitFrom(s, |pre|));
    } else {
      var w, tail := ws[0], ws[1..];
      var next := pre + w + " ";
      assert s == next + Spaced(tail) + rest;
      assert s[|pre|..|pre| + |w|] == w && s[|pre| + |w|] == ' ';
      SplitWord(s, |pre|, w);
      SplitSpaced(next, tail, rest);
      PrependTwice([w], tail, SplitFrom(s, |next| + |Spaced(tail)|));
      assert [w] + tail == ws;
    }
  }

  /** Splitting undoes joining tame rules. */
  lemma SplitJoin(ws: seq<string>)
    requires AllTame(ws) && Signed(ws)
    ensures SplitFrom(Join(ws), 0) == Some(ws)
  {
    hide Tame, Token, SplitFrom, Spaced;
    SplitEnd(Join(ws));
    if ws != [] {
      var n := |ws| - 1;
      var front, w := ws[..n], ws[n];
      LastJoined(ws, n);
      var s := Join(ws);
      SplitSpaced("", front, w);
      SplitWord(s, |Spaced(front)|, w);
      PrependTwice(front, [w], Some([]));
      assert [w] + [] == [w] && front + [w] + [] == ws;
    }
  }

  lemma LastJoined(ws: seq<string>, n: nat)
    requires n == |ws| - 1
    ensures ws == ws[..n] + [ws[n]]
    ensures Join(ws) == "" + Spaced(ws[..n]) + ws[n]
    ensures Join(ws)[|Spaced(ws[..n])|..|Spaced(ws[..n])| + |ws[n]|] == ws[n]
    ensures |Join(ws)| == |Spaced(ws[..n])| + |ws[n]|
  {
    assert ws == ws[..n] + [ws[n]];
    JoinConcat(ws[..n], [ws[n]]);
  }

  lemma SplitEnd(s: string)
    ensures SplitFrom(s, |s|) == Some([])
  {
  }

  /** What a quoted part yields is shorter than what is read for it. */
  lemma {:induction false} QuotedCost(s: string, p: nat, mode: Mode, cur: string)
    requires p <= |s| && mode != Bare && Token(s, p, mode, cur).Some?
    ensures var (tok, q) := Token(s, p, mode, cur).value;
            |cur| <= |tok| && tok[..|cur|] == cur && |tok| - |cur| + 1 <= q - p
    decreases |s| - p, 0
  {
    if p < |s| {
      var c := s[p];
      var (tok, q) := Token(s, p, mode, cur).value;
      if mode == Double {
        if c == '\\' && p + 3 < |s| && s[p + 1] == 'x' && IsHex(s[p + 2]) && IsHex(s[p + 3]) {
          QuotedNext(s, p, mode, cur, p + 4, (16 * HexValue(s[p + 2]) + HexValue(s[p + 3])) as char);
        } else if c == '\\' && p + 1 < |s| {
          QuotedNext(s, p, mode, cur, p + 2, Escaped(s[p + 1]));
        } else if c != '"' {
          QuotedNext(s, p, mode, cur, p + 1, c);
        }
      } else {
        if c == '\\' && p + 1 < |s| && s[p + 1] == '\'' {
          QuotedNext(s, p, mode, cur, p + 2, '\'');
        } else if c != '\'' {
          QuotedNext(s, p, mode, cur, p + 1, c);
        }
      }
    }
  }

  lemma {:induction false} QuotedNext(s: string, p: nat, mode: Mode, cur: string, next: nat, c: char)
    requires p < next <= |s| && mode != Bare && Token(s, next, mode, cur + [c]).Some?
    requires Token(s, p, mode, cur) == Token(s, next, mode, cur + [c])
    ensures var (tok, q) := Token(s, p, mode, cur).value;
            |cur| <= |tok| && tok[..|cur|] == cur && |tok| - |cur| + 1 <= q - p
    decreases |s| - next, 1
  {
    QuotedCost(s, next, mode, cur + [c]);
    var tok := Token(s, p, mode, cur).value.0;
    assert tok[..|cur|] == tok[..|cur| + 1][..|cur|];
  }

  /** What a token yields is never longer than what is read for it; it is as long, up to the
      character that ends it, only if every character is plain. */
  lemma {:induction false} TokenCost(s: string, p: nat, cur: string)
    requires p <= |s| && Token(s, p, Bare, cur).Some?
    ensures var (tok, q) := Token(s, p, Bare, cur).value;
            && |cur| <= |tok| && tok[..|cur|] == cur
            && |tok| - |cur| <= q - p && (|tok| - |cur| == q - p ==> q == |s|)
            && (|tok| - |cur| + 1 >= q - p ==> Tame(tok[|cur|..]))
    decreases |s| - p
  {
    if p < |s| && !Ends(s[p]) {
      var c := s[p];
      if IsQuote(c) {
        QuotedCost(s, p + 1, if c == '"' then Double else Single, cur);
      } else {
        TokenCost(s, p + 1, cur + [c]);
        var tok := Token(s, p, Bare, cur).value.0;
        assert tok[..|cur|] == tok[..|cur| + 1][..|cur|];
        assert tok[|cur|] == tok[..|cur| + 1][|cur|] == c;
        assert tok[|cur|..] == [c] + tok[|cur| + 1..];
      }
    }
  }

  /** Length of the words, each with one character after it. */
  function Total(ws: seq<string>): nat {
    if ws == [] then 0 else |ws[0]| + 1 + Total(ws[1..])
  }

  lemma {:induction false} JoinTotal(ws: seq<string>)
    ensures |Join(ws)| + (if ws == [] then 0 else 1) == Total(ws)
  {
    if |ws| > 1 { JoinTotal(ws[1..]); } else if |ws| == 1 { assert ws[1..] == []; }
  }

  lemma {:induction false} SplitCost(s: string, p: nat)
    requires p <= |s| && SplitFrom(s, p).Some?
    ensures var ws := SplitFrom(s, p).value;
            && (ws != [] ==> Total(ws) <= |s| - p + 1)
            && (ws != [] && Total(ws) == |s| - p + 1 ==> AllTame(ws))
    decreases |s| - p
  {
    hide Tame;
    var q := SkipSpaces(s, p);
    if q < |s| {
      TokenCost(s, q, "");
      var (tok, next) := Token(s, q, Bare, "").value;
      SplitCost(s, next);
      var rest := SplitFrom(s, next).value;
      var ws := SplitFrom(s, p).value;
      assert ws == [tok] + rest && ws[1..] == rest && tok[0..] == tok;
      hide Token;
      SplitEnd(s);
    }
  }

  /** Splitting gives the rules back exactly when none of them holds a quote or a character
      that ends a token. */
  lemma SplitExact(ws: seq<string>)
    requires Signed(ws)
    ensures SplitFrom(Join(ws), 0) == Some(ws) <==> AllTame(ws)
  {
    hide SplitFrom, Tame;
    if AllTame(ws) { SplitJoin(ws); }
    if SplitFrom(Join(ws), 0) == Some(ws) && ws != [] {
      SplitCost(Join(ws), 0);
      JoinTotal(ws);
    }
  }

  /** A quote that is never closed is an error. */
  lemma {:induction false} OpenDouble(s: string, p: nat, cur: string)
    requires p <= |s| && forall i :: p <= i < |s| ==> s[i] != '"'
    ensures Token(s, p, Double, cur).None?
    decreases |s| - p
  {
    if p < |s| {
      if s[p] == '\\' && p + 3 < |s| && s[p + 1] == 'x' && IsHex(s[p + 2]) && IsHex(s[p + 3]) {
        OpenDouble(s, p + 4, cur + [(16 * HexValue(s[p + 2]) + HexValue(s[p + 3])) as char]);
      } else if s[p] == '\\' && p + 1 < |s| {
        OpenDouble(s, p + 2, cur + [Escaped(s[p + 1])]);
      } else {
        OpenDouble(s, p + 1, cur + [s[p]]);
      }
    }
  }

  lemma {:induction false} OpenSingle(s: string, p: nat, cur: string)
    requires p <= |s| && forall i :: p <= i < |s| ==> s[i] != '\''
    ensures Token(s, p, Single, cur).None?
    decreases |s| - p
  {
    if p < |s| { OpenSingle(s, p + 1, cur + [s[p]]); }
  }

  /** After tame words, a word with a quote that the text never closes. */
  lemma SplitOpen(ws: seq<string>, x: string, q: char, y: string)
    requires AllTame(ws) && Signed(ws) && Tame(x) && Signed([x]) && IsQuote(q) && q !in y
    ensures SplitFrom(Spaced(ws) + (x + [q] + y), 0).None?
  {
    hide Tame, SplitFrom, Spaced, Token;
    var s := Spaced(ws) + (x + [q] + y);
    var p := |Spaced(ws)|;
    assert s == "" + Spaced(ws) + (x + [q] + y);
    SplitSpaced("", ws, x + [q] + y);
    assert [x][0] == x && s[p] == x[0] && s[p..p + |x|] == x && s[p + |x|] == q;
    TokenTame(s, p, x, "");
    assert forall i :: p + |x| + 1 <= i < |s| ==> s[i] == y[i - (p + |x| + 1)] && s[i] in y;
    QuoteOpens(s, p + |x|, "" + x);
    SplitStep(s, p);
  }

  lemma QuoteOpens(s: string, p: nat, cur: string)
    requires p < |s| && IsQuote(s[p]) && forall i :: p < i < |s| ==> s[i] != s[p]
    ensures Token(s, p, Bare, cur).None?
  {
    if s[p] == '"' { OpenDouble(s, p + 1, cur); } else { OpenSingle(s, p + 1, cur); }
  }

  /** After tame words, a word cut in two by a character that ends a token. */
  lemma SplitCut(ws: seq<string>, x: string, c: char, y: string)
    requires AllTame(ws) && Signed(ws) && Tame(x) && Signed([x]) && Ends(c) && Tame(y) && y != "" && !IsSpace(y[0])
    ensures SplitFrom(Spaced(ws) + (x + [c] + y), 0) == Some(ws + [x, y])
  {
    hide Tame, SplitFrom, Spaced, Token;
    var s := Spaced(ws) + (x + [c] + y);
    var p := |Spaced(ws)|;
    assert s == "" + Spaced(ws) + (x + [c] + y);
    SplitSpaced("", ws, x + [c] + y);
    assert [x][0] == x && s[p..p + |x|] == x && s[p + |x|] == c;
    SplitWord(s, p, x);
    assert s[p + |x| + 1..p + |x| + 1 + |y|] == y;
    SplitWord(s, p + |x| + 1, y);
    SplitEnd(s);
    assert [y] + [] == [y] && [x] + [y] == [x, y];
  }

  lemma {:induction false} TokenQuoted(s: string, p: nat, y: string, cur: string)
    requires p + |y| <= |s| && s[p..p + |y|] == y && '"' !in y && '\\' !in y
    ensures Token(s, p, Double, cur) == Token(s, p + |y|, Double, cur + y)
    decreases |y|
  {
    if y == "" {
      assert cur + y == cur;
    } else {
      assert s[p] == y[0] && y[0] in y;
      assert s[p + 1..p + 1 + |y[1..]|] == y[1..];
      TokenQuoted(s, p + 1, y[1..], cur + [y[0]]);
      assert cur + [y[0]] + y[1..] == cur + y;
    }
  }

  /** A word that ends in a closed quotation is one token, without the quotes. */
  lemma SplitClosed(x: string, y: string)
    requires Tame(x) && Signed([x]) && '"' !in y && '\\' !in y
    ensures SplitFrom(x + "\"" + y + "\"", 0) == Some([x + y])
  {
    hide Tame, SplitFrom;
    var s := x + "\"" + y + "\"";
    assert [x][0] == x && s[0] == x[0];
    assert s[0..0 + |x|] == x && s[|x|] == '"';
    TokenTame(s, 0, x, "");
    assert "" + x == x;
    assert s[|x| + 1..|x| + 1 + |y|] == y && s[|s| - 1] == '"' && |x| + 1 + |y| == |s| - 1;
    TokenQuoted(s, |x| + 1, y, x);
    assert Token(s, |s| - 1, Double, x + y) == Some((x + y, |s|));
    assert Token(s, |x|, Bare, x) == Token(s, |x| + 1, Double, x);
    hide Token;
    SplitStep(s, 0);
    SplitEnd(s);
    assert [x + y] + [] == [x + y];
  }

  // --- splitting piece by piece ------------------------------------------------------------

  /** The same result, so many characters further on. */
  function Shifted(r: Option<(string, nat)>, n: nat): Option<(string, nat)> {
    match r
    case None => None
    case Some((tok, q)) => Some((tok, n + q))
  }

  /** What stands in front does not matter to a token. */
  lemma {:induction false} TokenShift(pre: string, s: string, p: nat, mode: Mode, cur: string)
    requires p <= |s|
    ensures Token(pre + s, |pre| + p, mode, cur) == Shifted(Token(s, p, mode, cur), |pre|)
    decreases |s| - p, 1
  {
    hide Token;
    match mode
    case Bare => BareShift(pre, s, p, cur);
    case Double => DoubleShift(pre, s, p, cur);
    case Single => SingleShift(pre, s, p, cur);
  }

  lemma {:induction false} BareShift(pre: string, s: string, p: nat, cur: string)
    requires p <= |s|
    ensures Token(pre + s, |pre| + p, Bare, cur) == Shifted(Token(s, p, Bare, cur), |pre|)
    decreases |s| - p, 0
  {
    if p < |s| {
      var c := s[p];
      assert (pre + s)[|pre| + p] == c;
      if IsQuote(c) {
        TokenShift(pre, s, p + 1, if c == '"' then Double else Single, cur);
      } else if !Ends(c) {
        TokenShift(pre, s, p + 1, Bare, cur + [c]);
      }
    }
  }

  lemma {:induction false} DoubleShift(pre: string, s: string, p: nat, cur: string)
    requires p <= |s|
    ensures Token(pre + s, |pre| + p, Double, cur) == Shifted(Token(s, p, Double, cur), |pre|)
    decreases |s| - p, 0
  {
    if p < |s| {
      var t, n, c := pre + s, |pre|, s[p];
      assert t[n + p] == c && (p + 1 < |s| ==> t[n + p + 1] == s[p + 1]);
      assert p + 3 < |s| ==> t[n + p + 2] == s[p + 2] && t[n + p + 3] == s[p + 3];
      if c == '\\' && p + 3 < |s| && s[p + 1] == 'x' && IsHex(s[p + 2]) && IsHex(s[p + 3]) {
        TokenShift(pre, s, p + 4, Double, cur + [(16 * HexValue(s[p + 2]) + HexValue(s[p + 3])) as char]);
      } else if c == '\\' && p + 1 < |s| {
        TokenShift(pre, s, p + 2, Double, cur + [Escaped(s[p + 1])]);
      } else if c != '"' {
        TokenShift(pre, s, p + 1, Double, cur + [c]);
      }
    }
  }

  lemma {:induction false} SingleShift(pre: string, s: string, p: nat, cur: string)
    requires p <= |s|
    ensures Token(pre + s, |pre| + p, Single, cur) == Shifted(Token(s, p, Single, cur), |pre|)
    decreases |s| - p, 0
  {
    if p < |s| {
      var t, n, c := pre + s, |pre|, s[p];
      assert t[n + p] == c && (p + 1 < |s| ==> t[n + p + 1] == s[p + 1]);
      if c == '\\' && p + 1 < |s| && s[p + 1] == '\'' {
        TokenShift(pre, s, p + 2, Single, cur + ['\'']);
      } else if c != '\'' {
        TokenShift(pre, s, p + 1, Single, cur + [c]);
      }
    }
  }

  lemma {:induction false} SkipShift(pre: string, s: string, p: nat)
    requires p <= |s|
    ensures SkipSpaces(pre + s, |pre| + p) == |pre| + SkipSpaces(s, p)
    decreases |s| - p
  {
    if p < |s| {
      assert (pre + s)[|pre| + p] == s[p];
      if IsSpace(s[p]) { SkipShift(pre, s, p + 1); }
    }
  }

  lemma {:induction false} SplitShift(pre: string, s: string, p: nat)
    requires p <= |s|
    ensures SplitFrom(pre + s, |pre| + p) == SplitFrom(s, p)
    decreases |s| - p
  {
    hide Token, SplitFrom;
    SkipShift(pre, s, p);
    SplitStep(s, p);
    SplitStep(pre + s, |pre| + p);
    var q := SkipSpaces(s, p);
    if q < |s| {
      TokenShift(pre, s, q, Bare, "");
      var r := Token(s, q, Bare, "");
      if r.Some? { SplitShift(pre, s, r.value.1); }
    }
  }

  /** r goes on reading where s was read up to q, or one further if s ended there. */
  ghost predicate GoesOn(s: string, r: Option<(string, nat)>, tok: string, q: nat) {
    r.Some? && r.value.0 == tok && (r.value.1 == q || (q == |s| && r.value.1 == q + 1))
  }

  /** A token that is complete within s stays the same when a blank and more follow. */
  lemma {:induction false} TokenOn(s: string, more: string, p: nat, mode: Mode, cur: string)
    requires p <= |s| && Token(s, p, mode, cur).Some?
    ensures var (tok, q) := Token(s, p, mode, cur).value;
            GoesOn(s, Token(s + " " + more, p, mode, cur), tok, q)
    decreases |s| - p, 1
  {
    hide Token, GoesOn;
    match mode
    case Bare => BareOn(s, more, p, cur);
    case Double => DoubleOn(s, more, p, cur);
    case Single => SingleOn(s, more, p, cur);
  }

  lemma {:induction false} BareOn(s: string, more: string, p: nat, cur: string)
    requires p <= |s| && Token(s, p, Bare, cur).Some?
    ensures var (tok, q) := Token(s, p, Bare, cur).value;
            GoesOn(s, Token(s + " " + more, p, Bare, cur), tok, q)
    decreases |s| - p, 0
  {
    var t := s + " " + more;
    if p == |s| {
      assert t[p] == ' ';
    } else {
      var c := s[p];
      assert t[p] == c;
      if IsQuote(c) {
        TokenOn(s, more, p + 1, if c == '"' then Double else Single, cur);
      } else if !Ends(c) {
        TokenOn(s, more, p + 1, Bare, cur + [c]);
      }
    }
  }

  lemma {:induction false} DoubleOn(s: string, more: string, p: nat, cur: string)
    requires p <= |s| && Token(s, p, Double, cur).Some?
    ensures var (tok, q) := Token(s, p, Double, cur).value;
            GoesOn(s, Token(s + " " + more, p, Double, cur), tok, q)
    decreases |s| - p, 0
  {
    var t, c := s + " " + more, s[p];
    assert t[|s|] == ' ' && t[p] == c && (p + 1 < |s| ==> t[p + 1] == s[p + 1]);
    if c == '\\' && p + 3 < |s| && s[p + 1] == 'x' && IsHex(s[p + 2]) && IsHex(s[p + 3]) {
      assert t[p + 2] == s[p + 2] && t[p + 3] == s[p + 3];
      TokenOn(s, more, p + 4, Double, cur + [(16 * HexValue(s[p + 2]) + HexValue(s[p + 3])) as char]);
    } else if c == '\\' && p + 1 < |s| {
      EscapeOn(s, more, p, cur);
      TokenOn(s, more, p + 2, Double, cur + [Escaped(s[p + 1])]);
    } else if c != '"' {
      TokenOn(s, more, p + 1, Double, cur + [c]);
    }
  }

  lemma {:induction false} SingleOn(s: string, more: string, p: nat, cur: string)
    requires p <= |s| && Token(s, p, Single, cur).Some?
    ensures var (tok, q) := Token(s, p, Single, cur).value;
            GoesOn(s, Token(s + " " + more, p, Single, cur), tok, q)
    decreases |s| - p, 0
  {
    var t, c := s + " " + more, s[p];
    assert t[|s|] == ' ' && t[p] == c && (p + 1 < |s| ==> t[p + 1] == s[p + 1]);
    if c == '\\' && p + 1 < |s| && s[p + 1] == '\'' {
      TokenOn(s, more, p + 2, Single, cur + ['\'']);
    } else if c != '\'' {
      TokenOn(s, more, p + 1, Single, cur + [c]);
    }
  }

  /** Inside a complete quotation an escape is not lengthened by what follows the text. */
  lemma EscapeOn(s: string, more: string, p: nat, cur: string)
    requires p + 1 < |s| && s[p] == '\\' && Token(s, p, Double, cur).Some?
    requires !(p + 3 < |s| && s[p + 1] == 'x' && IsHex(s[p + 2]) && IsHex(s[p + 3]))
    ensures var t := s + " " + more;
            !(p + 3 < |t| && t[p + 1] == 'x' && IsHex(t[p + 2]) && IsHex(t[p + 3]))
  {
    var t := s + " " + more;
    assert t[|s|] == ' ' && forall i :: 0 <= i < |s| ==> t[i] == s[i];
    if p + 3 == |s| { assert t[p + 3] == ' '; }
  }

  lemma SpaceFirst(s: string, more: string)
    ensures SplitFrom(s + " " + more, |s|) == SplitFrom(more, 0)
    ensures SplitFrom(s + " " + more, |s| + 1) == SplitFrom(more, 0)
  {
    hide Token, SplitFrom;
    var t := s + " " + more;
    assert t[|s|] == ' ' && IsSpace(' ');
    assert t == (s + " ") + more;
    SplitShift(s + " ", more, 0);
    SplitStep(t, |s|);
    SplitStep(t, |s| + 1);
    assert SkipSpaces(t, |s|) == SkipSpaces(t, |s| + 1);
  }

  lemma {:induction false} SkipOn(s: string, more: string, p: nat)
    requires p <= |s| && SkipSpaces(s, p) < |s|
    ensures SkipSpaces(s + " " + more, p) == SkipSpaces(s, p)
    decreases |s| - p
  {
    assert (s + " " + more)[p] == s[p];
    if IsSpace(s[p]) { SkipOn(s, more, p + 1); }
  }

  lemma {:induction false} SkipAll(s: string, more: string, p: nat)
    requires p <= |s| && SkipSpaces(s, p) == |s|
    ensures SkipSpaces(s + " " + more, p) == SkipSpaces(s + " " + more, |s|)
    decreases |s| - p
  {
    if p < |s| {
      assert (s + " " + more)[p] == s[p];
      SkipAll(s, more, p + 1);
    }
  }

  /** Text that splits on its own splits the same in front of more. */
  lemma {:induction false} SplitOn(s: string, more: string, p: nat)
    requires p <= |s| && SplitFrom(s, p).Some?
    ensures SplitFrom(s + " " + more, p) == Prepend(SplitFrom(s, p).value, SplitFrom(more, 0))
    decreases |s| - p
  {
    hide Token, SplitFrom;
    var t, q := s + " " + more, SkipSpaces(s, p);
    SplitStep(s, p);
    SplitStep(t, p);
    SpaceFirst(s, more);
    if q == |s| {
      SkipAll(s, more, p);
      SplitStep(t, |s|);
      PrependNone(SplitFrom(more, 0));
    } else {
      SkipOn(s, more, p);
      TokenOn(s, more, q, Bare, "");
      var (tok, next) := Token(s, q, Bare, "").value;
      SplitOn(s, more, next);
      SplitEnd(s);
      PrependNone(SplitFrom(more, 0));
      PrependTwice([tok], SplitFrom(s, next).value, SplitFrom(more, 0));
    }
  }
}
