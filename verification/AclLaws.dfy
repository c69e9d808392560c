/** What each operation on a selector does, told by its text and the command table. */
module AclLaws {
  import opened AclText
  import opened Acl

  /** The operation is the word w in some letter case; C strings end at the first zero. */
  predicate Reads(op: string, w: string) {
    && |w| <= |op| && '\0' !in w
    && Lower(op)[..|w|] == w && (|op| == |w| || op[|w|] == '\0')
  }

  lemma {:induction false} CutIs(s: string, w: string)
    requires |w| <= |s| && s[..|w|] == w && '\0' !in w && (|s| == |w| || s[|w|] == '\0')
    ensures CString(s) == w
  {
    if w != "" {
      assert s[0] == w[0] && w[0] in w && s[1..][..|w| - 1] == w[1..];
      CutIs(s[1..], w[1..]);
    }
  }

  lemma ReadsIs(op: string, w: string)
    requires Reads(op, w)
    ensures CString(Lower(op)) == w
  {
    CutIs(Lower(op), w);
  }

  /** Every operation is one word. */
  lemma ReadsOne(op: string, w: string)
    ensures Reads(op, w) <==> w == CString(Lower(op))
  {
    if Reads(op, w) { ReadsIs(op, w); }
    CutMaximal(Lower(op));
    CutPrefix(Lower(op));
  }

  lemma {:induction false} CutMaximal(s: string)
    ensures |CString(s)| <= |s| && (|CString(s)| == |s| || s[|CString(s)|] == '\0')
  {
    if s != "" && s[0] != '\0' { CutMaximal(s[1..]); }
  }

  // --- fixed words -----------------------------------------------------------------

  ghost predicate Whole(bits: set<int>) {
    forall i :: i in bits <==> 0 <= i < BITS
  }

  /** The words that concern commands: all bits or none, and no rules. */
  lemma CommandWords(t: Table, s: Sel, op: string, counted: bool)
    requires Reads(op, "allcommands") || Reads(op, "+@all") || Reads(op, "nocommands") || Reads(op, "-@all")
    ensures var (r, ok) := Set(t, s, op, counted);
            && ok && r == s.(bits := r.bits, text := "")
            && (Reads(op, "allcommands") || Reads(op, "+@all") ==> Whole(r.bits))
            && (Reads(op, "nocommands") || Reads(op, "-@all") ==> r.bits == {})
  {
    hide Reads, Lower, CString, ParseCommand;
    var w := CString(Lower(op));
    ReadsOne(op, "allcommands");
    ReadsOne(op, "+@all");
    ReadsOne(op, "nocommands");
    ReadsOne(op, "-@all");
    assert forall i :: IsBit(i) <==> 0 <= i < BITS;
  }

  /** Those that concern keys and channels: only the flag changes. */
  lemma FlagWords(t: Table, s: Sel, op: string, counted: bool)
    ensures Reads(op, "allkeys") || Reads(op, "~*") ==> Set(t, s, op, counted) == (s.(allKeys := true), true)
    ensures Reads(op, "resetkeys") ==> Set(t, s, op, counted) == (s.(allKeys := false), true)
    ensures Reads(op, "allchannels") || Reads(op, "&*") ==> Set(t, s, op, counted) == (s.(allChannels := true), true)
    ensures Reads(op, "resetchannels") ==> Set(t, s, op, counted) == (s.(allChannels := false), true)
  {
    hide Reads, Lower, CString, ParseCommand;
    ReadsOne(op, "allkeys");
    ReadsOne(op, "~*");
    ReadsOne(op, "resetkeys");
    ReadsOne(op, "allchannels");
    ReadsOne(op, "&*");
    ReadsOne(op, "resetchannels");
  }

  // --- commands ----------------------------------------------------------------------

  function Sign(plus: bool): string {
    if plus then "+" else "-"
  }

  /** Bit i belongs to the command or subcommand `name`, or to a subcommand of it. */
  ghost predicate OwnBit(t: Table, name: string, i: int) {
    0 <= i < BITS && exists k :: k in t.entries && (k == name || t.entries[k].parent == name) && t.entries[k].id == i
  }

  /** Bit i belongs so to something in the category. */
  ghost predicate CategoryBit(t: Table, c: string, i: int) {
    exists k :: k in t.entries && c in t.entries[k].categories && OwnBit(t, k, i)
  }

  lemma OwnIs(t: Table, name: string)
    ensures forall i :: i in Own(t, name) <==> OwnBit(t, name, i)
  {
  }

  lemma CategoryIs(t: Table, c: string)
    ensures forall i :: i in OfCategory(t, c) <==> CategoryBit(t, c, i)
  {
    hide Own, OwnBit;
    forall i ensures i in OfCategory(t, c) <==> CategoryBit(t, c, i) {
      if i in OfCategory(t, c) {
        var k :| k in t.entries && c in t.entries[k].categories && i in Own(t, k);
        OwnIs(t, k);
      }
      if CategoryBit(t, c, i) {
        var k :| k in t.entries && c in t.entries[k].categories && OwnBit(t, k, i);
        OwnIs(t, k);
        assert i in Own(t, k);
      }
    }
  }

  /** An operation with a sign that is no fixed word is read by the branches for commands. */
  lemma SignedParse(t: Table, op: string, counted: bool, plus: bool, name: string)
    requires Reads(op, Sign(plus) + name) && name != "@all"
    ensures Parse(t, Lower(op), counted) == ParseCommand(t, Sign(plus) + name)
  {
    hide Reads, Lower, CString, ParseCommand;
    var w := Sign(plus) + name;
    ReadsOne(op, w);
    assert w[0] == (if plus then '+' else '-') && w[1..] == name;
    assert "+@all"[1..] == "@all" && "-@all"[1..] == "@all";
  }

  /** The names that +name and -name accept: those in the table, and for + a first argument
      of a command without subcommands. */
  lemma CommandParse(t: Table, plus: bool, name: string)
    requires WellFormed(t) && (name == "" || name[0] != '@')
    ensures ParseCommand(t, Sign(plus) + name)
            == if name in t.entries || (plus && FirstArg(t, name)) then Change(Sign(plus) + name) else Refused
  {
    hide HasSubs;
    var op := Sign(plus) + name;
    assert op[1..] == name && (|op| > 1 ==> op[1] == name[0]);
    assert '|' in op <==> '|' in name;
    if "" in t.entries { assert Plain("") || SubName(t, "", t.entries[""].parent); }
    var i := LastBar(name, |name|);
    if FirstArg(t, name) {
      var j :| 0 <= j < |name| && FirstArgAt(t, name, j);
      assert forall k :: j < k < |name| ==> name[k] in name[j + 1..];
      assert i == j;
    } else if i >= 0 {
      assert !FirstArgAt(t, name, i);
      assert '|' !in name[i + 1..];
    }
    if name in t.entries && '|' in name { SubBar(t, name); }
    if i >= 0 { assert name[i] in name; }
  }

  lemma SubBar(t: Table, name: string)
    requires WellFormed(t) && name in t.entries && '|' in name
    ensures var i := LastBar(name, |name|);
            && i >= 0 && i + 1 < |name| && name[..i] in t.entries && t.entries[name[..i]].parent == ""
            && HasSubs(t, name[..i])
  {
    var p := t.entries[name].parent;
    assert p != "" && SubName(t, name, p);
    var i := LastBar(name, |name|);
    assert forall k :: |p| < k < |name| ==> name[k] in name[|p| + 1..];
    assert i == |p| && name[..i] == p;
  }

  /** +name and -name for a name in the table: just the bits of the name and its subcommands
      are set or cleared. */
  lemma CommandSet(t: Table, s: Sel, op: string, counted: bool, plus: bool, name: string)
    requires WellFormed(t) && name in t.entries && Reads(op, Sign(plus) + name)
    ensures var (r, ok) := Set(t, s, op, counted);
            && ok && r == s.(bits := r.bits, text := Updated(s.text, Sign(plus) + name))
            && forall i :: i in r.bits <==> if OwnBit(t, name, i) then plus else i in s.bits
  {
    hide Reads, Lower, Parse, ParseCommand, Updated, Own, OwnBit;
    NotCategory(t, name);
    SignedParse(t, op, counted, plus, name);
    CommandParse(t, plus, name);
    OwnIs(t, name);
    assert (Sign(plus) + name)[1..] == name;
  }

  lemma NotCategory(t: Table, name: string)
    requires WellFormed(t) && name in t.entries
    ensures name != "" && name[0] != '@' && name != "@all"
  {
    var p := t.entries[name].parent;
    if p != "" { assert SubName(t, name, p) && name[..|p|][0] == name[0]; }
  }

  /** +command|arg for a command without subcommands: no bit changes. */
  lemma FirstArgSet(t: Table, s: Sel, op: string, counted: bool, name: string)
    requires WellFormed(t) && name !in t.entries && FirstArg(t, name) && Reads(op, "+" + name) && name[0] != '@'
    ensures Set(t, s, op, counted) == (s.(text := Updated(s.text, "+" + name)), true)
  {
    hide Reads, Lower, Parse, ParseCommand, Updated, FirstArg;
    SignedParse(t, op, counted, true, name);
    CommandParse(t, true, name);
    assert ("+" + name)[1..] == name && s.bits + {} == s.bits;
  }

  /** Any other name is refused, and nothing changes. */
  lemma CommandRefused(t: Table, s: Sel, op: string, counted: bool, plus: bool, name: string)
    requires WellFormed(t) && Reads(op, Sign(plus) + name) && (name == "" || name[0] != '@')
    requires name !in t.entries && !(plus && FirstArg(t, name))
    ensures Set(t, s, op, counted) == (s, false)
  {
    hide Reads, Lower, Parse, ParseCommand, FirstArg;
    SignedParse(t, op, counted, plus, name);
    CommandParse(t, plus, name);
  }

  /** +@category and -@category, for one in the table and for one that is not. */
  lemma CategorySet(t: Table, s: Sel, op: string, counted: bool, plus: bool, c: string)
    requires Reads(op, Sign(plus) + "@" + c) && c != "all"
    ensures var (r, ok) := Set(t, s, op, counted);
            && (ok <==> c != "" && c in t.categories)
            && (!ok ==> r == s)
            && (ok ==>
                  && r == s.(bits := r.bits, text := Updated(s.text, Sign(plus) + "@" + c))
                  && forall i :: i in r.bits <==> if CategoryBit(t, c, i) then plus else i in s.bits)
  {
    hide Reads, Lower, Parse, Updated, OfCategory, CategoryBit;
    var name := "@" + c;
    var op' := Sign(plus) + name;
    assert Sign(plus) + "@" + c == op' && op'[1..] == name && name[1..] == c && op'[2..] == c;
    SignedParse(t, op, counted, plus, name);
    CategoryIs(t, c);
  }

  // --- the rules text ----------------------------------------------------------------

  /** The rule is for the name itself, or for something behind it and a bar. */
  predicate About(rule: string, name: string)
    requires rule != ""
  {
    || rule[1..] == name
    || (|name| + 1 < |rule| && rule[1..|name| + 1] == name && rule[|name| + 1] == '|')
  }

  /** The rules that are about something else, in their order. */
  function Others(rules: seq<string>, name: string): seq<string>
    requires Words(rules)
  {
    if rules == [] then []
    else
      var n := |rules| - 1;
      Others(rules[..n], name) + if About(rules[n], name) then [] else [rules[n]]
  }

  lemma {:induction false} OthersSurvive(rules: seq<string>, name: string)
    requires Words(rules)
    ensures Others(rules, name) == Surviving(rules, name)
  {
    if rules != [] {
      var n := |rules| - 1;
      OthersSurvive(rules[..n], name);
      SurvivingLast(rules[..n], rules[n], name);
      assert rules == rules[..n] + [rules[n]];
    }
  }

  lemma {:induction false} SurvivingLast(rules: seq<string>, r: string, name: string)
    requires Words(rules) && Word(r)
    ensures Words(rules + [r])
    ensures Surviving(rules + [r], name) == Surviving(rules, name) + if About(r, name) then [] else [r]
  {
    if rules == [] {
      assert rules + [r] == [r] && [r][1..] == [];
      assert |name| < |r[1..]| ==> r[1..][..|name|] == r[1..|name| + 1];
    } else {
      assert (rules + [r])[1..] == rules[1..] + [r];
      SurvivingLast(rules[1..], r, name);
    }
  }

  /** An operation that changes commands deletes from the rules those about the same name
      and about anything behind it and a bar, and then stands last. */
  lemma RulesAfter(rules: seq<string>, r: string)
    requires Words(rules) && r != ""
    ensures Updated(Join(rules), r) == Join(Others(rules, r[1..]) + [r])
  {
    OthersSurvive(rules, r[1..]);
    UpdatedJoin(rules, r);
  }

  // --- patterns and the rest -----------------------------------------------------------

  /** No white space and no zero from position k on. */
  predicate Solid(op: string, k: nat) {
    forall i :: k <= i < |op| ==> !IsSpace(op[i]) && op[i] != '\0'
  }

  predicate Gap(c: char) {
    IsSpace(c) || c == '\0'
  }

  lemma GapLower(op: string, i: nat)
    requires i < |op|
    ensures Gap(Lower(op)[i]) <==> Gap(op[i])
  {
    hide Lower;
    LetterLower(op, i);
  }

  /** Only letters change. */
  lemma LetterLower(op: string, i: nat)
    requires i < |op|
    ensures if 'A' <= op[i] <= 'Z' then 'a' <= Lower(op)[i] <= 'z' else Lower(op)[i] == op[i]
  {
    hide Lower;
    if 'A' <= op[i] <= 'Z' {
      assert (op[i] + (32 as char)) as int == op[i] as int + 32;
    }
  }

  lemma SolidIs(op: string, k: nat)
    requires k <= |op|
    ensures HasSpaces(Lower(op)[k..]) <==> !Solid(op, k)
  {
    hide IsSpace, Lower;
    var s := Lower(op)[k..];
    forall i | 0 <= i < |s| ensures Gap(s[i]) <==> Gap(op[k + i]) { GapLower(op, k + i); }
    if HasSpaces(s) {
      var i :| 0 <= i < |s| && Gap(s[i]);
      assert Gap(op[k + i]);
    }
    if !Solid(op, k) {
      var i :| k <= i < |op| && Gap(op[i]);
      assert Gap(s[i - k]);
    }
  }

  /** ~pattern: refused while all keys are allowed, without a length, or with white space in
      it; nothing this model keeps changes. */
  lemma KeyPatternSet(t: Table, s: Sel, op: string, counted: bool)
    requires op != "" && op[0] == '~' && !Reads(op, "~*")
    ensures Set(t, s, op, counted) == (s, counted && !s.allKeys && Solid(op, 1))
  {
    hide Reads, Lower, CString, ParseCommand, HasSpaces, Solid;
    ReadsOne(op, "~*");
    FirstLetter(op);
    SolidIs(op, 1);
  }

  lemma FirstLetter(op: string)
    requires op != "" && op[0] != '\0'
    ensures Lower(op) != "" && CString(Lower(op)) != "" && CString(Lower(op))[0] == Lower(op)[0]
    ensures Lower(op)[0] == if 'A' <= op[0] <= 'Z' then op[0] + (32 as char) else op[0]
  {
  }

  lemma ChannelPatternSet(t: Table, s: Sel, op: string, counted: bool)
    requires op != "" && op[0] == '&' && !Reads(op, "&*")
    ensures Set(t, s, op, counted) == (s, counted && !s.allChannels && Solid(op, 1))
  {
    hide Reads, Lower, CString, ParseCommand, HasSpaces, Solid;
    ReadsOne(op, "&*");
    FirstLetter(op);
    SolidIs(op, 1);
  }

  /** The permissions w, then nothing or ~ and the pattern. */
  predicate Grants(op: string, w: string) {
    && |w| < |op| && Lower(op)[1..1 + |w|] == w
    && (|op| == 1 + |w| || (op[1 + |w|] == '~' && Solid(op, 2 + |w|)))
  }

  /** A %-pattern is for reading, writing or both, each named once. */
  predicate Percent(op: string) {
    Grants(op, "r") || Grants(op, "w") || Grants(op, "rw") || Grants(op, "wr")
  }

  lemma PercentSet(t: Table, s: Sel, op: string, counted: bool)
    requires op != "" && op[0] == '%'
    ensures Set(t, s, op, counted)
            == (s, counted && !s.allKeys && Percent(op))
  {
    hide Reads, Lower, CString, ParseCommand, HasSpaces, Solid, PatternStart, Percent;
    FirstLetter(op);
    PercentStart(op);
    var k := PatternStart(Lower(op), 1, false, false);
    if k >= 0 { SolidIs(op, k); }
  }

  lemma PercentStart(op: string)
    requires op != ""
    ensures var k := PatternStart(Lower(op), 1, false, false);
            k >= 0 && Solid(op, k) <==> Percent(op)
  {
    hide Solid, Lower, PatternStart;
    var s := Lower(op);
    forall i | 0 <= i < |op| ensures s[i] == '~' <==> op[i] == '~' { LetterLower(op, i); }
    StartUnfolds(s);
    SolidEnd(op);
    assert |s| > 1 ==> s[1..2] == [s[1]];
    assert |s| > 2 ==> s[1..3] == [s[1], s[2]];
  }

  lemma SolidEnd(op: string)
    ensures Solid(op, |op|)
  {
  }

  lemma StartUnfolds(s: string)
    requires s != ""
    ensures var k := PatternStart(s, 1, false, false);
            if |s| > 2 && ((s[1] == 'r' && s[2] == 'w') || (s[1] == 'w' && s[2] == 'r'))
            then k == if |s| == 3 then 3 else if s[3] == '~' then 4 else -1
            else if |s| > 1 && (s[1] == 'r' || s[1] == 'w')
            then k == if |s| == 2 then 2 else if s[2] == '~' then 3 else -1
            else k == -1
  {
    if |s| > 1 {
      assert PatternStart(s, 2, true, false)
             == if |s| == 2 then 2
                else if s[2] == 'w' then PatternStart(s, 3, true, true) else if s[2] == '~' then 3 else -1;
      assert PatternStart(s, 2, false, true)
             == if |s| == 2 then 2
                else if s[2] == 'r' then PatternStart(s, 3, true, true) else if s[2] == '~' then 3 else -1;
    }
  }

  /** Anything else is refused. */
  lemma OtherRefused(t: Table, s: Sel, op: string, counted: bool)
    requires !Reads(op, "allkeys") && !Reads(op, "resetkeys") && !Reads(op, "allchannels")
    requires !Reads(op, "resetchannels") && !Reads(op, "allcommands") && !Reads(op, "nocommands")
    requires op == "" || (op[0] != '+' && op[0] != '-' && op[0] != '~' && op[0] != '%' && op[0] != '&')
    ensures Set(t, s, op, counted) == (s, false)
  {
    hide Reads, Lower, CString;
    ReadsOne(op, "allkeys");
    ReadsOne(op, "resetkeys");
    ReadsOne(op, "allchannels");
    ReadsOne(op, "resetchannels");
    ReadsOne(op, "allcommands");
    ReadsOne(op, "nocommands");
    FirstOther(op);
  }

  lemma FirstOther(op: string)
    requires op == "" || (op[0] != '+' && op[0] != '-' && op[0] != '~' && op[0] != '%' && op[0] != '&')
    ensures var w := CString(Lower(op));
            w == "" || (w[0] != '+' && w[0] != '-' && w[0] != '~' && w[0] != '%' && w[0] != '&')
  {
    hide Lower;
    if op != "" { LetterLower(op, 0); }
  }
}
