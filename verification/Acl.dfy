/** bench/redis-src/acl.c: a selector's command bitmap and the compacted rules that
    must rebuild it. */
module Acl {
  import opened AclText

  const BITS: int := 1024            // USER_COMMAND_BITS_COUNT
  const FUTURE: int := 1023          // reserved bit, set only by +@all

  /** One command or subcommand, under its full name. */
  datatype Entry = Entry(id: int, categories: set<string>, parent: string)  // parent "" for a command

  /** The command table: full names, in dictionary order, and the known categories. */
  datatype Table = Table(entries: map<string, Entry>, order: seq<string>, categories: set<string>)

  /** Names hold no bar or space; a subcommand is its parent's name, a bar, its own. */
  predicate Plain(name: string) {
    name != "" && '|' !in name && ' ' !in name && name[0] != '@'
  }

  ghost predicate WellFormed(t: Table) {
    && (forall k :: k in t.order <==> k in t.entries)
    && (forall k :: k in t.entries ==>
          && 0 <= t.entries[k].id && t.entries[k].id != FUTURE
          && if t.entries[k].parent == "" then Plain(k) else SubName(t, k, t.entries[k].parent))
    && (forall c :: c in t.categories ==> '|' !in c && ' ' !in c)
  }

  ghost predicate SubName(t: Table, k: string, p: string) {
    && p in t.entries && t.entries[p].parent == "" && Plain(p)
    && |p| + 1 < |k| && BeforeBar(p, k)
    && '|' !in k[|p| + 1..] && ' ' !in k[|p| + 1..]
  }

  // --- what a rule does to the bitmap ------------------------------------------------

  /** The bits of a command and its subcommands, as far as they have a bit. */
  function Own(t: Table, name: string): set<int> {
    set k | k in t.entries && (k == name || t.entries[k].parent == name)
      && 0 <= t.entries[k].id < BITS :: t.entries[k].id
  }

  /** The bits of every command, with its subcommands, and every subcommand in a category. */
  function OfCategory(t: Table, c: string): set<int> {
    set k, x | k in t.entries && c in t.entries[k].categories && x in Own(t, k) :: x
  }

  /** Bits touched by the rule for `name`: a category, a command or a subcommand. A first
      argument of a command touches none. */
  function Touched(t: Table, name: string): set<int> {
    if name != "" && name[0] == '@' then OfCategory(t, name[1..])
    else if name in t.entries then Own(t, name)
    else {}
  }

  /** Names that may stand in a rule. */
  predicate Known(t: Table, name: string) {
    || (|name| > 1 && name[0] == '@' && name[1..] in t.categories)
    || name in t.entries
    || FirstArg(t, name)
  }

  /** command|arg, for a command without subcommands; the argument may be any text. */
  predicate FirstArg(t: Table, name: string) {
    exists i :: 0 <= i < |name| && FirstArgAt(t, name, i)
  }

  predicate FirstArgAt(t: Table, name: string, i: int)
    requires 0 <= i < |name|
  {
    && name[i] == '|' && name[..i] in t.entries && t.entries[name[..i]].parent == ""
    && !HasSubs(t, name[..i])
    && i + 1 < |name| && '|' !in name[i + 1..]
  }

  predicate HasSubs(t: Table, name: string) {
    exists k :: k in t.entries && t.entries[k].parent == name
  }

  /** A signed rule. */
  predicate Rule(t: Table, r: string) {
    |r| > 1 && (r[0] == '+' || r[0] == '-') && Known(t, r[1..])
  }

  function Apply(t: Table, bits: set<int>, r: string): set<int>
    requires r != ""
  {
    if r[0] == '+' then bits + Touched(t, r[1..]) else bits - Touched(t, r[1..])
  }

  function Replay(t: Table, bits: set<int>, rules: seq<string>): set<int>
    requires Words(rules)
    decreases |rules|
  {
    if rules == [] then bits else Replay(t, Apply(t, bits, rules[0]), rules[1..])
  }

  predicate IsBit(i: int) {
    0 <= i < BITS
  }

  function AllBits(): set<int> {
    set i | 0 <= i < BITS && IsBit(i)
  }

  /** The bitmap a replay starts from, told by the reserved bit. */
  function Base(bits: set<int>): set<int> {
    if FUTURE in bits then AllBits() else {}
  }

  // --- why deleting covered rules is harmless ------------------------------------------

  /** A rule covered by a new name touches only what the new rule touches. */
  lemma CoveredTouches(t: Table, name: string, rule: string)
    requires WellFormed(t) && Known(t, name) && Known(t, rule) && Covers(name, rule)
    ensures Touched(t, rule) <= Touched(t, name)
  {
  }

  /** Bits outside `name`'s reach come out the same with and without covered rules. */
  lemma {:induction false} SurvivingReplay(
    t: Table, bits: set<int>, bits': set<int>, rules: seq<string>, name: string, x: int)
    requires WellFormed(t) && Known(t, name) && Words(rules) && (forall i :: 0 <= i < |rules| ==> Rule(t, rules[i]))
    requires x !in Touched(t, name) && (x in bits <==> x in bits')
    ensures Words(Surviving(rules, name))
    ensures x in Replay(t, bits, rules) <==> x in Replay(t, bits', Surviving(rules, name))
    decreases |rules|
  {
    SurvivingWords(rules, name);
    if rules != [] {
      var r := rules[0];
      assert Rule(t, r);
      if Covers(name, r[1..]) {
        CoveredTouches(t, name, r[1..]);
        SurvivingReplay(t, Apply(t, bits, r), bits', rules[1..], name, x);
      } else {
        var rest := Surviving(rules[1..], name);
        SurvivingWords(rules[1..], name);
        SurvivingReplay(t, Apply(t, bits, r), Apply(t, bits', r), rules[1..], name, x);
        assert ([r] + rest)[1..] == rest;
      }
    }
  }

  lemma NotFuture(t: Table, name: string)
    requires WellFormed(t)
    ensures FUTURE !in Touched(t, name)
  {
  }

  lemma TouchedBits(t: Table, name: string)
    ensures Touched(t, name) <= AllBits()
  {
    assert forall x :: x in Touched(t, name) ==> IsBit(x);
  }

  lemma {:induction false} ReplayLast(t: Table, bits: set<int>, rules: seq<string>, r: string)
    requires Words(rules) && Word(r)
    ensures Words(rules + [r]) && Replay(t, bits, rules + [r]) == Apply(t, Replay(t, bits, rules), r)
    decreases |rules|
  {
    if rules == [] {
      assert rules + [r] == [r] && [r][1..] == [];
    } else {
      assert (rules + [r])[1..] == rules[1..] + [r];
      ReplayLast(t, Apply(t, bits, rules[0]), rules[1..], r);
    }
  }

  /** Appending a rule after deleting those it covers is as good as just appending it. */
  lemma CompactedReplay(t: Table, bits: set<int>, rules: seq<string>, r: string)
    requires WellFormed(t) && Words(rules) && (forall i :: 0 <= i < |rules| ==> Rule(t, rules[i]))
    requires Rule(t, r) && Word(r)
    ensures Words(Surviving(rules, r[1..]) + [r])
    ensures Replay(t, bits, Surviving(rules, r[1..]) + [r]) == Apply(t, Replay(t, bits, rules), r)
  {
    var name := r[1..];
    SurvivingWords(rules, name);
    ReplayLast(t, bits, Surviving(rules, name), r);
    var a, b := Replay(t, bits, Surviving(rules, name)), Replay(t, bits, rules);
    forall x | x !in Touched(t, name) ensures x in a <==> x in b {
      SurvivingReplay(t, bits, bits, rules, name, x);
    }
  }

  // --- reading an operation ---------------------------------------------------------------

  function Lower(s: string): (r: string)
    ensures |r| == |s|
    ensures forall i :: 0 <= i < |s| ==> r[i] == if 'A' <= s[i] <= 'Z' then s[i] + (32 as char) else s[i]
  {
    if s == "" then ""
    else [if 'A' <= s[0] <= 'Z' then s[0] + (32 as char) else s[0]] + Lower(s[1..])
  }

  /** The part of a buffer that C string functions see. */
  function CString(s: string): string {
    if s == "" || s[0] == '\0' then "" else [s[0]] + CString(s[1..])
  }

  /** What an operation asks for. Patterns concern no command; they only matter here in
      being accepted or refused. */
  datatype Request =
    | Everything
    | Nothing
    | Change(rule: string)
    | Keys(all: bool)
    | Channels(all: bool)
    | KeyPattern(good: bool)
    | ChannelPattern(good: bool)
    | Refused

  /** strrchr on the first n characters: the last bar, or -1. */
  function LastBar(s: string, n: nat): (i: int)
    requires n <= |s|
    ensures -1 <= i < n
    ensures i >= 0 ==> s[i] == '|'
    ensures forall j :: i < j < n ==> s[j] != '|'
  {
    if n == 0 then -1
    else if s[n - 1] == '|' then n - 1
    else LastBar(s, n - 1)
  }

  predicate HasSpaces(s: string) {
    exists i :: 0 <= i < |s| && (IsSpace(s[i]) || s[i] == '\0')
  }

  /** Where the pattern of a %-rule starts, -1 if the permissions are malformed. */
  function PatternStart(op: string, i: nat, read: bool, write: bool): (k: int)
    requires i <= |op|
    ensures -1 <= k <= |op|
    decreases |op| - i
  {
    if i == |op| then (if read || write then i else -1)
    else if op[i] == 'r' && !read then PatternStart(op, i + 1, true, write)
    else if op[i] == 'w' && !write then PatternStart(op, i + 1, read, true)
    else if op[i] == '~' && (read || write) then i + 1
    else -1
  }

  /** Whether a key pattern is well formed. With the length given as -1 the search for
      spaces runs into the terminator and always finds one. */
  predicate GoodPattern(op: string, counted: bool)
    requires op != ""
  {
    var k := if op[0] == '%' then PatternStart(op, 1, false, false) else 1;
    counted && k >= 0 && !HasSpaces(op[k..])
  }

  /** The branches of ACLSetSelector, on lower-cased text. */
  function Parse(t: Table, text: string, counted: bool): Request {
    var op := CString(text);
    if op == "allkeys" || op == "~*" then Keys(true)
    else if op == "resetkeys" then Keys(false)
    else if op == "allchannels" || op == "&*" then Channels(true)
    else if op == "resetchannels" then Channels(false)
    else if op == "allcommands" || op == "+@all" then Everything
    else if op == "nocommands" || op == "-@all" then Nothing
    else if op == "" then Refused
    else if op[0] == '~' || op[0] == '%' then KeyPattern(GoodPattern(text, counted))
    else if op[0] == '&' then ChannelPattern(counted && !HasSpaces(text[1..]))
    else ParseCommand(t, op)
  }

  /** The branches that concern commands. */
  function ParseCommand(t: Table, op: string): (r: Request)
    ensures r.Change? || r.Refused?
  {
    if |op| < 2 || (op[0] != '+' && op[0] != '-') then Refused
    else if op[1] == '@' then
      if |op| > 2 && op[2..] in t.categories then Change(op) else Refused
    else if op[0] == '-' || '|' !in op then
      if op[1..] in t.entries then Change(op) else Refused
    else
      var name := op[1..];
      var i := LastBar(name, |name|);
      if i < 0 || name[..i] !in t.entries || t.entries[name[..i]].parent != "" || i + 1 == |name| then Refused
      else if HasSubs(t, name[..i]) then (if name in t.entries then Change(op) else Refused)
      else Change(op)
  }

  lemma ParsedRule(t: Table, text: string, counted: bool)
    requires WellFormed(t) && Parse(t, text, counted).Change?
    ensures Parse(t, text, counted).rule == CString(text) && Rule(t, CString(text))
    ensures ParseCommand(t, CString(text)) == Change(CString(text))
  {
    var op := CString(text);
    if op[1] != '@' && op[0] == '+' && '|' in op {
      var name := op[1..];
      var i := LastBar(name, |name|);
      if !HasSubs(t, name[..i]) {
        assert FirstArgAt(t, name, i);
      }
    }
  }

  /** A rule that, given back to SetSelector, is read as itself. */
  predicate Stable(t: Table, r: string) {
    Lower(r) == r && CString(r) == r && ParseCommand(t, r) == Change(r) && |r| > 1 && (r[0] == '+' || r[0] == '-')
      && r != "+@all" && r != "-@all"
  }

  predicate AllStable(t: Table, rules: seq<string>) {
    forall i :: 0 <= i < |rules| ==> Stable(t, rules[i])
  }

  lemma StableParses(t: Table, r: string, counted: bool)
    requires Stable(t, r)
    ensures Parse(t, Lower(r), counted) == Change(r)
  {
  }

  lemma ParsedStable(t: Table, op: string, counted: bool)
    requires WellFormed(t) && Parse(t, Lower(op), counted).Change?
    ensures Stable(t, Parse(t, Lower(op), counted).rule)
  {
    ParsedRule(t, Lower(op), counted);
    LowerCut(op);
    CutTwice(Lower(op));
  }

  /** Lower case survives cutting. */
  lemma {:induction false} LowerCut(op: string)
    ensures Lower(CString(Lower(op))) == CString(Lower(op))
  {
    var s := Lower(op);
    CutPrefix(s);
    var c := CString(s);
    forall i | 0 <= i < |c| ensures Lower(c)[i] == c[i] {
      assert c[i] == s[i];
    }
  }

  lemma {:induction false} CutPrefix(s: string)
    ensures |CString(s)| <= |s| && CString(s) == s[..|CString(s)|] && '\0' !in CString(s)
  {
    if s != "" && s[0] != '\0' { CutPrefix(s[1..]); }
  }

  lemma {:induction false} CutNothing(s: string)
    requires '\0' !in s
    ensures CString(s) == s
  {
    if s != "" { CutNothing(s[1..]); }
  }

  lemma CutTwice(s: string)
    ensures CString(CString(s)) == CString(s)
  {
    CutPrefix(s);
    CutNothing(CString(s));
  }

  // --- the selector -------------------------------------------------------------------------

  /** What a selector holds, as far as it decides about commands: bitmap, rules text, and
      the two flags on which some operations are refused. */
  datatype Sel = Sel(bits: set<int>, text: string, allKeys: bool, allChannels: bool)

  /** ACLUpdateCommandRules on the text, for a signed rule. */
  function Updated(text: string, rule: string): string
    requires rule != ""
  {
    var kept := Removed(text, 0, rule[1..]);
    (if kept == "" then "" else kept + " ") + rule
  }

  /** ACLSetSelector on any selector, with any operation; `counted` is false for a length
      of -1. */
  function Set(t: Table, s: Sel, op: string, counted: bool): (Sel, bool) {
    match Parse(t, Lower(op), counted)
    case Everything => (s.(bits := AllBits(), text := ""), true)
    case Nothing => (s.(bits := {}, text := ""), true)
    case Change(r) =>
      if r == "" then (s, false) else (s.(bits := Apply(t, s.bits, r), text := Updated(s.text, r)), true)
    case Keys(all) => (s.(allKeys := all), true)
    case Channels(all) => (s.(allChannels := all), true)
    case KeyPattern(good) => (s, good && !s.allKeys)
    case ChannelPattern(good) => (s, good && !s.allChannels)
    case Refused => (s, false)
  }

  // --- the invariant ------------------------------------------------------------------------

  /** Bitmap and rules: the rules are well formed and rebuild the bitmap from its base. */
  ghost predicate Sound(t: Table, bits: set<int>, rules: seq<string>) {
    && WellFormed(t)
    && Words(rules) && (forall i :: 0 <= i < |rules| ==> Rule(t, rules[i])) && AllStable(t, rules)
    && bits <= AllBits()
    && bits == Replay(t, Base(bits), rules)
  }

  /** The text is those rules, joined by blanks. */
  ghost predicate Tidy(t: Table, s: Sel, rules: seq<string>) {
    Sound(t, s.bits, rules) && s.text == Join(rules)
  }

  /** An operation that changes commands holds no blank. Only a first argument can. */
  predicate Blankless(t: Table, op: string) {
    Parse(t, Lower(op), true).Change? ==> ' ' !in Parse(t, Lower(op), true).rule
  }

  /** Nor a quote or other white space that ends a token. */
  predicate TameOp(t: Table, op: string) {
    Parse(t, Lower(op), true).Change? ==> Tame(Parse(t, Lower(op), true).rule)
  }

  lemma ChangeEither(t: Table, text: string)
    ensures Parse(t, text, true).Change? <==> Parse(t, text, false).Change?
    ensures Parse(t, text, true).Change? ==> Parse(t, text, true) == Parse(t, text, false)
  {
  }

  /** The rules after an operation. */
  ghost function NextRules(t: Table, rules: seq<string>, op: string): seq<string>
    requires Words(rules)
  {
    match Parse(t, Lower(op), true)
    case Everything => []
    case Nothing => []
    case Change(r) => if r == "" then rules else Surviving(rules, r[1..]) + [r]
    case _ => rules
  }

  /** Every operation leaves rules that rebuild the bitmap exactly, although it deletes from
      the text the rules the new one covers. */
  lemma SetSound(t: Table, s: Sel, rules: seq<string>, op: string, counted: bool)
    requires Tidy(t, s, rules) && Blankless(t, op)
    ensures Tidy(t, Set(t, s, op, counted).0, NextRules(t, rules, op))
  {
    hide WellFormed, Surviving, Touched, Known, Join, AllStable, Removed, Parse;
    ChangeEither(t, Lower(op));
    ParseAlike(t, Lower(op));
    match Parse(t, Lower(op), true)
    case Everything =>
      EmptyReplay(t, AllBits());
      NoRules(t);
    case Nothing =>
      EmptyReplay(t, {});
      NoRules(t);
    case Change(r) =>
      ParsedRule(t, Lower(op), true);
      ParsedStable(t, op, true);
      ChangeSound(t, s, rules, r);
    case Keys(_) =>
    case Channels(_) =>
    case KeyPattern(_) =>
    case ChannelPattern(_) =>
    case Refused =>
  }

  lemma ParseAlike(t: Table, text: string)
    ensures var p, q := Parse(t, text, true), Parse(t, text, false);
            p == q || (p.KeyPattern? && q.KeyPattern?) || (p.ChannelPattern? && q.ChannelPattern?)
  {
  }

  lemma ChangeSound(t: Table, s: Sel, rules: seq<string>, r: string)
    requires Tidy(t, s, rules) && Rule(t, r) && Stable(t, r) && ' ' !in r
    ensures Words(rules)
    ensures Tidy(t, s.(bits := Apply(t, s.bits, r), text := Updated(s.text, r)), Surviving(rules, r[1..]) + [r])
  {
    hide WellFormed, Surviving, Touched, Known, Join, AllStable, Removed, Parse, Stable;
    CompactedReplay(t, Base(s.bits), rules, r);
    ChangedBits(t, s.bits, rules, Surviving(rules, r[1..]) + [r], r);
    RulesAppended(t, rules, Surviving(rules, r[1..]), r[1..], r);
    StableAppended(t, rules, r[1..], r);
    UpdatedJoin(rules, r);
  }

  lemma UpdatedJoin(rules: seq<string>, r: string)
    requires Words(rules) && r != ""
    ensures Updated(Join(rules), r) == Join(Surviving(rules, r[1..]) + [r])
  {
    hide Join, Surviving, Removed;
    RemovedJoin(rules, r[1..]);
    SurvivingWords(rules, r[1..]);
    Appended(Surviving(rules, r[1..]), r);
  }

  function SetAll(t: Table, s: Sel, ops: seq<string>): Sel
    decreases |ops|
  {
    if ops == [] then s else SetAll(t, Set(t, s, ops[0], true).0, ops[1..])
  }

  ghost function AllRules(t: Table, rules: seq<string>, ops: seq<string>): seq<string>
    decreases |ops|
  {
    if ops == [] then rules
    else if !Words(rules) then []
    else AllRules(t, NextRules(t, rules, ops[0]), ops[1..])
  }

  /** For every sequence of operations on a new selector whose first arguments hold no blank:
      replaying what is left of the rules from the +@all or -@all base gives exactly the
      selector's bitmap. */
  lemma {:induction false} RulesRebuild(t: Table, s: Sel, rules: seq<string>, ops: seq<string>)
    requires Tidy(t, s, rules) && forall i :: 0 <= i < |ops| ==> Blankless(t, ops[i])
    ensures var r, left := SetAll(t, s, ops), AllRules(t, rules, ops);
            Tidy(t, r, left) && Replay(t, Base(r.bits), left) == r.bits
    decreases |ops|
  {
    hide Parse, Set, Replay, Base, Blankless, NextRules, WellFormed, AllStable;
    if ops != [] {
      SetSound(t, s, rules, ops[0], true);
      RulesRebuild(t, Set(t, s, ops[0], true).0, NextRules(t, rules, ops[0]), ops[1..]);
    }
  }

  // --- describing a selector -----------------------------------------------------------------

  /** Operations one after the other, as ACLDescribeSelectorCommandRules gives them to its
      fresh selector; false if one is refused. */
  function Rebuild(t: Table, s: Sel, argv: seq<string>): (Sel, bool)
    decreases |argv|
  {
    if argv == [] then (s, true)
    else
      var (next, ok) := Set(t, s, argv[0], false);
      if ok then Rebuild(t, next, argv[1..]) else (next, false)
  }

  function BaseOp(bits: set<int>): string {
    if FUTURE in bits then "+@all" else "-@all"
  }

  /** ACLCreateSelector; the channel flag is a server setting. */
  function Fresh(pubsub: bool): Sel {
    Sel({}, "", false, pubsub)
  }

  /** ACLDescribeSelectorCommandRules aborts the server: the text does not split, one of the
      tokens is refused, or what they rebuild is another bitmap. */
  predicate Panics(t: Table, s: Sel, pubsub: bool) {
    match SplitFrom(s.text, 0)
    case None => true
    case Some(argv) =>
      var (fake, ok) := Rebuild(t, Set(t, Fresh(pubsub), BaseOp(s.bits), false).0, argv);
      !ok || fake.bits != s.bits
  }

  lemma LowerPlain(s: string)
    requires forall i :: 0 <= i < |s| ==> !('A' <= s[i] <= 'Z')
    ensures Lower(s) == s
  {
  }

  lemma BaseRequest(t: Table, op: string)
    requires op == "+@all" || op == "-@all"
    ensures Parse(t, Lower(op), false) == if op == "+@all" then Everything else Nothing
  {
    hide Lower, CString, ParseCommand, GoodPattern, HasSpaces;
    LowerPlain(op);
    CutNothing(op);
  }

  lemma BaseParses(t: Table, bits: set<int>, pubsub: bool)
    requires bits <= AllBits()
    ensures Set(t, Fresh(pubsub), BaseOp(bits), false) == (Fresh(pubsub).(bits := Base(bits)), true)
  {
    hide Parse, Lower, AllBits;
    BaseRequest(t, BaseOp(bits));
  }

  // --- what a rule is read back as ------------------------------------------------------------

  /** The rule, split on its own and given to a selector with this bitmap, is accepted and
      does what it did as an operation. */
  predicate ReadsBack(t: Table, bits: set<int>, r: string)
    requires r != ""
  {
    ReadsAs(t, bits, r, Apply(t, bits, r))
  }

  /** It is accepted and leads to the bitmap `goal`. */
  predicate ReadsAs(t: Table, bits: set<int>, r: string, goal: set<int>) {
    match SplitFrom(r, 0)
    case None => false
    case Some(argv) =>
      var (f, ok) := Rebuild(t, Sel(bits, "", false, false), argv);
      ok && f.bits == goal
  }

  /** Whatever the bitmap. */
  ghost predicate Faithful(t: Table, r: string) {
    r != "" && forall bits :: bits <= AllBits() ==> ReadsBack(t, bits, r)
  }

  ghost predicate AllFaithful(t: Table, rules: seq<string>) {
    forall i :: 0 <= i < |rules| ==> Faithful(t, rules[i])
  }

  /** Verdict and bitmap of a replay depend on nothing but the bitmap: all patterns are
      refused, whatever the flags. */
  lemma SetSame(t: Table, s: Sel, u: Sel, op: string)
    requires s.bits == u.bits
    ensures Set(t, s, op, false).1 == Set(t, u, op, false).1
    ensures Set(t, s, op, false).0.bits == Set(t, u, op, false).0.bits
  {
    hide ParseCommand, HasSpaces, Lower, CString, Updated;
  }

  lemma {:induction false} RebuildSame(t: Table, s: Sel, u: Sel, argv: seq<string>)
    requires s.bits == u.bits
    ensures Rebuild(t, s, argv).1 == Rebuild(t, u, argv).1
    ensures Rebuild(t, s, argv).0.bits == Rebuild(t, u, argv).0.bits
    decreases |argv|
  {
    hide Set;
    if argv != [] {
      SetSame(t, s, u, argv[0]);
      RebuildSame(t, Set(t, s, argv[0], false).0, Set(t, u, argv[0], false).0, argv[1..]);
    }
  }

  lemma {:induction false} RebuildConcat(t: Table, s: Sel, a: seq<string>, b: seq<string>)
    ensures Rebuild(t, s, a + b)
            == if Rebuild(t, s, a).1 then Rebuild(t, Rebuild(t, s, a).0, b) else Rebuild(t, s, a)
    decreases |a|
  {
    hide Set;
    if a == [] {
      assert a + b == b;
    } else {
      assert (a + b)[1..] == a[1..] + b;
      RebuildConcat(t, Set(t, s, a[0], false).0, a[1..], b);
    }
  }

  /** A rule without quotes and white space is read as itself. */
  lemma TameFaithful(t: Table, r: string)
    requires Stable(t, r) && Tame(r)
    ensures Faithful(t, r)
  {
    hide Stable, Tame, SplitFrom, Rebuild, Set, Token;
    StableSigned(t, r);
    SplitWord(r, 0, r);
    SplitEnd(r);
    assert [r] + [] == [r] && [r][1..] == [];
    forall bits | bits <= AllBits() ensures ReadsBack(t, bits, r) {
      OneRule(t, Sel(bits, "", false, false), r);
    }
  }

  lemma StableSigned(t: Table, r: string)
    requires Stable(t, r)
    ensures r != "" && !IsSpace(r[0]) && r[0..0 + |r|] == r
  {
  }

  lemma OneRule(t: Table, s: Sel, r: string)
    requires Stable(t, r)
    ensures r != "" && Rebuild(t, s, [r]).1 && Rebuild(t, s, [r]).0.bits == Apply(t, s.bits, r)
  {
    hide Stable, Parse, Apply, Updated;
    StableParses(t, r, false);
    StableSigned(t, r);
    assert [r][1..] == [];
    RebuildEnd(t, Set(t, s, r, false).0);
  }

  lemma AllTameFaithful(t: Table, rules: seq<string>)
    requires AllStable(t, rules) && AllTame(rules)
    ensures AllFaithful(t, rules)
  {
    hide Stable, Tame, Faithful;
    forall i | 0 <= i < |rules| ensures Faithful(t, rules[i]) { TameFaithful(t, rules[i]); }
  }

  /** The tokens that rules split into one by one. */
  function Readings(rules: seq<string>): seq<string> {
    if rules == [] then []
    else (match SplitFrom(rules[0], 0) case None => [] case Some(argv) => argv) + Readings(rules[1..])
  }

  lemma {:induction false} SpacedSplits(t: Table, rules: seq<string>, more: string)
    requires AllFaithful(t, rules)
    ensures SplitFrom(Spaced(rules) + more, 0) == Prepend(Readings(rules), SplitFrom(more, 0))
    decreases |rules|
  {
    hide SplitFrom, Rebuild, Faithful;
    if rules == [] {
      assert Spaced(rules) + more == more;
      PrependNone(SplitFrom(more, 0));
    } else {
      var r, rest := rules[0], Spaced(rules[1..]) + more;
      FaithfulSplits(t, r);
      assert Spaced(rules) + more == r + " " + rest;
      SplitOn(r, rest, 0);
      SpacedSplits(t, rules[1..], more);
      PrependTwice(SplitFrom(r, 0).value, Readings(rules[1..]), SplitFrom(more, 0));
    }
  }

  lemma FaithfulSplits(t: Table, r: string)
    requires Faithful(t, r)
    ensures SplitFrom(r, 0).Some?
  {
    hide SplitFrom, Rebuild;
    assert ReadsBack(t, {}, r);
  }

  lemma {:induction false} RebuildReadings(t: Table, s: Sel, rules: seq<string>)
    requires Words(rules) && AllFaithful(t, rules) && s.bits <= AllBits()
    ensures Rebuild(t, s, Readings(rules)).1 && Rebuild(t, s, Readings(rules)).0.bits == Replay(t, s.bits, rules)
    ensures Replay(t, s.bits, rules) <= AllBits()
    decreases |rules|
  {
    hide SplitFrom, Set, Touched, AllBits, Tame;
    if rules != [] {
      var r := rules[0];
      assert Word(r) && Faithful(t, r);
      FaithfulSplits(t, r);
      var argv := SplitFrom(r, 0).value;
      assert ReadsBack(t, s.bits, r);
      RebuildSame(t, Sel(s.bits, "", false, false), s, argv);
      RebuildConcat(t, s, argv, Readings(rules[1..]));
      TouchedBits(t, r[1..]);
      RebuildReadings(t, Rebuild(t, s, argv).0, rules[1..]);
    }
  }

  /** After rules that are read back as they are, one more, whatever it holds: describing
      aborts exactly when this one, split on its own, does not lead from what the others
      rebuild to the bitmap it left. */
  lemma DescribeExact(t: Table, s: Sel, rules: seq<string>, r: string, pubsub: bool)
    requires Tidy(t, s, rules) && AllFaithful(t, rules) && Stable(t, r)
    ensures r != "" && Words(rules) && Words(Surviving(rules, r[1..])) && Set(t, s, r, true).1
    ensures Panics(t, Set(t, s, r, true).0, pubsub) <==>
            !ReadsAs(t, Replay(t, Base(s.bits), Surviving(rules, r[1..])), r, Apply(t, s.bits, r))
  {
    hide WellFormed, Surviving, SplitFrom, Spaced, Tame, Stable, Replay, Rebuild, Set, AllBits, Apply;
    StableSigned(t, r);
    TidyWords(t, s, rules);
    var kept := Surviving(rules, r[1..]);
    SurvivingWords(rules, r[1..]);
    AppendedText(t, s, rules, r);
    KeptFaithful(t, rules, r[1..]);
    SpacedSplits(t, kept, r);
    BaseStays(t, s, rules, r);
    var fake := Fresh(pubsub).(bits := Base(s.bits));
    RebuildReadings(t, fake, kept);
    var split := SplitFrom(r, 0);
    if split.Some? {
      RebuildConcat(t, fake, Readings(kept), split.value);
      RebuildSame(t, Rebuild(t, fake, Readings(kept)).0, Sel(Replay(t, Base(s.bits), kept), "", false, false),
        split.value);
    }
  }

  lemma KeptFaithful(t: Table, rules: seq<string>, name: string)
    requires Words(rules) && AllFaithful(t, rules)
    ensures AllFaithful(t, Surviving(rules, name))
  {
    hide Faithful;
    var kept := Surviving(rules, name);
    SurvivingWords(rules, name);
    forall i | 0 <= i < |kept| ensures Faithful(t, kept[i]) {
      assert kept[i] in kept && kept[i] in rules;
    }
  }

  /** The operation leaves the reserved bit alone, so describing starts from the same base. */
  lemma BaseStays(t: Table, s: Sel, rules: seq<string>, r: string)
    requires Tidy(t, s, rules) && r != ""
    ensures Apply(t, s.bits, r) <= AllBits() && Base(s.bits) <= AllBits()
    ensures forall pubsub :: Set(t, Fresh(pubsub), BaseOp(Apply(t, s.bits, r)), false)
                             == (Fresh(pubsub).(bits := Base(s.bits)), true)
  {
    hide WellFormed, Touched, Set, AllBits;
    NotFuture(t, r[1..]);
    TouchedBits(t, r[1..]);
    forall pubsub
      ensures Set(t, Fresh(pubsub), BaseOp(Apply(t, s.bits, r)), false) == (Fresh(pubsub).(bits := Base(s.bits)), true)
    {
      BaseParses(t, Apply(t, s.bits, r), pubsub);
    }
  }

  /** A rule that touches no bit, as every first argument: what the others rebuild is the
      bitmap itself, so the operation and the bitmap decide alone. */
  lemma FirstArgExact(t: Table, s: Sel, rules: seq<string>, r: string, pubsub: bool)
    requires Tidy(t, s, rules) && AllFaithful(t, rules) && Stable(t, r) && Touched(t, r[1..]) == {}
    ensures r != "" && Set(t, s, r, true).1
    ensures Panics(t, Set(t, s, r, true).0, pubsub) <==> !ReadsBack(t, s.bits, r)
  {
    hide WellFormed, Surviving, SplitFrom, Stable, Replay, Rebuild, Set, AllBits, Touched, Panics;
    StableSigned(t, r);
    TidyWords(t, s, rules);
    DescribeExact(t, s, rules, r, pubsub);
    KeptReplay(t, s, rules, r);
  }

  lemma KeptReplay(t: Table, s: Sel, rules: seq<string>, r: string)
    requires Tidy(t, s, rules) && Stable(t, r) && Touched(t, r[1..]) == {}
    ensures Words(rules) && Words(Surviving(rules, r[1..]))
    ensures Replay(t, Base(s.bits), Surviving(rules, r[1..])) == s.bits
  {
    hide Surviving, Replay, AllBits, Touched, Join;
    TidyWords(t, s, rules);
    StableParses(t, r, true);
    ParsedRule(t, Lower(r), true);
    SurvivingWords(rules, r[1..]);
    var a := Replay(t, Base(s.bits), Surviving(rules, r[1..]));
    forall x ensures x in a <==> x in s.bits {
      SurvivingReplay(t, Base(s.bits), Base(s.bits), rules, r[1..], x);
    }
  }

  // --- when describing cannot fail ----------------------------------------------------------

  /** With rules that are read back as they are describing a selector cannot fail. */
  lemma FaithfulDescribed(t: Table, s: Sel, rules: seq<string>, pubsub: bool)
    requires Tidy(t, s, rules) && AllFaithful(t, rules)
    ensures !Panics(t, s, pubsub)
  {
    hide WellFormed, SplitFrom, Set, Rebuild, AllStable, Faithful, Spaced, Replay, AllBits;
    BaseParses(t, s.bits, pubsub);
    BaseBits(s.bits);
    RebuildReadings(t, Fresh(pubsub).(bits := Base(s.bits)), rules);
    JoinedReadings(t, rules);
  }

  lemma BaseBits(bits: set<int>)
    ensures Base(bits) <= AllBits()
  {
  }

  lemma JoinedReadings(t: Table, rules: seq<string>)
    requires AllFaithful(t, rules)
    ensures SplitFrom(Join(rules), 0) == Some(Readings(rules))
  {
    hide SplitFrom, Faithful, Spaced;
    if rules == [] {
      SplitEnd(Join(rules));
    } else {
      var n := |rules| - 1;
      var front, last := rules[..n], rules[n];
      LastJoined(rules, n);
      assert "" + Spaced(front) == Spaced(front);
      FaithfulSplits(t, last);
      SpacedSplits(t, front, last);
      ReadingsLast(front, last);
    }
  }

  lemma {:induction false} ReadingsLast(front: seq<string>, last: string)
    requires SplitFrom(last, 0).Some?
    ensures Readings(front + [last]) == Readings(front) + SplitFrom(last, 0).value
    decreases |front|
  {
    hide SplitFrom;
    if front == [] {
      assert front + [last] == [last] && [last][1..] == [];
      assert SplitFrom(last, 0).value + [] == [] + SplitFrom(last, 0).value;
    } else {
      assert (front + [last])[1..] == front[1..] + [last];
      ReadingsLast(front[1..], last);
    }
  }

  /** An operation that leaves a rule without blanks that is read back as it is. */
  ghost predicate FaithfulOp(t: Table, op: string) {
    var p := Parse(t, Lower(op), true);
    p.Change? ==> ' ' !in p.rule && Faithful(t, p.rule)
  }

  lemma FaithfulNext(t: Table, s: Sel, rules: seq<string>, op: string)
    requires Tidy(t, s, rules) && AllFaithful(t, rules) && FaithfulOp(t, op)
    ensures Words(rules) && AllFaithful(t, NextRules(t, rules, op))
    ensures Tidy(t, Set(t, s, op, true).0, NextRules(t, rules, op))
  {
    hide Parse, Set, Replay, Base, WellFormed, AllStable, Faithful, Tidy;
    TidyWords(t, s, rules);
    SetSound(t, s, rules, op, true);
    var p := Parse(t, Lower(op), true);
    if p.Change? && p.rule != "" { KeptFaithful(t, rules, p.rule[1..]); }
  }

  lemma {:induction false} RunFaithful(t: Table, s: Sel, rules: seq<string>, ops: seq<string>)
    requires Tidy(t, s, rules) && AllFaithful(t, rules) && forall i :: 0 <= i < |ops| ==> FaithfulOp(t, ops[i])
    ensures Tidy(t, SetAll(t, s, ops), AllRules(t, rules, ops)) && AllFaithful(t, AllRules(t, rules, ops))
    decreases |ops|
  {
    hide Parse, Set, NextRules, Tidy, FaithfulOp, AllFaithful;
    if ops != [] {
      FaithfulNext(t, s, rules, ops[0]);
      RunFaithful(t, Set(t, s, ops[0], true).0, NextRules(t, rules, ops[0]), ops[1..]);
    }
  }

  /** Over whole runs: after operations whose rules are read back as they are, describing
      does not abort. After one more operation, whatever it is, describing aborts exactly when
      its rule is not read back; for a rule that touches no bit that means from the bitmap
      the operation meets. */
  lemma RunExact(t: Table, s: Sel, rules: seq<string>, ops: seq<string>, op: string, pubsub: bool)
    requires Tidy(t, s, rules) && AllFaithful(t, rules) && forall i :: 0 <= i < |ops| ==> FaithfulOp(t, ops[i])
    ensures var u, left, p := SetAll(t, s, ops), AllRules(t, rules, ops), Parse(t, Lower(op), true);
            && !Panics(t, u, pubsub)
            && (!p.Change? ==> !Panics(t, Set(t, u, op, true).0, pubsub))
            && (p.Change? ==>
                  && p.rule != "" && Words(left) && Words(Surviving(left, p.rule[1..]))
                  && (Panics(t, Set(t, u, op, true).0, pubsub) <==>
                      !ReadsAs(t, Replay(t, Base(u.bits), Surviving(left, p.rule[1..])), p.rule,
                         Apply(t, u.bits, p.rule)))
                  && (Touched(t, p.rule[1..]) == {} ==>
                        (Panics(t, Set(t, u, op, true).0, pubsub) <==> !ReadsBack(t, u.bits, p.rule))))
  {
    hide Parse, Set, NextRules, FaithfulOp, AllFaithful, Panics, ReadsBack, ReadsAs, Touched, Stable, WellFormed,
      Replay, Apply, Surviving;
    var u, left, p := SetAll(t, s, ops), AllRules(t, rules, ops), Parse(t, Lower(op), true);
    RunFaithful(t, s, rules, ops);
    FaithfulDescribed(t, u, left, pubsub);
    if p.Change? {
      ParsedStable(t, op, true);
      SetIsRule(t, u, op, p.rule);
      DescribeExact(t, u, left, p.rule, pubsub);
      if Touched(t, p.rule[1..]) == {} { FirstArgExact(t, u, left, p.rule, pubsub); }
    } else {
      QuietOp(t, op);
      FaithfulNext(t, u, left, op);
      FaithfulDescribed(t, Set(t, u, op, true).0, NextRules(t, left, op), pubsub);
    }
  }

  lemma SetIsRule(t: Table, s: Sel, op: string, r: string)
    requires Parse(t, Lower(op), true) == Change(r) && Stable(t, r)
    ensures Set(t, s, op, true) == Set(t, s, r, true)
  {
    hide Parse, Stable;
    StableParses(t, r, true);
  }

  lemma QuietOp(t: Table, op: string)
    requires !Parse(t, Lower(op), true).Change?
    ensures FaithfulOp(t, op)
  {
    hide Parse, Faithful;
  }

  /** With tame rules describing a selector cannot fail. */
  lemma TameDescribed(t: Table, s: Sel, rules: seq<string>, pubsub: bool)
    requires Tidy(t, s, rules) && AllTame(rules)
    ensures !Panics(t, s, pubsub)
  {
    hide WellFormed, Panics, AllStable, AllTame, AllFaithful, Join, Replay;
    AllTameFaithful(t, rules);
    FaithfulDescribed(t, s, rules, pubsub);
  }

  lemma TameOpFaithful(t: Table, op: string)
    requires WellFormed(t) && TameOp(t, op)
    ensures FaithfulOp(t, op)
  {
    hide Parse, WellFormed, Stable, Faithful;
    var p := Parse(t, Lower(op), true);
    if p.Change? {
      ParsedStable(t, op, true);
      TameFaithful(t, p.rule);
      assert forall i :: 0 <= i < |p.rule| ==> p.rule[i] != ' ';
    }
  }

  /** For every sequence of operations whose command rules are tame, the server describes the
      selector they lead to without aborting. */
  lemma RunDescribed(t: Table, s: Sel, rules: seq<string>, ops: seq<string>, pubsub: bool)
    requires Tidy(t, s, rules) && AllTame(rules) && forall i :: 0 <= i < |ops| ==> TameOp(t, ops[i])
    ensures !Panics(t, SetAll(t, s, ops), pubsub)
  {
    hide Parse, Set, Replay, Base, WellFormed, AllStable, Panics, TameOp, AllTame, AllFaithful, FaithfulOp;
    AllTameFaithful(t, rules);
    forall i | 0 <= i < |ops| ensures FaithfulOp(t, ops[i]) { TameOpFaithful(t, ops[i]); }
    RunFaithful(t, s, rules, ops);
    FaithfulDescribed(t, SetAll(t, s, ops), AllRules(t, rules, ops), pubsub);
  }

  lemma TidyWords(t: Table, s: Sel, rules: seq<string>)
    requires Tidy(t, s, rules)
    ensures Words(rules)
  {
  }

  // --- first arguments that make it abort ------------------------------------------------------

  /** The text after one more rule, whatever that rule holds. */
  lemma AppendedText(t: Table, s: Sel, rules: seq<string>, op: string)
    requires Tidy(t, s, rules) && Stable(t, op)
    ensures Words(rules) && Set(t, s, op, true).1
    ensures Set(t, s, op, true).0.text == Spaced(Surviving(rules, op[1..])) + op
    ensures Set(t, s, op, true).0.bits == Apply(t, s.bits, op)
  {
    hide WellFormed, Surviving, Join, Removed, Parse, Replay, Spaced;
    TidyWords(t, s, rules);
    StableParses(t, op, true);
    UpdatedJoin(rules, op);
    JoinLast(Surviving(rules, op[1..]), op);
  }

  lemma JoinLast(kept: seq<string>, op: string)
    ensures Join(kept + [op]) == Spaced(kept) + op
  {
    JoinConcat(kept, [op]);
  }

  lemma SignedOne(t: Table, x: string, op: string)
    requires x != "" && Stable(t, op) && x <= op
    ensures Signed([x])
  {
  }

  lemma Alone(op: string)
    ensures Spaced([]) + op == op
  {
  }

  /** A first argument with a quote that nothing closes: the server aborts, whatever came
      before. */
  lemma QuoteAborts(t: Table, s: Sel, rules: seq<string>, x: string, q: char, y: string, pubsub: bool)
    requires Tidy(t, s, rules) && AllFaithful(t, rules)
    requires Tame(x) && x != "" && IsQuote(q) && q !in y && Stable(t, x + [q] + y)
    ensures Set(t, s, x + [q] + y, true).1
    ensures Panics(t, Set(t, s, x + [q] + y, true).0, pubsub)
  {
    hide WellFormed, Surviving, Set, SplitFrom, Spaced, Tidy, Tame, AllFaithful, ParseCommand, Panics, Replay, Rebuild;
    var op := x + [q] + y;
    SignedOne(t, x, op);
    Alone(op);
    SplitOpen([], x, q, y);
    DescribeExact(t, s, rules, op, pubsub);
  }

  /** Describing never gets past this token. */
  predicate Never(t: Table, y: string) {
    var p := Parse(t, Lower(y), false);
    p.Refused? || p.KeyPattern? || p.ChannelPattern?
  }

  /** A first argument cut by white space whose second part is no operation: likewise. */
  lemma BlankAborts(t: Table, s: Sel, rules: seq<string>, x: string, c: char, y: string, pubsub: bool)
    requires Tidy(t, s, rules) && AllFaithful(t, rules)
    requires Tame(x) && x != "" && Ends(c) && Tame(y) && y != "" && !IsSpace(y[0]) && Stable(t, x + [c] + y)
    requires Never(t, y)
    ensures Set(t, s, x + [c] + y, true).1
    ensures Panics(t, Set(t, s, x + [c] + y, true).0, pubsub)
  {
    hide WellFormed, Surviving, Set, SplitFrom, Spaced, Tidy, Tame, AllFaithful, ParseCommand, Panics, Replay, Rebuild;
    hide Never;
    var op := x + [c] + y;
    SignedOne(t, x, op);
    CutAlone(x, c, y);
    DescribeExact(t, s, rules, op, pubsub);
    var bits := Replay(t, Base(s.bits), Surviving(rules, op[1..]));
    RebuildRefused(t, Sel(bits, "", false, false), [x], y);
  }

  lemma CutAlone(x: string, c: char, y: string)
    requires Tame(x) && Signed([x]) && Ends(c) && Tame(y) && y != "" && !IsSpace(y[0])
    ensures SplitFrom(x + [c] + y, 0) == Some([x] + [y])
  {
    hide Tame, SplitFrom, Spaced;
    Alone(x + [c] + y);
    SplitCut([], x, c, y);
    assert [] + [x, y] == [x] + [y];
  }

  lemma NeverSet(t: Table, s: Sel, y: string)
    requires Never(t, y)
    ensures !Set(t, s, y, false).1
  {
    hide ParseCommand, HasSpaces, Lower, CString;
  }

  lemma {:induction false} RebuildRefused(t: Table, s: Sel, front: seq<string>, y: string)
    requires Never(t, y)
    ensures !Rebuild(t, s, front + [y]).1
    decreases |front|
  {
    hide Set, Never;
    NeverSet(t, s, y);
    if front == [] {
      assert front + [y] == [y];
    } else {
      assert (front + [y])[1..] == front[1..] + [y];
      RebuildRefused(t, Set(t, s, front[0], false).0, front[1..], y);
    }
  }

  /** On a selector that may do everything, a first argument cut by white space whose second
      part takes something away: what is rebuilt is another bitmap. */
  lemma MismatchAborts(t: Table, s: Sel, x: string, c: char, y: string, pubsub: bool)
    requires WellFormed(t) && s.bits == AllBits() && s.text == ""
    requires Tame(x) && x != "" && Ends(c) && Tame(y) && Stable(t, x + [c] + y)
    requires Stable(t, y) && y[0] == '-' && Touched(t, y[1..]) != {}
    requires x[0] == '+' && Touched(t, (x + [c] + y)[1..]) == {}
    ensures Set(t, s, x + [c] + y, true).1
    ensures Panics(t, Set(t, s, x + [c] + y, true).0, pubsub)
  {
    hide WellFormed, SplitFrom, Tame, ParseCommand, Touched, Replay, Set, Rebuild, Panics, Spaced;
    var op := x + [c] + y;
    FullTidy(t, s);
    SignedOne(t, x, op);
    CutAlone(x, c, y);
    FirstArgExact(t, s, [], op, pubsub);
    RebuildLess(t, Sel(s.bits, "", false, false), x, y);
    assert [x] + [y] == [x, y];
  }

  lemma FullTidy(t: Table, s: Sel)
    requires WellFormed(t) && s.bits == AllBits() && s.text == ""
    ensures Tidy(t, s, []) && AllFaithful(t, [])
  {
    hide WellFormed;
    EmptyReplay(t, AllBits());
    NoRules(t);
    assert Base(s.bits) == AllBits();
  }

  lemma RebuildLess(t: Table, s: Sel, x: string, y: string)
    requires |y| > 1 && Stable(t, y) && y[0] == '-' && Touched(t, y[1..]) != {}
    ensures var (f, ok) := Rebuild(t, s, [x, y]); !ok || f.bits != AllBits()
  {
    hide Touched, Parse, Stable, Updated;
    TouchedBits(t, y[1..]);
    StableParses(t, y, false);
    var (u, ok) := Set(t, s, x, false);
    if ok {
      assert [x, y][1..] == [y] && [y][1..] == [];
      var (v, ok2) := Set(t, u, y, false);
      assert Rebuild(t, v, []) == (v, true);
      assert v.bits == u.bits - Touched(t, y[1..]);
    }
  }

  /** A command without subcommands: any text may follow its bar. */
  ghost predicate Lone(t: Table, c: string) {
    c in t.entries && t.entries[c].parent == "" && !HasSubs(t, c) && Lower(c) == c && CString(c) == c && Tame(c)
  }

  /** c, a bar and an argument. */
  function Arg(c: string, arg: string): string {
    c + "|" + arg
  }

  lemma ArgBar(c: string, arg: string)
    requires '|' !in arg
    ensures var name := Arg(c, arg); |c| < |name| && LastBar(name, |name|) == |c| && name[..|c|] == c
  {
    var name := Arg(c, arg);
    assert name[|c|] == '|';
    assert forall j :: |c| < j < |name| ==> name[j] == arg[j - |c| - 1] && name[j] in arg;
    hide LastBar;
  }

  lemma {:induction false} ArgLower(c: string, arg: string)
    requires Lower(c) == c && CString(c) == c && Lower(arg) == arg && '\0' !in arg
    ensures Lower("+" + Arg(c, arg)) == "+" + Arg(c, arg) && CString("+" + Arg(c, arg)) == "+" + Arg(c, arg)
  {
    hide Lower, CString;
    var op := "+" + Arg(c, arg);
    CutPrefix(c);
    forall i | 0 <= i < |op| ensures Lower(op)[i] == op[i] && op[i] != '\0' {
      if 1 <= i <= |c| { assert op[i] == c[i - 1] && Lower(c)[i - 1] == c[i - 1] && c[i - 1] in c; }
      if i > 1 + |c| {
        var j := i - 2 - |c|;
        assert op[i] == arg[j] && Lower(arg)[j] == arg[j] && arg[j] in arg;
      }
    }
    assert Lower(op) == op;
    CutNothing(op);
  }

  lemma FirstArgStable(t: Table, c: string, arg: string)
    requires WellFormed(t) && Lone(t, c) && arg != "" && '|' !in arg && Lower(arg) == arg && '\0' !in arg
    ensures Stable(t, "+" + Arg(c, arg))
  {
    hide HasSubs, LastBar, Tame, Lower, CString, WellFormed;
    LonePlain(t, c);
    var op := "+" + Arg(c, arg);
    assert op[1..] == Arg(c, arg) && op[1] == c[0] && op[1 + |c|] == '|';
    ArgBar(c, arg);
    ArgLower(c, arg);
  }

  lemma LonePlain(t: Table, c: string)
    requires WellFormed(t) && Lone(t, c)
    ensures Plain(c)
  {
  }

  lemma FirstArgTouches(t: Table, c: string, arg: string)
    requires WellFormed(t) && Lone(t, c)
    ensures Touched(t, Arg(c, arg)) == {}
  {
    hide Tame, Lower, CString;
    var name := Arg(c, arg);
    assert name[0] == c[0] && name[|c|] == '|' && name[..|c|] == c;
    assert '|' in name && '|' !in c;
    BarAgrees(c, name);
  }

  /** The part before the first bar is determined. */
  predicate BeforeBar(p: string, name: string) {
    '|' !in p && |p| < |name| && name[..|p|] == p && name[|p|] == '|'
  }

  lemma BarAgrees(c: string, name: string)
    requires BeforeBar(c, name)
    ensures forall p :: BeforeBar(p, name) ==> p == c
  {
    forall p | BeforeBar(p, name) ensures p == c {
      assert |p| == |c|;
    }
  }

  /** +select|" is accepted, and describing the selector then aborts. */
  lemma SelectQuote(t: Table, pubsub: bool)
    requires WellFormed(t) && Lone(t, "select")
    ensures var (s, ok) := Set(t, Fresh(pubsub), "+select|\"", true); ok && Panics(t, s, pubsub)
  {
    hide Set, Panics, Tidy, Lone, Tame, Lower, CString, Stable;
    FreshTidy(t, pubsub);
    LowerPlain("\"");
    FirstArgStable(t, "select", "\"");
    assert "+" + Arg("select", "\"") == "+select|\"";
    assert "+select|" + ['"'] + "" == "+select|\"";
    PlainTame("+select|");
    QuoteAborts(t, Fresh(pubsub), [], "+select|", '"', "", pubsub);
  }

  /** Quotes that are closed do no harm: +select|"a" is read back as +select|a, which touches
      no bit either. So there is no converse by quotes alone. */
  lemma SelectQuoted(t: Table, pubsub: bool)
    requires WellFormed(t) && Lone(t, "select")
    ensures var (s, ok) := Set(t, Fresh(pubsub), "+select|\"a\"", true); ok && !Panics(t, s, pubsub)
  {
    hide WellFormed, Lone, Tame, Lower, CString, Stable, Touched, SplitFrom, Arg, Set, Rebuild, Panics;
    QuotedText();
    FirstArgStable(t, "select", "\"a\"");
    FirstArgTouches(t, "select", "\"a\"");
    FirstArgStable(t, "select", "a");
    FirstArgTouches(t, "select", "a");
    FreshTidy(t, pubsub);
    FirstArgExact(t, Fresh(pubsub), [], "+select|\"a\"", pubsub);
    OneRule(t, Sel({}, "", false, false), "+select|a");
  }

  lemma QuotedText()
    ensures "+" + Arg("select", "\"a\"") == "+select|\"a\"" && "+" + Arg("select", "a") == "+select|a"
    ensures "+select|\"a\""[1..] == Arg("select", "\"a\"") && "+select|a"[1..] == Arg("select", "a")
    ensures Lower("\"a\"") == "\"a\"" && Lower("a") == "a"
    ensures SplitFrom("+select|\"a\"", 0) == Some(["+select|a"])
  {
    hide Lower, Tame, SplitFrom;
    LowerPlain("\"a\"");
    LowerPlain("a");
    PlainTame("+select|");
    SplitClosed("+select|", "a");
    assert "+select|" + "\"" + "a" + "\"" == "+select|\"a\"" && "+select|" + "a" == "+select|a";
  }

  lemma FreshTidy(t: Table, pubsub: bool)
    requires WellFormed(t)
    ensures Tidy(t, Fresh(pubsub), []) && AllFaithful(t, [])
  {
    hide WellFormed;
    EmptyReplay(t, {});
    NoRules(t);
  }

  lemma PlainTame(s: string)
    requires forall i :: 0 <= i < |s| ==> s[i] == '+' || s[i] == '-' || s[i] == '|' || 'a' <= s[i] <= 'z'
    ensures Tame(s)
  {
  }

  /** +select|a -get on a selector that may do everything is accepted, and describing the
      selector then aborts. */
  lemma SelectGet(t: Table, s: Sel, pubsub: bool)
    requires WellFormed(t) && Lone(t, "select") && "get" in t.entries && 0 <= t.entries["get"].id < BITS
    requires s.bits == AllBits() && s.text == ""
    ensures var (r, ok) := Set(t, s, "+select|a -get", true); ok && Panics(t, r, pubsub)
  {
    hide Set, Panics, Lone, Tame, Lower, CString, Stable, Touched, WellFormed, Arg;
    SelectGetText();
    FirstArgStable(t, "select", "a -get");
    FirstArgTouches(t, "select", "a -get");
    GetTaken(t);
    MismatchAborts(t, s, "+select|a", ' ', "-get", pubsub);
  }

  lemma SelectGetText()
    ensures "+" + Arg("select", "a -get") == "+select|a" + [' '] + "-get" == "+select|a -get"
    ensures ("+select|a" + [' '] + "-get")[1..] == Arg("select", "a -get")
    ensures Lower("a -get") == "a -get" && '\0' !in "a -get" && '|' !in "a -get"
    ensures Tame("+select|a") && Tame("-get")
  {
    hide Lower, Tame;
    LowerPlain("a -get");
    PlainTame("+select|a");
    PlainTame("-get");
  }

  lemma GetTaken(t: Table)
    requires "get" in t.entries && 0 <= t.entries["get"].id < BITS
    ensures Stable(t, "-get") && "-get"[1..] == "get" && Touched(t, "-get"[1..]) != {}
  {
    hide Lower, CString;
    LowerPlain("-get");
    CutNothing("-get");
    assert "-get"[1..] == "get";
    assert t.entries["get"].id in Own(t, "get");
  }

  // --- the code --------------------------------------------------------------------------------

  class Selector {
    var allowed: set<int>       // allowed_commands, bit by bit
    var commandRules: string
    var allKeys: bool           // SELECTOR_FLAG_ALLKEYS
    var allChannels: bool       // SELECTOR_FLAG_ALLCHANNELS

    ghost function Contents(): Sel
      reads this
    {
      Sel(allowed, commandRules, allKeys, allChannels)
    }

    /** ACLCreateSelector: no command allowed, no rules. */
    constructor (pubsub: bool)
      ensures Contents() == Fresh(pubsub)
    {
      allowed, commandRules, allKeys, allChannels := {}, "", false, pubsub;
    }

    /** ACLSetSelectorCommandBit. */
    method SetBit(id: int, value: bool)
      modifies this`allowed
      ensures allowed == if !(0 <= id < BITS) then old(allowed)
                         else if value then old(allowed) + {id} else old(allowed) - {id}
    {
      if 0 <= id < BITS {
        allowed := if value then allowed + {id} else allowed - {id};
      }
    }

    /** ACLChangeSelectorPerm: the command's bit and those of its subcommands. */
    method ChangePerm(t: Table, name: string, allow: bool)
      requires WellFormed(t) && name in t.entries
      modifies this`allowed
      ensures allowed == if allow then old(allowed) + Own(t, name) else old(allowed) - Own(t, name)
    {
      hide WellFormed, Own;
      SetBit(t.entries[name].id, allow);
      var i := 0;
      while i < |t.order|
        invariant 0 <= i <= |t.order|
        invariant allowed == if allow then old(allowed) + OwnUpTo(t, name, i) else old(allowed) - OwnUpTo(t, name, i)
      {
        Ordered(t, i);
        var k := t.order[i];
        if t.entries[k].parent == name {
          SetBit(t.entries[k].id, allow);
        }
        i := i + 1;
      }
      OwnIsAll(t, name);
    }

    /** ACLSetSelectorCommandBitsForCategory, over commands and their subcommands. */
    method SetCategory(t: Table, c: string, value: bool)
      requires WellFormed(t)
      modifies this`allowed
      ensures allowed == if value then old(allowed) + OfCategory(t, c) else old(allowed) - OfCategory(t, c)
    {
      hide WellFormed, Own, OfCategory;
      var i := 0;
      while i < |t.order|
        invariant 0 <= i <= |t.order|
        invariant allowed
                  == if value then old(allowed) + CategoryUpTo(t, c, i) else old(allowed) - CategoryUpTo(t, c, i)
      {
        Ordered(t, i);
        var k := t.order[i];
        if c in t.entries[k].categories {
          ChangePerm(t, k, value);
        }
        i := i + 1;
      }
      CategoryIsAll(t, c);
    }

    /** ACLUpdateCommandRules: delete what the new rule covers, then append it. */
    method UpdateCommandRules(name: string, allow: bool)
      modifies this`commandRules
      ensures commandRules == Updated(old(commandRules), (if allow then "+" else "-") + name)
    {
      hide Removed;
      var r := (if allow then "+" else "-") + name;
      assert r[1..] == name;
      commandRules := RemoveCommandRule(commandRules, name);
      if commandRules != "" {
        commandRules := commandRules + " ";
      }
      commandRules := commandRules + r;
    }

    /** ACLSetSelector, on any selector and any operation. */
    method SetSelector(t: Table, op: string, counted: bool) returns (ok: bool)
      requires WellFormed(t)
      modifies this
      ensures (Contents(), ok) == Set(t, old(Contents()), op, counted)
    {
      hide WellFormed, Touched, Known, Parse, Updated;
      var request := Parse(t, Lower(op), counted);
      match request
      case Everything =>
        allowed, commandRules := AllBits(), "";
        return true;
      case Nothing =>
        allowed, commandRules := {}, "";
        return true;
      case Change(r) =>
        ParsedRule(t, Lower(op), counted);
        SignedBack(r);
        Touch(t, r[1..], r[0] == '+');
        UpdateCommandRules(r[1..], r[0] == '+');
        return true;
      case Keys(all) =>
        allKeys := all;
        return true;
      case Channels(all) =>
        allChannels := all;
        return true;
      case KeyPattern(good) => return good && !allKeys;
      case ChannelPattern(good) => return good && !allChannels;
      case Refused => return false;
    }

    /** The bits of a rule, by whichever way its name has. */
    method Touch(t: Table, name: string, allow: bool)
      requires WellFormed(t) && Known(t, name)
      modifies this`allowed
      ensures allowed == if allow then old(allowed) + Touched(t, name) else old(allowed) - Touched(t, name)
    {
      if name != "" && name[0] == '@' {
        SetCategory(t, name[1..], allow);
      } else if name in t.entries {
        ChangePerm(t, name, allow);
      }
    }

    /** ACLDescribeSelectorCommandRules, on any selector: replay the rules on a fresh one and
        compare bitmaps; `panic` is an abort of the server. */
    method Describe(t: Table, pubsub: bool) returns (panic: bool, text: string)
      requires WellFormed(t)
      ensures panic == Panics(t, Contents(), pubsub)
      ensures !panic ==> text == BaseOp(allowed) + (if commandRules == "" then "" else " " + commandRules)
    {
      hide WellFormed, Set, Rebuild, SplitFrom;
      var fake := new Selector(pubsub);
      text := BaseOp(allowed) + " ";
      var ok := fake.SetSelector(t, BaseOp(allowed), false);
      ghost var start := fake.Contents();
      var split := SplitArgs(commandRules);
      if split.None? {
        return true, text;
      }
      var argv, i := split.value, 0;
      ok := true;
      assert argv[0..] == argv;
      while i < |argv| && ok
        invariant 0 <= i <= |argv| && fresh(fake)
        invariant Rebuild(t, start, argv)
                  == if ok then Rebuild(t, fake.Contents(), argv[i..]) else (fake.Contents(), false)
      {
        RebuildStep(t, fake.Contents(), argv[i..]);
        assert argv[i..][1..] == argv[i + 1..] && argv[i..][0] == argv[i];
        ok := fake.SetSelector(t, argv[i], false);
        i := i + 1;
      }
      RebuildEnd(t, fake.Contents());
      assert ok ==> argv[i..] == [];
      if commandRules != "" {
        text := text + commandRules + " ";
      }
      text := text[..|text| - 1];
      panic := !ok || fake.allowed != allowed;
    }
  }

  lemma RebuildStep(t: Table, s: Sel, argv: seq<string>)
    requires argv != []
    ensures Rebuild(t, s, argv) ==
            var (next, ok) := Set(t, s, argv[0], false); if ok then Rebuild(t, next, argv[1..]) else (next, false)
  {
  }

  lemma RebuildEnd(t: Table, s: Sel)
    ensures Rebuild(t, s, []) == (s, true)
  {
  }

  // --- loops ----------------------------------------------------------------------------

  ghost function Bit(t: Table, k: string): set<int> {
    if k in t.entries && 0 <= t.entries[k].id < BITS then {t.entries[k].id} else {}
  }

  ghost function OwnUpTo(t: Table, name: string, n: nat): set<int>
    requires n <= |t.order|
  {
    if n == 0 then Bit(t, name)
    else OwnUpTo(t, name, n - 1) +
         (var k := t.order[n - 1]; if k in t.entries && t.entries[k].parent == name then Bit(t, k) else {})
  }

  ghost function CategoryUpTo(t: Table, c: string, n: nat): set<int>
    requires n <= |t.order|
  {
    if n == 0 then {}
    else CategoryUpTo(t, c, n - 1) +
         (var k := t.order[n - 1]; if k in t.entries && c in t.entries[k].categories then Own(t, k) else {})
  }

  lemma Ordered(t: Table, i: nat)
    requires WellFormed(t) && i < |t.order|
    ensures t.order[i] in t.entries
  {
    assert t.order[i] in t.order;
  }

  lemma {:induction false} OwnUpToSound(t: Table, name: string, n: nat)
    requires n <= |t.order| && name in t.entries
    ensures OwnUpTo(t, name, n) <= Own(t, name)
    ensures Bit(t, name) <= OwnUpTo(t, name, n)
    ensures forall j :: 0 <= j < n && t.order[j] in t.entries && t.entries[t.order[j]].parent == name ==>
              Bit(t, t.order[j]) <= OwnUpTo(t, name, n)
  {
    if n > 0 { OwnUpToSound(t, name, n - 1); }
  }

  lemma OwnIsAll(t: Table, name: string)
    requires WellFormed(t) && name in t.entries
    ensures OwnUpTo(t, name, |t.order|) == Own(t, name)
  {
    OwnUpToSound(t, name, |t.order|);
    forall x | x in Own(t, name) ensures x in OwnUpTo(t, name, |t.order|) {
      var k :| k in t.entries && (k == name || t.entries[k].parent == name)
               && 0 <= t.entries[k].id < BITS && x == t.entries[k].id;
      assert x in Bit(t, k);
      if k != name {
        assert k in t.order;
        var j :| 0 <= j < |t.order| && t.order[j] == k;
      }
    }
  }

  lemma {:induction false} CategoryUpToSound(t: Table, c: string, n: nat)
    requires n <= |t.order|
    ensures CategoryUpTo(t, c, n) <= OfCategory(t, c)
    ensures forall j :: 0 <= j < n && t.order[j] in t.entries && c in t.entries[t.order[j]].categories ==>
              Own(t, t.order[j]) <= CategoryUpTo(t, c, n)
  {
    if n > 0 { CategoryUpToSound(t, c, n - 1); }
  }

  lemma CategoryIsAll(t: Table, c: string)
    requires WellFormed(t)
    ensures CategoryUpTo(t, c, |t.order|) == OfCategory(t, c)
  {
    CategoryUpToSound(t, c, |t.order|);
    forall x | x in OfCategory(t, c) ensures x in CategoryUpTo(t, c, |t.order|) {
      var k :| k in t.entries && c in t.entries[k].categories && x in Own(t, k);
      assert k in t.order;
      var j :| 0 <= j < |t.order| && t.order[j] == k;
    }
  }

  // --- text and replay steps ----------------------------------------------------------------

  lemma Appended(kept: seq<string>, r: string)
    requires Words(kept)
    ensures Join(kept + [r]) == (if Join(kept) == "" then "" else Join(kept) + " ") + r
    ensures Join(kept) == "" <==> kept == []
  {
    if kept == [] {
      assert kept + [r] == [r];
    } else {
      assert Word(kept[0]);
      JoinConcat(kept, [r]);
      SpacedJoin(kept);
      assert Join(kept + [r]) == Join(kept) + " " + r;
    }
  }

  lemma RulesAppended(t: Table, rules: seq<string>, kept: seq<string>, name: string, r: string)
    requires Words(rules) && kept == Surviving(rules, name) && (forall i :: 0 <= i < |rules| ==> Rule(t, rules[i]))
    requires Rule(t, r)
    ensures forall i :: 0 <= i < |kept + [r]| ==> Rule(t, (kept + [r])[i])
  {
    SurvivingWords(rules, name);
    forall i | 0 <= i < |kept| ensures Rule(t, kept[i]) {
      assert kept[i] in kept && kept[i] in rules;
    }
  }

  lemma StableAppended(t: Table, rules: seq<string>, name: string, r: string)
    requires Words(rules) && AllStable(t, rules) && Stable(t, r)
    ensures AllStable(t, Surviving(rules, name) + [r])
  {
    SurvivingWords(rules, name);
    var kept := Surviving(rules, name);
    forall i | 0 <= i < |kept| ensures Stable(t, kept[i]) {
      assert kept[i] in kept && kept[i] in rules;
    }
  }

  lemma NoRules(t: Table)
    ensures AllStable(t, [])
  {
  }

  lemma SignedBack(r: string)
    requires |r| > 1 && (r[0] == '+' || r[0] == '-')
    ensures (if r[0] == '+' then "+" else "-") + r[1..] == r
  {
  }

  lemma EmptyReplay(t: Table, bits: set<int>)
    ensures Words([]) && Replay(t, bits, []) == bits && Join([]) == "" && FUTURE in AllBits()
  {
    assert IsBit(FUTURE);
  }

  lemma ChangedBits(t: Table, bits: set<int>, before: seq<string>, after: seq<string>, r: string)
    requires WellFormed(t) && Words(before) && Words(after) && r != "" && bits <= AllBits()
    requires bits == Replay(t, Base(bits), before)
    requires Replay(t, Base(bits), after) == Apply(t, Replay(t, Base(bits), before), r)
    ensures var now := Apply(t, bits, r);
            now <= AllBits() && Base(now) == Base(bits) && now == Replay(t, Base(now), after)
  {
    NotFuture(t, r[1..]);
    TouchedBits(t, r[1..]);
  }
}
