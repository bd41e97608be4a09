/** Expansion of object-like macros (expand_list): a rescan by recursion, with a stack of the
    names being expanded, blue paint, limits, and a second rescan of an expansion that leaves
    parentheses open. */
module MacroExpand {
  /** The kinds of token; the three punctuators that expansion looks at have one each. */
  datatype Kind = Ident | LParen | RParen | Comma | Punct | Space | Newline | Other

  /** A preprocessing token; `hide` is the blue paint. */
  datatype Tok = Tok(kind: Kind, spell: string, hide: bool)

  /** The replacement lists, as substitute() hands them to the rescan. */
  type Table = map<string, seq<Tok>>

  /** The token counter and the flag that stops all further expansion. */
  datatype Limits = Limits(tokens: nat, breached: bool)

  const MAX_EXPAND_DEPTH: nat := 200
  const MAX_EXPAND_TOKENS: nat := 5000000

  const NULLABILITY := {"_Nullable", "_Nonnull", "_Null_unspecified"}

  predicate Expandable(table: Table, name: string) { name in table && name !in NULLABILITY }

  /** A token that no expansion replaces, whatever is being expanded. */
  predicate Inert(table: Table, t: Tok) { t.kind != Ident || t.hide || !Expandable(table, t.spell) }

  predicate AllInert(table: Table, s: seq<Tok>) { forall i :: 0 <= i < |s| ==> Inert(table, s[i]) }

  function Live(table: Table, s: seq<Tok>): nat {
    if s == [] then 0 else (if Inert(table, s[0]) then 0 else 1) + Live(table, s[1..])
  }

  lemma {:induction false} LiveConcat(table: Table, a: seq<Tok>, b: seq<Tok>)
    ensures Live(table, a + b) == Live(table, a) + Live(table, b)
    ensures AllInert(table, a) ==> Live(table, a) == 0
  {
    if a == [] {
      assert a + b == b;
    } else {
      assert (a + b)[1..] == a[1..] + b;
      LiveConcat(table, a[1..], b);
    }
  }

  lemma LiveCons(table: Table, t: Tok, s: seq<Tok>)
    ensures Live(table, [t] + s) == (if Inert(table, t) then 0 else 1) + Live(table, s)
  {
    assert ([t] + s)[1..] == s;
  }

  /** Paints the occurrences of a macro's own name in its replacement list. */
  function Paint(name: string, s: seq<Tok>): (r: seq<Tok>)
    ensures |r| == |s|
    ensures forall i :: 0 <= i < |s| ==> r[i] == if s[i].kind == Ident && s[i].spell == name then s[i].(hide := true) else s[i]
  {
    seq(|s|, i requires 0 <= i < |s| => if s[i].kind == Ident && s[i].spell == name then s[i].(hide := true) else s[i])
  }

  /** The first position from i on that is no space. */
  function SkipSpaces(s: seq<Tok>, i: nat): (j: nat)
    requires i <= |s|
    ensures i <= j <= |s| && (j < |s| ==> s[j].kind != Space)
    decreases |s| - i
  {
    if i < |s| && s[i].kind == Space then SkipSpaces(s, i + 1) else i
  }

  /** The position of the operand of a `defined` that stands before s, or |s| if there is none. */
  function DefinedOperand(s: seq<Tok>): (j: nat)
    ensures j <= |s| && (j < |s| ==> s[j].kind == Ident)
  {
    var i := SkipSpaces(s, 0);
    if i < |s| && s[i].kind == LParen then
      var k := SkipSpaces(s, i + 1);
      if k < |s| && s[k].kind == Ident then k else |s|
    else if i < |s| && s[i].kind == Ident then i
    else |s|
  }

  /** Hides the operand of `defined`. */
  function MarkDefined(s: seq<Tok>): (r: seq<Tok>)
    ensures |r| == |s|
  {
    var j := DefinedOperand(s);
    if j < |s| then s[j := s[j].(hide := true)] else s
  }

  lemma {:induction false} LiveUpdate(table: Table, s: seq<Tok>, j: nat)
    requires j < |s|
    ensures Live(table, s[j := s[j].(hide := true)]) <= Live(table, s)
  {
    var r := s[j := s[j].(hide := true)];
    assert s == s[..j] + ([s[j]] + s[j + 1..]);
    assert r == s[..j] + ([r[j]] + s[j + 1..]);
    LiveConcat(table, s[..j], [s[j]] + s[j + 1..]);
    LiveConcat(table, s[..j], [r[j]] + s[j + 1..]);
    LiveConcat(table, [s[j]], s[j + 1..]);
    LiveConcat(table, [r[j]], s[j + 1..]);
  }

  lemma LiveMark(table: Table, s: seq<Tok>)
    ensures Live(table, MarkDefined(s)) <= Live(table, s)
  {
    if DefinedOperand(s) < |s| {
      LiveUpdate(table, s, DefinedOperand(s));
    }
  }

  /** The number of parentheses that s leaves open. */
  function OpenParens(s: seq<Tok>): nat {
    if s == [] then 0
    else
      var d := OpenParens(s[..|s| - 1]);
      var t := s[|s| - 1];
      if t.kind == LParen then d + 1
      else if t.kind == RParen && d > 0 then d - 1
      else d
  }

  /** Copies an expansion to the output, up to the token limit. */
  function Emit(s: seq<Tok>, lim: Limits): (r: (seq<Tok>, Limits))
    ensures lim.breached ==> r.1.breached
    ensures r.0 <= s
    ensures !r.1.breached ==> r.0 == s && r.1.tokens == lim.tokens + |s|
  {
    if s == [] then ([], lim)
    else if lim.tokens > MAX_EXPAND_TOKENS then ([], lim.(breached := true))
    else
      var (o, l) := Emit(s[1..], lim.(tokens := lim.tokens + 1));
      ([s[0]] + o, l)
  }

  function Avail(table: Table, active: seq<string>): set<string> { table.Keys - set a | a in active }

  function Work(table: Table, s: seq<Tok>, lim: Limits): nat { if lim.breached then 0 else Live(table, s) }

  lemma AvailShrinks(table: Table, active: seq<string>, name: string)
    requires name in table && name !in active
    ensures Avail(table, active + [name]) < Avail(table, active)
  {
    assert name in Avail(table, active) && name !in Avail(table, active + [name]);
  }

  /** expand_list on an object-like table, with the names in `active` being expanded. The names
      not yet active and the tokens that are not inert bound its recursion: an expansion that
      breaches no limit is inert, so rescanning it cannot start over. */
  function Expand(table: Table, active: seq<string>, input: seq<Tok>, lim: Limits): (r: (seq<Tok>, Limits))
    ensures lim.breached ==> r == (input, lim)
    ensures !r.1.breached ==> AllInert(table, r.0)
    decreases Avail(table, active), Work(table, input, lim), |input|
  {
    if input == [] then ([], lim)
    else
      var (t, rest) := (input[0], input[1..]);
      assert input == [t] + rest;
      if t.kind != Ident || lim.breached || t.hide || (t.spell !in active && !Expandable(table, t.spell)) then
        var tail := if t.kind == Ident && !lim.breached && !t.hide && t.spell == "defined" && t.spell !in table
                    then LiveMark(table, rest); MarkDefined(rest) else rest;
        var (o, l) := Expand(table, active, tail, lim);
        ([t] + o, l)
      else if t.spell in active then
        var (o, l) := Expand(table, active, rest, lim);
        ([t.(hide := true)] + o, l)
      else if |active| + 1 > MAX_EXPAND_DEPTH then
        var (o, l) := Expand(table, active, rest, lim.(breached := true));
        ([t] + o, l)
      else
        AvailShrinks(table, active, t.spell);
        var (ex, l1) := Expand(table, active + [t.spell], Paint(t.spell, table[t.spell]), lim);
        LiveConcat(table, ex, rest);
        if OpenParens(ex) > 0 then
          var (re, l2) := Expand(table, active, ex + rest, l1);
          Emit(re, l2)
        else
          var (e, l2) := Emit(ex, l1);
          var (o, l3) := Expand(table, active, rest, l2);
          (e + o, l3)
  }

  /** macro_expand: a whole token list, with fresh limits and nothing being expanded. */
  function ExpandAll(table: Table, input: seq<Tok>): (seq<Tok>, Limits) {
    Expand(table, [], input, Limits(0, false))
  }

  // ---- a second expansion ----

  predicate SameSpelling(a: seq<Tok>, b: seq<Tok>) {
    |a| == |b| && forall i :: 0 <= i < |a| ==> a[i].(hide := false) == b[i].(hide := false)
  }

  predicate NoDefined(s: seq<Tok>) { forall i :: 0 <= i < |s| && s[i].kind == Ident ==> s[i].spell != "defined" }

  lemma MarkKeeps(table: Table, s: seq<Tok>)
    ensures SameSpelling(MarkDefined(s), s)
    ensures AllInert(table, s) ==> AllInert(table, MarkDefined(s))
  {}

  /** Expanding an inert list changes no spelling and counts nothing; without `defined` it
      changes nothing at all. */
  lemma {:induction false} ExpandInert(table: Table, active: seq<string>, s: seq<Tok>, lim: Limits)
    requires AllInert(table, s) && (forall a | a in active :: Expandable(table, a))
    ensures Expand(table, active, s, lim).1 == lim
    ensures SameSpelling(Expand(table, active, s, lim).0, s)
    ensures NoDefined(s) ==> Expand(table, active, s, lim).0 == s
    decreases |s|
  {
    hide MarkDefined, Paint, Emit, OpenParens;
    if s != [] && !lim.breached {
      var rest := s[1..];
      MarkKeeps(table, rest);
      ExpandInert(table, active, rest, lim);
      ExpandInert(table, active, MarkDefined(rest), lim);
      assert s == [s[0]] + rest;
    }
  }

  /** macro_expand is idempotent: when no limit is breached, expanding its output again changes no
      spelling, and no token at all unless `defined` occurs in it. */
  lemma ExpandAllTwice(table: Table, input: seq<Tok>)
    requires !ExpandAll(table, input).1.breached
    ensures var (o, _) := ExpandAll(table, input);
            var (o2, l2) := ExpandAll(table, o);
            !l2.breached && SameSpelling(o2, o) && (NoDefined(o) ==> o2 == o)
  {
    ExpandInert(table, [], ExpandAll(table, input).0, Limits(0, false));
  }

  // ---- the rescans and the limits leave no trace ----

  /** The rule of C11 6.10.3.4 with a stack for the names being expanded: no limits, no second
      rescan. */
  function Rule(table: Table, active: seq<string>, input: seq<Tok>): seq<Tok>
    decreases Avail(table, active), |input|
  {
    if input == [] then []
    else RuleTok(table, active, input[0]) + Rule(table, active, input[1..])
  }

  function RuleTok(table: Table, active: seq<string>, t: Tok): seq<Tok>
    decreases Avail(table, active), 0
  {
    if t.kind != Ident || t.hide then [t]
    else if t.spell in active then [t.(hide := true)]
    else if !Expandable(table, t.spell) then [t]
    else
      AvailShrinks(table, active, t.spell);
      Rule(table, active + [t.spell], Paint(t.spell, table[t.spell]))
  }

  lemma {:induction false} RuleConcat(table: Table, active: seq<string>, a: seq<Tok>, b: seq<Tok>)
    ensures Rule(table, active, a + b) == Rule(table, active, a) + Rule(table, active, b)
  {
    if a == [] {
      assert a + b == b;
    } else {
      assert (a + b)[1..] == a[1..] + b;
      RuleConcat(table, active, a[1..], b);
    }
  }

  lemma {:induction false} RuleInert(table: Table, active: seq<string>, s: seq<Tok>)
    requires AllInert(table, s) && (forall a | a in active :: Expandable(table, a))
    ensures Rule(table, active, s) == s
  {
    if s != [] {
      RuleInert(table, active, s[1..]);
    }
  }

  predicate NoDefinedIn(table: Table) { forall name | name in table :: NoDefined(table[name]) }

  lemma {:induction false} RuleNoDefined(table: Table, active: seq<string>, input: seq<Tok>)
    requires NoDefinedIn(table) && NoDefined(input)
    ensures NoDefined(Rule(table, active, input))
    decreases Avail(table, active), |input|
  {
    if input != [] {
      var t := input[0];
      if t.kind == Ident && !t.hide && t.spell !in active && Expandable(table, t.spell) {
        AvailShrinks(table, active, t.spell);
        RuleNoDefined(table, active + [t.spell], Paint(t.spell, table[t.spell]));
      }
      RuleNoDefined(table, active, input[1..]);
    }
  }

  /** Without `defined`, and as long as no limit is breached, the expander is the rule: its
      second rescan changes nothing. */
  lemma {:induction false} ExpandIsRule(table: Table, active: seq<string>, input: seq<Tok>, lim: Limits)
    requires NoDefinedIn(table) && NoDefined(input) && (forall a | a in active :: Expandable(table, a))
    requires !Expand(table, active, input, lim).1.breached
    ensures Expand(table, active, input, lim).0 == Rule(table, active, input)
    decreases Avail(table, active), Work(table, input, lim), |input|
  {
    if input != [] {
      var (t, rest) := (input[0], input[1..]);
      if t.kind != Ident || t.hide || t.spell in active || !Expandable(table, t.spell) {
        ExpandIsRule(table, active, rest, lim);
      } else {
        ExpandMacro(table, active, input, lim);
      }
    }
  }

  lemma {:induction false} ExpandMacro(table: Table, active: seq<string>, input: seq<Tok>, lim: Limits)
    requires NoDefinedIn(table) && NoDefined(input) && (forall a | a in active :: Expandable(table, a))
    requires input != [] && input[0].kind == Ident && !input[0].hide
    requires input[0].spell !in active && Expandable(table, input[0].spell)
    requires !Expand(table, active, input, lim).1.breached
    ensures Expand(table, active, input, lim).0 == Rule(table, active, input)
    decreases Avail(table, active), Work(table, input, lim), |input|, 0
  {
    var (t, rest) := (input[0], input[1..]);
    AvailShrinks(table, active, t.spell);
    var (active1, body) := (active + [t.spell], Paint(t.spell, table[t.spell]));
    var (ex, l1) := Expand(table, active1, body, lim);
    LiveConcat(table, ex, rest);
    if OpenParens(ex) > 0 {
      assert !l1.breached;
      ExpandIsRule(table, active1, body, lim);
      RuleNoDefined(table, active1, body);
      ExpandIsRule(table, active, ex + rest, l1);
      RuleConcat(table, active, ex, rest);
      RuleInert(table, active, ex);
    } else {
      ExpandIsRule(table, active1, body, lim);
      ExpandIsRule(table, active, rest, Emit(ex, l1).1);
    }
  }

  // ---- the operand of `defined`, and parentheses left open ----

  /** Tokens that are never replaced, in front of others. */
  lemma {:induction false} ExpandPast(table: Table, active: seq<string>, a: seq<Tok>, b: seq<Tok>, lim: Limits)
    requires !lim.breached && forall i :: 0 <= i < |a| ==> a[i].kind != Ident || a[i].hide
    ensures Expand(table, active, a + b, lim) == (a + Expand(table, active, b, lim).0, Expand(table, active, b, lim).1)
  {
    if a == [] {
      assert a + b == b && a + Expand(table, active, b, lim).0 == Expand(table, active, b, lim).0;
    } else {
      assert (a + b)[0] == a[0] && (a + b)[1..] == a[1..] + b;
      ExpandPast(table, active, a[1..], b, lim);
      assert [a[0]] + (a[1..] + Expand(table, active, b, lim).0) == a + Expand(table, active, b, lim).0;
    }
  }

  lemma {:induction false} SkipsSpaces(s: seq<Tok>, i: nat, n: nat)
    requires i + n <= |s| && (forall j :: i <= j < i + n ==> s[j].kind == Space)
    requires i + n < |s| ==> s[i + n].kind != Space
    ensures SkipSpaces(s, i) == i + n
    decreases n
  {
    if n > 0 { SkipsSpaces(s, i + 1, n - 1); }
  }

  /** The name behind `defined`, with or without a parenthesis and with spaces around it, is not
      replaced, whatever macros there are. */
  lemma DefinedKept(table: Table, d: Tok, pre: seq<Tok>, name: Tok, rest: seq<Tok>, lim: Limits)
    requires !lim.breached && "defined" !in table && d == Tok(Ident, "defined", false) && name.kind == Ident
    requires BeforeOperand(pre)
    ensures Expand(table, [], [d] + (pre + ([name] + rest)), lim).0 ==
              [d] + (pre + ([name.(hide := true)] + Expand(table, [], rest, lim).0))
  {
    hide MarkDefined, BeforeOperand;
    var hidden := name.(hide := true);
    DefinedStep(table, d, pre + ([name] + rest), lim);
    OperandMarked(pre, name, rest);
    NoNames(pre);
    ExpandPast(table, [], pre, [hidden] + rest, lim);
    ExpandPast(table, [], [hidden], rest, lim);
  }

  lemma DefinedStep(table: Table, d: Tok, tail: seq<Tok>, lim: Limits)
    requires !lim.breached && "defined" !in table && d == Tok(Ident, "defined", false)
    ensures Expand(table, [], [d] + tail, lim).0 == [d] + Expand(table, [], MarkDefined(tail), lim).0
  {
    hide MarkDefined;
    assert ([d] + tail)[1..] == tail;
  }

  predicate AllSpaces(s: seq<Tok>) { forall i :: 0 <= i < |s| ==> s[i].kind == Space }

  /** Spaces, with at most one opening parenthesis among them. */
  predicate BeforeOperand(pre: seq<Tok>) {
    AllSpaces(pre) || exists i :: 0 <= i < |pre| && OpensAt(pre, i)
  }

  predicate OpensAt(pre: seq<Tok>, i: nat) {
    i < |pre| && pre[i].kind == LParen && forall j :: 0 <= j < |pre| && j != i ==> pre[j].kind == Space
  }

  lemma NoNames(pre: seq<Tok>)
    requires BeforeOperand(pre)
    ensures forall i :: 0 <= i < |pre| ==> pre[i].kind != Ident
  {}

  lemma OperandMarked(pre: seq<Tok>, name: Tok, rest: seq<Tok>)
    requires BeforeOperand(pre) && name.kind == Ident
    ensures MarkDefined(pre + ([name] + rest)) == pre + ([name.(hide := true)] + rest)
  {
    hide DefinedOperand, BeforeOperand;
    OperandIs(pre, pre + ([name] + rest));
  }

  lemma OperandIs(pre: seq<Tok>, tail: seq<Tok>)
    requires BeforeOperand(pre) && |pre| < |tail| && tail[..|pre|] == pre && tail[|pre|].kind == Ident
    ensures DefinedOperand(tail) == |pre|
  {
    hide SkipSpaces;
    assert forall j :: 0 <= j < |pre| ==> tail[j] == tail[..|pre|][j];
    if AllSpaces(pre) {
      SkipsSpaces(tail, 0, |pre|);
    } else {
      var i :| 0 <= i < |pre| && OpensAt(pre, i);
      SkipsSpaces(tail, 0, i);
      SkipsSpaces(tail, i + 1, |pre| - i - 1);
    }
  }

  /** Opening less closing parentheses. */
  function Balance(s: seq<Tok>): int {
    if s == [] then 0
    else Balance(s[..|s| - 1]) + (if s[|s| - 1].kind == LParen then 1 else if s[|s| - 1].kind == RParen then -1 else 0)
  }

  /** The parentheses left open are the largest surplus of opening ones from any place on. */
  lemma {:induction false} OpenParensExact(s: seq<Tok>)
    ensures forall i :: 0 <= i <= |s| ==> Balance(s[i..]) <= OpenParens(s)
    ensures exists i :: 0 <= i <= |s| && Balance(s[i..]) == OpenParens(s)
  {
    if s == [] {
      assert Balance(s[0..]) == 0;
    } else {
      var init := s[..|s| - 1];
      OpenParensExact(init);
      forall i | 0 <= i < |s| ensures Balance(s[i..]) == Balance(init[i..]) + Balance([s[|s| - 1]]) {
        assert s[i..][..|s[i..]| - 1] == init[i..] && [s[|s| - 1]][..0] == [];
      }
      assert Balance(s[|s|..]) == 0;
      var k :| 0 <= k <= |init| && Balance(init[k..]) == OpenParens(init);
      assert Balance(s[k..]) == OpenParens(s) || Balance(s[|s|..]) == OpenParens(s);
    }
  }
}
