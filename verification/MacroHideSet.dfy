/** The per-token hide-set algorithm that expand_list cites, on object-like macros, and the proof
    that stack and paint spell the same expansion. */
module MacroHideSet {
  import opened MacroExpand
  import opened MacroLimits

  /** A token with the names that must not be expanded at it. */
  datatype HTok = HTok(kind: Kind, spell: string, hs: set<string>)

  function HsAdd(hs: set<string>, s: seq<Tok>): (r: seq<HTok>)
    ensures |r| == |s| && forall i :: 0 <= i < |s| ==> r[i] == HTok(s[i].kind, s[i].spell, hs)
  {
    seq(|s|, i requires 0 <= i < |s| => HTok(s[i].kind, s[i].spell, hs))
  }

  /** One more than the length of the longest replacement list. */
  ghost function Width(table: Table): (w: nat)
    ensures w > 0 && forall n | n in table :: |table[n]| < w
  {
    if table == map[] then 1
    else
      var n :| n in table;
      var rest := table - {n};
      assert rest.Keys < table.Keys;
      var w := Width(rest);
      assert forall m | m in table :: m == n || m in rest;
      if |table[n]| < w then w else |table[n]| + 1
  }

  function Power(b: nat, e: nat): (p: nat)
    ensures b > 0 ==> p > 0
  {
    if e == 0 then 1 else b * Power(b, e - 1)
  }

  /** How much expansion is left in a token: it shrinks when the token is replaced by a list of
      tokens that may expand one name less. */
  ghost function Weight(table: Table, ts: seq<HTok>): nat {
    if ts == [] then 0 else Power(Width(table), |table.Keys - ts[0].hs|) + Weight(table, ts[1..])
  }

  lemma {:induction false} WeightConcat(table: Table, a: seq<HTok>, b: seq<HTok>)
    ensures Weight(table, a + b) == Weight(table, a) + Weight(table, b)
  {
    if a == [] {
      assert a + b == b;
    } else {
      assert (a + b)[1..] == a[1..] + b;
      WeightConcat(table, a[1..], b);
    }
  }

  lemma OneMore(k: nat, p: nat)
    ensures (k + 1) * p == p + k * p
  {}

  lemma {:induction false} WeightUniform(table: Table, hs: set<string>, s: seq<Tok>)
    ensures Weight(table, HsAdd(hs, s)) == |s| * Power(Width(table), |table.Keys - hs|)
  {
    if s != [] {
      assert HsAdd(hs, s)[1..] == HsAdd(hs, s[1..]);
      WeightUniform(table, hs, s[1..]);
      OneMore(|s| - 1, Power(Width(table), |table.Keys - hs|));
    }
  }

  lemma ReplacementIsLighter(table: Table, t: HTok, rest: seq<HTok>)
    requires t.spell in table && t.spell !in t.hs
    ensures Weight(table, HsAdd(t.hs + {t.spell}, table[t.spell]) + rest) < Weight(table, [t] + rest)
  {
    var (hs, body, w) := (t.hs + {t.spell}, table[t.spell], Width(table));
    WeightConcat(table, HsAdd(hs, body), rest);
    WeightUniform(table, hs, body);
    assert table.Keys - t.hs == (table.Keys - hs) + {t.spell};
    var p := Power(w, |table.Keys - hs|);
    assert Power(w, |table.Keys - t.hs|) == w * p;
    MulLess(|body|, w, p);
    assert ([t] + rest)[1..] == rest;
  }

  lemma MulLess(a: nat, b: nat, p: nat)
    requires a < b && p > 0
    ensures a * p < b * p
  {
    assert b * p == a * p + (b - a) * p;
  }

  /** expand(TS): a token in its own hide set stays; a macro is replaced by its list, every token
      of which carries the macro's hide set and its name, and the result is expanded together with
      the rest of the input. */
  ghost function HsExpand(table: Table, ts: seq<HTok>): seq<HTok>
    decreases Weight(table, ts), |ts|
  {
    if ts == [] then []
    else
      var (t, rest) := (ts[0], ts[1..]);
      assert ts == [t] + rest;
      if t.kind == Ident && t.spell in table && t.spell !in t.hs then
        ReplacementIsLighter(table, t, rest);
        HsExpand(table, HsAdd(t.hs + {t.spell}, table[t.spell]) + rest)
      else
        [t] + HsExpand(table, rest)
  }

  lemma SeqAssoc<T>(a: seq<T>, b: seq<T>, c: seq<T>)
    ensures (a + b) + c == a + (b + c)
  {}

  lemma {:induction false} HsExpandConcat(table: Table, a: seq<HTok>, b: seq<HTok>)
    ensures HsExpand(table, a + b) == HsExpand(table, a) + HsExpand(table, b)
    decreases Weight(table, a), |a|
  {
    if a == [] {
      assert a + b == b;
    } else {
      var (t, rest) := (a[0], a[1..]);
      assert (a + b)[1..] == rest + b && a == [t] + rest;
      if t.kind == Ident && t.spell in table && t.spell !in t.hs {
        ReplacementIsLighter(table, t, rest);
        var body := HsAdd(t.hs + {t.spell}, table[t.spell]);
        HsExpandConcat(table, body + rest, b);
        SeqAssoc(body, rest, b);
      } else {
        HsExpandConcat(table, rest, b);
        SeqAssoc([t], HsExpand(table, rest), HsExpand(table, b));
      }
    }
  }

  /** The spellings of an expansion. */
  function Spell(s: seq<Tok>): (r: seq<(Kind, string)>)
    ensures |r| == |s|
  {
    seq(|s|, i requires 0 <= i < |s| => (s[i].kind, s[i].spell))
  }

  ghost function HSpell(s: seq<HTok>): (r: seq<(Kind, string)>)
    ensures |r| == |s|
  {
    seq(|s|, i requires 0 <= i < |s| => (s[i].kind, s[i].spell))
  }

  lemma SpellConcat(a: seq<Tok>, b: seq<Tok>, c: seq<HTok>, d: seq<HTok>)
    ensures Spell(a + b) == Spell(a) + Spell(b) && HSpell(c + d) == HSpell(c) + HSpell(d)
  {}

  function Names(active: seq<string>): set<string> { set a | a in active }

  /** Painted tokens carry the name of a macro being expanded. */
  predicate PaintOK(active: seq<string>, s: seq<Tok>) {
    forall i :: 0 <= i < |s| && s[i].kind == Ident && s[i].hide ==> s[i].spell in active
  }

  predicate Unpainted(s: seq<Tok>) { forall i :: 0 <= i < |s| ==> !s[i].hide }

  predicate FreshTable(table: Table) { forall n | n in table :: Unpainted(table[n]) }

  /** The code never expands the three nullability keywords: it works as if no macro had these names. */
  function Plain(table: Table): Table { table - {"_Nullable", "_Nonnull", "_Null_unspecified"} }

  /** With the active names as everybody's hide set, the rule and the algorithm agree. */
  lemma {:induction false} RuleIsHideSet(table: Table, active: seq<string>, input: seq<Tok>)
    requires FreshTable(table) && PaintOK(active, input)
    ensures Spell(Rule(table, active, input)) == HSpell(HsExpand(Plain(table), HsAdd(Names(active), input)))
    decreases Avail(table, active), |input|
  {
    if input != [] {
      var (t, rest, hs) := (input[0], input[1..], Names(active));
      var ts := HsAdd(hs, input);
      assert ts == [ts[0]] + HsAdd(hs, rest);
      RuleIsHideSet(table, active, rest);
      SpellConcat(RuleTok(table, active, t), Rule(table, active, rest), [ts[0]], HsExpand(Plain(table), HsAdd(hs, rest)));
      if t.kind == Ident && Expandable(table, t.spell) && t.spell !in active {
        AvailShrinks(table, active, t.spell);
        var body := Paint(t.spell, table[t.spell]);
        RuleIsHideSet(table, active + [t.spell], body);
        var h := HsAdd(hs + {t.spell}, table[t.spell]);
        assert h == HsAdd(Names(active + [t.spell]), body) by {
          assert Names(active + [t.spell]) == hs + {t.spell};
        }
        HsExpandConcat(Plain(table), h, HsAdd(hs, rest));
        SpellConcat([], [], HsExpand(Plain(table), h), HsExpand(Plain(table), HsAdd(hs, rest)));
        assert ts[1..] == HsAdd(hs, rest);
      } else {
        assert ts[1..] == HsAdd(hs, rest);
      }
    }
  }

  /** The expander spells what the hide-set algorithm spells, for every object-like table, cyclic
      or not, when the expansion nests no deeper than 200 macros and copies no more than 5000001
      tokens, and `defined` does not occur. */
  lemma ExpanderIsHideSet(table: Table, input: seq<Tok>)
    requires FreshTable(table) && NoDefinedIn(table) && Unpainted(input) && NoDefined(input)
    requires Depth(table, [], input) <= 200 && Copied(table, [], input) <= 5000001
    ensures Spell(ExpandAll(table, input).0) == HSpell(HsExpand(Plain(table), HsAdd({}, input)))
  {
    LimitsExact(table, input);
    ExpandIsRule(table, [], input, Limits(0, false));
    RuleIsHideSet(table, [], input);
    assert Names([]) == {};
  }
}
