/** When the expander gives up: how deep the expansion of a text goes and how many tokens it copies,
    counted over the rule alone, and the limits of 200 and 5000000. */
module MacroLimits {
  import opened MacroExpand

  function Max(a: nat, b: nat): nat { if a < b then b else a }

  /** A token that is replaced, with the names in `active` being expanded. */
  predicate Replaced(table: Table, active: seq<string>, t: Tok) {
    t.kind == Ident && !t.hide && t.spell !in active && Expandable(table, t.spell)
  }

  /** How many macros are being expanded inside each other at most. */
  function Depth(table: Table, active: seq<string>, input: seq<Tok>): nat
    decreases Avail(table, active), |input|
  {
    if input == [] then 0 else Max(DepthOf(table, active, input[0]), Depth(table, active, input[1..]))
  }

  function DepthOf(table: Table, active: seq<string>, t: Tok): nat
    decreases Avail(table, active), 0
  {
    if !Replaced(table, active, t) then 0
    else
      AvailShrinks(table, active, t.spell);
      1 + Depth(table, active + [t.spell], Paint(t.spell, table[t.spell]))
  }

  /** How many tokens are copied: each expansion once where it stands, and where it leaves parentheses
      open what follows it once more. */
  function Copied(table: Table, active: seq<string>, input: seq<Tok>): nat
    decreases Avail(table, active), |input|
  {
    if input == [] then 0
    else if !Replaced(table, active, input[0]) then Copied(table, active, input[1..])
    else
      var (t, rest) := (input[0], input[1..]);
      AvailShrinks(table, active, t.spell);
      var ex := RuleTok(table, active, t);
      Copied(table, active + [t.spell], Paint(t.spell, table[t.spell])) + |ex| + Copied(table, active, rest)
      + (if OpenParens(ex) > 0 then |Rule(table, active, rest)| else 0)
  }

  /** Copying stops, and the flag is set, where one more token would be the 5000002nd. */
  lemma {:induction false} EmitExact(s: seq<Tok>, lim: Limits)
    requires !lim.breached && lim.tokens <= 5000001
    ensures Emit(s, lim).1.breached <==> lim.tokens + |s| > 5000001
    ensures Emit(s, lim).0 == if lim.tokens + |s| > 5000001 then s[..5000001 - lim.tokens] else s
    decreases |s|
  {
    if s != [] && lim.tokens <= 5000000 {
      EmitExact(s[1..], lim.(tokens := lim.tokens + 1));
    }
  }

  /** What is inert is neither replaced nor counted. */
  lemma {:induction false} InertPrefix(table: Table, active: seq<string>, a: seq<Tok>, b: seq<Tok>)
    requires AllInert(table, a)
    ensures Depth(table, active, a + b) == Depth(table, active, b) && Copied(table, active, a + b) == Copied(table, active, b)
  {
    if a == [] {
      assert a + b == b;
    } else {
      assert (a + b)[0] == a[0] && (a + b)[1..] == a[1..] + b;
      InertPrefix(table, active, a[1..], b);
    }
  }

  /** A breach is for good. */
  lemma BreachStays(table: Table, active: seq<string>, s: seq<Tok>, t: seq<Tok>, lim: Limits)
    requires lim.breached
    ensures Expand(table, active, s, lim).1.breached && Emit(t, lim).1.breached
  {}

  /** A macro that would be the 201st is passed through, and with it all that follows. */
  lemma TooDeep(table: Table, active: seq<string>, input: seq<Tok>, lim: Limits)
    requires |active| == 200 && input != [] && Replaced(table, active, input[0]) && !lim.breached
    ensures Expand(table, active, input, lim) == (input, lim.(breached := true))
  {
    assert input == [input[0]] + input[1..];
  }

  predicate Within(table: Table, active: seq<string>, input: seq<Tok>, lim: Limits) {
    (Depth(table, active, input) > 0 ==> |active| + Depth(table, active, input) <= 200)
    && lim.tokens + Copied(table, active, input) <= 5000001
  }

  // ---- one token ----

  lemma StepPlain(table: Table, active: seq<string>, input: seq<Tok>, lim: Limits)
    requires input != [] && !lim.breached && !Replaced(table, active, input[0]) && NoDefined(input)
    ensures Expand(table, active, input, lim).1 == Expand(table, active, input[1..], lim).1
    ensures Within(table, active, input, lim) == Within(table, active, input[1..], lim)
    ensures Copied(table, active, input) == Copied(table, active, input[1..])
    ensures Work(table, input[1..], lim) <= Work(table, input, lim) && NoDefined(input[1..])
  {
    LiveCons(table, input[0], input[1..]);
    assert input == [input[0]] + input[1..];
    assert DepthOf(table, active, input[0]) == 0;
  }

  lemma StepOver(table: Table, active: seq<string>, input: seq<Tok>, lim: Limits)
    requires input != [] && !lim.breached && Replaced(table, active, input[0]) && |active| + 1 > MAX_EXPAND_DEPTH
    ensures Expand(table, active, input, lim).1.breached && !Within(table, active, input, lim)
  {
    BreachStays(table, active, input[1..], [], lim.(breached := true));
    assert DepthOf(table, active, input[0]) > 0;
  }

  /** What a replaced token adds. */
  lemma StepCounts(table: Table, active: seq<string>, input: seq<Tok>, lim: Limits)
    requires input != [] && Replaced(table, active, input[0]) && |active| + 1 <= 200
    ensures var (active1, body) := (active + [input[0].spell], Paint(input[0].spell, table[input[0].spell]));
            var (ex, rest) := (Rule(table, active1, body), input[1..]);
            Copied(table, active, input) == Copied(table, active1, body) + |ex| + Copied(table, active, rest)
                                            + (if OpenParens(ex) > 0 then |Rule(table, active, rest)| else 0)
            && Depth(table, active, input) == Max(1 + Depth(table, active1, body), Depth(table, active, rest))
  {
    AvailShrinks(table, active, input[0].spell);
    assert RuleTok(table, active, input[0]) == Rule(table, active + [input[0].spell], Paint(input[0].spell, table[input[0].spell]));
  }

  lemma StepReplaced(table: Table, active: seq<string>, input: seq<Tok>, lim: Limits)
    requires input != [] && !lim.breached && Replaced(table, active, input[0]) && |active| + 1 <= MAX_EXPAND_DEPTH
    ensures var (active1, body) := (active + [input[0].spell], Paint(input[0].spell, table[input[0].spell]));
            var ((ex, l1), rest) := (Expand(table, active1, body, lim), input[1..]);
            Expand(table, active, input, lim).1 ==
              if OpenParens(ex) > 0 then var (re, l2) := Expand(table, active, ex + rest, l1); Emit(re, l2).1
              else Expand(table, active, rest, Emit(ex, l1).1).1
  {
    hide Emit, OpenParens, Paint;
  }

  lemma StepLess(table: Table, active: seq<string>, input: seq<Tok>, lim: Limits, ex: seq<Tok>, l: Limits)
    requires input != [] && !lim.breached && Replaced(table, active, input[0]) && AllInert(table, ex)
    ensures Avail(table, active + [input[0].spell]) < Avail(table, active)
    ensures !l.breached ==> Work(table, ex + input[1..], l) < Work(table, input, lim) && Work(table, input[1..], l) < Work(table, input, lim)
  {
    AvailShrinks(table, active, input[0].spell);
    LiveConcat(table, ex, input[1..]);
    LiveCons(table, input[0], input[1..]);
    assert input == [input[0]] + input[1..];
  }

  /** A limit is breached exactly when the expansion nests deeper or copies more, and otherwise the
      counter has counted what is copied. */
  lemma {:induction false} BreachExact(table: Table, active: seq<string>, input: seq<Tok>, lim: Limits)
    requires NoDefinedIn(table) && NoDefined(input) && (forall a | a in active :: Expandable(table, a))
    requires !lim.breached && lim.tokens <= 5000001
    ensures var l := Expand(table, active, input, lim).1;
            (!l.breached <==> Within(table, active, input, lim))
            && (!l.breached ==> l.tokens == lim.tokens + Copied(table, active, input))
    decreases Avail(table, active), Work(table, input, lim), |input|, 2
  {
    if input != [] {
      hide Expand, Within, Copied, Depth, Work, Avail;
      if Replaced(table, active, input[0]) {
        BreachAtMacro(table, active, input, lim);
      } else {
        StepPlain(table, active, input, lim);
        BreachExact(table, active, input[1..], lim);
      }
    }
  }

  lemma {:induction false} BreachAtMacro(table: Table, active: seq<string>, input: seq<Tok>, lim: Limits)
    requires NoDefinedIn(table) && NoDefined(input) && (forall a | a in active :: Expandable(table, a))
    requires !lim.breached && lim.tokens <= 5000001 && input != [] && Replaced(table, active, input[0])
    ensures var l := Expand(table, active, input, lim).1;
            (!l.breached <==> Within(table, active, input, lim))
            && (!l.breached ==> l.tokens == lim.tokens + Copied(table, active, input))
    decreases Avail(table, active), Work(table, input, lim), |input|, 1
  {
    hide Expand, Copied, Depth, Emit, Work, Avail, Paint, OpenParens, Rule;
    if |active| + 1 > MAX_EXPAND_DEPTH {
      StepOver(table, active, input, lim);
    } else {
      var (rest, active1, body) := (input[1..], active + [input[0].spell], Paint(input[0].spell, table[input[0].spell]));
      var (ex, l1) := Expand(table, active1, body, lim);
      StepLess(table, active, input, lim, [], l1);
      StepReplaced(table, active, input, lim);
      StepCounts(table, active, input, lim);
      BreachExact(table, active1, body, lim);
      if l1.breached {
        BreachStays(table, active, ex + rest, Expand(table, active, ex + rest, l1).0, l1);
        BreachStays(table, active, rest, ex, l1);
        BreachStays(table, active, rest, [], Emit(ex, l1).1);
      } else {
        ExpandIsRule(table, active1, body, lim);
        RuleNoDefined(table, active1, body);
        AfterExpansion(table, active, input, lim, ex, l1);
      }
    }
  }

  /** The same for what follows an expansion. */
  lemma {:induction false} AfterExpansion(table: Table, active: seq<string>, input: seq<Tok>, lim: Limits, ex: seq<Tok>, l1: Limits)
    requires NoDefinedIn(table) && NoDefined(input) && NoDefined(ex) && (forall a | a in active :: Expandable(table, a))
    requires !lim.breached && input != [] && Replaced(table, active, input[0])
    requires !l1.breached && l1.tokens <= 5000001 && AllInert(table, ex)
    ensures var rest := input[1..];
            var open := OpenParens(ex) > 0;
            var l := if open then var (re, l2) := Expand(table, active, ex + rest, l1); Emit(re, l2).1
                     else Expand(table, active, rest, Emit(ex, l1).1).1;
            var more := |ex| + Copied(table, active, rest) + (if open then |Rule(table, active, rest)| else 0);
            (!l.breached <==> l1.tokens + more <= 5000001 && (Depth(table, active, rest) > 0 ==> |active| + Depth(table, active, rest) <= 200))
            && (!l.breached ==> l.tokens == l1.tokens + more)
    decreases Avail(table, active), Work(table, input, lim), |input|, 0
  {
    hide Expand, Copied, Depth, Emit, Work, Avail, OpenParens, Rule;
    var rest := input[1..];
    StepLess(table, active, input, lim, ex, l1);
    if OpenParens(ex) > 0 {
      InertPrefix(table, active, ex, rest);
      BreachExact(table, active, ex + rest, l1);
      var (re, l2) := Expand(table, active, ex + rest, l1);
      if l2.breached {
        BreachStays(table, active, rest, re, l2);
      } else {
        ExpandIsRule(table, active, ex + rest, l1);
        RuleConcat(table, active, ex, rest);
        RuleInert(table, active, ex);
        EmitExact(re, l2);
      }
    } else {
      EmitExact(ex, l1);
      var l2 := Emit(ex, l1).1;
      if l2.breached {
        BreachStays(table, active, rest, [], l2);
      } else {
        StepLess(table, active, input, lim, ex, l2);
        BreachExact(table, active, rest, l2);
      }
    }
  }

  /** A whole list breaches a limit exactly when its expansion nests deeper than 200 macros or copies more
      than 5000001 tokens: the limit is looked at before a token is counted. */
  lemma LimitsExact(table: Table, input: seq<Tok>)
    requires NoDefinedIn(table) && NoDefined(input)
    ensures ExpandAll(table, input).1.breached <==> Depth(table, [], input) > 200 || Copied(table, [], input) > 5000001
  {
    BreachExact(table, [], input, Limits(0, false));
  }

  /** The names that can be expanded. */
  function Expandables(table: Table): set<string> {
    set n | n in table && n !in {"_Nullable", "_Nonnull", "_Null_unspecified"}
  }

  function Left(table: Table, active: seq<string>): set<string> { set n | n in Expandables(table) && n !in active }

  /** An expansion nests no deeper than there are names. */
  lemma {:induction false} DepthBound(table: Table, active: seq<string>, input: seq<Tok>)
    ensures Depth(table, active, input) <= |Left(table, active)|
    decreases Avail(table, active), |input|
  {
    if input != [] {
      var t := input[0];
      DepthBound(table, active, input[1..]);
      if Replaced(table, active, t) {
        AvailShrinks(table, active, t.spell);
        DepthBound(table, active + [t.spell], Paint(t.spell, table[t.spell]));
        var (more, less) := (Left(table, active), Left(table, active + [t.spell]));
        assert t.spell in more && less == more - {t.spell};
      }
    }
  }

  /** So a table of at most 200 such names never breaches the depth limit. */
  lemma FewNames(table: Table, input: seq<Tok>)
    requires NoDefinedIn(table) && NoDefined(input) && |Expandables(table)| <= 200
    ensures ExpandAll(table, input).1.breached <==> Copied(table, [], input) > 5000001
  {
    LimitsExact(table, input);
    DepthBound(table, [], input);
    assert Left(table, []) == Expandables(table);
  }
}
