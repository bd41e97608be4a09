/** The expander as it runs: one table object whose active-expansion stack, token counter and
    breach flag change while token lists are built. */
module MacroMachine {
  import opened MacroExpand

  predicate NoDup(s: seq<string>) { forall i, j :: 0 <= i < j < |s| ==> s[i] != s[j] }

  /** Output already made, followed by the result r. */
  function Prepend(p: seq<Tok>, r: (seq<Tok>, Limits)): (seq<Tok>, Limits) { (p + r.0, r.1) }

  lemma PrependAssoc(p: seq<Tok>, q: seq<Tok>, r: (seq<Tok>, Limits))
    ensures Prepend(p + q, r) == Prepend(p, (q + r.0, r.1))
  {
    assert p + q + r.0 == p + (q + r.0);
  }

  lemma PrependUnit(p: seq<Tok>, r: (seq<Tok>, Limits))
    ensures Prepend([], r) == r && Prepend(p, ([], r.1)) == (p, r.1)
  {
    assert [] + r.0 == r.0 && p + [] == p;
  }

  class Expander {
    var table: Table
    var active: seq<string>
    var expandTokens: nat
    var limitsBreached: bool

    /** The stack holds distinct macro names, at most as many as the depth limit. */
    ghost predicate Valid()
      reads this
    {
      && NoDup(active) && |active| <= MAX_EXPAND_DEPTH
      && (forall a | a in active :: Expandable(table, a))
    }

    ghost function Lims(): Limits
      reads this
    {
      Limits(expandTokens, limitsBreached)
    }

    constructor (table: Table)
      ensures Valid() && this.table == table && active == []
    {
      this.table := table;
      active, expandTokens, limitsBreached := [], 0, false;
    }

    method ActiveContains(name: string) returns (b: bool)
      ensures b <==> name in active
    {
      var i := 0;
      while i < |active|
        invariant i <= |active| && name !in active[..i]
      {
        if active[i] == name { return true; }
        i := i + 1;
      }
      return false;
    }

    method ActivePush(name: string)
      modifies this`active
      ensures active == old(active) + [name]
    {
      active := active + [name];
    }

    /** Removes the topmost occurrence of a name. */
    method ActivePop(name: string)
      modifies this`active
      ensures name !in old(active) ==> active == old(active)
      ensures forall s :: old(active) == s + [name] ==> active == s
      ensures name in old(active) ==>
                (exists i :: 0 <= i < |old(active)| && old(active)[i] == name && name !in old(active)[i + 1..] &&
                             active == old(active)[..i] + old(active)[i + 1..])
    {
      var i := |active|;
      while i > 0
        invariant 0 <= i <= |active| && active == old(active) && name !in active[i..]
      {
        i := i - 1;
        if active[i] == name {
          assert i < |active| - 1 ==> active[|active| - 1] in active[i + 1..];
          active := active[..i] + active[i + 1..];
          return;
        }
      }
    }

    /** False, and the flag set, when one more name would exceed the depth limit. */
    method CheckDepth() returns (ok: bool)
      modifies this`limitsBreached
      ensures ok <==> |active| + 1 <= MAX_EXPAND_DEPTH
      ensures limitsBreached == (old(limitsBreached) || !ok)
    {
      ok := |active| + 1 <= MAX_EXPAND_DEPTH;
      if !ok { limitsBreached := true; }
    }

    /** Does an expansion leave parentheses open? (No macro of the table is function-like.) */
    static method NeedsCombinedRescan(expanded: seq<Tok>) returns (b: bool)
      ensures b <==> OpenParens(expanded) > 0
    {
      var depth, i := 0, 0;
      while i < |expanded|
        invariant i <= |expanded| && depth == OpenParens(expanded[..i])
      {
        assert expanded[..i + 1][..i] == expanded[..i];
        var t := expanded[i];
        if t.kind == LParen { depth := depth + 1; } else if t.kind == RParen && depth > 0 { depth := depth - 1; }
        i := i + 1;
      }
      assert expanded[..i] == expanded;
      b := depth > 0;
    }

    method EmitExpanded(expanded: seq<Tok>, output: seq<Tok>) returns (out: seq<Tok>)
      modifies this`expandTokens, this`limitsBreached
      ensures (out, Lims()) == Prepend(output, Emit(expanded, old(Lims())))
    {
      out := output;
      var i := 0;
      assert expanded[0..] == expanded;
      while i < |expanded|
        invariant i <= |expanded|
        invariant Prepend(out, Emit(expanded[i..], Lims())) == Prepend(output, Emit(expanded, old(Lims())))
      {
        if expandTokens > MAX_EXPAND_TOKENS {
          limitsBreached := true;
          PrependUnit(out, ([], Lims()));
          return;
        }
        assert expanded[i..][1..] == expanded[i + 1..];
        PrependAssoc(out, [expanded[i]], Emit(expanded[i + 1..], Limits(expandTokens + 1, limitsBreached)));
        expandTokens := expandTokens + 1;
        out := out + [expanded[i]];
        i := i + 1;
      }
      PrependUnit(out, ([], Lims()));
    }

    /** expand_list: whatever is being expanded, the result is the one of Expand, and the stack is
        on return what it was on entry. */
    method ExpandList(input: seq<Tok>) returns (output: seq<Tok>)
      requires Valid()
      modifies this
      ensures Valid() && table == old(table) && active == old(active)
      ensures (output, Lims()) == Expand(table, active, input, old(Lims()))
      ensures !limitsBreached ==> AllInert(table, output)
      decreases Avail(table, active), Work(table, input, Lims()), |input|, 1
    {
      hide Emit, MarkDefined, OpenParens, Paint, Live;
      output := [];
      var toks := input;
      ghost var goal := Expand(table, active, input, Lims());
      PrependUnit([], goal);
      while toks != []
        invariant Valid() && table == old(table) && active == old(active)
        invariant |toks| <= |input| && Work(table, toks, Lims()) <= Work(table, input, old(Lims()))
        invariant Prepend(output, Expand(table, active, toks, Lims())) == goal
        decreases |toks|
      {
        var t, rest := toks[0], toks[1..];
        assert toks == [t] + rest;
        LiveCons(table, t, rest);
        ghost var here := output;
        if t.kind != Ident || limitsBreached || t.hide {
          output, toks := output + [t], rest;
          PrependAssoc(here, [t], Expand(table, active, toks, Lims()));
          continue;
        }
        var isActive := ActiveContains(t.spell);
        if isActive {
          output, toks := output + [t.(hide := true)], rest;
          PrependAssoc(here, [t.(hide := true)], Expand(table, active, toks, Lims()));
          continue;
        }
        if t.spell !in table || t.spell in NULLABILITY {
          LiveMark(table, rest);
          toks := if t.spell !in table && t.spell == "defined" then MarkDefined(rest) else rest;
          output := output + [t];
          PrependAssoc(here, [t], Expand(table, active, toks, Lims()));
          continue;
        }
        var ok := CheckDepth();
        if !ok {
          output, toks := output + [t], rest;
          PrependAssoc(here, [t], Expand(table, active, toks, Lims()));
          continue;
        }
        var piece, consumed := ExpandObject(t, rest);
        output := output + piece;
        if consumed { return; }
        toks := rest;
        PrependAssoc(here, piece, Expand(table, active, toks, Lims()));
      }
      PrependUnit(output, ([], Lims()));
    }

    /** One object-like macro: its expansion, or, when that leaves parentheses open, the expansion
        of it together with the whole rest of the input. */
    method ExpandObject(t: Tok, rest: seq<Tok>) returns (piece: seq<Tok>, consumed: bool)
      requires Valid() && t.kind == Ident && !t.hide && t.spell !in active && Expandable(table, t.spell)
      requires !limitsBreached && |active| + 1 <= MAX_EXPAND_DEPTH
      modifies this
      ensures Valid() && table == old(table) && active == old(active)
      ensures Expand(table, active, [t] + rest, old(Lims())) ==
                if consumed then (piece, Lims()) else Prepend(piece, Expand(table, active, rest, Lims()))
      decreases Avail(table, active), Work(table, [t] + rest, Lims()), |[t] + rest|, 0
    {
      hide Emit, MarkDefined, OpenParens, Paint, Live;
      var body := Paint(t.spell, table[t.spell]);
      AvailShrinks(table, active, t.spell);
      ActivePush(t.spell);
      var expanded := ExpandList(body);
      ActivePop(t.spell);
      assert active == old(active) && ([t] + rest)[1..] == rest;
      LiveConcat(table, expanded, rest);
      LiveCons(table, t, rest);
      consumed := NeedsCombinedRescan(expanded);
      if consumed {
        var rescanned := ExpandList(expanded + rest);
        PrependUnit([], Emit(rescanned, Lims()));
        piece := EmitExpanded(rescanned, []);
      } else {
        PrependUnit([], Emit(expanded, Lims()));
        piece := EmitExpanded(expanded, []);
      }
    }

    /** macro_expand: resets the limits and the stack. */
    method ExpandTokens(input: seq<Tok>) returns (output: seq<Tok>)
      modifies this
      ensures Valid() && table == old(table) && active == []
      ensures (output, Lims()) == ExpandAll(table, input)
    {
      expandTokens, limitsBreached, active := 0, false, [];
      output := ExpandList(input);
    }
  }
}
