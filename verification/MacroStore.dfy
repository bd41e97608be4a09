/** The macro table: 512 chains of definitions and one list of saved ones that push_macro and
    pop_macro share for all names. */
module MacroStore {
  import opened Bits
  import opened Options

  datatype Def = Def(isFunc: bool, isVariadic: bool, params: seq<string>, body: seq<string>, loc: nat)

  datatype Entry = Entry(name: string, def: Def)

  type Chain = seq<Entry>

  datatype Frame = Frame(name: string, was: Option<Def>)

  /** The table, and the saved definitions, the latest first. */
  datatype Store = Store(buckets: seq<Chain>, saved: seq<Frame>)

  datatype Op = Define(name: string, def: Def) | Undef(name: string) | PushMacro(name: string) | PopMacro(name: string)

  const MACRO_BUCKETS: nat := 512
  const TWO32: nat := 0x1_0000_0000
  const RESERVED := {"__VA_ARGS__", "defined"}

  /** macro_hash, after the characters before `name` have given h; a character stands for a byte. */
  function HashFrom(h: nat, name: string): nat
    decreases |name|
  {
    if name == [] then h
    else HashFrom((BitOp(XOR, 32, h, name[0] as nat % 256) * 16777619) % TWO32, name[1..])
  }

  function MacroHash(name: string): nat { HashFrom(2166136261, name) }

  function Slot(name: string): (h: nat)
    ensures h < MACRO_BUCKETS
  {
    MacroHash(name) % MACRO_BUCKETS
  }

  /** The mask with which the table picks the chain is that remainder. */
  lemma SlotIsMask(name: string)
    ensures BitOp(AND, 32, MacroHash(name), MACRO_BUCKETS - 1) == Slot(name)
  {
    assert Pow2(9) == 2 * Pow2(8) == 4 * Pow2(7) == 512 by {
      assert Pow2(7) == 128;
    }
    AndMask(32, 9, MacroHash(name));
  }

  // ---- chains ----

  function Find(chain: Chain, name: string): Option<Def> {
    if chain == [] then None
    else if chain[0].name == name then Some(chain[0].def)
    else Find(chain[1..], name)
  }

  /** Replaces the definition of a name where it stands. */
  function Replace(chain: Chain, name: string, def: Def): (r: Chain)
    ensures |r| == |chain|
  {
    if chain == [] then []
    else if chain[0].name == name then [Entry(name, def)] + chain[1..]
    else [chain[0]] + Replace(chain[1..], name, def)
  }

  /** macro_define on a chain: replaces, or puts the name in front. */
  function Put(chain: Chain, name: string, def: Def): Chain {
    if Find(chain, name).Some? then Replace(chain, name, def) else [Entry(name, def)] + chain
  }

  /** macro_undef on a chain: unlinks the first entry of the name. */
  function Drop(chain: Chain, name: string): Chain {
    if chain == [] then [] else if chain[0].name == name then chain[1..] else [chain[0]] + Drop(chain[1..], name)
  }

  /** The entries of the saved list for one name. */
  function SavedOf(saved: seq<Frame>, name: string): seq<Option<Def>> {
    if saved == [] then []
    else (if saved[0].name == name then [saved[0].was] else []) + SavedOf(saved[1..], name)
  }

  /** Unlinks the first frame of a name. */
  function Unlink(saved: seq<Frame>, name: string): seq<Frame> {
    if saved == [] then []
    else if saved[0].name == name then saved[1..]
    else [saved[0]] + Unlink(saved[1..], name)
  }

  // ---- the operations ----

  function Lookup(s: Store, name: string): Option<Def>
    requires |s.buckets| == MACRO_BUCKETS
  {
    Find(s.buckets[Slot(name)], name)
  }

  function DoDefine(s: Store, name: string, def: Def): (r: Store)
    requires |s.buckets| == MACRO_BUCKETS
    ensures |r.buckets| == MACRO_BUCKETS
  {
    var h := Slot(name);
    if name in RESERVED then s else s.(buckets := s.buckets[h := Put(s.buckets[h], name, def)])
  }

  function DoUndef(s: Store, name: string): (r: Store)
    requires |s.buckets| == MACRO_BUCKETS
    ensures |r.buckets| == MACRO_BUCKETS
  {
    var h := Slot(name);
    s.(buckets := s.buckets[h := Drop(s.buckets[h], name)])
  }

  function Do(s: Store, op: Op): (r: Store)
    requires |s.buckets| == MACRO_BUCKETS
    ensures |r.buckets| == MACRO_BUCKETS
  {
    match op
    case Define(name, def) => DoDefine(s, name, def)
    case Undef(name) => DoUndef(s, name)
    case PushMacro(name) => s.(saved := [Frame(name, Lookup(s, name))] + s.saved)
    case PopMacro(name) =>
      var mine := SavedOf(s.saved, name);
      if mine == [] then s
      else
        var s1 := DoUndef(s.(saved := Unlink(s.saved, name)), name);
        if mine[0].Some? then DoDefine(s1, name, mine[0].value) else s1
  }

  function DoAll(s: Store, ops: seq<Op>): (r: Store)
    requires |s.buckets| == MACRO_BUCKETS
    ensures |r.buckets| == MACRO_BUCKETS
    decreases |ops|
  {
    if ops == [] then s else DoAll(Do(s, ops[0]), ops[1..])
  }

  // ---- one stack per name ----

  /** `defined` and `__VA_ARGS__` cannot be defined, every other name can. */
  lemma ReservedNames(s: Store, name: string, def: Def)
    requires |s.buckets| == 512
    ensures name == "defined" || name == "__VA_ARGS__" ==> Do(s, Define(name, def)) == s
    ensures name != "defined" && name != "__VA_ARGS__" ==> Lookup(Do(s, Define(name, def)), name) == Some(def)
  {
    hide Slot;
    FoundAgain(s.buckets[Slot(name)], name, def);
  }

  lemma {:induction false} FoundAgain(chain: Chain, name: string, def: Def)
    ensures Find(Put(chain, name, def), name) == Some(def)
    ensures Find(chain, name).Some? ==> Find(Replace(chain, name, def), name) == Some(def)
  {
    if chain != [] && chain[0].name != name {
      FoundAgain(chain[1..], name, def);
    }
  }

  /** What the operations mean to one name: its definition, and its own stack of saved ones. */
  datatype Cell = Cell(now: Option<Def>, saved: seq<Option<Def>>)

  function CellOf(s: Store, name: string): Cell
    requires |s.buckets| == MACRO_BUCKETS
  {
    Cell(Lookup(s, name), SavedOf(s.saved, name))
  }

  function CellDo(c: Cell, op: Op): Cell {
    match op
    case Define(name, def) => if name in RESERVED then c else c.(now := Some(def))
    case Undef(_) => c.(now := None)
    case PushMacro(_) => c.(saved := [c.now] + c.saved)
    case PopMacro(_) => if c.saved == [] then c else Cell(c.saved[0], c.saved[1..])
  }

  function CellDoAll(c: Cell, ops: seq<Op>, name: string): Cell
    decreases |ops|
  {
    if ops == [] then c
    else CellDoAll(if ops[0].name == name then CellDo(c, ops[0]) else c, ops[1..], name)
  }

  // ---- the table and the shared list refine the stacks ----

  predicate Distinct(chain: Chain) { forall i, j :: 0 <= i < j < |chain| ==> chain[i].name != chain[j].name }

  /** Every name is in its slot, once, and no reserved name is defined or saved as defined. */
  predicate Ok(s: Store): (b: bool)
    ensures b ==> |s.buckets| == MACRO_BUCKETS
  {
    |s.buckets| == MACRO_BUCKETS
    && (forall h :: 0 <= h < MACRO_BUCKETS ==> ChainOk(s.buckets[h], h))
    && forall i :: 0 <= i < |s.saved| ==> s.saved[i].name in RESERVED ==> s.saved[i].was == None
  }

  predicate ChainOk(chain: Chain, h: nat) {
    Distinct(chain) && forall i :: 0 <= i < |chain| ==> Slot(chain[i].name) == h && chain[i].name !in RESERVED
  }

  lemma {:induction false} FindAt(chain: Chain, name: string)
    ensures Find(chain, name).Some? <==> exists i :: 0 <= i < |chain| && chain[i].name == name
  {
    if chain != [] {
      FindAt(chain[1..], name);
      if i: nat :| i < |chain| && chain[i].name == name && i > 0 {
        assert chain[1..][i - 1].name == name;
      }
    }
  }

  lemma {:induction false} ReplaceFinds(chain: Chain, name: string, def: Def, n: string)
    requires Find(chain, name).Some?
    ensures var r := Replace(chain, name, def);
            Find(r, n) == (if n == name then Some(def) else Find(chain, n))
            && forall i :: 0 <= i < |chain| ==> r[i].name == chain[i].name
  {
    if chain[0].name != name {
      ReplaceFinds(chain[1..], name, def, n);
    }
  }

  lemma {:induction false} DropIn(chain: Chain, name: string)
    ensures forall i :: 0 <= i < |Drop(chain, name)| ==> Drop(chain, name)[i] in chain
  {
    if chain != [] {
      DropIn(chain[1..], name);
    }
  }

  lemma {:induction false} DropDistinct(chain: Chain, name: string)
    requires Distinct(chain)
    ensures Distinct(Drop(chain, name))
  {
    if chain != [] && chain[0].name != name {
      var r := Drop(chain[1..], name);
      DropDistinct(chain[1..], name);
      DropIn(chain[1..], name);
      forall j | 0 <= j < |r| ensures r[j].name != chain[0].name {
        var k :| 0 <= k < |chain[1..]| && chain[1..][k] == r[j];
        assert chain[k + 1] == r[j];
      }
    }
  }

  lemma FindCons(e: Entry, rest: Chain, n: string)
    ensures Find([e] + rest, n) == if e.name == n then Some(e.def) else Find(rest, n)
  {
    assert ([e] + rest)[1..] == rest;
  }

  lemma {:induction false} DropFinds(chain: Chain, name: string, n: string)
    requires Distinct(chain)
    ensures Find(Drop(chain, name), n) == if n == name then None else Find(chain, n)
  {
    if chain != [] {
      FindAt(chain[1..], name);
      if chain[0].name != name {
        DropFinds(chain[1..], name, n);
        FindCons(chain[0], Drop(chain[1..], name), n);
      }
    }
  }

  lemma PutFinds(chain: Chain, name: string, def: Def, n: string, h: nat)
    requires ChainOk(chain, h) && Slot(name) == h && name !in RESERVED
    ensures ChainOk(Put(chain, name, def), h)
    ensures Find(Put(chain, name, def), n) == if n == name then Some(def) else Find(chain, n)
  {
    hide Slot;
    FindAt(chain, name);
    if Find(chain, name).Some? {
      ReplaceFinds(chain, name, def, n);
    } else {
      assert ([Entry(name, def)] + chain)[1..] == chain;
    }
  }

  lemma {:induction false} UnlinkSaved(saved: seq<Frame>, name: string, n: string)
    ensures SavedOf(Unlink(saved, name), n) ==
              if n == name && SavedOf(saved, n) != [] then SavedOf(saved, n)[1..] else SavedOf(saved, n)
    ensures forall i :: 0 <= i < |Unlink(saved, name)| ==> Unlink(saved, name)[i] in saved
  {
    if saved != [] {
      UnlinkSaved(saved[1..], name, n);
      if saved[0].name != name {
        assert ([saved[0]] + Unlink(saved[1..], name))[1..] == Unlink(saved[1..], name);
      }
    }
  }

  lemma {:induction false} SavedReserved(saved: seq<Frame>, name: string)
    requires forall i :: 0 <= i < |saved| ==> saved[i].name in RESERVED ==> saved[i].was == None
    ensures SavedOf(saved, name) != [] && name in RESERVED ==> SavedOf(saved, name)[0] == None
  {
    if saved != [] {
      SavedReserved(saved[1..], name);
    }
  }

  lemma SetChain(s: Store, name: string, chain: Chain, n: string)
    requires Ok(s) && ChainOk(chain, Slot(name))
    requires n != name ==> Find(chain, n) == Find(s.buckets[Slot(name)], n)
    ensures var r := s.(buckets := s.buckets[Slot(name) := chain]);
            Ok(r) && Lookup(r, n) == if n == name then Find(chain, n) else Lookup(s, n)
  {
    hide Slot, ChainOk;
  }

  lemma DefineCell(s: Store, name: string, def: Def, n: string)
    requires Ok(s)
    ensures var r := DoDefine(s, name, def);
            Ok(r) && r.saved == s.saved && Lookup(r, n) == if n == name && name !in RESERVED then Some(def) else Lookup(s, n)
  {
    hide Slot, ChainOk, Ok;
    if name !in RESERVED {
      var h := Slot(name);
      assert ChainOk(s.buckets[h], h) by { OkChain(s, h); }
      PutFinds(s.buckets[h], name, def, n, h);
      SetChain(s, name, Put(s.buckets[h], name, def), n);
    }
  }

  lemma UndefCell(s: Store, name: string, n: string)
    requires Ok(s)
    ensures var r := DoUndef(s, name);
            Ok(r) && r.saved == s.saved && Lookup(r, n) == if n == name then None else Lookup(s, n)
  {
    hide Slot, Ok;
    var h := Slot(name);
    OkChain(s, h);
    DropFinds(s.buckets[h], name, n);
    DropIn(s.buckets[h], name);
    DropDistinct(s.buckets[h], name);
    SetChain(s, name, Drop(s.buckets[h], name), n);
  }

  lemma OkChain(s: Store, h: nat)
    requires Ok(s) && h < MACRO_BUCKETS
    ensures ChainOk(s.buckets[h], h)
  {
    hide ChainOk;
  }

  /** An operation does to its own name what it means there, and nothing to any other name. */
  lemma OpCell(s: Store, op: Op, n: string)
    requires Ok(s)
    ensures Ok(Do(s, op)) && CellOf(Do(s, op), n) == if op.name == n then CellDo(CellOf(s, n), op) else CellOf(s, n)
  {
    hide Slot, DoDefine, DoUndef, Lookup, ChainOk;
    match op {
      case Define(name, def) => DefineCell(s, name, def, n);
      case Undef(name) => UndefCell(s, name, n);
      case PushMacro(name) => PushCell(s, name, n);
      case PopMacro(name) => PopCell(s, name, n);
    }
  }

  lemma PushCell(s: Store, name: string, n: string)
    requires Ok(s)
    ensures var r := Do(s, PushMacro(name));
            Ok(r) && CellOf(r, n) == if n == name then CellDo(CellOf(s, n), PushMacro(name)) else CellOf(s, n)
  {
    hide Slot, ChainOk, Find;
    var r := Do(s, PushMacro(name));
    assert r.saved[1..] == s.saved;
    assert SavedOf(r.saved, n) == if n == name then [Lookup(s, name)] + SavedOf(s.saved, n) else SavedOf(s.saved, n);
    if name in RESERVED {
      NeverDefined(s, name);
    }
  }

  lemma PopCell(s: Store, name: string, n: string)
    requires Ok(s)
    ensures var r := Do(s, PopMacro(name));
            Ok(r) && CellOf(r, n) == if n == name then CellDo(CellOf(s, n), PopMacro(name)) else CellOf(s, n)
  {
    hide Slot, DoDefine, DoUndef, ChainOk, Unlink, SavedOf;
    var mine := SavedOf(s.saved, name);
    if mine != [] {
      UnlinkSaved(s.saved, name, n);
      SavedReserved(s.saved, name);
      var s0 := s.(saved := Unlink(s.saved, name));
      UndefCell(s0, name, n);
      if mine[0].Some? {
        DefineCell(DoUndef(s0, name), name, mine[0].value, n);
      }
    }
  }

  /** The names that C reserves are never defined. */
  lemma NeverDefined(s: Store, name: string)
    requires Ok(s) && name in RESERVED
    ensures Lookup(s, name) == None
  {
    hide Slot;
    FindAt(s.buckets[Slot(name)], name);
  }

  /** Over any run of operations on any names, the table and the one shared list hold for each
      name what its own definition and its own stack would. */
  lemma {:induction false} StoreRefinesStacks(s: Store, ops: seq<Op>, n: string)
    requires Ok(s)
    ensures Ok(DoAll(s, ops)) && CellOf(DoAll(s, ops), n) == CellDoAll(CellOf(s, n), ops, n)
    decreases |ops|
  {
    hide Ok, Do, CellOf, CellDo;
    if ops != [] {
      OpCell(s, ops[0], n);
      StoreRefinesStacks(Do(s, ops[0]), ops[1..], n);
    }
  }

  // ---- a pop restores what its push saw ----

  /** Pushes and pops of a name match up, starting with `depth` pushes still open. */
  predicate Matched(ops: seq<Op>, n: string, depth: nat)
    decreases |ops|
  {
    if ops == [] then depth == 0
    else if ops[0].name == n && ops[0].PushMacro? then Matched(ops[1..], n, depth + 1)
    else if ops[0].name == n && ops[0].PopMacro? then depth > 0 && Matched(ops[1..], n, depth - 1)
    else Matched(ops[1..], n, depth)
  }

  lemma {:induction false} MatchedKeepsBelow(c: Cell, ops: seq<Op>, n: string, depth: nat)
    requires Matched(ops, n, depth) && depth <= |c.saved|
    ensures CellDoAll(c, ops, n).saved == c.saved[depth..]
    decreases |ops|
  {
    if ops != [] {
      var c1 := if ops[0].name == n then CellDo(c, ops[0]) else c;
      if ops[0].name == n && ops[0].PushMacro? {
        assert c1.saved[depth + 1..] == c.saved[depth..];
        MatchedKeepsBelow(c1, ops[1..], n, depth + 1);
      } else if ops[0].name == n && ops[0].PopMacro? {
        assert c1.saved[depth - 1..] == c.saved[depth..];
        MatchedKeepsBelow(c1, ops[1..], n, depth - 1);
      } else {
        MatchedKeepsBelow(c1, ops[1..], n, depth);
      }
    }
  }

  lemma {:induction false} CellConcat(c: Cell, a: seq<Op>, b: seq<Op>, n: string)
    ensures CellDoAll(c, a + b, n) == CellDoAll(CellDoAll(c, a, n), b, n)
    decreases |a|
  {
    if a == [] {
      assert a + b == b;
    } else {
      assert (a + b)[0] == a[0] && (a + b)[1..] == a[1..] + b;
      CellConcat(if a[0].name == n then CellDo(c, a[0]) else c, a[1..], b, n);
    }
  }

  /** Whatever happens between a push of a name and the pop that matches it, to this name and to
      others: the pop gives back what the push saw, definition and saved stack. */
  lemma PopRestores(s: Store, n: string, between: seq<Op>)
    requires Ok(s) && Matched(between, n, 0)
    ensures CellOf(DoAll(s, [PushMacro(n)] + (between + [PopMacro(n)])), n) == CellOf(s, n)
  {
    hide Ok, DoAll, CellOf, Matched;
    var c := CellOf(s, n);
    StoreRefinesStacks(s, [PushMacro(n)] + (between + [PopMacro(n)]), n);
    CellConcat(c, [PushMacro(n)], between + [PopMacro(n)], n);
    var c1 := CellDo(c, PushMacro(n));
    CellOne(c, PushMacro(n), n);
    CellConcat(c1, between, [PopMacro(n)], n);
    MatchedKeepsBelow(c1, between, n, 0);
    CellOne(CellDoAll(c1, between, n), PopMacro(n), n);
  }

  lemma CellOne(c: Cell, op: Op, n: string)
    ensures CellDoAll(c, [op], n) == if op.name == n then CellDo(c, op) else c
  {
    assert [op][1..] == [];
  }
}
