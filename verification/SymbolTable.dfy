/** The symbol table of a scope: a hash table of chains that doubles when it is three quarters
    full, behind the declarations of one name. */
module SymbolTable {
  import opened Bits
  import opened Declarations

  type Chain = seq<Symbol>
  type Buckets = seq<Chain>

  datatype Table = Table(buckets: Buckets, count: nat)

  const TWO32: nat := 0x1_0000_0000
  const SCOPE_INIT_BUCKETS: nat := 8

  /** sym_hash, after the characters before `name` have given h; a character stands for a byte. */
  function HashFrom(h: nat, name: string): nat
    decreases |name|
  {
    if name == [] then h
    else HashFrom(BitOp(XOR, 32, (h * 33) % TWO32, name[0] as nat % 256), name[1..])
  }

  function SymHash(name: string): nat { HashFrom(5381, name) }

  function Slot(name: string, n: nat): (h: nat)
    requires n > 0
    ensures h < n
  {
    SymHash(name) % n
  }

  /** The table computes the slot by a mask, which is right for the sizes it takes. */
  lemma SlotIsMask(name: string, k: nat)
    requires k <= 64
    ensures Pow2(k) > 0 && BitOp(AND, 64, SymHash(name), Pow2(k) - 1) == Slot(name, Pow2(k))
  {
    AndMask(64, k, SymHash(name));
  }

  // ---- chains ----

  /** The symbols of one name, in the order of the chain. */
  function Of(chain: Chain, name: string): Chain {
    if chain == [] then [] else (if chain[0].name == name then [chain[0]] else []) + Of(chain[1..], name)
  }

  function Reverse(chain: Chain): (r: Chain)
    ensures |r| == |chain|
  {
    if chain == [] then [] else Reverse(chain[1..]) + [chain[0]]
  }

  function SetFirst(chain: Chain, name: string, s: Symbol): (r: Chain)
    ensures |r| == |chain|
  {
    if chain == [] then []
    else if chain[0].name == name then [s] + chain[1..]
    else [chain[0]] + SetFirst(chain[1..], name, s)
  }

  lemma {:induction false} OfConcat(a: Chain, b: Chain, name: string)
    ensures Of(a + b, name) == Of(a, name) + Of(b, name)
  {
    if a == [] {
      assert a + b == b;
    } else {
      hide Of;
      var rest := a[1..];
      assert a == [a[0]] + rest && a + b == [a[0]] + (rest + b);
      OfConcat(rest, b, name);
      OfCons(a[0], rest, name);
      OfCons(a[0], rest + b, name);
    }
  }

  lemma {:induction false} OfNames(chain: Chain, name: string)
    ensures forall i :: 0 <= i < |Of(chain, name)| ==> Of(chain, name)[i] in chain && Of(chain, name)[i].name == name
    ensures (forall i :: 0 <= i < |chain| ==> chain[i].name != name) ==> Of(chain, name) == []
  {
    if chain != [] {
      OfNames(chain[1..], name);
    }
  }

  lemma {:induction false} ReverseConcat(a: Chain, b: Chain)
    ensures Reverse(a + b) == Reverse(b) + Reverse(a)
  {
    if a == [] {
      assert a + b == b;
    } else {
      assert (a + b)[1..] == a[1..] + b;
      ReverseConcat(a[1..], b);
    }
  }

  lemma {:induction false} ReverseAt(chain: Chain, i: nat)
    requires i < |chain|
    ensures Reverse(chain)[i] == chain[|chain| - 1 - i]
  {
    if i < |chain| - 1 {
      ReverseAt(chain[1..], i);
    }
  }

  lemma OfCons(s: Symbol, rest: Chain, name: string)
    ensures Of([s] + rest, name) == (if s.name == name then [s] else []) + Of(rest, name)
  {
    assert ([s] + rest)[1..] == rest;
  }

  lemma {:induction false} SetFirstNames(chain: Chain, name: string, s: Symbol)
    requires s.name == name
    ensures forall i :: 0 <= i < |chain| ==> SetFirst(chain, name, s)[i].name == chain[i].name
  {
    if chain != [] && chain[0].name != name {
      SetFirstNames(chain[1..], name, s);
    }
  }

  lemma {:induction false} SetFirstOf(chain: Chain, name: string, s: Symbol, n: string)
    requires s.name == name && Of(chain, name) != []
    ensures Of(SetFirst(chain, name, s), n) == if n == name then [s] + Of(chain, name)[1..] else Of(chain, n)
    decreases |chain|
  {
    hide Of;
    assert Of([], name) == [] by { OfNames([], name); }
    var rest := chain[1..];
    assert chain == [chain[0]] + rest;
    OfCons(chain[0], rest, name);
    OfCons(chain[0], rest, n);
    if chain[0].name == name {
      OfCons(s, rest, n);
    } else {
      OfCons(chain[0], SetFirst(rest, name, s), n);
      SetFirstOf(rest, name, s, n);
    }
  }

  // ---- the table ----

  function Empty(n: nat): Buckets { seq(n, _ => []) }

  function PushFront(bs: Buckets, s: Symbol): (r: Buckets)
    requires bs != []
    ensures |r| == |bs|
  {
    var h := Slot(s.name, |bs|);
    bs[h := [s] + bs[h]]
  }

  /** scope_rehash on one chain: each symbol in turn goes to the front of its new chain. */
  function Move(bs: Buckets, chain: Chain): (r: Buckets)
    requires bs != []
    ensures |r| == |bs|
    decreases |chain|
  {
    if chain == [] then bs else Move(PushFront(bs, chain[0]), chain[1..])
  }

  function MoveAll(bs: Buckets, from: Buckets): (r: Buckets)
    requires bs != []
    ensures |r| == |bs|
    decreases |from|
  {
    if from == [] then bs else MoveAll(Move(bs, from[0]), from[1..])
  }

  function Grown(bs: Buckets): (r: Buckets)
    requires bs != []
    ensures |r| == 2 * |bs|
  {
    MoveAll(Empty(2 * |bs|), bs)
  }

  predicate Crowded(t: Table) { t.count + 1 > |t.buckets| * 3 / 4 }

  function Fitted(t: Table): (r: Table)
    requires t.buckets != []
    ensures r.buckets != [] && r.count == t.count
  {
    if Crowded(t) then Table(Grown(t.buckets), t.count) else t
  }

  predicate HasOrdinary(chain: Chain, name: string) {
    exists i :: 0 <= i < |chain| && chain[i].name == name && Ordinary(chain[i])
  }

  function InsertedInto(chain: Chain, s: Symbol): Chain {
    if s.decl.StructDef? && HasOrdinary(chain, s.name) then chain + [s] else [s] + chain
  }

  function Inserted(t: Table, s: Symbol): Table
    requires t.buckets != []
  {
    var t1 := Fitted(t);
    var h := Slot(s.name, |t1.buckets|);
    Table(t1.buckets[h := InsertedInto(t1.buckets[h], s)], t.count + 1)
  }

  /** The symbols of one name, the one that a lookup finds first. */
  function Named(t: Table, name: string): Chain
    requires t.buckets != []
  {
    Of(t.buckets[Slot(name, |t.buckets|)], name)
  }

  /** scope_define, with the number of errors it reports. */
  function Define(t: Table, name: string, kind: Kind, decl: Decl): (Table, nat)
    requires t.buckets != []
  {
    var list := Named(t, name);
    var entry := Symbol(kind, name, decl, false);
    if list == [] then (Inserted(t, entry), 0)
    else
      match Merge(list[0], kind, decl)
      case Keep => (t, 0)
      case Adopt(s) =>
        var h := Slot(name, |t.buckets|);
        (t.(buckets := t.buckets[h := SetFirst(t.buckets[h], name, s)]), 0)
      case Register => (Inserted(t, entry), 0)
      case Redefinition => (t, 1)
  }

  // ---- what every table keeps ----

  function Total(bs: Buckets): nat { if bs == [] then 0 else |bs[0]| + Total(bs[1..]) }

  /** Every symbol is in the chain of its name's slot. */
  predicate InPlace(bs: Buckets) {
    bs != [] && forall i, j :: 0 <= i < |bs| && 0 <= j < |bs[i]| ==> Slot(bs[i][j].name, |bs|) == i
  }

  ghost predicate PowerOfTwo(n: nat) { exists k: nat :: k >= 3 && n == Pow2(k) }

  ghost predicate Ok(t: Table): (b: bool)
    ensures b ==> t.buckets != []
  {
    PowerOfTwo(|t.buckets|) && InPlace(t.buckets) && t.count == Total(t.buckets) && t.count <= |t.buckets| * 3 / 4
  }

  lemma {:induction false} TotalUpdate(bs: Buckets, h: nat, chain: Chain)
    requires h < |bs|
    ensures Total(bs[h := chain]) == Total(bs) - |bs[h]| + |chain|
  {
    if h == 0 {
      assert bs[h := chain][1..] == bs[1..];
    } else {
      assert bs[h := chain][1..] == bs[1..][h - 1 := chain];
      TotalUpdate(bs[1..], h - 1, chain);
    }
  }

  lemma {:induction false} TotalEmpty(n: nat)
    ensures Total(Empty(n)) == 0
  {
    if n > 0 {
      assert Empty(n)[1..] == Empty(n - 1);
      TotalEmpty(n - 1);
    }
  }

  lemma UpdateInPlace(bs: Buckets, h: nat, chain: Chain)
    requires InPlace(bs) && h < |bs|
    requires forall j :: 0 <= j < |chain| ==> Slot(chain[j].name, |bs|) == h
    ensures InPlace(bs[h := chain])
  {}

  // ---- growing reverses the order within a name, and loses nothing ----

  lemma PushKeeps(bs: Buckets, s: Symbol, name: string)
    requires InPlace(bs)
    ensures var r := PushFront(bs, s);
            InPlace(r) && Total(r) == Total(bs) + 1
            && Of(r[Slot(name, |bs|)], name) == (if s.name == name then [s] else []) + Of(bs[Slot(name, |bs|)], name)
  {
    hide Slot, Of;
    var h := Slot(s.name, |bs|);
    UpdateInPlace(bs, h, [s] + bs[h]);
    TotalUpdate(bs, h, [s] + bs[h]);
    OfCons(s, bs[h], name);
  }

  lemma {:induction false} MoveKeeps(bs: Buckets, chain: Chain, name: string)
    requires InPlace(bs)
    ensures var r := Move(bs, chain);
            InPlace(r) && Total(r) == Total(bs) + |chain|
            && Of(r[Slot(name, |bs|)], name) == Reverse(Of(chain, name)) + Of(bs[Slot(name, |bs|)], name)
    decreases |chain|
  {
    assert bs != [];
    var h := Slot(name, |bs|);
    hide Slot, InPlace, Total, PushFront, Reverse, Of;
    OfOne(Symbol(Var, name, NoDecl, false), name);
    if chain == [] {
      OfNames(chain, name);
    } else {
      var (s, rest) := (chain[0], chain[1..]);
      PushKeeps(bs, s, name);
      MoveKeeps(PushFront(bs, s), rest, name);
      assert chain == [s] + rest;
      OfCons(s, rest, name);
      if s.name == name {
        ReverseConcat([s], Of(rest, name));
        OfOne(s, name);
        ChainAssoc(Reverse(Of(rest, name)), [s], Of(bs[h], name));
      } else {
        assert [] + Of(rest, name) == Of(rest, name) && [] + Of(bs[h], name) == Of(bs[h], name);
      }
    }
  }

  lemma OfOne(s: Symbol, name: string)
    ensures Of([s], name) == if s.name == name then [s] else []
    ensures Reverse([s]) == [s] && Reverse([]) == []
  {
    assert [s][1..] == [];
  }

  /** The symbols of a name in all the chains, last chain first. */
  function OfAll(bs: Buckets, name: string): Chain {
    if bs == [] then [] else OfAll(bs[1..], name) + Reverse(Of(bs[0], name))
  }

  lemma {:induction false} MoveAllKeeps(bs: Buckets, from: Buckets, name: string)
    requires InPlace(bs)
    ensures var r := MoveAll(bs, from);
            InPlace(r) && Total(r) == Total(bs) + Total(from)
            && Of(r[Slot(name, |bs|)], name) == OfAll(from, name) + Of(bs[Slot(name, |bs|)], name)
    decreases |from|
  {
    hide Slot, InPlace, Of, Reverse, Move;
    if from != [] {
      MoveKeeps(bs, from[0], name);
      MoveAllKeeps(Move(bs, from[0]), from[1..], name);
      ChainAssoc(OfAll(from[1..], name), Reverse(Of(from[0], name)), Of(bs[Slot(name, |bs|)], name));
    }
  }

  lemma ChainAssoc(a: Chain, b: Chain, c: Chain)
    ensures (a + b) + c == a + (b + c)
  {}

  lemma {:induction false} OfAllOne(bs: Buckets, name: string, h: nat)
    requires forall i, j :: 0 <= i < |bs| && i != h && 0 <= j < |bs[i]| ==> bs[i][j].name != name
    ensures OfAll(bs, name) == if h < |bs| then Reverse(Of(bs[h], name)) else []
  {
    if bs != [] {
      if h == 0 {
        OfAllOne(bs[1..], name, |bs|);
      } else {
        OfNames(bs[0], name);
        OfAllOne(bs[1..], name, h - 1);
      }
    }
  }

  /** Growing keeps all symbols, each in its slot, and turns the order of each name around. */
  lemma GrownKeeps(bs: Buckets, name: string)
    requires InPlace(bs)
    ensures var r := Grown(bs);
            InPlace(r) && Total(r) == Total(bs)
            && Of(r[Slot(name, |r|)], name) == Reverse(Of(bs[Slot(name, |bs|)], name))
  {
    var none := Empty(2 * |bs|);
    TotalEmpty(2 * |bs|);
    MoveAllKeeps(none, bs, name);
    OfAllOne(bs, name, Slot(name, |bs|));
  }

  lemma FittedOk(t: Table, name: string)
    requires Ok(t)
    ensures var r := Fitted(t);
            InPlace(r.buckets) && PowerOfTwo(|r.buckets|) && r.count == Total(r.buckets)
            && r.count + 1 <= |r.buckets| * 3 / 4
            && Named(r, name) == if Crowded(t) then Reverse(Named(t, name)) else Named(t, name)
  {
    hide InPlace, Slot;
    GrownKeeps(t.buckets, name);
    var k: nat :| k >= 3 && |t.buckets| == Pow2(k);
    assert Pow2(k + 1) == 2 * Pow2(k);
    AtLeastEight(k);
  }

  lemma {:induction false} AtLeastEight(k: nat)
    requires k >= 3
    ensures Pow2(k) >= 8
  {
    if k > 3 {
      AtLeastEight(k - 1);
    } else {
      assert Pow2(3) == 2 * Pow2(2) == 4 * Pow2(1) == 8;
    }
  }

  /** The symbols of a name once the table has grown, if it has. */
  function Turned(t: Table, name: string): Chain
    requires t.buckets != []
  {
    if Crowded(t) then Reverse(Named(t, name)) else Named(t, name)
  }

  lemma OfOrdinary(chain: Chain, name: string)
    ensures HasOrdinary(chain, name) <==> exists i :: 0 <= i < |Of(chain, name)| && Ordinary(Of(chain, name)[i])
  {
    OfNames(chain, name);
    if HasOrdinary(chain, name) {
      var i :| 0 <= i < |chain| && chain[i].name == name && Ordinary(chain[i]);
      OfConcat(chain[..i], chain[i..], name);
      assert chain[..i] + chain[i..] == chain;
      assert Of(chain, name)[|Of(chain[..i], name)|] == chain[i];
    }
  }

  lemma InsertedKeeps(t: Table, s: Symbol, name: string)
    requires Ok(t)
    ensures var r := Inserted(t, s);
            Ok(r) && Named(r, name) == if name == s.name then Placed(Turned(t, name), s) else Turned(t, name)
  {
    hide Slot, Crowded, Ordinary, Reverse, HasOrdinary, Of;
    FittedOk(t, name);
    FittedOk(t, s.name);
    var t1 := Fitted(t);
    var h := Slot(s.name, |t1.buckets|);
    var chain := t1.buckets[h];
    var r := InsertedInto(chain, s);
    OfConcat(chain, [s], name);
    OfConcat([s], chain, name);
    OfOne(s, name);
    OfOrdinary(chain, s.name);
    UpdateInPlace(t1.buckets, h, r);
    TotalUpdate(t1.buckets, h, r);
  }

  /** What a definition does to each name: the name defined goes through the rule for one name,
      the others stay, all of them turned around if the table grew. */
  lemma DefineKeeps(t: Table, name: string, kind: Kind, decl: Decl, n: string)
    requires Ok(t)
    ensures var (r, errs) := Define(t, name, kind, decl);
            Ok(r) && errs == Declared(Named(t, name), name, kind, decl).1
            && Named(r, n) ==
                 if Registers(t, name, kind, decl) then
                   if n == name then Placed(Turned(t, n), Symbol(kind, name, decl, false)) else Turned(t, n)
                 else if n == name then Declared(Named(t, n), name, kind, decl).0
                 else Named(t, n)
  {
    hide Slot, Inserted, Placed, Turned;
    var list := Named(t, name);
    var h := Slot(name, |t.buckets|);
    var chain := t.buckets[h];
    InsertedKeeps(t, Symbol(kind, name, decl, false), n);
    OfNames(chain, name);
    if list != [] && Merge(list[0], kind, decl).Adopt? {
      var s := Merge(list[0], kind, decl).sym;
      SetFirstOf(chain, name, s, n);
      SetFirstNames(chain, name, s);
      UpdateInPlace(t.buckets, h, SetFirst(chain, name, s));
      TotalUpdate(t.buckets, h, SetFirst(chain, name, s));
    }
  }

  predicate Registers(t: Table, name: string, kind: Kind, decl: Decl)
    requires t.buckets != []
  {
    Named(t, name) == [] || Merge(Named(t, name)[0], kind, decl) == Register
  }

  /** scope_new */
  function NewTable(): Table { Table(Empty(SCOPE_INIT_BUCKETS), 0) }

  lemma NewTableOk(name: string)
    ensures Ok(NewTable()) && Named(NewTable(), name) == []
  {
    TotalEmpty(SCOPE_INIT_BUCKETS);
    assert Pow2(3) == 2 * Pow2(2) == 4 * Pow2(1) == 8;
  }

  // ---- whole runs ----

  datatype Request = Request(name: string, kind: Kind, decl: Decl)

  function DefineAll(reqs: seq<Request>): (r: (Table, nat))
    ensures r.0.buckets != []
  {
    if reqs == [] then (NewTable(), 0)
    else
      var (t, errs) := DefineAll(reqs[..|reqs| - 1]);
      var last := reqs[|reqs| - 1];
      DefineNonempty(t, last.name, last.kind, last.decl);
      var (t1, more) := Define(t, last.name, last.kind, last.decl);
      (t1, errs + more)
  }

  lemma DefineNonempty(t: Table, name: string, kind: Kind, decl: Decl)
    requires t.buckets != []
    ensures Define(t, name, kind, decl).0.buckets != []
  {
    hide Slot, Grown;
  }

  /** Whatever is defined, in whatever order: every symbol sits in its slot, the number of chains
      is a power of two and the table is at most three quarters full. */
  lemma {:induction false} TableStaysOk(reqs: seq<Request>)
    ensures Ok(DefineAll(reqs).0)
  {
    hide Ok, Define;
    if reqs == [] {
      NewTableOk("");
    } else {
      TableStaysOk(reqs[..|reqs| - 1]);
      var last := reqs[|reqs| - 1];
      DefineKeeps(DefineAll(reqs[..|reqs| - 1]).0, last.name, last.kind, last.decl, last.name);
    }
  }

  /** The declarations that a run makes of one name. */
  function DeclsOf(reqs: seq<Request>, name: string): seq<Decl> {
    if reqs == [] then []
    else
      var ds := DeclsOf(reqs[..|reqs| - 1], name);
      if reqs[|reqs| - 1].name == name then ds + [reqs[|reqs| - 1].decl] else ds
  }

  /** Each name is declared with one kind, by one family of declarations. */
  ghost predicate Families(reqs: seq<Request>, kinds: string -> Kind) {
    (forall i :: 0 <= i < |reqs| ==> reqs[i].kind == kinds(reqs[i].name))
    && forall name :: OneFamily(name, kinds(name), DeclsOf(reqs, name))
  }

  lemma FamiliesPrefix(reqs: seq<Request>, kinds: string -> Kind)
    requires reqs != [] && Families(reqs, kinds)
    ensures Families(reqs[..|reqs| - 1], kinds)
  {
    hide OneFamily;
    var init := reqs[..|reqs| - 1];
    forall name ensures OneFamily(name, kinds(name), DeclsOf(init, name)) {
      assert OneFamily(name, kinds(name), DeclsOf(reqs, name));
      if reqs[|reqs| - 1].name == name {
        FamilyPrefix(name, kinds(name), DeclsOf(init, name), reqs[|reqs| - 1].decl);
      }
    }
  }

  /** Over any such run the table is a map: for each name declared, the one symbol that its own
      declarations lead to, however the names interleave and however often the table grows. */
  lemma {:induction false} TableIsMap(reqs: seq<Request>, kinds: string -> Kind, name: string)
    requires Families(reqs, kinds)
    ensures Named(DefineAll(reqs).0, name) == DeclareAll(name, kinds(name), DeclsOf(reqs, name)).0
    ensures |Named(DefineAll(reqs).0, name)| == if DeclsOf(reqs, name) == [] then 0 else 1
    decreases |reqs|
  {
    hide Ok, Define, Declared, OneFamily, Slot, DeclareAll, DeclsOf, Named;
    AllOfNone(name, kinds(name));
    if DeclsOf(reqs, name) != [] {
      FamilyMerges(name, kinds(name), DeclsOf(reqs, name));
    }
    if reqs == [] {
      NewTableOk(name);
    } else {
      var init := reqs[..|reqs| - 1];
      var last := reqs[|reqs| - 1];
      FamiliesPrefix(reqs, kinds);
      TableIsMap(init, kinds, name);
      TableStaysOk(init);
      DeclsOfLast(reqs, name, kinds(name));
      OneStep(DefineAll(init).0, last.name, last.kind, last.decl, name);
    }
  }

  lemma AllOfNone(name: string, kind: Kind)
    ensures DeclsOf([], name) == [] && DeclareAll(name, kind, []) == ([], 0)
  {}

  lemma DeclsOfLast(reqs: seq<Request>, name: string, kind: Kind)
    requires reqs != []
    ensures var (init, last) := (reqs[..|reqs| - 1], reqs[|reqs| - 1]);
            var (ds, all) := (DeclsOf(init, name), DeclsOf(reqs, name));
            if last.name == name then
              all == ds + [last.decl]
              && DeclareAll(name, kind, all).0 == Declared(DeclareAll(name, kind, ds).0, name, kind, last.decl).0
            else all == ds
  {
    hide Declared;
    var ds := DeclsOf(reqs[..|reqs| - 1], name);
    assert (ds + [reqs[|reqs| - 1].decl])[..|ds|] == ds;
  }

  /** While a name has one symbol, a definition does to it what the rule for one name says. */
  lemma OneStep(t: Table, name: string, kind: Kind, decl: Decl, n: string)
    requires Ok(t) && |Named(t, n)| <= 1
    ensures Named(Define(t, name, kind, decl).0, n) ==
              if n == name then Declared(Named(t, n), name, kind, decl).0 else Named(t, n)
  {
    hide Ok, Define, Slot, Placed, Turned, Crowded, Named;
    DefineKeeps(t, name, kind, decl, n);
    TurnedOne(t, n);
    if n == name && Registers(t, name, kind, decl) {
      RegistersDeclared(t, name, kind, decl);
    }
  }

  lemma TurnedOne(t: Table, name: string)
    requires t.buckets != [] && |Named(t, name)| <= 1
    ensures Turned(t, name) == Named(t, name)
  {
    if Named(t, name) != [] {
      OfOne(Named(t, name)[0], name);
      assert Named(t, name) == [Named(t, name)[0]];
    }
  }

  lemma RegistersDeclared(t: Table, name: string, kind: Kind, decl: Decl)
    requires t.buckets != [] && Registers(t, name, kind, decl)
    ensures Declared(Named(t, name), name, kind, decl).0 == Placed(Named(t, name), Symbol(kind, name, decl, false))
  {}

  // ---- what growing does to a name with several symbols ----

  /** A lookup finds the same symbol before and after the table grows exactly when the first and
      the last symbol of the name are the same: growing puts the last one first. */
  lemma LookupAfterGrowth(t: Table, name: string)
    requires Ok(t) && Crowded(t) && Named(t, name) != []
    ensures var list := Named(t, name);
            Named(Fitted(t), name) != [] && Named(Fitted(t), name)[0] == list[|list| - 1]
            && (Named(Fitted(t), name)[0] == list[0] <==> list[0] == list[|list| - 1])
  {
    hide Ok, Slot, Fitted, Crowded, Reverse, Named, InPlace, Total, PowerOfTwo;
    FittedOk(t, name);
    ReverseAt(Named(t, name), 0);
  }

  /** A typedef and a struct of the same name are kept so that a lookup finds the typedef, as C
      asks of a bare name; when the table next grows, it finds the struct. */
  lemma TypedefLosesPriority(t: Table, name: string, tag: Decl, alias: Decl)
    requires Ok(t) && Crowded(t) && tag.StructDef? && alias.Typedef? && alias.target != name
    requires Named(t, name) == Declared([Symbol(Type, name, alias, false)], name, Type, tag).0
    ensures Named(t, name) != [] && Named(t, name)[0].decl == alias
    ensures Named(Fitted(t), name) != [] && Named(Fitted(t), name)[0].decl == tag
  {
    hide Ok, Slot, Fitted, Crowded, Named;
    var list := [Symbol(Type, name, alias, false)];
    assert Ordinary(list[0]);
    LookupAfterGrowth(t, name);
  }

  /** A typedef and a struct of one name, then a variable of each of the other names. */
  function Crowding(name: string, alias: Decl, tag: Decl, others: seq<string>, v: Decl): (reqs: seq<Request>)
    ensures |reqs| == 2 + |others|
    decreases |others|
  {
    if others == [] then [Request(name, Type, alias), Request(name, Type, tag)]
    else Crowding(name, alias, tag, others[..|others| - 1], v) + [Request(others[|others| - 1], Var, v)]
  }

  /** A definition of a new symbol in a table that is not crowded. */
  lemma DefineNew(t: Table, name: string, kind: Kind, decl: Decl, n: string)
    requires Ok(t) && !Crowded(t) && Registers(t, name, kind, decl)
    ensures var (r, errs) := Define(t, name, kind, decl);
            Ok(r) && errs == 0 && |r.buckets| == |t.buckets| && r.count == t.count + 1
            && Named(r, n) == if n == name then Placed(Named(t, n), Symbol(kind, name, decl, false)) else Named(t, n)
  {
    hide Ok, Slot, Named, Placed, InsertedInto, Merge;
    DefineKeeps(t, name, kind, decl, n);
  }

  lemma DefineAllMore(reqs: seq<Request>, r: Request)
    ensures var (t, errs) := DefineAll(reqs);
            DefineAll(reqs + [r]) == (Define(t, r.name, r.kind, r.decl).0, errs + Define(t, r.name, r.kind, r.decl).1)
  {
    hide Define;
    assert (reqs + [r])[..|reqs|] == reqs;
  }

  lemma StructBehindTypedef(name: string, alias: Decl, tag: Decl)
    requires tag.StructDef? && alias.Typedef? && alias.target != name
    ensures var (s, entry) := (Symbol(Type, name, alias, false), Symbol(Type, name, tag, false));
            Merge(s, Type, tag) == Register && Placed([s], entry) == [s, entry] && Placed([], s) == [s]
  {
    assert Ordinary([Symbol(Type, name, alias, false)][0]);
  }

  lemma TwoOfOneName(name: string, alias: Decl, tag: Decl, v: Decl, n: string)
    requires tag.StructDef? && alias.Typedef? && alias.target != name
    ensures var (t, errs) := DefineAll(Crowding(name, alias, tag, [], v));
            Ok(t) && errs == 0 && |t.buckets| == 8 && t.count == 2
            && Named(t, n) == if n == name then [Symbol(Type, name, alias, false), Symbol(Type, name, tag, false)] else []
  {
    hide Ok, Slot, Named, Define, Merge, Placed, DefineAll;
    var (r1, r2) := (Request(name, Type, alias), Request(name, Type, tag));
    StructBehindTypedef(name, alias, tag);
    EmptyRun(name);
    EmptyRun(n);
    assert [] + [r1] == [r1] && [r1] + [r2] == [r1, r2];
    DefineAllMore([], r1);
    DefineAllMore([r1], r2);
    DefineNew(NewTable(), name, Type, alias, name);
    DefineNew(NewTable(), name, Type, alias, n);
    var t1 := DefineAll([r1]).0;
    DefineNew(t1, name, Type, tag, name);
    DefineNew(t1, name, Type, tag, n);
  }

  lemma EmptyRun(n: string)
    ensures DefineAll([]) == (NewTable(), 0) && Ok(NewTable()) && Named(NewTable(), n) == []
    ensures |NewTable().buckets| == 8 && NewTable().count == 0
  {
    hide Define, Named, Ok;
    NewTableOk(n);
  }

  lemma {:induction false} CrowdingFills(name: string, alias: Decl, tag: Decl, others: seq<string>, v: Decl, n: string)
    requires tag.StructDef? && alias.Typedef? && alias.target != name && name !in others && |others| <= 4
    requires forall i, j :: 0 <= i < j < |others| ==> others[i] != others[j]
    ensures var (t, errs) := DefineAll(Crowding(name, alias, tag, others, v));
            Ok(t) && errs == 0 && |t.buckets| == 8 && t.count == 2 + |others|
            && (n == name ==> Named(t, n) == [Symbol(Type, name, alias, false), Symbol(Type, name, tag, false)])
            && (n != name && n !in others ==> Named(t, n) == [])
    decreases |others|
  {
    hide Ok, Slot, Named, Define, DefineAll, Placed;
    if others == [] {
      TwoOfOneName(name, alias, tag, v, n);
    } else {
      var (init, last) := (others[..|others| - 1], others[|others| - 1]);
      CrowdingFills(name, alias, tag, init, v, n);
      CrowdingFills(name, alias, tag, init, v, last);
      DefineAllMore(Crowding(name, alias, tag, init, v), Request(last, Var, v));
      DefineNew(DefineAll(Crowding(name, alias, tag, init, v)).0, last, Var, v, n);
    }
  }

  /** A run that gets there: from the empty table, `typedef T X`, `struct X` and four variables leave a
      table in which X is found as the typedef; one variable more, of any name, and X is found as the
      struct. Nothing is reported. */
  lemma TypedefLost(name: string, alias: Decl, tag: Decl, others: seq<string>, v: Decl)
    requires tag.StructDef? && alias.Typedef? && alias.target != name && name !in others && |others| == 5
    requires forall i, j :: 0 <= i < j < |others| ==> others[i] != others[j]
    ensures var (t, errs) := DefineAll(Crowding(name, alias, tag, others[..4], v));
            Ok(t) && Crowded(t) && errs == 0 && |Named(t, name)| == 2 && Named(t, name)[0].decl == alias
    ensures var (t, errs) := DefineAll(Crowding(name, alias, tag, others, v));
            Ok(t) && errs == 0 && |Named(t, name)| == 2 && Named(t, name)[0].decl == tag
  {
    hide Ok, Slot, Named, Define, DefineAll, Placed;
    CrowdingFills(name, alias, tag, others[..4], v, name);
    CrowdingFills(name, alias, tag, others[..4], v, others[4]);
    var t := DefineAll(Crowding(name, alias, tag, others[..4], v)).0;
    DefineAllMore(Crowding(name, alias, tag, others[..4], v), Request(others[4], Var, v));
    DefineKeeps(t, others[4], Var, v, name);
    DefineKeeps(t, others[4], Var, v, others[4]);
    ReverseAt(Named(t, name), 0);
  }
}
