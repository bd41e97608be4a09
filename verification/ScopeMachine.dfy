/** The scope as the front end keeps it: an array of chains, rehashed into a new array when it
    gets crowded, and the lookups through the chains of a scope and of its parents. */
module ScopeMachine {
  import opened Bits
  import opened Declarations
  import opened SymbolTable

  datatype Filter = Any | TypeOnly | StructTag

  predicate IsTypeKind(k: Kind) { k == Type || k == Builtin || k == GenericParam }

  predicate Passes(s: Symbol, flags: Filter) {
    match flags
    case Any => true
    case TypeOnly => IsTypeKind(s.kind)
    case StructTag => s.kind == Type && s.decl.StructDef?
  }

  /** The first symbol of a list that passes, as a list of at most one. */
  function First(list: Chain, flags: Filter): Chain {
    if list == [] then [] else if Passes(list[0], flags) then [list[0]] else First(list[1..], flags)
  }

  /** The first symbol that passes, and nothing exactly when none does. */
  lemma {:induction false} FirstExact(list: Chain, flags: Filter)
    ensures First(list, flags) == [] <==> forall i :: 0 <= i < |list| ==> !Passes(list[i], flags)
    ensures First(list, flags) != [] ==>
              exists i :: 0 <= i < |list| && First(list, flags) == [list[i]] && Passes(list[i], flags)
                          && forall j :: 0 <= j < i ==> !Passes(list[j], flags)
  {
    hide Passes;
    if list != [] && !Passes(list[0], flags) {
      FirstExact(list[1..], flags);
      if First(list[1..], flags) != [] {
        var i :| 0 <= i < |list[1..]| && First(list[1..], flags) == [list[1..][i]] && Passes(list[1..][i], flags)
                 && forall j :: 0 <= j < i ==> !Passes(list[1..][j], flags);
        assert list[1..][i] == list[i + 1];
        assert forall j :: 1 <= j < i + 1 ==> list[j] == list[1..][j - 1];
      }
    }
  }

  /** Where an ordinary identifier and a struct share a name, a plain lookup finds the identifier, a lookup
      of a struct tag the struct, and a lookup of a type the identifier only if it names one. */
  lemma TagLookups(o: Symbol, t: Symbol)
    requires t.kind == Type && t.decl.StructDef? && !o.decl.StructDef? && (o.kind == Var || o.kind == Func || o.kind == Type)
    ensures First([o, t], Any) == [o] && First([o, t], StructTag) == [t]
    ensures First([o, t], TypeOnly) == if o.kind == Type then [o] else [t]
  {
    assert [o, t][1..] == [t];
  }

  /** A lookup of a type also finds builtin types and generic parameters, and nothing else. */
  lemma TypeLookups(s: Symbol)
    ensures First([s], TypeOnly) == if s.kind in {Type, Builtin, GenericParam} then [s] else []
    ensures First([s], Any) == [s] && First([s], StructTag) == if s.kind == Type && s.decl.StructDef? then [s] else []
  {
    assert [s][1..] == [];
  }

  /** The hash of a name, by the loop over its characters. */
  method Hash(name: string) returns (h: nat)
    ensures h == SymHash(name)
  {
    h := 5381;
    for i := 0 to |name|
      invariant HashFrom(h, name[i..]) == SymHash(name)
    {
      h := BitOp(XOR, 32, (h * 33) % TWO32, name[i] as nat % 256);
    }
  }

  class Scope {
    var buckets: array<Chain>
    var nsymbols: nat

    ghost predicate Valid()
      reads this, buckets
    {
      Ok(View())
    }

    ghost function View(): Table
      reads this, buckets
    {
      Table(buckets[..], nsymbols)
    }

    /** The symbol that a lookup with these flags finds in this scope, if there is one. */
    ghost function Match(name: string, flags: Filter): Chain
      reads this, buckets
      requires Valid()
    {
      First(Named(View(), name), flags)
    }

    constructor ()
      ensures Valid() && fresh(buckets) && View() == NewTable()
    {
      buckets := new Chain[SCOPE_INIT_BUCKETS](_ => []);
      nsymbols := 0;
      new;
      NewTableOk("");
      assert buckets[..] == Empty(SCOPE_INIT_BUCKETS);
    }

    /** The slot of a name and the position in its chain of the first symbol with that name, or
        the length of the chain if there is none. */
    method Find(name: string) returns (h: nat, i: nat)
      requires Valid()
      ensures h == Slot(name, buckets.Length) && i <= |buckets[h]|
      ensures Of(buckets[h][..i], name) == []
      ensures i < |buckets[h]| ==> buckets[h][i].name == name
    {
      var hash := Hash(name);
      h := hash % buckets.Length;
      i := 0;
      while i < |buckets[h]| && buckets[h][i].name != name
        invariant i <= |buckets[h]| && Of(buckets[h][..i], name) == []
      {
        OfConcat(buckets[h][..i], [buckets[h][i]], name);
        OfOne(buckets[h][i], name);
        assert buckets[h][..i + 1] == buckets[h][..i] + [buckets[h][i]];
        i := i + 1;
      }
    }

    method LookupLocal(name: string) returns (found: bool, s: Symbol)
      requires Valid()
      ensures found <==> Named(View(), name) != []
      ensures found ==> s == Named(View(), name)[0]
    {
      hide Slot, Ok;
      var h, i := Find(name);
      FoundAt(buckets[h], name, i);
      if i == |buckets[h]| { return false, Symbol(Var, name, NoDecl, false); }
      return true, buckets[h][i];
    }

    /** scope_rehash */
    method Rehash()
      requires Valid()
      modifies this`buckets
      ensures fresh(buckets) && buckets[..] == Grown(old(buckets[..]))
    {
      hide Ok, Slot, PushFront;
      var all := buckets;
      ghost var before := buckets[..];
      var nb := new Chain[2 * all.Length](_ => []);
      assert nb[..] == Empty(2 * |before|);
      var i := 0;
      while i < all.Length
        invariant i <= all.Length && all[..] == before
        invariant MoveAll(nb[..], before[i..]) == Grown(before)
      {
        MoveChain(nb, all[i]);
        i := i + 1;
      }
      buckets := nb;
    }

    /** Moves the symbols of one chain, each to the front of its new one. */
    static method MoveChain(nb: array<Chain>, chain: Chain)
      requires nb.Length > 0
      modifies nb
      ensures nb[..] == Move(old(nb[..]), chain)
    {
      var rest := chain;
      while rest != []
        invariant Move(nb[..], rest) == Move(old(nb[..]), chain)
      {
        ghost var before := nb[..];
        var hash := Hash(rest[0].name);
        var h := hash % nb.Length;
        nb[h] := [rest[0]] + nb[h];
        assert nb[..] == PushFront(before, rest[0]);
        rest := rest[1..];
      }
    }

    method FindOrdinary(h: nat, name: string) returns (found: bool)
      requires h < buckets.Length
      ensures found == HasOrdinary(buckets[h], name)
    {
      for i := 0 to |buckets[h]|
        invariant !HasOrdinary(buckets[h][..i], name)
      {
        if buckets[h][i].name == name && Ordinary(buckets[h][i]) { return true; }
      }
      assert buckets[h][..|buckets[h]|] == buckets[h];
      return false;
    }

    /** The end of scope_define: grows the table if it must, and puts the symbol in. */
    method Insert(s: Symbol)
      requires Valid()
      modifies this, buckets
      ensures Valid() && View() == Inserted(old(View()), s)
      ensures buckets == old(buckets) || fresh(buckets)
    {
      hide Slot, Ok, Grown, HasOrdinary;
      InsertedKeeps(View(), s, s.name);
      if nsymbols + 1 > buckets.Length * 3 / 4 {
        Rehash();
      }
      ghost var fitted := Fitted(old(View()));
      assert View() == fitted;
      var hash := Hash(s.name);
      var h := hash % buckets.Length;
      assert h == Slot(s.name, buckets.Length) by { SlotIsHash(s.name, buckets.Length); }
      var behind := false;
      if s.decl.StructDef? {
        behind := FindOrdinary(h, s.name);
      }
      if behind {
        buckets[h] := buckets[h] + [s];
      } else {
        buckets[h] := [s] + buckets[h];
      }
      nsymbols := nsymbols + 1;
      assert buckets[..] == fitted.buckets[h := InsertedInto(fitted.buckets[h], s)];
    }

    /** scope_define */
    method Define(kind: Kind, name: string, decl: Decl) returns (s: Symbol, errs: nat)
      requires Valid()
      modifies this, buckets
      ensures Valid() && (View(), errs) == SymbolTable.Define(old(View()), name, kind, decl)
      ensures s in Named(View(), name)
      ensures buckets == old(buckets) || fresh(buckets)
    {
      hide Slot, Ok, Inserted, Merge, Declared, Placed;
      DefineKeeps(View(), name, kind, decl, name);
      var h, i := Find(name);
      FoundAt(buckets[h], name, i);
      s, errs := Symbol(kind, name, decl, false), 0;
      if i == |buckets[h]| {
        PlacedIn(Turned(View(), name), s);
        Insert(s);
        return;
      }
      var existing := buckets[h][i];
      match Merge(existing, kind, decl) {
        case Keep => s := existing;
        case Adopt(sym) =>
          SetFirstAt(buckets[h], name, sym, i);
          buckets[h] := buckets[h][i := sym];
          assert buckets[..] == old(View()).buckets[h := SetFirst(old(View()).buckets[h], name, sym)];
          s := sym;
          AdoptedFirst(old(View()), name, kind, decl);
        case Register =>
          PlacedIn(Turned(View(), name), s);
          Insert(s);
        case Redefinition =>
          s := existing;
          errs := 1;
      }
    }

    /** scope_lookup_ex: `chain` is the scope and its parents, innermost first. */
    static method LookupEx(chain: seq<Scope>, name: string, flags: Filter) returns (found: bool, s: Symbol, level: nat)
      requires forall k :: 0 <= k < |chain| ==> chain[k].Valid()
      ensures forall k :: 0 <= k < |chain| ==> chain[k].Valid()
      ensures found ==> level < |chain| && chain[level].Match(name, flags) == [s]
      ensures forall k :: 0 <= k < (if found then level else |chain|) ==> chain[k].Match(name, flags) == []
    {
      hide Slot, Ok;
      s := Symbol(Var, name, NoDecl, false);
      for k := 0 to |chain|
        invariant forall j :: 0 <= j < k ==> chain[j].Match(name, flags) == []
      {
        var here, sym := chain[k].LookupFiltered(name, flags);
        if here { return true, sym, k; }
      }
      return false, s, 0;
    }

    method LookupFiltered(name: string, flags: Filter) returns (found: bool, s: Symbol)
      requires Valid()
      ensures Match(name, flags) == if found then [s] else []
    {
      hide Ok;
      var hash := Hash(name);
      var h := hash % buckets.Length;
      var rest := buckets[h];
      while rest != []
        invariant First(Of(rest, name), flags) == Match(name, flags)
      {
        FirstOf(rest, name, flags);
        if rest[0].name == name && Passes(rest[0], flags) { return true, rest[0]; }
        rest := rest[1..];
      }
      return false, Symbol(Var, name, NoDecl, false);
    }
  }

  lemma FirstOf(chain: Chain, name: string, flags: Filter)
    requires chain != []
    ensures First(Of(chain, name), flags) ==
              if chain[0].name == name && Passes(chain[0], flags) then [chain[0]] else First(Of(chain[1..], name), flags)
  {
    var rest := Of(chain[1..], name);
    if chain[0].name == name {
      assert Of(chain, name) == [chain[0]] + rest;
      assert Of(chain, name)[1..] == rest;
    } else {
      assert Of(chain, name) == [] + rest == rest;
    }
  }

  lemma SlotIsHash(name: string, n: nat)
    requires n > 0
    ensures SymHash(name) % n == Slot(name, n)
  {}

  lemma FoundAt(chain: Chain, name: string, i: nat)
    requires i <= |chain| && Of(chain[..i], name) == [] && (i < |chain| ==> chain[i].name == name)
    ensures if i == |chain| then Of(chain, name) == [] else Of(chain, name) != [] && Of(chain, name)[0] == chain[i]
  {
    if i == |chain| {
      assert chain[..i] == chain;
    } else {
      assert chain == chain[..i] + ([chain[i]] + chain[i + 1..]);
      OfConcat(chain[..i], [chain[i]] + chain[i + 1..], name);
      OfCons(chain[i], chain[i + 1..], name);
    }
  }

  lemma {:induction false} SetFirstAt(chain: Chain, name: string, s: Symbol, i: nat)
    requires i < |chain| && chain[i].name == name && Of(chain[..i], name) == []
    ensures SetFirst(chain, name, s) == chain[i := s]
    decreases |chain|
  {
    if i > 0 {
      assert chain[..i] == [chain[0]] + chain[1..][..i - 1];
      OfCons(chain[0], chain[1..][..i - 1], name);
      SetFirstAt(chain[1..], name, s, i - 1);
    }
  }

  lemma PlacedIn(list: Chain, s: Symbol)
    ensures s in Placed(list, s)
  {}

  lemma AdoptedFirst(t: Table, name: string, kind: Kind, decl: Decl)
    requires t.buckets != [] && Named(t, name) != [] && Merge(Named(t, name)[0], kind, decl).Adopt?
    ensures Merge(Named(t, name)[0], kind, decl).sym in Declared(Named(t, name), name, kind, decl).0
    ensures !Registers(t, name, kind, decl)
  {
    hide Merge;
  }
}
