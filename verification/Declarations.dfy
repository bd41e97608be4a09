/** What scope_define does with the declarations of one name: merge, replace, register beside, or
    report a redefinition. */
module Declarations {
  datatype Kind = Var | Func | Type | Param | Field | Method | GenericParam | Builtin

  /** A declaration node as far as the symbol table looks at it; `id` tells nodes apart. */
  datatype Decl =
    | NoDecl
    | FuncDef(id: nat, body: bool, isOperator: bool)
    | VarDecl(id: nat, isExtern: bool, init: bool)
    | StructDef(id: nat, body: bool)
    | EnumDef(id: nat, items: bool)
    | Typedef(id: nat, target: string)
    | OtherDecl(id: nat)

  datatype Symbol = Symbol(kind: Kind, name: string, decl: Decl, wasTypedef: bool)

  /** What becomes of a declaration whose name is taken: the symbol stays, or takes this value;
      a second symbol is registered; or it is an error. */
  datatype Outcome = Keep | Adopt(sym: Symbol) | Register | Redefinition

  /** Two functions: a prototype gives way to a definition. */
  function MergeFuncs(e: Symbol, decl: Decl): Outcome
    requires decl.FuncDef? && e.decl.FuncDef?
  {
    if !decl.body then Keep
    else if !e.decl.body then Adopt(e.(decl := decl))
    else if decl.isOperator && e.decl.isOperator then Register
    else Redefinition
  }

  /** Two variables: extern gives way to tentative, and tentative to initialised. */
  function MergeVars(e: Symbol, decl: Decl): Outcome
    requires decl.VarDecl? && e.decl.VarDecl?
  {
    var was := e.decl;
    if was.isExtern && !decl.isExtern then Adopt(e.(decl := decl))
    else if !was.isExtern && decl.isExtern then Keep
    else if (was.isExtern && decl.isExtern) || (!was.init && !decl.init) then Keep
    else if !was.init && decl.init then Adopt(e.(decl := decl))
    else if was.init && !decl.init then Keep
    else Redefinition
  }

  predicate SelfTypedef(decl: Decl, name: string) { decl.Typedef? && decl.target == name }

  /** Two types. */
  function MergeTypes(e: Symbol, decl: Decl): Outcome {
    var (was, name) := (e.decl, e.name);
    if SelfTypedef(was, name) && decl.StructDef? then Adopt(e.(decl := decl, wasTypedef := true))
    else if was.StructDef? && SelfTypedef(decl, name) then Adopt(e.(wasTypedef := true))
    else if was.EnumDef? && decl.Typedef? then Keep
    else if was.Typedef? && decl.EnumDef? then Adopt(e.(decl := decl))
    else if was.EnumDef? && decl.EnumDef? && !was.items && decl.items then Adopt(e.(decl := decl))
    else if was.StructDef? && decl.StructDef? && decl.body && !was.body then Adopt(e.(decl := decl))
    else if was.StructDef? != decl.StructDef? then Register
    else Keep
  }

  function Merge(e: Symbol, kind: Kind, decl: Decl): Outcome {
    match (e.kind, kind)
    case (Func, Func) => if decl.FuncDef? && e.decl.FuncDef? then MergeFuncs(e, decl) else Redefinition
    case (Var, Func) => if decl.FuncDef? then Adopt(e.(kind := Func, decl := decl)) else Redefinition
    case (Var, Var) => if decl.VarDecl? && e.decl.VarDecl? then MergeVars(e, decl) else Redefinition
    case (Type, Type) => MergeTypes(e, decl)
    case (Type, Func) | (Func, Type) | (Type, Var) | (Var, Type) => Register
    case _ => Redefinition
  }

  predicate Ordinary(s: Symbol) {
    s.kind == Var || s.kind == Func || (s.kind == Type && s.decl != NoDecl && !s.decl.StructDef?)
  }

  /** Where a new symbol goes among those of its name: in front, except that a struct goes behind
      an ordinary identifier. */
  function Placed(list: seq<Symbol>, s: Symbol): seq<Symbol> {
    if s.decl.StructDef? && (exists i :: 0 <= i < |list| && Ordinary(list[i])) then list + [s] else [s] + list
  }

  /** scope_define seen by one name: its symbols afterwards, and the errors reported. */
  function Declared(list: seq<Symbol>, name: string, kind: Kind, decl: Decl): (seq<Symbol>, nat) {
    var entry := Symbol(kind, name, decl, false);
    if list == [] then ([entry], 0)
    else
      match Merge(list[0], kind, decl)
      case Keep => (list, 0)
      case Adopt(s) => ([s] + list[1..], 0)
      case Register => (Placed(list, entry), 0)
      case Redefinition => (list, 1)
  }

  function DeclareAll(name: string, kind: Kind, ds: seq<Decl>): (seq<Symbol>, nat) {
    if ds == [] then ([], 0)
    else
      var (list, errs) := DeclareAll(name, kind, ds[..|ds| - 1]);
      var (after, more) := Declared(list, name, kind, ds[|ds| - 1]);
      (after, errs + more)
  }

  // ---- the declarations that C lets stand together ----

  /** Functions; variables, with no initialiser on an extern; a struct and its typedef; an enum
      and its typedef. */
  predicate OneFamily(name: string, kind: Kind, ds: seq<Decl>) {
    match kind
    case Func => forall i :: 0 <= i < |ds| ==> ds[i].FuncDef? && !ds[i].isOperator
    case Var => forall i :: 0 <= i < |ds| ==> ds[i].VarDecl? && !(ds[i].isExtern && ds[i].init)
    case Type =>
      (forall i :: 0 <= i < |ds| ==> ds[i].StructDef? || SelfTypedef(ds[i], name)) ||
      (forall i :: 0 <= i < |ds| ==> ds[i].EnumDef? || SelfTypedef(ds[i], name))
    case _ => false
  }

  /** A full definition: a function with a body, a variable with an initialiser, a struct or an
      enum with members. */
  predicate Full(d: Decl) {
    (d.FuncDef? && d.body) || (d.VarDecl? && d.init) || (d.StructDef? && d.body) || (d.EnumDef? && d.items)
  }

  /** How much a declaration says: a full definition most, a bare mention least. */
  function Rank(d: Decl): nat {
    if Full(d) then 2
    else if d.Typedef? || (d.VarDecl? && d.isExtern) then 0
    else 1
  }

  function Fulls(ds: seq<Decl>): nat {
    if ds == [] then 0 else Fulls(ds[..|ds| - 1]) + if Full(ds[|ds| - 1]) then 1 else 0
  }

  /** d is the first of the declarations that say most. */
  predicate SaysMost(ds: seq<Decl>, d: Decl) {
    exists i :: 0 <= i < |ds| && FirstMost(ds, i) && ds[i] == d
  }

  predicate FirstMost(ds: seq<Decl>, i: nat)
    requires i < |ds|
  {
    forall j :: 0 <= j < |ds| ==> Rank(ds[j]) <= Rank(ds[i]) && (j < i ==> Rank(ds[j]) < Rank(ds[i]))
  }

  predicate HasTypedef(ds: seq<Decl>) { exists i :: 0 <= i < |ds| && ds[i].Typedef? }

  predicate HasStruct(ds: seq<Decl>) { exists i :: 0 <= i < |ds| && ds[i].StructDef? }

  function Before(n: nat): nat { if n == 0 then 0 else n - 1 }

  lemma SnocMost(ds: seq<Decl>, i: nat, d: Decl)
    requires i < |ds| && FirstMost(ds, i)
    ensures FirstMost(ds + [d], if Rank(d) > Rank(ds[i]) then |ds| else i)
  {
    var all := ds + [d];
    forall j | 0 <= j < |all| ensures Rank(all[j]) <= Rank(d) || Rank(all[j]) <= Rank(ds[i]) {
      if j < |ds| { assert all[j] == ds[j]; }
    }
  }

  lemma SnocHas(ds: seq<Decl>, d: Decl)
    ensures HasTypedef(ds + [d]) <==> HasTypedef(ds) || d.Typedef?
    ensures HasStruct(ds + [d]) <==> HasStruct(ds) || d.StructDef?
  {
    var all := ds + [d];
    assert all[|ds|] == d;
    if HasTypedef(ds) {
      var i :| 0 <= i < |ds| && ds[i].Typedef?;
      assert all[i].Typedef?;
    }
    if HasStruct(ds) {
      var i :| 0 <= i < |ds| && ds[i].StructDef?;
      assert all[i].StructDef?;
    }
  }

  /** The symbol that a family of declarations has led to. */
  predicate Reflects(s: Symbol, name: string, kind: Kind, ds: seq<Decl>) {
    s.name == name && s.kind == kind && SaysMost(ds, s.decl)
    && (s.wasTypedef <==> HasTypedef(ds) && HasStruct(ds))
  }

  lemma MergeStep(s: Symbol, name: string, kind: Kind, ds: seq<Decl>, d: Decl)
    requires OneFamily(name, kind, ds + [d]) && ds != [] && Reflects(s, name, kind, ds)
    ensures var (list, errs) := Declared([s], name, kind, d);
            |list| == 1 && Reflects(list[0], name, kind, ds + [d])
            && errs == if kind != Type && Full(s.decl) && Full(d) then 1 else 0
  {
    hide HasTypedef, HasStruct, FirstMost;
    var i :| 0 <= i < |ds| && FirstMost(ds, i) && ds[i] == s.decl;
    var all := ds + [d];
    assert all[i] == ds[i] && all[|ds|] == d;
    SnocMost(ds, i, d);
    SnocHas(ds, d);
    FamilyPrefix(name, kind, ds, d);
    FamilyHas(name, kind, ds, i);
    var (list, errs) := Declared([s], name, kind, d);
    assert list[0].decl == all[if Rank(d) > Rank(ds[i]) then |ds| else i];
  }

  /** In the families of types a struct is kept from the moment there is one. */
  lemma FamilyHas(name: string, kind: Kind, ds: seq<Decl>, i: nat)
    requires OneFamily(name, kind, ds) && i < |ds| && FirstMost(ds, i)
    ensures ds[i].Typedef? ==> HasTypedef(ds) && !HasStruct(ds)
    ensures ds[i].StructDef? ==> HasStruct(ds)
    ensures !ds[i].StructDef? ==> !HasStruct(ds)
  {
    if HasStruct(ds) {
      var j :| 0 <= j < |ds| && ds[j].StructDef?;
      assert Rank(ds[j]) <= Rank(ds[i]);
    }
  }

  lemma SnocFulls(ds: seq<Decl>, i: nat)
    requires i < |ds| && FirstMost(ds, i)
    ensures Full(ds[i]) <==> Fulls(ds) > 0
  {
    if Fulls(ds) > 0 {
      var j := SomeFull(ds);
      assert Rank(ds[j]) <= Rank(ds[i]);
    }
    if Full(ds[i]) {
      FullCounts(ds, i);
    }
  }

  lemma {:induction false} SomeFull(ds: seq<Decl>) returns (j: nat)
    requires Fulls(ds) > 0
    ensures j < |ds| && Full(ds[j])
  {
    if Full(ds[|ds| - 1]) {
      j := |ds| - 1;
    } else {
      j := SomeFull(ds[..|ds| - 1]);
    }
  }

  lemma {:induction false} FullCounts(ds: seq<Decl>, i: nat)
    requires i < |ds| && Full(ds[i])
    ensures Fulls(ds) > 0
  {
    if i < |ds| - 1 {
      FullCounts(ds[..|ds| - 1], i);
    }
  }

  /** Any sequence of declarations of one family, in any order, leaves one symbol, bound to the
      first of the declarations that say most - a full definition if there is one. Functions and
      variables get an error for each full definition after the first, types never any. */
  lemma {:induction false} FamilyMerges(name: string, kind: Kind, ds: seq<Decl>)
    requires ds != [] && OneFamily(name, kind, ds)
    ensures var (list, errs) := DeclareAll(name, kind, ds);
            |list| == 1 && Reflects(list[0], name, kind, ds)
            && errs == if kind == Type then 0 else Before(Fulls(ds))
    decreases |ds|
  {
    hide Reflects, Declared, OneFamily;
    var (init, d) := (ds[..|ds| - 1], ds[|ds| - 1]);
    assert ds == init + [d];
    if init == [] {
      FirstDeclared(name, kind, d);
      assert DeclareAll(name, kind, []) == ([], 0);
      assert Fulls([]) == 0;
    } else {
      FamilyPrefix(name, kind, init, d);
      FamilyMerges(name, kind, init);
      var s := DeclareAll(name, kind, init).0[0];
      assert DeclareAll(name, kind, init).0 == [s];
      MergeStep(s, name, kind, init, d);
      MostFull(s, name, kind, init);
    }
  }

  lemma FirstDeclared(name: string, kind: Kind, d: Decl)
    ensures Declared([], name, kind, d) == ([Symbol(kind, name, d, false)], 0)
    ensures Reflects(Symbol(kind, name, d, false), name, kind, [d])
  {
    assert FirstMost([d], 0) && [d][0] == d;
  }

  lemma FamilyPrefix(name: string, kind: Kind, ds: seq<Decl>, d: Decl)
    requires OneFamily(name, kind, ds + [d])
    ensures OneFamily(name, kind, ds)
  {
    var all := ds + [d];
    assert forall i :: 0 <= i < |ds| ==> all[i] == ds[i];
  }

  lemma MostFull(s: Symbol, name: string, kind: Kind, ds: seq<Decl>)
    requires Reflects(s, name, kind, ds)
    ensures Full(s.decl) <==> Fulls(ds) > 0
  {
    var i :| 0 <= i < |ds| && FirstMost(ds, i) && ds[i] == s.decl;
    SnocFulls(ds, i);
  }

  /** With at most one full definition there is no error, and it is the one the name is bound to. */
  lemma DefinitionWins(name: string, kind: Kind, ds: seq<Decl>, k: nat)
    requires OneFamily(name, kind, ds) && k < |ds| && Full(ds[k]) && Fulls(ds) == 1
    ensures var (list, errs) := DeclareAll(name, kind, ds);
            |list| == 1 && list[0].decl == ds[k] && errs == 0
  {
    FamilyMerges(name, kind, ds);
    var s := DeclareAll(name, kind, ds).0[0];
    var i :| 0 <= i < |ds| && FirstMost(ds, i) && ds[i] == s.decl;
    assert Rank(ds[k]) <= Rank(ds[i]);
    if i != k {
      TwoFulls(ds, i, k);
    }
  }

  lemma {:induction false} TwoFulls(ds: seq<Decl>, i: nat, k: nat)
    requires i < |ds| && k < |ds| && i != k && Full(ds[i]) && Full(ds[k])
    ensures Fulls(ds) >= 2
  {
    var n := |ds| - 1;
    if i == n {
      FullCounts(ds[..n], k);
    } else if k == n {
      FullCounts(ds[..n], i);
    } else {
      TwoFulls(ds[..n], i, k);
    }
  }

  // ---- where the merging does less than C asks ----

  /** Two bodies for one struct raise no error, and the first stays. */
  lemma StructRedefinitionSilent(name: string, a: nat, b: nat)
    ensures var ds := [StructDef(a, true), StructDef(b, true)];
            DeclareAll(name, Type, ds) == ([Symbol(Type, name, ds[0], false)], 0) && Fulls(ds) == 2
  {
    var ds := [StructDef(a, true), StructDef(b, true)];
    assert ds[..1] == [ds[0]] && ds[..1][..0] == [];
    assert Fulls(ds[..1]) == 1;
    assert DeclareAll(name, Type, ds[..1]) == ([Symbol(Type, name, ds[0], false)], 0);
  }

  /** Variables whose one initialiser is on an extern declaration. */
  predicate ExternInitialised(ds: seq<Decl>, k: nat) {
    k < |ds| && (forall i :: 0 <= i < |ds| ==> ds[i].VarDecl? && (ds[i].init <==> i == k)) && ds[k].isExtern
  }

  predicate AllExtern(ds: seq<Decl>) { forall i :: 0 <= i < |ds| ==> ds[i].VarDecl? && ds[i].isExtern }

  /** Among variables with at most one initialiser, an extern one, the name is bound to the first
      declaration that is not extern, or to the first of all if there is none. */
  lemma {:induction false} ExternMerges(name: string, ds: seq<Decl>, k: nat)
    requires ds != []
    requires forall i :: 0 <= i < |ds| ==> ds[i].VarDecl? && (ds[i].init ==> i == k && ds[i].isExtern)
    ensures var (list, errs) := DeclareAll(name, Var, ds);
            errs == 0 && exists i :: 0 <= i < |ds| && list == [Symbol(Var, name, ds[i], false)] && FirstDefined(ds, i)
    decreases |ds|
  {
    var (init, d) := (ds[..|ds| - 1], ds[|ds| - 1]);
    if init == [] {
      assert DeclareAll(name, Var, init) == ([], 0);
      assert FirstDefined(ds, 0);
    } else {
      ExternMerges(name, init, k);
      var i :| 0 <= i < |init| && DeclareAll(name, Var, init).0 == [Symbol(Var, name, init[i], false)] && FirstDefined(init, i);
      var j := if init[i].isExtern && !d.isExtern then |init| else i;
      var e := Symbol(Var, name, init[i], false);
      assert ds[i] == init[i] && [e][1..] == [];
      assert Declared([e], name, Var, d).0 == [Symbol(Var, name, ds[j], false)];
      assert Declared([e], name, Var, d) == ([Symbol(Var, name, ds[j], false)], 0);
      assert FirstDefined(ds, j);
    }
  }

  predicate FirstDefined(ds: seq<Decl>, i: nat)
    requires i < |ds| && forall j :: 0 <= j < |ds| ==> ds[j].VarDecl?
  {
    if ds[i].isExtern then i == 0 && AllExtern(ds) else AllExtern(ds[..i])
  }

  /** An initialiser on an extern declaration is lost, unless that declaration is the first and
      all the others are extern as well. */
  lemma ExternInitialiserKept(name: string, ds: seq<Decl>, k: nat)
    requires ExternInitialised(ds, k)
    ensures var (list, errs) := DeclareAll(name, Var, ds);
            errs == 0 && |list| == 1 && list[0].decl.VarDecl? && (list[0].decl.init <==> k == 0 && AllExtern(ds))
  {
    ExternMerges(name, ds, k);
    var i :| 0 <= i < |ds| && DeclareAll(name, Var, ds).0 == [Symbol(Var, name, ds[i], false)] && FirstDefined(ds, i);
  }

  // ---- one name in two roles ----

  /** An ordinary identifier and a struct of one name live side by side, whichever comes first, and a
      lookup of the bare name finds the ordinary one. */
  lemma TagBesideOrdinary(name: string, kind: Kind, ordinary: Decl, tag: Decl)
    requires tag.StructDef? && ordinary != NoDecl && !ordinary.StructDef?
    requires kind == Var || kind == Func || (kind == Type && ordinary.Typedef? && ordinary.target != name)
    ensures var both := [Symbol(kind, name, ordinary, false), Symbol(Type, name, tag, false)];
            Declared([both[0]], name, Type, tag) == (both, 0) && Declared([both[1]], name, kind, ordinary) == (both, 0)
  {
    var both := [Symbol(kind, name, ordinary, false), Symbol(Type, name, tag, false)];
    assert [both[0]][0] == both[0] && Ordinary([both[0]][0]) && !Ordinary([both[1]][0]);
    assert [both[0]] + [both[1]] == both;
  }

  /** An enum or typedef beside a function or variable: both stay, the later one is found. */
  lemma TypeBesideOrdinary(name: string, kind: Kind, ordinary: Decl, ty: Decl)
    requires (kind == Var || kind == Func) && !ordinary.StructDef? && (ty.EnumDef? || ty.Typedef?)
    ensures var (o, t) := (Symbol(kind, name, ordinary, false), Symbol(Type, name, ty, false));
            Declared([o], name, Type, ty) == ([t, o], 0) && Declared([t], name, kind, ordinary) == ([o, t], 0)
  {
    var (o, t) := (Symbol(kind, name, ordinary, false), Symbol(Type, name, ty, false));
    assert [t] + [o] == [t, o] && [o] + [t] == [o, t];
  }

  /** A function takes over a variable of its name, which a function typedef may have declared; a variable
      behind a function is an error. */
  lemma FunctionBesideVariable(name: string, f: Decl, v: Decl)
    requires f.FuncDef? && v.VarDecl?
    ensures Declared([Symbol(Var, name, v, false)], name, Func, f) == ([Symbol(Func, name, f, false)], 0)
    ensures Declared([Symbol(Func, name, f, false)], name, Var, v) == ([Symbol(Func, name, f, false)], 1)
  {
    assert [Symbol(Func, name, f, false)] + [Symbol(Var, name, v, false)][1..] == [Symbol(Func, name, f, false)];
  }

  /** Two definitions of one operator are overloads: both stay, the later one first. */
  lemma OperatorsOverload(name: string, f: Decl, g: Decl)
    requires f.FuncDef? && g.FuncDef? && f.body && g.body && f.isOperator && g.isOperator
    ensures var (a, b) := (Symbol(Func, name, f, false), Symbol(Func, name, g, false)); Declared([a], name, Func, g) == ([b, a], 0)
  {
    var (a, b) := (Symbol(Func, name, f, false), Symbol(Func, name, g, false));
    assert [b] + [a] == [b, a];
  }

  /** A parameter, a field, a method, a generic parameter or a builtin cannot be declared again, nor can
      anything take its name: one error, and the first declaration stays. */
  lemma OtherKindsClash(name: string, kind: Kind, d: Decl, e: Symbol)
    requires e.name == name && (kind in {Param, Field, Method, GenericParam, Builtin} || e.kind in {Param, Field, Method, GenericParam, Builtin})
    ensures Declared([e], name, kind, d) == ([e], 1)
  {}

  /** A second enum body or another typedef raises no error; the first stays. */
  lemma TypesAgainSilent(name: string, a: Decl, b: Decl)
    requires (a.EnumDef? && b.EnumDef? && a.items) || (a.Typedef? && b.Typedef?)
    ensures Declared([Symbol(Type, name, a, false)], name, Type, b) == ([Symbol(Type, name, a, false)], 0)
  {}

  /** A function or variable that is not declared as one clashes with any other of its name. */
  lemma OddDeclarationClash(name: string, kind: Kind, d: Decl, e: Symbol)
    requires e.name == name && (kind == Func || kind == Var) && (e.kind == Func || e.kind == Var)
    requires if kind == Func then !d.FuncDef? || (e.kind == Func && !e.decl.FuncDef?)
             else e.kind == Func || !d.VarDecl? || !e.decl.VarDecl?
    ensures Declared([e], name, kind, d) == ([e], 1)
  {}

  /** A struct goes in front of a type that has no declaration. */
  lemma StructBeforeBare(name: string, tag: Decl)
    requires tag.StructDef?
    ensures var (t, b) := (Symbol(Type, name, tag, false), Symbol(Type, name, NoDecl, false));
            Declared([b], name, Type, tag) == ([t, b], 0)
  {
    var (t, b) := (Symbol(Type, name, tag, false), Symbol(Type, name, NoDecl, false));
    assert [t] + [b] == [t, b] && !Ordinary(b);
  }
}
