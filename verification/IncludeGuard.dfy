/** Inclusion of files, and the shortcut that leaves out a file whose include guard is known and
    whose guard macro is defined. */
module IncludeGuard {
  import opened Conditional

  datatype Item = Cond(d: Directive) | Include(file: string)

  /** The files there are, and the limit on nested inclusion. */
  datatype Sources = Sources(files: map<string, seq<Item>>, maxDepth: nat)

  /** The preprocessor's state: what the conditional machine holds, the guards registered, and
      for the file being read the guard candidate and whether its #define was seen. */
  datatype Cpp = Cpp(core: State, guards: map<string, string>, cand: Subject, confirmed: bool)

  /** handle_include after the file was read: an unbalanced file is an error, and the frames it
      left open are taken off. */
  function Leave(before: nat, s: State): State {
    if Depth(s) < before then Fail(s, 1)
    else if Depth(s) > before then Fail(s.(frames := s.frames[..before], over := false), 1)
    else s
  }

  /** guard_already_included */
  predicate Guarded(guards: map<string, string>, file: string, table: Table) {
    file in guards && guards[file] in table
  }

  /** The guard detection in handle_ifdef and handle_define, beside the directive itself. */
  function Tracked(c: Cpp, d: Directive): Cpp {
    var core := Step(c.core, d);
    match d
    case Open(Ifndef(Name(id))) =>
      if Depth(core) == 1 && c.cand.NoName? then Cpp(core, c.guards, Name(id), false) else c.(core := core)
    case Plain(Define(name, _)) =>
      c.(core := core, confirmed := c.confirmed || (Live(c.core.frames) && c.cand == Name(name)))
    case _ => c.(core := core)
  }

  /** process_buf on the items of one file, at inclusion depth `depth`. */
  function Process(src: Sources, items: seq<Item>, c: Cpp, depth: nat): Cpp
    decreases src.maxDepth - depth, |items| + 1
  {
    if items == [] || c.core.fatal then c
    else
      var c1 := match items[0]
        case Cond(d) => Tracked(c, d)
        case Include(file) => if Live(c.core.frames) then DoInclude(src, file, c, depth) else c;
      Process(src, items[1..], c1, depth)
  }

  /** handle_include */
  function DoInclude(src: Sources, file: string, c: Cpp, depth: nat): Cpp
    decreases src.maxDepth - depth, 0
  {
    if depth >= src.maxDepth then c.(core := Fail(c.core, 1).(fatal := true))
    else if Guarded(c.guards, file, c.core.world.table) then c
    else if file !in src.files then c.(core := Fail(c.core, 1))
    else Left(c, file, Process(src, src.files[file], Fresh(c), depth + 1))
  }

  /** The guard detection starts anew in each file. */
  function Fresh(c: Cpp): Cpp { c.(cand := NoName, confirmed := false) }

  /** Back in state c's file, from the state r in which the included file was left. */
  function Left(c: Cpp, file: string, r: Cpp): Cpp {
    var before := |c.core.frames|;
    var guards := if r.confirmed && Depth(r.core) == before && r.cand.Name? then r.guards[file := r.cand.id] else r.guards;
    Cpp(Leave(before, r.core), guards, c.cand, c.confirmed)
  }

  /** The same without the shortcut: every inclusion reads its file. */
  function Plainly(src: Sources, items: seq<Item>, s: State, depth: nat): State
    decreases src.maxDepth - depth, |items| + 1
  {
    if items == [] || s.fatal then s
    else
      var s1 := match items[0]
        case Cond(d) => Step(s, d)
        case Include(file) => if Live(s.frames) then IncludePlainly(src, file, s, depth) else s;
      Plainly(src, items[1..], s1, depth)
  }

  function IncludePlainly(src: Sources, file: string, s: State, depth: nat): State
    decreases src.maxDepth - depth, 0
  {
    if depth >= src.maxDepth then Fail(s, 1).(fatal := true)
    else if file !in src.files then Fail(s, 1)
    else Leave(|s.frames|, Plainly(src, src.files[file], s, depth + 1))
  }

  // ---- what a file must look like ----

  /** The items close every group they open and no other; for each group open on entry, `elses`
      says whether its #else has been seen. */
  predicate Nested(items: seq<Item>, elses: seq<bool>)
    decreases |items|
  {
    if items == [] then elses == []
    else
      match items[0]
      case Cond(Open(t)) => (!t.If? ==> t.subject.Name?) && Nested(items[1..], elses + [false])
      case Cond(Elif(_)) => elses != [] && !elses[|elses| - 1] && Nested(items[1..], elses)
      case Cond(Else) =>
        elses != [] && !elses[|elses| - 1] && Nested(items[1..], elses[..|elses| - 1] + [true])
      case Cond(Endif) => elses != [] && Nested(items[1..], elses[..|elses| - 1])
      case _ => Nested(items[1..], elses)
  }

  predicate DefinesAt(item: Item, x: string) {
    item.Cond? && item.d.Plain? && item.d.line.Define? && item.d.line.name == x
  }

  predicate GuardsWith(item: Item, x: string) {
    item.Cond? && item.d.Open? && item.d.test.Ifndef? && item.d.test.subject == Name(x)
  }

  predicate Defines(items: seq<Item>, x: string) { exists i :: 0 <= i < |items| && DefinesAt(items[i], x) }

  /** The canonical header: `#ifndef X`, `#define X`, a properly nested body, `#endif`. */
  predicate Canonical(items: seq<Item>, x: string) {
    |items| >= 3 && GuardsWith(items[0], x) && DefinesAt(items[1], x)
    && Nested(items[1..|items| - 1], []) && items[|items| - 1].Cond? && items[|items| - 1].d.Endif?
  }

  /** The name after the first #ifndef that stands outside every group of the file. */
  function FirstGuard(items: seq<Item>, level: nat): Subject {
    if items == [] then NoName
    else
      match items[0]
      case Cond(Open(t)) =>
        if level == 0 && t.Ifndef? && t.subject.Name? then t.subject else FirstGuard(items[1..], level + 1)
      case Cond(Endif) => FirstGuard(items[1..], if level == 0 then 0 else level - 1)
      case _ => FirstGuard(items[1..], level)
  }

  /** A file that is properly nested and, if it defines the name of its first #ifndef at all, is
      a canonical header for it. */
  predicate Sound(items: seq<Item>) {
    Nested(items, []) &&
    (var g := FirstGuard(items, 0); g.Name? && Defines(items, g.id) ==> Canonical(items, g.id))
  }

  predicate AllSound(src: Sources) { forall f :: f in src.files ==> Sound(src.files[f]) }

  predicate AllNested(src: Sources) { forall f :: f in src.files ==> Nested(src.files[f], []) }

  /** What is registered for a file: the name of its first #ifndef outside every group, which it defines. */
  predicate GuardOf(items: seq<Item>, x: string) { FirstGuard(items, 0) == Name(x) && Defines(items, x) }

  predicate GuardsKnown(src: Sources, guards: map<string, string>) {
    forall f :: f in guards ==> f in src.files && GuardOf(src.files[f], guards[f])
  }

  predicate GuardsSound(src: Sources, guards: map<string, string>) {
    forall f :: f in guards ==> f in src.files && Canonical(src.files[f], guards[f])
  }

  /** Among sound files, the guards registered are those of canonical headers. */
  lemma SoundGuards(src: Sources, guards: map<string, string>)
    requires AllSound(src)
    ensures AllNested(src) && (GuardsKnown(src, guards) <==> GuardsSound(src, guards))
  {
    hide Nested, Defines;
    forall f, x | f in src.files && Canonical(src.files[f], x) ensures GuardOf(src.files[f], x) {
      DefinesIn(src.files[f][1], src.files[f], x);
    }
    assert forall f :: f in src.files ==> Sound(src.files[f]);
  }

  // ---- a dead file does nothing ----

  lemma {:induction false} PlainlyConcat(src: Sources, a: seq<Item>, b: seq<Item>, s: State, depth: nat)
    ensures Plainly(src, a + b, s, depth) == Plainly(src, b, Plainly(src, a, s, depth), depth)
    decreases |a|
  {
    hide Step, Live, IncludePlainly;
    if a == [] || s.fatal {
      assert a == [] ==> a + b == b;
    } else {
      assert (a + b)[0] == a[0] && (a + b)[1..] == a[1..] + b;
      PlainlyConcat(src, a[1..], b, AfterItem(src, a[0], s, depth), depth);
    }
  }

  function AfterItem(src: Sources, item: Item, s: State, depth: nat): State {
    match item
    case Cond(d) => Step(s, d)
    case Include(file) => if Live(s.frames) then IncludePlainly(src, file, s, depth) else s
  }

  /** The frames of the groups open inside a dead place, as the machine holds them. */
  predicate Opened(frames: seq<Frame>, outer: seq<Frame>, elses: seq<bool>) {
    |frames| == |outer| + |elses| && frames[..|outer|] == outer
    && forall i :: 0 <= i < |elses| ==> frames[|outer| + i].hasElse == elses[i]
  }

  lemma DeadStep(s: State, d: Directive, outer: seq<Frame>, elses: seq<bool>, elses1: seq<bool>)
    requires !s.fatal && Opened(s.frames, outer, elses) && !Live(outer)
    requires match d
             case Open(t) => (!t.If? ==> t.subject.Name?) && elses1 == elses + [false]
             case Elif(_) => elses != [] && !elses[|elses| - 1] && elses1 == elses
             case Else => elses != [] && !elses[|elses| - 1] && elses1 == elses[..|elses| - 1] + [true]
             case Endif => elses != [] && elses1 == elses[..|elses| - 1]
             case Plain(_) => elses1 == elses
    ensures Step(s, d).fatal || (Opened(Step(s, d).frames, outer, elses1) && Step(s, d) == s.(frames := Step(s, d).frames))
  {
    hide DoLine, IsDefined;
    var i :| 0 <= i < |outer| && !outer[i].live;
    assert !s.frames[i].live;
    assert elses != [] ==> !Outer(s.frames)[i].live;
  }

  lemma {:induction false} DeadItems(src: Sources, items: seq<Item>, s: State, depth: nat, outer: seq<Frame>, elses: seq<bool>)
    requires !s.fatal && Opened(s.frames, outer, elses) && !Live(outer) && Nested(items, elses)
    ensures Plainly(src, items, s, depth).fatal || Plainly(src, items, s, depth) == s.(frames := outer)
    decreases |items|
  {
    hide Step, Live, IncludePlainly;
    if items == [] {
      assert s.frames == outer;
    } else {
      DeadNotLive(s.frames, outer);
      var s1 := AfterItem(src, items[0], s, depth);
      var elses1 := match items[0]
        case Cond(Open(_)) => elses + [false]
        case Cond(Else) => elses[..|elses| - 1] + [true]
        case Cond(Endif) => elses[..|elses| - 1]
        case _ => elses;
      if items[0].Cond? {
        DeadStep(s, items[0].d, outer, elses, elses1);
      }
      if !s1.fatal {
        DeadItems(src, items[1..], s1, depth, outer, elses1);
      }
    }
  }

  lemma DeadNotLive(frames: seq<Frame>, outer: seq<Frame>)
    requires !Live(outer) && |outer| <= |frames| && frames[..|outer|] == outer
    ensures !Live(frames)
  {
    var i :| 0 <= i < |outer| && !outer[i].live;
    assert !frames[i].live;
  }

  /** Reading a canonical header whose guard macro is defined changes nothing, unless it breaks
      the limit on nesting. */
  lemma CanonicalSkipped(src: Sources, items: seq<Item>, x: string, s: State, depth: nat)
    requires !s.fatal && Canonical(items, x) && x in s.world.table
    ensures Plainly(src, items, s, depth).fatal || Plainly(src, items, s, depth) == s
  {
    hide IncludePlainly, Nested;
    var body := items[1..|items| - 1];
    assert items[1..] == body + [items[|items| - 1]];
    var s1 := Step(s, items[0].d);
    PlainlyConcat(src, body, [items[|items| - 1]], s1, depth);
    if !s1.fatal {
      var f := Frame(false, false, false);
      LiveSnoc(s.frames, f);
      DeadItems(src, body, s1, depth, s1.frames, []);
      assert Outer(s.frames + [f]) == s.frames;
    }
  }

  // ---- what gets registered ----

  function AfterElses(item: Item, elses: seq<bool>): seq<bool> {
    match item
    case Cond(Open(_)) => elses + [false]
    case Cond(Else) => if elses == [] then [] else elses[..|elses| - 1] + [true]
    case Cond(Endif) => if elses == [] then [] else elses[..|elses| - 1]
    case _ => elses
  }

  /** What the guard detection knows while a file is being read: the candidate, if it has one, is
      the name g of the file's first #ifndef; it is confirmed only if that name is defined in
      the file; and until it has one in an outermost file, g is still ahead. */
  ghost predicate Tracking(c: Cpp, items: seq<Item>, base: nat, level: nat, g: Subject, all: seq<Item>) {
    (c.cand.NoName? || c.cand == g)
    && (c.confirmed ==> c.cand.Name? && Defines(all, c.cand.id))
    && (base > 0 ==> c.cand.NoName?)
    && (base == 0 && c.cand.NoName? ==> FirstGuard(items, level) == g)
    && (forall i :: 0 <= i < |items| ==> items[i] in all)
  }

  lemma DefinesIn(item: Item, all: seq<Item>, x: string)
    requires item in all && DefinesAt(item, x)
    ensures Defines(all, x)
  {
    var i :| 0 <= i < |all| && all[i] == item;
    assert DefinesAt(all[i], x);
  }

  lemma NestedStep(items: seq<Item>, elses: seq<bool>)
    requires items != [] && Nested(items, elses)
    ensures Nested(items[1..], AfterElses(items[0], elses))
    ensures items[0].Cond? && (items[0].d.Elif? || items[0].d.Else? || items[0].d.Endif?) ==> elses != []
  {}

  lemma StepDepth(s: State, d: Directive)
    requires !s.fatal && !s.over && (d.Elif? || d.Else? || d.Endif? ==> s.frames != [])
    ensures var s1 := Step(s, d);
            (d.Open? ==> Depth(s1) == |s.frames| + 1)
            && (s1.fatal || (!s1.over && |s1.frames| == |s.frames| + (if d.Open? then 1 else if d.Endif? then -1 else 0)))
  {
    hide DoLine, IsDefined, Live;
  }

  lemma TrackStep(c: Cpp, items: seq<Item>, base: nat, elses: seq<bool>, g: Subject, all: seq<Item>)
    requires items != [] && items[0].Cond? && !c.core.fatal && !c.core.over
    requires Nested(items, elses) && |c.core.frames| == base + |elses|
    requires Tracking(c, items, base, |elses|, g, all)
    ensures var c1 := Tracked(c, items[0].d);
            Nested(items[1..], AfterElses(items[0], elses)) && c1.guards == c.guards
            && Tracking(c1, items[1..], base, |AfterElses(items[0], elses)|, g, all)
            && (c1.core.fatal || (!c1.core.over && |c1.core.frames| == base + |AfterElses(items[0], elses)|))
  {
    hide Step, Live, Depth, Nested;
    NestedStep(items, elses);
    StepDepth(c.core, items[0].d);
    if DefinesAt(items[0], if c.cand.Name? then c.cand.id else "") {
      DefinesIn(items[0], all, if c.cand.Name? then c.cand.id else "");
    }
  }

  /** Reading a properly nested file keeps the stack, unless it ends the run; what it registers
      is the guard of a file, and what it leaves as candidate the name of its own first #ifndef. */
  lemma {:induction false} FileKeeps(src: Sources, items: seq<Item>, c: Cpp, depth: nat, base: nat, elses: seq<bool>,
                                     g: Subject, all: seq<Item>)
    requires AllNested(src) && GuardsKnown(src, c.guards) && Nested(items, elses)
    requires !c.core.fatal ==> !c.core.over && |c.core.frames| == base + |elses|
    requires Tracking(c, items, base, |elses|, g, all)
    ensures var r := Process(src, items, c, depth);
            GuardsKnown(src, r.guards) && (AllSound(src) ==> GuardsSound(src, r.guards))
            && (r.cand.NoName? || r.cand == g) && (r.confirmed ==> r.cand.Name? && Defines(all, r.cand.id))
            && (!r.core.fatal ==> !r.core.over && |r.core.frames| == base)
    decreases src.maxDepth - depth, |items| + 1
  {
    hide Step, Tracked, DoInclude, Canonical, GuardsKnown, GuardsSound, Live, AllSound, AllNested;
    if AllSound(src) { SoundGuards(src, Process(src, items, c, depth).guards); }
    if items == [] || c.core.fatal {
    } else if items[0].Cond? {
      TrackStep(c, items, base, elses, g, all);
      FileKeeps(src, items[1..], Tracked(c, items[0].d), depth, base, AfterElses(items[0], elses), g, all);
    } else {
      var c1 := if Live(c.core.frames) then DoInclude(src, items[0].file, c, depth) else c;
      if Live(c.core.frames) {
        IncludeKeeps(src, items[0].file, c, depth);
      }
      FileKeeps(src, items[1..], c1, depth, base, elses, g, all);
    }
  }

  lemma {:induction false} IncludeKeeps(src: Sources, file: string, c: Cpp, depth: nat)
    requires AllNested(src) && GuardsKnown(src, c.guards) && !c.core.fatal && !c.core.over
    ensures var r := DoInclude(src, file, c, depth);
            GuardsKnown(src, r.guards) && (AllSound(src) ==> GuardsSound(src, r.guards)) && r.cand == c.cand && r.confirmed == c.confirmed
            && (!r.core.fatal ==> !r.core.over && |r.core.frames| == |c.core.frames|)
    decreases src.maxDepth - depth, 0
  {
    hide Process, Canonical, Nested, Live, GuardsSound, AllSound;
    if AllSound(src) { SoundGuards(src, DoInclude(src, file, c, depth).guards); }
    if depth < src.maxDepth && !Guarded(c.guards, file, c.core.world.table) && file in src.files {
      var (all, c1) := (src.files[file], Fresh(c));
      FileKeeps(src, all, c1, depth + 1, |c.core.frames|, [], FirstGuard(all, 0), all);
      assert Nested(all, []);
    }
  }

  // ---- the shortcut is invisible ----

  /** Over any run in which every file is sound, leaving out guarded files gives the same output,
      macro table, errors and conditional stack as reading them all, unless reading them all
      runs into a limit. */
  lemma {:induction false} ShortcutInvisible(src: Sources, items: seq<Item>, c: Cpp, depth: nat)
    requires AllSound(src) && GuardsSound(src, c.guards) && (c.core.over ==> c.core.fatal)
    ensures Plainly(src, items, c.core, depth).fatal || Process(src, items, c, depth).core == Plainly(src, items, c.core, depth)
    decreases src.maxDepth - depth, |items| + 1
  {
    hide Step, DoInclude, IncludePlainly, Live, GuardsKnown, GuardsSound, AllSound, AllNested;
    SoundGuards(src, c.guards);
    if items == [] || c.core.fatal {
    } else if items[0].Cond? {
      TrackedCore(src, c, items[0].d);
      ShortcutInvisible(src, items[1..], Tracked(c, items[0].d), depth);
    } else if Live(c.core.frames) {
      var s1 := IncludePlainly(src, items[0].file, c.core, depth);
      IncludeKeeps(src, items[0].file, c, depth);
      IncludeInvisible(src, items[0].file, c, depth);
      if s1.fatal {
        assert Plainly(src, items[1..], s1, depth) == s1;
      } else {
        ShortcutInvisible(src, items[1..], DoInclude(src, items[0].file, c, depth), depth);
      }
    } else {
      ShortcutInvisible(src, items[1..], c, depth);
    }
  }

  lemma TrackedCore(src: Sources, c: Cpp, d: Directive)
    requires !c.core.fatal && !c.core.over
    ensures Tracked(c, d).core == Step(c.core, d) && Tracked(c, d).guards == c.guards
    ensures Step(c.core, d).over ==> Step(c.core, d).fatal
  {
    hide DoLine, Live, IsDefined;
  }

  lemma {:induction false} IncludeInvisible(src: Sources, file: string, c: Cpp, depth: nat)
    requires AllSound(src) && GuardsSound(src, c.guards) && !c.core.fatal && !c.core.over
    ensures IncludePlainly(src, file, c.core, depth).fatal
            || DoInclude(src, file, c, depth).core == IncludePlainly(src, file, c.core, depth)
    decreases src.maxDepth - depth, 0
  {
    hide Process, Plainly, Canonical, Live, AllSound;
    if depth >= src.maxDepth {
    } else if Guarded(c.guards, file, c.core.world.table) {
      CanonicalSkipped(src, src.files[file], c.guards[file], c.core, depth + 1);
    } else if file in src.files {
      ShortcutInvisible(src, src.files[file], Fresh(c), depth + 1);
    }
  }

  /** A whole translation unit, from the state the preprocessor starts in. */
  lemma UnitShortcutInvisible(src: Sources, items: seq<Item>, w: World)
    requires AllSound(src)
    ensures var s := State([], w, false, false);
            Plainly(src, items, s, 0).fatal
            || Process(src, items, Cpp(s, map[], NoName, false), 0).core == Plainly(src, items, s, 0)
  {
    ShortcutInvisible(src, items, Cpp(State([], w, false, false), map[], NoName, false), 0);
  }

  // ---- what the shortcut leaves out ----

  function GuardLine(x: string): Item { Cond(Ifndef1(x)) }

  /** A properly nested rest of a file that starts by ending a branch of the one group open. */
  predicate EndsBranch(items: seq<Item>) {
    items != [] && items[0].Cond? && (items[0].d.Elif? || items[0].d.Else? || items[0].d.Endif?) && Nested(items, [false])
  }

  /** Inside a group, the items up to the end of its branch. */
  lemma {:induction false} BranchSplits(items: seq<Item>, elses: seq<bool>) returns (body: seq<Item>, rest: seq<Item>)
    requires Nested(items, [false] + elses)
    ensures items == body + rest && Nested(body, elses) && EndsBranch(rest)
  {
    assert ([false] + elses)[0] == false;
    if elses == [] && items[0].Cond? && (items[0].d.Elif? || items[0].d.Else? || items[0].d.Endif?) {
      assert [false] + elses == [false];
      body, rest := [], items;
    } else {
      NestedStep(items, [false] + elses);
      var elses1 := AfterElses(items[0], elses);
      assert AfterElses(items[0], [false] + elses) == [false] + elses1;
      var b, r := BranchSplits(items[1..], elses1);
      body, rest := [items[0]] + b, r;
      assert body[1..] == b;
    }
  }

  /** Every properly nested file with a first #ifndef outside every group is cut by the branch behind it. */
  lemma {:induction false} GuardSplits(items: seq<Item>, elses: seq<bool>, x: string)
    returns (pre: seq<Item>, body: seq<Item>, rest: seq<Item>)
    requires Nested(items, elses) && FirstGuard(items, |elses|) == Name(x)
    ensures items == pre + ([GuardLine(x)] + (body + rest)) && Nested(pre, elses) && Nested(body, []) && EndsBranch(rest)
  {
    if elses == [] && GuardsWith(items[0], x) {
      assert [] + [false] == [false] == [false] + [];
      body, rest := BranchSplits(items[1..], []);
      pre := [];
    } else {
      NestedStep(items, elses);
      var p, b, r := GuardSplits(items[1..], AfterElses(items[0], elses), x);
      pre, body, rest := [items[0]] + p, b, r;
      assert pre[1..] == p;
    }
  }

  lemma PlainlyCons(src: Sources, d: Directive, rest: seq<Item>, s: State, depth: nat)
    requires !s.fatal
    ensures Plainly(src, [Cond(d)] + rest, s, depth) == Plainly(src, rest, Step(s, d), depth)
  {
    assert ([Cond(d)] + rest)[1..] == rest;
  }

  lemma PlainlyFatal(src: Sources, items: seq<Item>, s: State, depth: nat)
    requires s.fatal
    ensures Plainly(src, items, s, depth) == s
  {}

  /** While x is defined, the branch behind #ifndef x can be taken out. */
  lemma DeadBranch(src: Sources, x: string, body: seq<Item>, rest: seq<Item>, s: State, depth: nat)
    requires Nested(body, []) && !s.fatal && x in s.world.table
    ensures var r := Plainly(src, [GuardLine(x)] + (body + rest), s, depth);
            r.fatal || r == Plainly(src, [GuardLine(x)] + rest, s, depth)
  {
    hide Plainly, Nested, Live;
    var s1 := Step(s, Ifndef1(x));
    PlainlyCons(src, Ifndef1(x), body + rest, s, depth);
    PlainlyCons(src, Ifndef1(x), rest, s, depth);
    PlainlyConcat(src, body, rest, s1, depth);
    if s1.fatal {
      PlainlyFatal(src, body + rest, s1, depth);
    } else {
      LiveSnoc(s.frames, Frame(false, false, false));
      DeadItems(src, body, s1, depth, s1.frames, []);
      if Plainly(src, body, s1, depth).fatal {
        PlainlyFatal(src, rest, Plainly(src, body, s1, depth), depth);
      }
    }
  }

  /** Reading a properly nested file keeps the stack, unless it ends the run. */
  lemma {:induction false} PlainlyKeeps(src: Sources, items: seq<Item>, s: State, depth: nat, base: nat, elses: seq<bool>)
    requires AllNested(src) && Nested(items, elses) && (!s.fatal ==> !s.over && |s.frames| == base + |elses|)
    ensures var r := Plainly(src, items, s, depth); !r.fatal ==> !r.over && |r.frames| == base
    decreases src.maxDepth - depth, |items| + 1
  {
    hide Step, IncludePlainly, Live, Nested, Depth, AllNested;
    if items == [] {
      assert elses == [] by { NestedEmpty(elses); }
    } else if !s.fatal {
      NestedStep(items, elses);
      if items[0].Cond? {
        StepDepth(s, items[0].d);
        PlainlyKeeps(src, items[1..], Step(s, items[0].d), depth, base, AfterElses(items[0], elses));
      } else {
        var s1 := if Live(s.frames) then IncludePlainly(src, items[0].file, s, depth) else s;
        if Live(s.frames) {
          IncludePlainlyKeeps(src, items[0].file, s, depth);
        }
        PlainlyKeeps(src, items[1..], s1, depth, base, elses);
      }
    }
  }

  lemma NestedEmpty(elses: seq<bool>)
    requires Nested([], elses)
    ensures elses == []
  {}

  lemma {:induction false} IncludePlainlyKeeps(src: Sources, file: string, s: State, depth: nat)
    requires AllNested(src) && !s.fatal && !s.over
    ensures var r := IncludePlainly(src, file, s, depth); !r.fatal ==> !r.over && |r.frames| == |s.frames|
    decreases src.maxDepth - depth, 0
  {
    hide Plainly, Nested;
    if depth < src.maxDepth && file in src.files {
      PlainlyKeeps(src, src.files[file], s, depth + 1, |s.frames|, []);
    }
  }

  /** What the shortcut leaves out: every properly nested file with a registered guard falls into what
      stands before the #ifndef, the branch behind it, and the rest. As long as the part before leaves
      the guard defined, skipping the file is invisible in a state exactly when reading it there without
      that branch changes nothing. */
  lemma SkippedIsOutside(src: Sources, file: string, c: Cpp, depth: nat)
    returns (x: string, pre: seq<Item>, body: seq<Item>, rest: seq<Item>)
    requires AllNested(src) && GuardsKnown(src, c.guards) && !c.core.fatal && !c.core.over && depth < src.maxDepth
    requires Guarded(c.guards, file, c.core.world.table)
    ensures src.files[file] == pre + ([GuardLine(x)] + (body + rest)) && x == c.guards[file]
    ensures Nested(pre, []) && Nested(body, []) && EndsBranch(rest)
    ensures var (before, full) := (Plainly(src, pre, c.core, depth + 1), IncludePlainly(src, file, c.core, depth));
            !full.fatal && x in before.world.table ==>
              (DoInclude(src, file, c, depth).core == full <==>
               Plainly(src, pre + ([GuardLine(x)] + rest), c.core, depth + 1) == c.core)
  {
    hide Plainly, Nested;
    x := c.guards[file];
    var (items, s) := (src.files[file], c.core);
    assert GuardOf(items, x);
    pre, body, rest := GuardSplits(items, [], x);
    var s1 := Plainly(src, pre, s, depth + 1);
    PlainlyConcat(src, pre, [GuardLine(x)] + (body + rest), s, depth + 1);
    PlainlyConcat(src, pre, [GuardLine(x)] + rest, s, depth + 1);
    PlainlyKeeps(src, items, s, depth + 1, |s.frames|, []);
    if s1.fatal {
      PlainlyFatal(src, [GuardLine(x)] + (body + rest), s1, depth + 1);
    } else if x in s1.world.table {
      DeadBranch(src, x, body, rest, s1, depth + 1);
    }
  }

  // ---- a header with text outside its guard ----

  function Texts(ts: seq<string>): seq<Item> {
    if ts == [] then [] else [Cond(Plain(Text(ts[0])))] + Texts(ts[1..])
  }

  function Emit(w: World, ts: seq<string>): (r: World)
    ensures r.table == w.table && |r.out| == |w.out| + |ts|
    decreases |ts|
  {
    if ts == [] then w else Emit(DoLine(w, Text(ts[0])), ts[1..])
  }

  /** A guarded group of text with text before and after it. */
  function Header(pre: seq<string>, x: string, body: seq<string>, post: seq<string>): seq<Item> {
    Texts(pre) + ([Cond(Open(Ifndef(Name(x))))] + ([Cond(Plain(Define(x, "")))] +
    (Texts(body) + ([Cond(Endif)] + Texts(post)))))
  }

  lemma ProcessCond(src: Sources, d: Directive, rest: seq<Item>, c: Cpp, depth: nat)
    requires !c.core.fatal
    ensures Process(src, [Cond(d)] + rest, c, depth) == Process(src, rest, Tracked(c, d), depth)
  {
    assert ([Cond(d)] + rest)[1..] == rest;
  }

  lemma {:induction false} ProcessTexts(src: Sources, ts: seq<string>, rest: seq<Item>, c: Cpp, depth: nat)
    requires !c.core.fatal
    ensures Process(src, Texts(ts) + rest, c, depth) ==
              Process(src, rest, if Live(c.core.frames) then c.(core := c.core.(world := Emit(c.core.world, ts))) else c, depth)
    decreases |ts|
  {
    hide Process, DoLine, Live;
    if ts == [] {
      assert Texts(ts) + rest == rest;
    } else {
      var d := Plain(Text(ts[0]));
      assert Texts(ts) + rest == [Cond(d)] + (Texts(ts[1..]) + rest);
      ProcessCond(src, d, Texts(ts[1..]) + rest, c, depth);
      ProcessTexts(src, ts[1..], rest, Tracked(c, d), depth);
    }
  }

  lemma {:induction false} ProcessIsPlain(src: Sources, items: seq<Item>, c: Cpp, depth: nat)
    requires forall i :: 0 <= i < |items| ==> items[i].Cond?
    ensures Process(src, items, c, depth).core == Plainly(src, items, c.core, depth)
    decreases |items|
  {
    hide Step;
    if items != [] && !c.core.fatal {
      ProcessIsPlain(src, items[1..], Tracked(c, items[0].d), depth);
    }
  }

  lemma {:induction false} TextsAreCond(ts: seq<string>)
    ensures forall i :: 0 <= i < |Texts(ts)| ==> Texts(ts)[i].Cond?
  {
    if ts != [] {
      TextsAreCond(ts[1..]);
    }
  }

  /** What reading such a header gives. */
  function HeaderRead(c: Cpp, pre: seq<string>, x: string, body: seq<string>, post: seq<string>): Cpp {
    var w := Emit(c.core.world, pre);
    var skip := IsDefined(w.table, x);
    var w1 := if skip then w else Emit(DoLine(w, Define(x, "")), body);
    Cpp(c.core.(world := Emit(w1, post)), c.guards, Name(x), !skip)
  }

  lemma ReadHeader(src: Sources, pre: seq<string>, x: string, body: seq<string>, post: seq<string>, c: Cpp, depth: nat)
    requires c.core == State([], c.core.world, false, false) && c.cand == NoName && !c.confirmed
    ensures Process(src, Header(pre, x, body, post), c, depth) == HeaderRead(c, pre, x, body, post)
    ensures Plainly(src, Header(pre, x, body, post), c.core, depth) == HeaderRead(c, pre, x, body, post).core
  {
    hide Process, DoLine, IsDefined, Live, Emit;
    var end := [Cond(Endif)] + Texts(post);
    var inner := Texts(body) + end;
    var def := [Cond(Plain(Define(x, "")))] + inner;
    var w := Emit(c.core.world, pre);
    NothingOpen();
    ProcessTexts(src, pre, [Cond(Open(Ifndef(Name(x))))] + def, c, depth);
    var c1 := c.(core := c.core.(world := w));
    ProcessCond(src, Ifndef1(x), def, c1, depth);
    var c2 := Tracked(c1, Ifndef1(x));
    var live := !IsDefined(w.table, x);
    LiveSnoc([], Frame(live, live, false));
    assert c2 == Cpp(c1.core.(frames := [] + [Frame(live, live, false)]), c.guards, Name(x), false);
    ProcessCond(src, Plain(Define(x, "")), inner, c2, depth);
    var c3 := Tracked(c2, Plain(Define(x, "")));
    ProcessTexts(src, body, end, c3, depth);
    var c4 := if live then c3.(core := c3.core.(world := Emit(c3.core.world, body))) else c3;
    ProcessCond(src, Endif, Texts(post), c4, depth);
    var c5 := Tracked(c4, Endif);
    assert Texts(post) == Texts(post) + [];
    ProcessTexts(src, post, [], c5, depth);
    ReadNothing(src, c5.(core := c5.core.(world := Emit(c5.core.world, post))), c5.core, depth);
    TextsAreCond(pre);
    TextsAreCond(body);
    TextsAreCond(post);
    ProcessIsPlain(src, Header(pre, x, body, post), c, depth);
  }

  function Ifndef1(x: string): Directive { Open(Ifndef(Name(x))) }

  lemma NothingOpen()
    ensures Live([])
  {}

  /** The detection asks only for an #ifndef outside every group and a later #define of its name,
      not that the group be the whole file. A header with text around its group is registered
      all the same, and including it twice loses that text: the shortcut is invisible exactly
      when there is none. */
  lemma TextOutsideGuard(f: string, n: nat, pre: seq<string>, x: string, body: seq<string>, post: seq<string>, w: World)
    requires n > 0 && x !in RESERVED && !IsDefined(w.table, x)
    ensures var src := Sources(map[f := Header(pre, x, body, post)], n);
            var s := State([], w, false, false);
            var twice := [Include(f), Include(f)];
            Process(src, twice, Cpp(s, map[], NoName, false), 0).core == Plainly(src, twice, s, 0)
            <==> pre == [] && post == []
  {
    hide Emit, Header;
    var src := Sources(map[f := Header(pre, x, body, post)], n);
    var s := State([], w, false, false);
    var c := Cpp(s, map[], NoName, false);
    ReadHeader(src, pre, x, body, post, c, 1);
    var r := HeaderRead(c, pre, x, body, post);
    var c1 := DoInclude(src, f, c, 0);
    assert c1 == Cpp(r.core, map[f := x], NoName, false);
    assert IncludePlainly(src, f, s, 0) == r.core;
    ReadHeader(src, pre, x, body, post, c1, 1);
    var r2 := HeaderRead(c1, pre, x, body, post);
    assert IncludePlainly(src, f, r.core, 0) == r2.core;
    assert DoInclude(src, f, c1, 0) == c1;
    IncludeTwice(src, f, c);
    assert |r2.core.world.out| == |r.core.world.out| + |pre| + |post|;
    if pre == [] && post == [] {
      EmitNothing(r.core.world);
    }
  }

  lemma EmitNothing(w: World)
    ensures Emit(w, []) == w
  {}

  lemma IncludeTwice(src: Sources, f: string, c: Cpp)
    requires !c.core.fatal && c.core.frames == [] && src.maxDepth > 0
    requires !DoInclude(src, f, c, 0).core.fatal && DoInclude(src, f, c, 0).core.frames == []
    requires !IncludePlainly(src, f, c.core, 0).fatal && IncludePlainly(src, f, c.core, 0).frames == []
    ensures var twice := [Include(f), Include(f)];
            Process(src, twice, c, 0) == DoInclude(src, f, DoInclude(src, f, c, 0), 0)
            && Plainly(src, twice, c.core, 0) == IncludePlainly(src, f, IncludePlainly(src, f, c.core, 0), 0)
  {
    hide DoInclude, IncludePlainly, Process, Plainly;
    var once := [Include(f)];
    assert [Include(f), Include(f)] == [Include(f)] + once && once == [Include(f)] + [];
    var (c1, s1) := (DoInclude(src, f, c, 0), IncludePlainly(src, f, c.core, 0));
    ReadInclude(src, f, once, c, c.core);
    ReadInclude(src, f, [], c1, s1);
    ReadNothing(src, DoInclude(src, f, c1, 0), IncludePlainly(src, f, s1, 0), 0);
  }

  lemma ReadInclude(src: Sources, f: string, rest: seq<Item>, c: Cpp, s: State)
    requires !c.core.fatal && c.core.frames == [] && !s.fatal && s.frames == []
    ensures Process(src, [Include(f)] + rest, c, 0) == Process(src, rest, DoInclude(src, f, c, 0), 0)
    ensures Plainly(src, [Include(f)] + rest, s, 0) == Plainly(src, rest, IncludePlainly(src, f, s, 0), 0)
  {
    hide DoInclude, IncludePlainly;
    assert ([Include(f)] + rest)[1..] == rest;
  }

  lemma ReadNothing(src: Sources, c: Cpp, s: State, depth: nat)
    ensures Process(src, [], c, depth) == c && Plainly(src, [], s, depth) == s
  {}

  // ---- inclusions that fail, and files that are not balanced ----

  /** A file that is not there is one error and changes nothing else; nesting past the limit ends the run. */
  lemma IncludeFails(src: Sources, file: string, c: Cpp, depth: nat)
    ensures depth >= src.maxDepth ==>
              DoInclude(src, file, c, depth).core
                == c.core.(fatal := true, world := c.core.world.(errs := c.core.world.errs + 1))
    ensures depth < src.maxDepth && file !in src.files && file !in c.guards ==>
              DoInclude(src, file, c, depth) == c.(core := c.core.(world := c.core.world.(errs := c.core.world.errs + 1)))
  {}

  /** A file of one `#ifdef` and a line of text: the group that it leaves open is one error, and is closed. */
  lemma UnterminatedFile(src: Sources, file: string, x: string, t: string, c: Cpp, depth: nat)
    requires depth < src.maxDepth && file in src.files && file !in c.guards && !c.core.fatal && !c.core.over
    requires src.files[file] == [Cond(Open(Ifdef(Name(x))))] + [Cond(Plain(Text(t)))]
    requires |c.core.frames| < 256 && Live(c.core.frames)
    ensures var w := c.core.world;
            var shown := if IsDefined(w.table, x) then w.out + [(t, w.table)] else w.out;
            DoInclude(src, file, c, depth) == c.(core := c.core.(world := World(w.table, shown, w.errs + 1)))
  {
    hide IsDefined, Live, Process;
    var c1 := Fresh(c);
    var live := IsDefined(c.core.world.table, x);
    var c2 := Tracked(c1, Open(Ifdef(Name(x))));
    assert [Cond(Plain(Text(t)))] == [Cond(Plain(Text(t)))] + [];
    ProcessCond(src, Open(Ifdef(Name(x))), [Cond(Plain(Text(t)))], c1, depth + 1);
    ProcessCond(src, Plain(Text(t)), [], c2, depth + 1);
    LiveSnoc(c.core.frames, Frame(live, live, false));
    ReadNothing(src, Tracked(c2, Plain(Text(t))), c.core, depth + 1);
    assert (c.core.frames + [Frame(live, live, false)])[..|c.core.frames|] == c.core.frames;
  }

  /** A guard whose group is not closed is not registered, although its name was defined in it. */
  lemma OpenGuardForgotten(src: Sources, file: string, x: string, c: Cpp, depth: nat)
    requires depth < src.maxDepth && file in src.files && file !in c.guards && !c.core.fatal && !c.core.over
    requires src.files[file] == [Cond(Open(Ifndef(Name(x))))] + [Cond(Plain(Define(x, "")))]
    requires c.core.frames == [] && !IsDefined(c.core.world.table, x)
    ensures DoInclude(src, file, c, depth).guards == c.guards
  {
    hide IsDefined, Live, Process, DoLine;
    var c1 := Fresh(c);
    var c2 := Tracked(c1, Ifndef1(x));
    assert [Cond(Plain(Define(x, "")))] == [Cond(Plain(Define(x, "")))] + [];
    ProcessCond(src, Ifndef1(x), [Cond(Plain(Define(x, "")))], c1, depth + 1);
    ProcessCond(src, Plain(Define(x, "")), [], c2, depth + 1);
    ReadNothing(src, Tracked(c2, Plain(Define(x, ""))), c.core, depth + 1);
  }

  /** A file of one `#endif` closes a group of the file that includes it, and is one error. */
  lemma StrayEndifFile(src: Sources, file: string, c: Cpp, depth: nat)
    requires depth < src.maxDepth && file in src.files && file !in c.guards && !c.core.fatal && !c.core.over
    requires src.files[file] == [Cond(Endif)] && c.core.frames != []
    ensures DoInclude(src, file, c, depth)
              == c.(core := c.core.(frames := c.core.frames[..|c.core.frames| - 1], world := c.core.world.(errs := c.core.world.errs + 1)))
  {
    hide Live, Process;
    var c1 := Fresh(c);
    assert [Cond(Endif)] == [Cond(Endif)] + [];
    ProcessCond(src, Endif, [], c1, depth + 1);
    ReadNothing(src, Tracked(c1, Endif), c.core, depth + 1);
  }
}
