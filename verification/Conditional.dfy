/** Conditional inclusion: the stack machine that runs over the flat stream of directives, and
    the nested groups that C11 section 6.10.1 gives a meaning to. */
module Conditional {
  import IfEval

  /** The macros that are defined, with their replacement text. */
  type Table = map<string, string>

  /** The answer of a controlling expression: whether it holds (it evaluated without error, to a
      nonzero value) and the errors that its evaluation raised. */
  datatype Verdict = Verdict(holds: bool, errs: nat)

  /** What follows `#ifdef` or `#ifndef`. */
  datatype Subject = NoName | Name(id: string)

  datatype Test =
    | If(cond: Table -> Verdict)
    | Ifdef(subject: Subject)
    | Ifndef(subject: Subject)

  datatype Line = Text(text: string) | Define(name: string, body: string) | Undef(name: string)

  datatype Directive =
    | Open(test: Test)
    | Elif(cond: Table -> Verdict)
    | Else
    | Endif
    | Plain(line: Line)

  /** What a translation unit has produced: the macro table, the lines emitted, each with the
      table it is expanded under, and the number of errors. */
  datatype World = World(table: Table, out: seq<(string, Table)>, errs: nat)

  datatype Frame = Frame(live: bool, everTrue: bool, hasElse: bool)

  /** `over` says that the depth counter has gone one past the frames. */
  datatype State = State(frames: seq<Frame>, world: World, fatal: bool, over: bool)

  const COND_STACK_MAX: nat := 256

  const RESERVED := {"__VA_ARGS__", "defined"}

  predicate Live(frames: seq<Frame>) { forall i :: 0 <= i < |frames| ==> frames[i].live }

  function Raise(w: World, n: nat): World { w.(errs := w.errs + n) }

  function Fail(s: State, n: nat): State { s.(world := Raise(s.world, n)) }

  function Depth(s: State): nat { |s.frames| + if s.over then 1 else 0 }

  function DoLine(w: World, line: Line): World {
    match line
    case Text(text) => w.(out := w.out + [(text, w.table)])
    case Define(name, body) => if name in RESERVED then Raise(w, 1) else w.(table := w.table[name := body])
    case Undef(name) => w.(table := w.table - {name})
  }

  predicate IsDefined(table: Table, name: string) { name in IfEval.HAS_FAMILY || name in table }

  // ---- the machine ----

  /** handle_if_common */
  function Push(s: State, cond: bool): State {
    if |s.frames| >= COND_STACK_MAX then Fail(s, 1).(fatal := true, over := true)
    else s.(frames := s.frames + [Frame(cond && Live(s.frames), cond, false)])
  }

  /** handle_if and handle_ifdef */
  function DoOpen(s: State, t: Test): State {
    match t
    case If(cond) =>
      if !Live(s.frames) then Push(s, false)
      else Push(Fail(s, cond(s.world.table).errs), cond(s.world.table).holds)
    case Ifdef(NoName) => Push(Fail(s, 1), false)
    case Ifdef(Name(id)) => Push(s, IsDefined(s.world.table, id))
    case Ifndef(NoName) => Push(Fail(s, 1), false)
    case Ifndef(Name(id)) => Push(s, !IsDefined(s.world.table, id))
  }

  function Outer(frames: seq<Frame>): seq<Frame>
    requires frames != []
  {
    frames[..|frames| - 1]
  }

  function Top(frames: seq<Frame>): Frame
    requires frames != []
  {
    frames[|frames| - 1]
  }

  function SetTop(s: State, f: Frame): State
    requires s.frames != []
  {
    s.(frames := Outer(s.frames) + [f])
  }

  /** handle_elif */
  function DoElif(s: State, cond: Table -> Verdict): State {
    if s.frames == [] then Fail(s, 1)
    else
      var f := Top(s.frames);
      if f.hasElse then Fail(s, 1)
      else if f.everTrue || !Live(Outer(s.frames)) then SetTop(s, f.(live := false))
      else
        var v := cond(s.world.table);
        SetTop(Fail(s, v.errs), Frame(v.holds, v.holds, false))
  }

  /** handle_else */
  function DoElse(s: State): State {
    if s.frames == [] then Fail(s, 1)
    else
      var f := Top(s.frames);
      if f.hasElse then Fail(s, 1)
      else SetTop(s, Frame(!f.everTrue && Live(Outer(s.frames)), f.everTrue, true))
  }

  function Step(s: State, d: Directive): State {
    match d
    case Open(t) => DoOpen(s, t)
    case Elif(cond) => DoElif(s, cond)
    case Else => DoElse(s)
    case Endif => if s.frames == [] then Fail(s, 1) else s.(frames := Outer(s.frames))
    case Plain(line) => if Live(s.frames) then s.(world := DoLine(s.world, line)) else s
  }

  /** process_buf: a fatal error stops the loop. */
  function Run(s: State, ds: seq<Directive>): State
    decreases |ds|
  {
    if ds == [] || s.fatal then s else Run(Step(s, ds[0]), ds[1..])
  }

  // ---- nested groups and their meaning ----

  datatype Forest =
    | Nil
    | Then(line: Line, next: Forest)
    | Group(test: Test, body: Forest, tail: Tail, next: Forest)

  /** What comes after the first branch of a group. */
  datatype Tail =
    | End
    | Otherwise(body: Forest)
    | OrIf(cond: Table -> Verdict, body: Forest, tail: Tail)

  function Flatten(f: Forest): seq<Directive> {
    match f
    case Nil => []
    case Then(line, next) => [Plain(line)] + Flatten(next)
    case Group(test, body, tail, next) => [Open(test)] + (Flatten(body) + (FlattenTail(tail) + Flatten(next)))
  }

  function FlattenTail(t: Tail): seq<Directive> {
    match t
    case End => [Endif]
    case Otherwise(body) => [Else] + (Flatten(body) + [Endif])
    case OrIf(cond, body, tail) => [Elif(cond)] + (Flatten(body) + FlattenTail(tail))
  }

  function Judge(t: Test, table: Table): Verdict {
    match t
    case If(cond) => cond(table)
    case Ifdef(s) => if s.NoName? then Verdict(false, 1) else Verdict(IsDefined(table, s.id), 0)
    case Ifndef(s) => if s.NoName? then Verdict(false, 1) else Verdict(!IsDefined(table, s.id), 0)
  }

  /** The tests of a group are evaluated in order up to the first that holds, and the lines of
      its branch are processed; those of the other branches are not looked at. */
  function Meaning(f: Forest, w: World): World
    decreases f, 1
  {
    match f
    case Nil => w
    case Then(line, next) => Meaning(next, DoLine(w, line))
    case Group(_, _, _, next) => Meaning(next, GroupMeaning(f, w))
  }

  function GroupMeaning(f: Forest, w: World): World
    requires f.Group?
    decreases f, 0
  {
    var v := Judge(f.test, w.table);
    var w1 := Raise(w, v.errs);
    if v.holds then Meaning(f.body, w1) else TailMeaning(f.tail, w1)
  }

  function TailMeaning(t: Tail, w: World): World
    decreases t, 0
  {
    match t
    case End => w
    case Otherwise(body) => Meaning(body, w)
    case OrIf(cond, body, tail) =>
      var w1 := Raise(w, cond(w.table).errs);
      if cond(w.table).holds then Meaning(body, w1) else TailMeaning(tail, w1)
  }

  function Max(a: nat, b: nat): nat { if a < b then b else a }

  /** How deep groups are nested. */
  function Height(f: Forest): nat
    decreases f, 1
  {
    match f
    case Nil => 0
    case Then(_, next) => Height(next)
    case Group(_, _, _, next) => Max(GroupHeight(f), Height(next))
  }

  function GroupHeight(f: Forest): nat
    requires f.Group?
    decreases f, 0
  {
    1 + Max(Height(f.body), TailHeight(f.tail))
  }

  function TailHeight(t: Tail): nat
    decreases t, 0
  {
    match t
    case End => 0
    case Otherwise(body) => Height(body)
    case OrIf(_, body, tail) => Max(Height(body), TailHeight(tail))
  }

  /** Every #ifdef and #ifndef has a name after it, as the grammar asks. */
  predicate Named(f: Forest) {
    match f
    case Nil => true
    case Then(_, next) => Named(next)
    case Group(test, body, tail, next) => (!test.If? ==> test.subject.Name?) && Named(body) && TailNamed(tail) && Named(next)
  }

  predicate TailNamed(t: Tail) {
    match t
    case End => true
    case Otherwise(body) => Named(body)
    case OrIf(_, body, tail) => Named(body) && TailNamed(tail)
  }

  // ---- the machine computes the meaning ----

  lemma RunCons(s: State, d: Directive, rest: seq<Directive>)
    requires !s.fatal
    ensures Run(s, [d] + rest) == Run(Step(s, d), rest)
  {
    assert ([d] + rest)[1..] == rest;
  }

  lemma Assoc(a: seq<Directive>, b: seq<Directive>, c: seq<Directive>)
    ensures (a + b) + c == a + (b + c)
  {}

  lemma LiveSnoc(frames: seq<Frame>, f: Frame)
    ensures Live(frames + [f]) == (Live(frames) && f.live)
    ensures Top(frames + [f]) == f && Outer(frames + [f]) == frames
  {
    if Live(frames) && f.live {
    } else if !f.live {
      assert !(frames + [f])[|frames|].live;
    } else {
      var i :| 0 <= i < |frames| && !frames[i].live;
      assert !(frames + [f])[i].live;
    }
  }

  /** Where a forest leaves a state it starts from. */
  function Through(s: State, f: Forest): State {
    if Live(s.frames) then s.(world := Meaning(f, s.world)) else s
  }

  function ThroughGroup(s: State, f: Forest): State
    requires f.Group?
  {
    if Live(s.frames) then s.(world := GroupMeaning(f, s.world)) else s
  }

  /** The state outside a group, whose frames are `outer`, once its tail has been read with frame
      f on top. */
  function Past(s: State, outer: seq<Frame>, f: Frame, t: Tail): State {
    s.(frames := outer, world := if Live(outer) && !f.everTrue then TailMeaning(t, s.world) else s.world)
  }

  /** The conditional stack run over the flattened forest does what the nested groups mean, in a
      live place, and nothing in a dead one; and it goes on with the stack it started with. */
  lemma {:induction false} RunForest(s: State, f: Forest, rest: seq<Directive>)
    requires !s.fatal && Named(f) && |s.frames| + Height(f) <= COND_STACK_MAX
    ensures Run(s, Flatten(f) + rest) == Run(Through(s, f), rest)
    decreases f
  {
    hide Run, Live, DoLine;
    match f {
      case Nil => assert Flatten(f) + rest == rest;
      case Then(line, next) =>
        var more := Flatten(next) + rest;
        Assoc([Plain(line)], Flatten(next), rest);
        RunCons(s, Plain(line), more);
        RunForest(Step(s, Plain(line)), next, rest);
      case Group(test, body, tail, next) =>
        RunGroup(s, f, rest);
        RunForest(ThroughGroup(s, f), next, rest);
    }
  }

  lemma {:induction false} RunGroup(s: State, f: Forest, rest: seq<Directive>)
    requires !s.fatal && f.Group? && Named(f) && |s.frames| + GroupHeight(f) <= COND_STACK_MAX
    ensures Run(s, Flatten(f) + rest) ==
              Run(ThroughGroup(s, f), Flatten(f.next) + rest)
    decreases f, 0
  {
    hide Run, Live, DoLine;
    var more := Flatten(f.next) + rest;
    var after := FlattenTail(f.tail) + more;
    Assoc([Open(f.test)], Flatten(f.body) + (FlattenTail(f.tail) + Flatten(f.next)), rest);
    Assoc(Flatten(f.body), FlattenTail(f.tail) + Flatten(f.next), rest);
    Assoc(FlattenTail(f.tail), Flatten(f.next), rest);
    RunCons(s, Open(f.test), Flatten(f.body) + after);
    var s1 := DoOpen(s, f.test);
    var v := Judge(f.test, s.world.table);
    OpenFrame(s, f.test);
    var fr := Top(s1.frames);
    RunForest(s1, f.body, after);
    LiveSnoc(s.frames, fr);
    RunTail(Through(s1, f.body), s.frames, fr, f.tail, more);
  }

  lemma OpenFrame(s: State, t: Test)
    requires !s.fatal && |s.frames| < COND_STACK_MAX && (!t.If? ==> t.subject.Name?)
    ensures var s1 := DoOpen(s, t);
            var v := Judge(t, s.world.table);
            s1.frames != [] && Outer(s1.frames) == s.frames && !s1.fatal && !Top(s1.frames).hasElse
            && s1.frames == s.frames + [Top(s1.frames)] && s1.over == s.over
            && if Live(s.frames) then
                 Top(s1.frames) == Frame(v.holds, v.holds, false) && s1.world == Raise(s.world, v.errs)
               else
                 !Top(s1.frames).live && s1.world == s.world
  {
    hide Live;
  }

  lemma {:induction false} RunTail(s: State, outer: seq<Frame>, f: Frame, t: Tail, rest: seq<Directive>)
    requires !s.fatal && TailNamed(t) && |outer| + 1 + TailHeight(t) <= COND_STACK_MAX
    requires s.frames == outer + [f] && !f.hasElse && (f.live ==> Live(outer) && f.everTrue)
    ensures Run(s, FlattenTail(t) + rest) == Run(Past(s, outer, f, t), rest)
    decreases t
  {
    hide Run, Live, DoLine;
    LiveSnoc(outer, f);
    match t {
      case End => RunCons(s, Endif, rest);
      case Otherwise(body) =>
        Assoc([Else], Flatten(body) + [Endif], rest);
        Assoc(Flatten(body), [Endif], rest);
        RunCons(s, Else, Flatten(body) + ([Endif] + rest));
        var f1 := Frame(!f.everTrue && Live(outer), f.everTrue, true);
        LiveSnoc(outer, f1);
        var s1 := s.(frames := outer + [f1]);
        RunForest(s1, body, [Endif] + rest);
        RunCons(Through(s1, body), Endif, rest);
      case OrIf(cond, body, tail) => RunOrIf(s, outer, f, t, rest);
    }
  }

  lemma {:induction false} RunOrIf(s: State, outer: seq<Frame>, f: Frame, t: Tail, rest: seq<Directive>)
    requires !s.fatal && t.OrIf? && TailNamed(t) && |outer| + 1 + TailHeight(t) <= COND_STACK_MAX
    requires s.frames == outer + [f] && !f.hasElse && (f.live ==> Live(outer) && f.everTrue)
    ensures Run(s, FlattenTail(t) + rest) == Run(Past(s, outer, f, t), rest)
    decreases t, 0
  {
    hide Run, Live, DoLine;
    var more := FlattenTail(t.tail) + rest;
    Assoc([Elif(t.cond)], Flatten(t.body) + FlattenTail(t.tail), rest);
    Assoc(Flatten(t.body), FlattenTail(t.tail), rest);
    RunCons(s, Elif(t.cond), Flatten(t.body) + more);
    LiveSnoc(outer, f);
    var s1 := DoElif(s, t.cond);
    var f1 := Top(s1.frames);
    LiveSnoc(outer, f1);
    RunForest(s1, t.body, more);
    RunTail(Through(s1, t.body), outer, f1, t.tail, rest);
  }

  // ---- nesting too deep ----

  /** Reading a forest that nests too deep for the frames already open ends in a fatal error. */
  lemma {:induction false} ForestTooDeep(s: State, f: Forest, rest: seq<Directive>)
    requires !s.fatal && Named(f) && |s.frames| <= COND_STACK_MAX < |s.frames| + Height(f)
    ensures Run(s, Flatten(f) + rest).fatal
    decreases f
  {
    hide Run, Live, DoLine;
    match f {
      case Then(line, next) =>
        Assoc([Plain(line)], Flatten(next), rest);
        RunCons(s, Plain(line), Flatten(next) + rest);
        ForestTooDeep(Step(s, Plain(line)), next, rest);
      case Group(test, body, tail, next) =>
        if |s.frames| + GroupHeight(f) <= COND_STACK_MAX {
          RunGroup(s, f, rest);
          ForestTooDeep(ThroughGroup(s, f), next, rest);
        } else {
          GroupTooDeep(s, f, rest);
        }
    }
  }

  lemma {:induction false} GroupTooDeep(s: State, f: Forest, rest: seq<Directive>)
    requires !s.fatal && f.Group? && Named(f)
    requires |s.frames| <= COND_STACK_MAX < |s.frames| + GroupHeight(f)
    ensures Run(s, Flatten(f) + rest).fatal
    decreases f, 0
  {
    hide Run, Live, DoLine;
    var after := FlattenTail(f.tail) + (Flatten(f.next) + rest);
    Assoc([Open(f.test)], Flatten(f.body) + (FlattenTail(f.tail) + Flatten(f.next)), rest);
    Assoc(Flatten(f.body), FlattenTail(f.tail) + Flatten(f.next), rest);
    Assoc(FlattenTail(f.tail), Flatten(f.next), rest);
    RunCons(s, Open(f.test), Flatten(f.body) + after);
    var s1 := DoOpen(s, f.test);
    if |s.frames| == COND_STACK_MAX {
      RunFatal(s1, Flatten(f.body) + after);
    } else {
      OpenFrame(s, f.test);
      if |s1.frames| + Height(f.body) > COND_STACK_MAX {
        ForestTooDeep(s1, f.body, after);
      } else {
        RunForest(s1, f.body, after);
        LiveSnoc(s.frames, Top(s1.frames));
        TailTooDeep(Through(s1, f.body), s.frames, Top(s1.frames), f.tail, Flatten(f.next) + rest);
      }
    }
  }

  lemma {:induction false} TailTooDeep(s: State, outer: seq<Frame>, f: Frame, t: Tail, rest: seq<Directive>)
    requires !s.fatal && TailNamed(t) && |outer| + 1 <= COND_STACK_MAX < |outer| + 1 + TailHeight(t)
    requires s.frames == outer + [f] && !f.hasElse
    ensures Run(s, FlattenTail(t) + rest).fatal
    decreases t
  {
    hide Run, Live, DoLine;
    match t {
      case Otherwise(body) =>
        Assoc([Else], Flatten(body) + [Endif], rest);
        Assoc(Flatten(body), [Endif], rest);
        RunCons(s, Else, Flatten(body) + ([Endif] + rest));
        ForestTooDeep(DoElse(s), body, [Endif] + rest);
      case OrIf(cond, body, tail) =>
        var more := FlattenTail(tail) + rest;
        Assoc([Elif(cond)], Flatten(body) + FlattenTail(tail), rest);
        Assoc(Flatten(body), FlattenTail(tail), rest);
        RunCons(s, Elif(cond), Flatten(body) + more);
        var s1 := DoElif(s, cond);
        if |s1.frames| + Height(body) > COND_STACK_MAX {
          ForestTooDeep(s1, body, more);
        } else {
          RunForest(s1, body, more);
          TailTooDeep(Through(s1, body), outer, Top(s1.frames), tail, rest);
        }
    }
  }

  lemma RunFatal(s: State, ds: seq<Directive>)
    requires s.fatal
    ensures Run(s, ds) == s
  {}

  /** A whole source: what comes out is what it means and no frame is left open, if and only if
      its groups nest no deeper than the stack; otherwise the run ends in the fatal error. */
  lemma SourceIsMeaning(f: Forest, w: World)
    requires Named(f)
    ensures var r := Run(State([], w, false, false), Flatten(f));
            if Height(f) <= 256 then r == State([], Meaning(f, w), false, false) else r.fatal
  {
    assert Flatten(f) + [] == Flatten(f);
    if Height(f) <= COND_STACK_MAX {
      RunForest(State([], w, false, false), f, []);
    } else {
      ForestTooDeep(State([], w, false, false), f, []);
    }
  }

  // ---- what one line does ----

  /** A `#define` in a live place gives the name its text, and no other name changes. */
  lemma DefineDoes(s: State, n: string, b: string)
    requires !s.fatal && Live(s.frames) && n !in {"__VA_ARGS__", "defined"}
    ensures var w := Run(s, [Plain(Define(n, b))]).world;
            n in w.table && w.table[n] == b && w.out == s.world.out && w.errs == s.world.errs
            && forall m :: m != n ==> (m in w.table <==> m in s.world.table) && (m in w.table ==> w.table[m] == s.world.table[m])
  {
    RunOne(s, Plain(Define(n, b)));
  }

  /** The two names that cannot be defined: an error, and nothing changes. */
  lemma ReservedDoes(s: State, n: string, b: string)
    requires !s.fatal && Live(s.frames) && n in {"__VA_ARGS__", "defined"}
    ensures Run(s, [Plain(Define(n, b))]) == s.(world := s.world.(errs := s.world.errs + 1))
  {
    RunOne(s, Plain(Define(n, b)));
  }

  /** An `#undef` in a live place takes the name away, and no other name changes. */
  lemma UndefDoes(s: State, n: string)
    requires !s.fatal && Live(s.frames)
    ensures var w := Run(s, [Plain(Undef(n))]).world;
            n !in w.table && w.out == s.world.out && w.errs == s.world.errs
            && forall m :: m != n ==> (m in w.table <==> m in s.world.table) && (m in w.table ==> w.table[m] == s.world.table[m])
  {
    RunOne(s, Plain(Undef(n)));
  }

  /** A line of text in a live place goes out, to be expanded under the table as it is. */
  lemma TextDoes(s: State, t: string)
    requires !s.fatal && Live(s.frames)
    ensures Run(s, [Plain(Text(t))]) == s.(world := s.world.(out := s.world.out + [(t, s.world.table)]))
  {
    RunOne(s, Plain(Text(t)));
  }

  /** None of them changes the stack, and in a dead place none of them does anything. */
  lemma LineKeepsStack(s: State, line: Line)
    requires !s.fatal
    ensures Run(s, [Plain(line)]).(world := s.world) == s && (!Live(s.frames) ==> Run(s, [Plain(line)]) == s)
  {
    RunOne(s, Plain(line));
    hide DoLine, Live;
  }

  lemma RunOne(s: State, d: Directive)
    requires !s.fatal
    ensures Run(s, [d]) == Step(s, d)
  {
    hide Step;
    assert [d] == [d] + [];
    RunCons(s, d, []);
  }

  /** A group asks whether its name is defined: as a macro, or as one of the __has_* operators. */
  lemma TestDoes(w: World, n: string, t: string)
    ensures var known := n in w.table || n in {"__has_builtin", "__has_feature", "__has_extension", "__has_attribute",
                                               "__has_c_attribute", "__has_cpp_attribute", "__has_include", "__has_include_next"};
            var (s, shown) := (State([], w, false, false), State([], w.(out := w.out + [(t, w.table)]), false, false));
            Run(s, [Open(Ifdef(Name(n))), Plain(Text(t)), Endif]) == (if known then shown else s)
            && Run(s, [Open(Ifndef(Name(n))), Plain(Text(t)), Endif]) == (if known then s else shown)
  {
    TestRuns(w, Ifdef(Name(n)), t);
    TestRuns(w, Ifndef(Name(n)), t);
  }

  lemma TestRuns(w: World, test: Test, t: string)
    requires !test.If? && test.subject.Name?
    ensures Run(State([], w, false, false), [Open(test), Plain(Text(t)), Endif])
              == State([], if Judge(test, w.table).holds then DoLine(w, Text(t)) else w, false, false)
  {
    var body := Then(Text(t), Nil);
    var f := Group(test, body, End, Nil);
    assert Flatten(body) == [Plain(Text(t))] && FlattenTail(End) == [Endif];
    assert Flatten(f) == [Open(test), Plain(Text(t)), Endif];
    assert Height(body) == 0 && TailHeight(End) == 0 && GroupHeight(f) == 1 && Height(f) == 1;
    hide DoLine, Judge, Run;
    assert Named(Nil) && Named(body) && TailNamed(End) && Named(f);
    assert Meaning(body, w) == DoLine(w, Text(t));
    JudgeErrs(test, w);
    assert GroupMeaning(f, w) == if Judge(test, w.table).holds then Meaning(body, w) else TailMeaning(End, w);
    SourceIsMeaning(f, w);
  }

  lemma JudgeErrs(test: Test, w: World)
    requires !test.If? && test.subject.Name?
    ensures Judge(test, w.table).errs == 0 && Raise(w, 0) == w
  {}

  // ---- directives out of place ----

  /** Outside every group `#elif`, `#else` and `#endif` are an error each and change nothing else. */
  lemma StrayDirective(s: State, d: Directive)
    requires !s.fatal && s.frames == [] && (d.Elif? || d.Else? || d.Endif?)
    ensures Run(s, [d]) == s.(world := s.world.(errs := s.world.errs + 1))
  {
    RunOne(s, d);
  }

  /** So are `#elif` and `#else` behind the `#else` of their group. */
  lemma BehindElse(s: State, d: Directive)
    requires !s.fatal && s.frames != [] && s.frames[|s.frames| - 1].hasElse && (d.Elif? || d.Else?)
    ensures Run(s, [d]) == s.(world := s.world.(errs := s.world.errs + 1))
  {
    RunOne(s, d);
  }

  /** `#ifdef` and `#ifndef` without a name are an error, and open a group whose first branch is dead. */
  lemma NamelessTest(s: State, test: Test)
    requires !s.fatal && |s.frames| < 256 && !test.If? && test.subject.NoName?
    ensures Run(s, [Open(test)])
              == s.(frames := s.frames + [Frame(false, false, false)], world := s.world.(errs := s.world.errs + 1))
  {
    RunOne(s, Open(test));
  }

  /** The 257th open group is one error and ends the run. */
  lemma GroupTooMany(s: State, test: Test)
    requires !s.fatal && |s.frames| == 256 && !test.If? && test.subject.Name?
    ensures Run(s, [Open(test)]) == s.(world := s.world.(errs := s.world.errs + 1), fatal := true, over := true)
  {
    RunOne(s, Open(test));
  }

  // ---- what every run keeps ----

  /** A live frame has only live frames below it. */
  predicate Downward(frames: seq<Frame>) {
    forall i, j :: 0 <= i < j < |frames| && frames[j].live ==> frames[i].live
  }

  /** For each open group, the number of its branches that have been made live so far. */
  function Count(s: State, counts: seq<nat>, d: Directive): seq<nat>
    requires |counts| == |s.frames|
  {
    var s1 := Step(s, d);
    if |s1.frames| > |s.frames| then counts + [if Top(s1.frames).live then 1 else 0]
    else if |s1.frames| < |s.frames| then counts[..|s1.frames|]
    else if (d.Elif? || d.Else?) && s.frames != [] && !Top(s.frames).hasElse && Top(s1.frames).live then
      counts[|counts| - 1 := counts[|counts| - 1] + 1]
    else counts
  }

  function Counts(s: State, counts: seq<nat>, ds: seq<Directive>): (r: seq<nat>)
    requires |counts| == |s.frames|
    ensures |r| == |Run(s, ds).frames|
    decreases |ds|
  {
    if ds == [] || s.fatal then counts else Counts(Step(s, ds[0]), Count(s, counts, ds[0]), ds[1..])
  }

  /** A group that has had a live branch remembers it, and one that is live has had exactly one. */
  predicate CountsFit(frames: seq<Frame>, counts: seq<nat>): (b: bool)
    ensures b ==> |counts| == |frames|
  {
    |counts| == |frames| && forall i :: 0 <= i < |frames| ==> CountFits(frames[i], counts[i])
  }

  predicate CountFits(f: Frame, n: nat) {
    n <= 1 && (f.live ==> n == 1) && (n == 1 ==> f.everTrue || f.hasElse)
  }

  lemma KeepsSnoc(frames: seq<Frame>, counts: seq<nat>, f: Frame, n: nat)
    ensures Downward(frames + [f]) <==> Downward(frames) && (f.live ==> Live(frames))
    ensures CountsFit(frames, counts) && CountFits(f, n) ==> CountsFit(frames + [f], counts + [n])
  {
    var g := frames + [f];
    if Downward(g) {
      forall i, j | 0 <= i < j < |frames| && frames[j].live ensures frames[i].live {
        assert g[j].live && g[i].live;
      }
      forall i | 0 <= i < |frames| && f.live ensures frames[i].live {
        assert g[|frames|].live && g[i].live;
      }
    }
  }

  lemma KeepsOuter(frames: seq<Frame>, counts: seq<nat>)
    requires frames != [] && Downward(frames) && CountsFit(frames, counts)
    ensures Downward(Outer(frames)) && CountsFit(Outer(frames), counts[..|counts| - 1])
    ensures Top(frames).live ==> Live(Outer(frames))
    ensures CountFits(Top(frames), counts[|counts| - 1])
  {}

  lemma StepKeeps(s: State, counts: seq<nat>, d: Directive)
    requires Downward(s.frames) && CountsFit(s.frames, counts)
    ensures Downward(Step(s, d).frames) && CountsFit(Step(s, d).frames, Count(s, counts, d))
  {
    hide DoLine, Downward, Live, CountsFit;
    var s1 := Step(s, d);
    if d.Open? {
      OpenKeeps(s, counts, d.test);
    } else if s.frames != [] && !d.Plain? {
      KeepsOuter(s.frames, counts);
      if !d.Endif? && !Top(s.frames).hasElse {
        var f := Top(s1.frames);
        var (c, n) := (counts[..|counts| - 1], counts[|counts| - 1]);
        var m := if f.live then n + 1 else n;
        assert Count(s, counts, d) == c + [m];
        KeepsSnoc(Outer(s.frames), c, f, m);
      }
    }
  }

  lemma OpenKeeps(s: State, counts: seq<nat>, t: Test)
    requires Downward(s.frames) && CountsFit(s.frames, counts)
    ensures Downward(DoOpen(s, t).frames) && CountsFit(DoOpen(s, t).frames, Count(s, counts, Open(t)))
  {
    hide Downward, Live, CountsFit;
    var s1 := DoOpen(s, t);
    if |s1.frames| > |s.frames| {
      KeepsSnoc(s.frames, counts, Top(s1.frames), if Top(s1.frames).live then 1 else 0);
    }
  }

  /** Over any run of directives, well nested or not: the frames stay downward closed, so that
      the whole stack is live exactly when its top is; and of the branches of a group at most
      one is ever made live. */
  lemma {:induction false} RunKeeps(s: State, counts: seq<nat>, ds: seq<Directive>)
    requires Downward(s.frames) && CountsFit(s.frames, counts)
    ensures var r := Run(s, ds);
            Downward(r.frames) && (Live(r.frames) <==> r.frames == [] || Top(r.frames).live)
            && CountsFit(r.frames, Counts(s, counts, ds))
    decreases |ds|
  {
    if ds == [] || s.fatal {
    } else {
      StepKeeps(s, counts, ds[0]);
      RunKeeps(Step(s, ds[0]), Count(s, counts, ds[0]), ds[1..]);
    }
  }
}
