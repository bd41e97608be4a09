/** The directive processor as the preprocessor runs it: an array of conditional frames with a
    depth counter, and one handler per directive, called from the loop over a file's items. */
module DirectiveMachine {
  import opened Conditional
  import opened IncludeGuard

  class CppState {
    const src: Sources
    const condStack: array<Frame>
    var condDepth: nat
    var table: Table
    var out: seq<(string, Table)>
    var errs: nat
    var fatal: bool
    var includeDepth: nat
    var guards: map<string, string>
    var candidate: Subject
    var confirmed: bool

    ghost predicate Valid()
      reads this
    {
      condStack.Length == COND_STACK_MAX && condDepth <= COND_STACK_MAX + 1 && (condDepth > COND_STACK_MAX ==> fatal)
    }

    /** May the next item be processed? */
    ghost predicate Ready()
      reads this
    {
      Valid() && !fatal
    }

    ghost function Core(): State
      reads this, condStack
      requires Valid()
    {
      var n := if condDepth > COND_STACK_MAX then COND_STACK_MAX else condDepth;
      State(condStack[..n], World(table, out, errs), fatal, condDepth > COND_STACK_MAX)
    }

    ghost function Cpp(): IncludeGuard.Cpp
      reads this, condStack
      requires Valid()
    {
      IncludeGuard.Cpp.Cpp(Core(), guards, candidate, confirmed)
    }

    constructor (src: Sources, table: Table)
      ensures Valid() && fresh(condStack) && this.src == src && includeDepth == 0
      ensures Cpp() == IncludeGuard.Cpp.Cpp(State([], World(table, [], 0), false, false), map[], NoName, false)
    {
      this.src := src;
      condStack := new Frame[COND_STACK_MAX](_ => Frame(false, false, false));
      condDepth, fatal, includeDepth := 0, false, 0;
      this.table, out, errs := table, [], 0;
      guards, candidate, confirmed := map[], NoName, false;
    }

    method EmitError(n: nat)
      requires Valid()
      modifies this`errs
      ensures Valid() && errs == old(errs) + n
    {
      errs := errs + n;
    }

    method InLiveBranch() returns (live: bool)
      requires Ready()
      ensures live == Live(Core().frames)
    {
      for i := 0 to condDepth
        invariant forall j :: 0 <= j < i ==> condStack[j].live
      {
        if !condStack[i].live {
          assert !Core().frames[i].live;
          return false;
        }
      }
      return true;
    }

    method ParentIsLive() returns (live: bool)
      requires Ready() && condDepth > 0
      ensures live == Live(Outer(Core().frames))
    {
      for i := 0 to condDepth - 1
        invariant forall j :: 0 <= j < i ==> condStack[j].live
      {
        if !condStack[i].live {
          assert !Outer(Core().frames)[i].live;
          return false;
        }
      }
      return true;
    }

    method HandleIfCommon(condition: bool)
      requires Ready()
      modifies this`condDepth, this`errs, this`fatal, condStack
      ensures Valid() && Core() == Push(old(Core()), condition)
    {
      hide Live;
      if condDepth >= COND_STACK_MAX {
        EmitError(1);
        fatal := true;
        condDepth := condDepth + 1;
        return;
      }
      var parentLive := InLiveBranch();
      condStack[condDepth] := Frame(condition && parentLive, condition, false);
      condDepth := condDepth + 1;
      assert condStack[..condDepth] == old(Core().frames) + [Frame(condition && parentLive, condition, false)];
    }

    method HandleIf(cond: Table -> Verdict)
      requires Ready()
      modifies this`condDepth, this`errs, this`fatal, condStack
      ensures Valid() && Core() == DoOpen(old(Core()), If(cond))
    {
      hide Live, Push;
      var live := InLiveBranch();
      if !live {
        HandleIfCommon(false);
        return;
      }
      var v := cond(table);
      EmitError(v.errs);
      HandleIfCommon(v.holds);
    }

    method HandleIfdef(subject: Subject, invert: bool)
      requires Ready()
      modifies this`condDepth, this`errs, this`fatal, this`candidate, this`confirmed, condStack
      ensures Valid() && Cpp() == Tracked(old(Cpp()), Open(if invert then Ifndef(subject) else Ifdef(subject)))
    {
      hide Live, Push, IsDefined;
      if subject == NoName {
        EmitError(1);
        HandleIfCommon(false);
        return;
      }
      var defined := IsDefined(table, subject.id);
      HandleIfCommon(if invert then !defined else defined);
      if invert && condDepth == 1 && candidate == NoName {
        candidate := subject;
        confirmed := false;
      }
    }

    method SetTopFrame(f: Frame)
      requires Ready() && condDepth > 0
      modifies condStack
      ensures Valid() && Core() == SetTop(old(Core()), f)
    {
      condStack[condDepth - 1] := f;
      assert condStack[..condDepth] == Outer(old(Core().frames)) + [f];
    }

    method HandleElif(cond: Table -> Verdict)
      requires Ready()
      modifies this`errs, condStack
      ensures Valid() && Core() == DoElif(old(Core()), cond)
    {
      hide Live;
      if condDepth == 0 {
        EmitError(1);
        return;
      }
      var f := condStack[condDepth - 1];
      if f.hasElse {
        EmitError(1);
        return;
      }
      if f.everTrue {
        SetTopFrame(f.(live := false));
        return;
      }
      var outerLive := ParentIsLive();
      if !outerLive {
        SetTopFrame(f.(live := false));
        return;
      }
      var v := cond(table);
      EmitError(v.errs);
      var parentLive := ParentIsLive();
      SetTopFrame(Frame(v.holds && parentLive, if v.holds then true else f.everTrue, f.hasElse));
    }

    method HandleElse()
      requires Ready()
      modifies this`errs, condStack
      ensures Valid() && Core() == DoElse(old(Core()))
    {
      hide Live;
      if condDepth == 0 {
        EmitError(1);
        return;
      }
      var f := condStack[condDepth - 1];
      if f.hasElse {
        EmitError(1);
        return;
      }
      SetTopFrame(f.(hasElse := true));
      var parentLive := ParentIsLive();
      SetTopFrame(Frame(!f.everTrue && parentLive, f.everTrue, true));
    }

    method HandleEndif()
      requires Ready()
      modifies this`errs, this`condDepth
      ensures Valid() && Core() == Step(old(Core()), Endif)
    {
      if condDepth == 0 {
        EmitError(1);
        return;
      }
      condDepth := condDepth - 1;
    }

    method HandleDefine(name: string, body: string)
      requires Ready() && Live(Core().frames)
      modifies this`table, this`errs, this`confirmed
      ensures Valid() && Cpp() == Tracked(old(Cpp()), Plain(Define(name, body)))
    {
      if candidate != NoName && !confirmed {
        if candidate.id == name { confirmed := true; }
      }
      if name in RESERVED {
        EmitError(1);
      } else {
        table := table[name := body];
      }
    }

    method HandleLine(line: Line)
      requires Ready()
      modifies this`table, this`errs, this`confirmed, this`out
      ensures Valid() && Cpp() == Tracked(old(Cpp()), Plain(line))
    {
      var live := InLiveBranch();
      if live {
        match line {
          case Text(text) => out := out + [(text, table)];
          case Define(name, body) => HandleDefine(name, body);
          case Undef(name) => table := table - {name};
        }
      }
    }

    method HandleDirective(d: Directive)
      requires Ready()
      modifies this, condStack
      ensures Valid() && Cpp() == Tracked(old(Cpp()), d) && includeDepth == old(includeDepth)
    {
      hide Push, DoElif, DoElse;
      match d {
        case Open(If(cond)) => HandleIf(cond);
        case Open(Ifdef(subject)) => HandleIfdef(subject, false);
        case Open(Ifndef(subject)) => HandleIfdef(subject, true);
        case Elif(cond) => HandleElif(cond);
        case Else => HandleElse();
        case Endif => HandleEndif();
        case Plain(line) => HandleLine(line);
      }
    }

    method GuardAlreadyIncluded(file: string) returns (b: bool)
      requires Valid()
      ensures b == Guarded(guards, file, table)
    {
      if file !in guards { return false; }
      return guards[file] in table;
    }

    /** Takes off the frames that an included file left open. */
    method Unwind(before: nat)
      requires Valid() && before <= COND_STACK_MAX
      modifies this`condDepth, this`errs
      ensures Valid() && Core() == Leave(before, old(Core()))
    {
      if condDepth < before {
        EmitError(1);
      } else if condDepth > before {
        EmitError(1);
        while condDepth > before
          invariant Valid() && before <= condDepth <= old(condDepth) && errs == old(errs) + 1
        {
          condDepth := condDepth - 1;
        }
        assert condStack[..before] == old(Core().frames)[..before];
      }
    }

    method HandleInclude(file: string)
      requires Ready()
      modifies this, condStack
      ensures Valid() && includeDepth == old(includeDepth)
      ensures Cpp() == DoInclude(src, file, old(Cpp()), includeDepth)
      decreases src.maxDepth - includeDepth, 0
    {
      hide Process, Live, Guarded, Left;
      if includeDepth >= src.maxDepth {
        EmitError(1);
        fatal := true;
        return;
      }
      var known := GuardAlreadyIncluded(file);
      if known { return; }
      if file !in src.files {
        EmitError(1);
        return;
      }
      includeDepth := includeDepth + 1;
      var before := condDepth;
      var savedCandidate, savedConfirmed := candidate, confirmed;
      candidate, confirmed := NoName, false;
      assert Cpp() == Fresh(old(Cpp()));
      ProcessBuf(src.files[file]);
      LeaveFile(file, before, savedCandidate, savedConfirmed, old(Cpp()));
      includeDepth := includeDepth - 1;
    }

    /** The end of handle_include: registers the guard and restores the outer file's state c. */
    method LeaveFile(file: string, before: nat, savedCandidate: Subject, savedConfirmed: bool, ghost c: IncludeGuard.Cpp)
      requires Valid() && before <= COND_STACK_MAX && before == |c.core.frames|
      requires c.cand == savedCandidate && c.confirmed == savedConfirmed
      modifies this`condDepth, this`errs, this`guards, this`candidate, this`confirmed
      ensures Valid() && Cpp() == Left(c, file, old(Cpp()))
    {
      if confirmed && condDepth == before && candidate != NoName {
        guards := guards[file := candidate.id];
      }
      candidate, confirmed := savedCandidate, savedConfirmed;
      Unwind(before);
    }

    method ProcessBuf(items: seq<Item>)
      requires Valid()
      modifies this, condStack
      ensures Valid() && includeDepth == old(includeDepth)
      ensures Cpp() == Process(src, items, old(Cpp()), includeDepth)
      decreases src.maxDepth - includeDepth, |items| + 1
    {
      hide Tracked, DoInclude, Live;
      var i := 0;
      while i < |items|
        invariant i <= |items| && Valid() && includeDepth == old(includeDepth)
        invariant Process(src, items[i..], Cpp(), includeDepth) == Process(src, items, old(Cpp()), includeDepth)
      {
        if fatal { return; }
        match items[i] {
          case Cond(d) => HandleDirective(d);
          case Include(file) =>
            var live := InLiveBranch();
            if live { HandleInclude(file); }
        }
        i := i + 1;
      }
    }
  }
}
