/** Collecting the arguments of a function-like macro call. */
module MacroArgs {
  import opened MacroExpand

  /** How far an argument reaches from the front of s, inside d parentheses: to the comma or the
      parenthesis that ends it, or to the end of s. */
  function ArgLen(s: seq<Tok>, d: nat): (n: nat)
    ensures n <= |s|
    ensures n < |s| ==> s[n].kind == RParen || s[n].kind == Comma
  {
    if s == [] then 0
    else if s[0].kind == LParen then 1 + ArgLen(s[1..], d + 1)
    else if s[0].kind == RParen then (if d == 0 then 0 else 1 + ArgLen(s[1..], d - 1))
    else if s[0].kind == Comma && d == 0 then 0
    else 1 + ArgLen(s[1..], d)
  }

  /** How far the variable arguments reach: like an argument, but commas do not end them. */
  function VaLen(s: seq<Tok>, d: nat): (n: nat)
    ensures n <= |s|
    ensures n < |s| ==> s[n].kind == RParen
  {
    if s == [] then 0
    else if s[0].kind == LParen then 1 + VaLen(s[1..], d + 1)
    else if s[0].kind == RParen then (if d == 0 then 0 else 1 + VaLen(s[1..], d - 1))
    else 1 + VaLen(s[1..], d)
  }

  /** One argument from the front of s: the argument, what is left, and whether a comma ended it.
      A comma is taken; a parenthesis is left; when s ends first, its last token is left. */
  datatype OneArg = OneArg(arg: seq<Tok>, rest: seq<Tok>, comma: bool)

  function Arg(s: seq<Tok>): (r: OneArg)
    ensures |r.rest| <= |s| && (r.comma ==> |r.rest| < |s|)
  {
    var n := ArgLen(s, 0);
    if n == |s| then OneArg(s, if s == [] then [] else s[|s| - 1..], false)
    else if s[n].kind == Comma then OneArg(s[..n], s[n + 1..], true)
    else OneArg(s[..n], s[n..], false)
  }

  /** The arguments of a call, and what is left after them. */
  datatype Call = Call(args: seq<seq<Tok>>, rest: seq<Tok>)

  /** The named arguments, at most k of them. */
  function Named(s: seq<Tok>, k: nat): (r: Call)
    ensures |r.args| <= k && |r.rest| <= |s|
    decreases k
  {
    if k == 0 then Call([], s)
    else
      var a := Arg(s);
      if !a.comma then Call([a.arg], a.rest)
      else
        var more := Named(a.rest, k - 1);
        Call([a.arg] + more.args, more.rest)
  }

  predicate StartsClose(s: seq<Tok>) { s != [] && s[0].kind == RParen }

  /** The whole argument list, from behind the opening parenthesis. */
  function Arguments(nparams: nat, variadic: bool, s: seq<Tok>): Call {
    if StartsClose(s[SkipSpaces(s, 0)..]) then Call(if nparams == 1 then [[]] else [], s)
    else
      var c := Named(s, nparams);
      if variadic && |c.args| == nparams && c.rest != [] && !StartsClose(c.rest) then
        var n := VaLen(c.rest, 0);
        Call(c.args + [c.rest[..n]], c.rest[n..])
      else c
  }

  /** What is left from the first closing parenthesis on. */
  function FromClose(s: seq<Tok>): seq<Tok> { if s == [] || StartsClose(s) then s else FromClose(s[1..]) }

  lemma LenOfNone(d: nat)
    ensures ArgLen([], d) == 0 == VaLen([], d)
  {}

  /** What the argument is, once its length is known. */
  lemma ArgAt(toks: seq<Tok>, cur: nat, n: nat)
    requires cur <= n <= |toks| && ArgLen(toks[cur..], 0) == n - cur
    ensures n == |toks| ==> Arg(toks[cur..]) == OneArg(toks[cur..n], toks[if cur < n then n - 1 else n..], false)
    ensures n < |toks| && toks[n].kind == Comma ==> Arg(toks[cur..]) == OneArg(toks[cur..n], toks[n + 1..], true)
    ensures n < |toks| && toks[n].kind == RParen ==> Arg(toks[cur..]) == OneArg(toks[cur..n], toks[n..], false)
  {}

  lemma ArgStep(toks: seq<Tok>, n: nat, d: nat)
    requires n < |toks|
    ensures ArgLen(toks[n..], d) ==
              if toks[n].kind == LParen then 1 + ArgLen(toks[n + 1..], d + 1)
              else if toks[n].kind == RParen then (if d == 0 then 0 else 1 + ArgLen(toks[n + 1..], d - 1))
              else if toks[n].kind == Comma && d == 0 then 0
              else 1 + ArgLen(toks[n + 1..], d)
  {
    assert toks[n..][1..] == toks[n + 1..];
  }

  /** collect_arg, with a cursor into the token list. */
  method CollectArg(toks: seq<Tok>, cur: nat) returns (arg: seq<Tok>, pos: nat, comma: bool)
    requires cur <= |toks|
    ensures pos <= |toks| && OneArg(arg, toks[pos..], comma) == Arg(toks[cur..])
  {
    hide ArgLen, Arg, VaLen;
    arg := [];
    var depth, n := 0, cur;
    while n < |toks|
      invariant cur <= n <= |toks| && arg == toks[cur..n]
      invariant ArgLen(toks[cur..], 0) == n - cur + ArgLen(toks[n..], depth)
    {
      var t := toks[n];
      ArgStep(toks, n, depth);
      assert toks[cur..n + 1] == toks[cur..n] + [t];
      if t.kind == LParen {
        depth := depth + 1;
      } else if t.kind == RParen {
        if depth == 0 {
          ArgAt(toks, cur, n);
          return arg, n, false;
        }
        depth := depth - 1;
      } else if t.kind == Comma && depth == 0 {
        ArgAt(toks, cur, n);
        return arg, n + 1, true;
      }
      arg := arg + [t];
      n := n + 1;
    }
    LenOfNone(depth);
    ArgAt(toks, cur, n);
    pos, comma := if cur < |toks| then |toks| - 1 else cur, false;
  }

  method CollectVariable(toks: seq<Tok>, cur: nat) returns (va: seq<Tok>, pos: nat)
    requires cur <= |toks|
    ensures pos == cur + VaLen(toks[cur..], 0) && va == toks[cur..pos]
  {
    hide VaLen;
    va, pos := [], cur;
    var depth: nat := 0;
    while pos < |toks| && !(toks[pos].kind == RParen && depth == 0)
      invariant cur <= pos <= |toks| && va == toks[cur..pos]
      invariant VaLen(toks[cur..], 0) == pos - cur + VaLen(toks[pos..], depth)
    {
      VaStep(toks, pos, depth);
      assert toks[cur..pos + 1] == toks[cur..pos] + [toks[pos]];
      if toks[pos].kind == LParen { depth := depth + 1; } else if toks[pos].kind == RParen { depth := depth - 1; }
      va := va + [toks[pos]];
      pos := pos + 1;
    }
    if pos < |toks| { VaStep(toks, pos, depth); } else { LenOfNone(depth); }
  }

  lemma VaStep(toks: seq<Tok>, n: nat, d: nat)
    requires n < |toks|
    ensures VaLen(toks[n..], d) ==
              if toks[n].kind == LParen then 1 + VaLen(toks[n + 1..], d + 1)
              else if toks[n].kind == RParen then (if d == 0 then 0 else 1 + VaLen(toks[n + 1..], d - 1))
              else 1 + VaLen(toks[n + 1..], d)
  {
    assert toks[n..][1..] == toks[n + 1..];
  }

  method CollectNamed(toks: seq<Tok>, cur: nat, k: nat) returns (args: seq<seq<Tok>>, pos: nat)
    requires cur <= |toks|
    ensures pos <= |toks| && Call(args, toks[pos..]) == Named(toks[cur..], k)
  {
    hide Arg;
    args, pos := [], cur;
    var more := true;
    ghost var all := Named(toks[cur..], k);
    while more && |args| < k
      invariant pos <= |toks| && |args| <= k
      invariant more ==> var c := Named(toks[pos..], k - |args|); all == Call(args + c.args, c.rest)
      invariant !more ==> all == Call(args, toks[pos..])
      decreases k - |args|
    {
      var arg, next, comma := CollectArg(toks, pos);
      var c := Named(toks[next..], k - |args| - 1);
      assert args + ([arg] + c.args) == (args + [arg]) + c.args;
      args, pos, more := args + [arg], next, comma;
    }
  }

  method AtCloseAfterSpaces(toks: seq<Tok>, cur: nat) returns (b: bool)
    requires cur <= |toks|
    ensures b <==> StartsClose(toks[cur..][SkipSpaces(toks[cur..], 0)..])
  {
    ghost var s := toks[cur..];
    var tmp := cur;
    while tmp < |toks| && toks[tmp].kind == Space
      invariant cur <= tmp <= |toks| && SkipSpaces(s, tmp - cur) == SkipSpaces(s, 0)
    {
      tmp := tmp + 1;
    }
    b := tmp < |toks| && toks[tmp].kind == RParen;
  }

  method FindClose(toks: seq<Tok>, cur: nat) returns (close: nat)
    requires cur <= |toks|
    ensures close <= |toks| && toks[close..] == FromClose(toks[cur..])
  {
    close := cur;
    while close < |toks| && toks[close].kind != RParen
      invariant cur <= close <= |toks| && FromClose(toks[close..]) == FromClose(toks[cur..])
    {
      assert toks[close..][1..] == toks[close + 1..];
      close := close + 1;
    }
  }

  method CollectArguments(nparams: nat, variadic: bool, toks: seq<Tok>, cur: nat) returns (args: seq<seq<Tok>>, close: nat)
    requires cur <= |toks|
    ensures var c := Arguments(nparams, variadic, toks[cur..]);
            close <= |toks| && args == c.args && toks[close..] == FromClose(c.rest)
  {
    hide Named, VaLen, FromClose, SkipSpaces;
    var emptyArgs := AtCloseAfterSpaces(toks, cur);
    var nx := cur;
    if emptyArgs {
      args := if nparams == 1 then [[]] else [];
    } else {
      args, nx := CollectNamed(toks, cur, nparams);
      if variadic && |args| == nparams && nx < |toks| && toks[nx].kind != RParen {
        var va, pos := CollectVariable(toks, nx);
        assert va == toks[nx..][..pos - nx] && toks[nx..][pos - nx..] == toks[pos..];
        args, nx := args + [va], pos;
      }
    }
    close := FindClose(toks, nx);
  }

  // ---- joining and splitting ----

  /** Parentheses balanced, and no comma outside them: what one argument may be. */
  predicate Closed(s: seq<Tok>, d: nat) {
    if s == [] then d == 0
    else if s[0].kind == LParen then Closed(s[1..], d + 1)
    else if s[0].kind == RParen then d > 0 && Closed(s[1..], d - 1)
    else if s[0].kind == Comma && d == 0 then false
    else Closed(s[1..], d)
  }

  const COMMA := Tok(Comma, ",", false)
  const CLOSE := Tok(RParen, ")", false)

  predicate AllClosed(args: seq<seq<Tok>>) { forall i :: 0 <= i < |args| ==> Closed(args[i], 0) }

  /** A list of arguments joined with commas, and the parenthesis and whatever follows it. */
  function Joined(args: seq<seq<Tok>>, f: seq<Tok>): seq<Tok> {
    if args == [] then [CLOSE] + f
    else if |args| == 1 then args[0] + ([CLOSE] + f)
    else args[0] + ([COMMA] + Joined(args[1..], f))
  }

  lemma {:induction false} ClosedArgLen(a: seq<Tok>, d: nat, rest: seq<Tok>)
    requires Closed(a, d) && rest != [] && (rest[0].kind == Comma || rest[0].kind == RParen)
    ensures ArgLen(a + rest, d) == |a|
  {
    if a == [] {
      assert a + rest == rest;
    } else {
      assert (a + rest)[1..] == a[1..] + rest;
      ClosedArgLen(a[1..], if a[0].kind == LParen then d + 1 else if a[0].kind == RParen then d - 1 else d, rest);
    }
  }

  lemma {:induction false} ClosedVaLen(a: seq<Tok>, d: nat, rest: seq<Tok>)
    requires Closed(a, d)
    ensures VaLen(a + rest, d) == |a| + VaLen(rest, 0)
  {
    if a == [] {
      assert a + rest == rest;
    } else {
      assert (a + rest)[1..] == a[1..] + rest;
      ClosedVaLen(a[1..], if a[0].kind == LParen then d + 1 else if a[0].kind == RParen then d - 1 else d, rest);
    }
  }

  lemma ArgOfClosed(a: seq<Tok>, t: Tok, rest: seq<Tok>)
    requires Closed(a, 0) && (t == COMMA || t == CLOSE)
    ensures Arg(a + ([t] + rest)) == if t == COMMA then OneArg(a, rest, true) else OneArg(a, [t] + rest, false)
  {
    var s := a + ([t] + rest);
    ClosedArgLen(a, 0, [t] + rest);
    assert s[|a|] == t && s[..|a|] == a && s[|a|..] == [t] + rest && s[|a| + 1..] == rest;
  }

  lemma TakeDrop<T>(s: seq<T>, k: nat)
    requires 0 < k <= |s|
    ensures s[..k] == [s[0]] + s[1..][..k - 1] && s[k..] == s[1..][k - 1..]
  {}

  /** Collecting k named arguments from a joined list takes the first k and leaves the others. */
  lemma {:induction false} NamedOfJoined(args: seq<seq<Tok>>, k: nat, f: seq<Tok>)
    requires args != [] && AllClosed(args) && k <= |args|
    ensures Named(Joined(args, f), k) == Call(args[..k], Joined(args[k..], f))
    decreases k
  {
    hide Arg, ArgLen, Closed;
    if k > 0 {
      TakeDrop(args, k);
      if |args| == 1 {
        ArgOfClosed(args[0], CLOSE, f);
      } else {
        ArgOfClosed(args[0], COMMA, Joined(args[1..], f));
        NamedOfJoined(args[1..], k - 1, f);
      }
    } else {
      assert args[0..] == args && args[..0] == [];
    }
  }

  /** The list itself, without the parenthesis. */
  function Join(args: seq<seq<Tok>>): seq<Tok> {
    if args == [] then [] else if |args| == 1 then args[0] else args[0] + ([COMMA] + Join(args[1..]))
  }

  lemma {:induction false} JoinedIs(args: seq<seq<Tok>>, f: seq<Tok>)
    ensures Joined(args, f) == Join(args) + ([CLOSE] + f)
  {
    if |args| > 1 {
      JoinedIs(args[1..], f);
    }
  }

  lemma {:induction false} VaOfJoined(args: seq<seq<Tok>>, f: seq<Tok>)
    requires AllClosed(args)
    ensures VaLen(Joined(args, f), 0) == |Join(args)|
  {
    if |args| == 1 {
      ClosedVaLen(args[0], 0, [CLOSE] + f);
    } else if |args| > 1 {
      VaOfJoined(args[1..], f);
      assert ([COMMA] + Joined(args[1..], f))[1..] == Joined(args[1..], f);
      ClosedVaLen(args[0], 0, [COMMA] + Joined(args[1..], f));
    }
  }

  predicate AllSpaces(s: seq<Tok>) { forall i :: 0 <= i < |s| ==> s[i].kind == Space }

  lemma {:induction false} VaOfSpaces(a: seq<Tok>, rest: seq<Tok>)
    requires AllSpaces(a)
    ensures VaLen(a + rest, 0) == |a| + VaLen(rest, 0)
  {
    if a == [] {
      assert a + rest == rest;
    } else {
      assert (a + rest)[1..] == a[1..] + rest;
      VaOfSpaces(a[1..], rest);
    }
  }

  lemma {:induction false} SpacesBefore(s: seq<Tok>, i: nat)
    requires i <= |s|
    ensures forall j :: i <= j < SkipSpaces(s, i) ==> s[j].kind == Space
    decreases |s| - i
  {
    if i < |s| && s[i].kind == Space {
      SpacesBefore(s, i + 1);
    }
  }

  /** A joined list starts, after spaces, with the closing parenthesis exactly when it holds
      nothing but spaces. */
  lemma EmptyJoined(args: seq<seq<Tok>>, f: seq<Tok>)
    requires AllClosed(args)
    ensures var s := Joined(args, f);
            StartsClose(s[SkipSpaces(s, 0)..]) <==> AllSpaces(Join(args))
  {
    var (s, j) := (Joined(args, f), Join(args));
    var k := SkipSpaces(s, 0);
    JoinedIs(args, f);
    SpacesBefore(s, 0);
    assert s[|j|] == CLOSE && forall i :: 0 <= i < |j| ==> s[i] == j[i];
    if !AllSpaces(j) {
      assert k < |j|;
      NoCloseInside(args, f, k);
    }
  }

  lemma NoCloseInside(args: seq<seq<Tok>>, f: seq<Tok>, k: nat)
    requires AllClosed(args) && k < |Join(args)| && k <= |Joined(args, f)| && AllSpaces(Joined(args, f)[..k])
    ensures !StartsClose(Joined(args, f)[k..])
  {
    var s := Joined(args, f);
    VaOfJoined(args, f);
    VaOfSpaces(s[..k], s[k..]);
    assert s == s[..k] + s[k..];
    assert VaLen(s[k..], 0) > 0;
  }

  /** Splitting undoes joining: from the joined list of closed arguments and a parenthesis, the
      call gets those arguments, empty ones included, and the cursor stops on that parenthesis. A
      variadic macro gets the arguments beyond the named ones as one list, commas and all. A list
      of nothing but spaces counts as no argument, or as one empty argument for one parameter. */
  lemma ArgumentsOfJoined(nparams: nat, variadic: bool, args: seq<seq<Tok>>, f: seq<Tok>)
    requires args != [] && AllClosed(args) && (if variadic then nparams <= |args| else nparams == |args|)
    ensures var c := Arguments(nparams, variadic, Joined(args, f));
            && c.args == (if AllSpaces(Join(args)) then (if nparams == 1 then [[]] else [])
                          else if Join(args[nparams..]) != [] then args[..nparams] + [Join(args[nparams..])]
                          else args[..nparams])
            && FromClose(c.rest) == [CLOSE] + f
  {
    var s := Joined(args, f);
    EmptyJoined(args, f);
    if !AllSpaces(Join(args)) {
      var more := args[nparams..];
      NamedOfJoined(args, nparams, f);
      JoinedIs(more, f);
      VaOfJoined(more, f);
      var (j, r) := (Join(more), Joined(more, f));
      assert r[..|j|] == j && r[|j|..] == [CLOSE] + f;
      assert j == [] ==> r == [CLOSE] + f;
      assert j != [] ==> !StartsClose(r);
    } else {
      JoinedIs(args, f);
      FromCloseAfterSpaces(Join(args), [CLOSE] + f);
    }
  }

  lemma {:induction false} FromCloseAfterSpaces(a: seq<Tok>, rest: seq<Tok>)
    requires AllSpaces(a) && StartsClose(rest)
    ensures FromClose(a + rest) == rest
  {
    if a == [] {
      assert a + rest == rest;
    } else {
      assert (a + rest)[1..] == a[1..] + rest;
      FromCloseAfterSpaces(a[1..], rest);
    }
  }
}
