/** Translation phase 2 of C11 section 5.1.1.2: a backslash at the end of a line is deleted with
    the line end. Trigraphs are off, as they are by default. */
module Splicing {
  import opened Options

  const LF: char := '\n'
  const CR: char := '\r'
  const BS: char := '\\'

  /** The length of the line splice that s starts with, 0 if it starts with none. */
  function SpliceLen(s: string): (k: nat)
    ensures k <= |s|
  {
    if |s| >= 2 && s[0] == BS && s[1] == LF then 2
    else if |s| >= 3 && s[0] == BS && s[1] == CR && s[2] == LF then 3
    else 0
  }

  /** The logical characters of a source text: one pass over it that deletes the splices. */
  function Splice(s: string): (r: string)
    ensures |r| <= |s|
    decreases |s|
  {
    if s == [] then []
    else if SpliceLen(s) > 0 then Splice(s[SpliceLen(s)..])
    else [s[0]] + Splice(s[1..])
  }

  /** How far the first step of the pass goes, and what it gives. */
  function StepLen(s: string): (n: nat)
    requires s != []
    ensures 0 < n <= |s|
  {
    if SpliceLen(s) > 0 then SpliceLen(s) else 1
  }

  function StepText(s: string): string
    requires s != []
  {
    if SpliceLen(s) > 0 then [] else [s[0]]
  }

  lemma SpliceStep(s: string)
    requires s != []
    ensures Splice(s) == StepText(s) + Splice(s[StepLen(s)..])
  {}

  /** Deleting a splice anywhere in a text and then all the others is deleting them all. */
  lemma {:induction false} SpliceDeletes(a: string, cut: string, b: string)
    requires cut == [BS, LF] || cut == [BS, CR, LF]
    ensures Splice(a + (cut + b)) == Splice(a) + Splice(b)
    decreases |a|
  {
    hide Splice, SpliceLen;
    var s := a + (cut + b);
    if a == [] {
      CutFirst(cut, b);
      assert s == cut + b;
      assert Splice(a) == [] by { SpliceNothing(); }
    } else {
      SpliceLenPrefix(a, cut + b);
      var n := StepLen(a);
      SpliceStep(s);
      SpliceStep(a);
      assert s[n..] == a[n..] + (cut + b);
      SpliceDeletes(a[n..], cut, b);
      assert StepText(a) + (Splice(a[n..]) + Splice(b)) == (StepText(a) + Splice(a[n..])) + Splice(b);
    }
  }

  lemma SpliceNothing()
    ensures Splice([]) == []
  {}

  lemma CutFirst(cut: string, b: string)
    requires cut == [BS, LF] || cut == [BS, CR, LF]
    ensures Splice(cut + b) == Splice(b)
  {
    assert (cut + b)[|cut|..] == b;
  }

  lemma SpliceLenPrefix(a: string, b: string)
    requires a != [] && (b == [] || b[0] == BS)
    ensures SpliceLen(a + b) == SpliceLen(a)
  {
    var s := a + b;
    assert |s| >= 2 && |a| >= 2 ==> s[1] == a[1];
    assert |a| == 1 && |s| >= 2 ==> s[1] == b[0];
    assert |a| == 2 && |s| >= 3 ==> s[2] == b[0];
  }

  /** A text of one line has nothing to splice. */
  lemma {:induction false} SpliceOneLine(s: string)
    requires LF !in s
    ensures Splice(s) == s
    decreases |s|
  {
    if s != [] {
      SpliceOneLine(s[1..]);
    }
  }

  /** The next logical character, and how many characters of the source it takes. */
  function Get(s: string): (r: (Option<char>, nat))
    ensures r.1 <= |s| && (r.0.Some? ==> r.1 > 0)
    decreases |s|
  {
    if s == [] then (None, 0)
    else if SpliceLen(s) > 0 then var (c, n) := Get(s[SpliceLen(s)..]); (c, SpliceLen(s) + n)
    else (Some(s[0]), 1)
  }

  lemma {:induction false} GetIsSplice(s: string)
    ensures var (c, n) := Get(s);
            if Splice(s) == [] then c == None && n == |s|
            else c == Some(Splice(s)[0]) && Splice(s[n..]) == Splice(s)[1..]
    decreases |s|
  {
    if s != [] && SpliceLen(s) > 0 {
      GetIsSplice(s[SpliceLen(s)..]);
    }
  }

  /** All the characters that repeated reading delivers, and how many bytes it takes in all. */
  function GetAll(s: string): (string, nat)
    decreases |s|
  {
    var (c, n) := Get(s);
    if c == None then ([], n) else ([c.value] + GetAll(s[n..]).0, n + GetAll(s[n..]).1)
  }

  /** Reading to the end delivers exactly the spliced text, and consumes the whole source. */
  lemma {:induction false} GetAllIsSplice(s: string)
    ensures GetAll(s) == (Splice(s), |s|)
    decreases |s|
  {
    hide Get, Splice;
    GetIsSplice(s);
    var (c, n) := Get(s);
    if c != None {
      GetAllIsSplice(s[n..]);
      assert [c.value] + Splice(s)[1..] == Splice(s);
    }
  }

  // ---- positions ----

  datatype Pos = Pos(line: nat, col: nat)

  /** rb_adv's count of lines and columns. */
  function Past(p: Pos, c: char): Pos { if c == LF then Pos(p.line + 1, 1) else Pos(p.line, p.col + 1) }

  function Advance(p: Pos, s: string): Pos { if s == [] then p else Past(Advance(p, s[..|s| - 1]), s[|s| - 1]) }

  function Newlines(s: string): nat { if s == [] then 0 else (if s[0] == LF then 1 else 0) + Newlines(s[1..]) }

  /** A line end starts a line at its first column. */
  lemma AdvanceLine(p: Pos, s: string)
    ensures Advance(p, s + ['\n']) == Pos(Advance(p, s).line + 1, 1)
  {
    AdvanceOne(p, s, '\n');
  }

  lemma AdvanceOne(p: Pos, s: string, c: char)
    ensures Advance(p, s + [c]) == Past(Advance(p, s), c)
  {
    assert (s + [c])[..|s|] == s;
  }

  lemma {:induction false} AdvanceConcat(p: Pos, a: string, b: string)
    ensures Advance(p, a + b) == Advance(Advance(p, a), b)
    decreases |b|
  {
    if b == [] {
      assert a + b == a;
    } else {
      var (init, c) := (b[..|b| - 1], b[|b| - 1]);
      assert a + b == (a + init) + [c];
      AdvanceOne(p, a + init, c);
      AdvanceConcat(p, a, init);
    }
  }

  lemma AdvanceFirst(p: Pos, c: char, s: string)
    ensures Advance(p, [c] + s) == Advance(Past(p, c), s)
  {
    AdvanceConcat(p, [c], s);
    assert [c] == [] + [c];
    AdvanceOne(p, [], c);
  }

  /** The line counter grows by the line ends read, and every character moves the position on. */
  lemma {:induction false} AdvanceCounts(p: Pos, s: string)
    ensures Advance(p, s).line == p.line + Newlines(s)
    ensures s != [] ==> Advance(p, s) != p && Advance(p, s).line >= p.line
    ensures Advance(p, s).line == p.line ==> Advance(p, s).col == p.col + |s|
    decreases |s|
  {
    if s != [] {
      assert s == [s[0]] + s[1..];
      AdvanceFirst(p, s[0], s[1..]);
      AdvanceCounts(Past(p, s[0]), s[1..]);
    }
  }
}
