/** The two ways to skip a block comment: over logical characters, and over raw bytes. */
module BlockComment {
  import opened Options
  import opened Splicing

  /** Whether the comment was closed, how many characters of the source were taken, and the
      position reached. */
  datatype Skip = Skip(closed: bool, used: nat, pos: Pos)

  /** The end of skip_block_comment: logical characters up to a star that a slash follows. */
  function SlowUsed(r: string): (u: (bool, nat))
    ensures u.1 <= |r| && (u.0 ==> u.1 >= 2)
    decreases |r|
  {
    var (c, n) := Get(r);
    if c == None then (false, 0)
    else
      var (d, m) := Get(r[n..]);
      if c == Some('*') && d == Some('/') then (true, n + m)
      else var (closed, used) := SlowUsed(r[n..]); (closed, n + used)
  }

  function SlowSkip(r: string, p: Pos): Skip {
    Skip(SlowUsed(r).0, SlowUsed(r).1, Advance(p, r[..SlowUsed(r).1]))
  }

  function More(s: Skip, n: nat): Skip { s.(used := s.used + n) }

  /** The start of skip_block_comment: from star to star through the raw bytes. */
  function FastSkip(r: string, p: Pos): (s: Skip)
    ensures s.used <= |r| && (s.closed ==> s.used >= 2)
    decreases |r|
  {
    if '*' !in r then Skip(false, |r|, p)
    else if r[0] != '*' then More(FastSkip(r[1..], Past(p, r[0])), 1)
    else
      var k := SpliceLen(r[1..]);
      if |r| > 1 && r[1] == '/' then Skip(true, 2, Pos(p.line, p.col + 2))
      else if k > 0 && |r| > 1 + k && r[1 + k] == '/' then Skip(true, 2 + k, Pos(p.line + 1, 1))
      else More(FastSkip(r[1..], Pos(p.line, p.col + 1)), 1)
  }

  /** The bytes `*` and `/` that close the comment stand next to each other; or it is not closed
      and nothing follows its last star. */
  predicate PlainEnd(r: string) { PlainAt(r, SlowUsed(r).0, SlowUsed(r).1) }

  predicate PlainAt(r: string, closed: bool, used: nat)
    requires closed ==> 2 <= used <= |r|
  {
    if closed then r[used - 2] == '*' else r == [] || r[|r| - 1] == '*'
  }

  // ---- the logical characters ----

  /** What is left after the first `*` `/` of a text. */
  function AfterClose(s: string): Option<string> {
    if |s| < 2 then None else if s[0] == '*' && s[1] == '/' then Some(s[2..]) else AfterClose(s[1..])
  }

  /** The slow way finds the first `*` `/` of the logical characters and stops right after it. */
  lemma {:induction false} SlowIsLogical(r: string)
    ensures var (closed, used) := SlowUsed(r);
            if closed then AfterClose(Splice(r)) == Some(Splice(r[used..])) else AfterClose(Splice(r)) == None
    decreases |r|
  {
    hide Splice, Get;
    var (c, n) := Get(r);
    GetIsSplice(r);
    if c != None {
      var (d, m) := Get(r[n..]);
      GetIsSplice(r[n..]);
      if c == Some('*') && d == Some('/') {
        assert r[n..][m..] == r[n + m..];
        assert Splice(r)[1..][1..] == Splice(r)[2..];
      } else {
        SlowIsLogical(r[n..]);
        assert r[n..][SlowUsed(r[n..]).1..] == r[n + SlowUsed(r[n..]).1..];
      }
    }
  }

  // ---- the raw bytes ----

  lemma {:induction false} FastChunk(a: string, r: string, p: Pos)
    requires '*' !in a && '*' in r
    ensures FastSkip(a + r, p) == More(FastSkip(r, Advance(p, a)), |a|)
    decreases |a|
  {
    if a == [] {
      assert a + r == r;
    } else {
      assert (a + r)[1..] == a[1..] + r && '*' in a + r && a[0] != '*';
      FastChunk(a[1..], r, Past(p, a[0]));
      assert a == [a[0]] + a[1..];
      AdvanceFirst(p, a[0], a[1..]);
    }
  }

  /** A logical character is its last byte; before it there are only splices. */
  lemma {:induction false} GetChunk(r: string)
    requires r != []
    ensures var (c, n) := Get(r);
            n > 0 && '*' !in r[..n - 1] && (if c.Some? then r[n - 1] == c.value else n == |r| && '*' !in r && r[|r| - 1] == LF)
            && (n > 1 ==> SpliceLen(r) > 0 && (c.Some? ==> r[n - 2] == LF))
    decreases |r|
  {
    hide Get;
    GetStep(r);
    var k := SpliceLen(r);
    if k > 0 && k == |r| {
      assert r[k..] == [];
    } else if k > 0 {
      var t := r[k..];
      var n := Get(t).1;
      assert '*' !in r[..k];
      hide SpliceLen;
      GetChunk(t);
      TakePast(r, k, n);
    }
  }

  lemma GetStep(r: string)
    ensures var k := SpliceLen(r);
            Get(r) == if r == [] then (None, 0) else if k > 0 then (Get(r[k..]).0, k + Get(r[k..]).1) else (Some(r[0]), 1)
    ensures Get([]) == (None, 0)
  {
    hide SpliceLen;
  }

  lemma TakePast(r: string, k: nat, n: nat)
    requires 0 < k < |r| && 0 < n <= |r| - k
    ensures r[..k + n - 1] == r[..k] + r[k..][..n - 1] && r == r[..k] + r[k..]
    ensures r[k + n - 1] == r[k..][n - 1] && (n > 1 ==> r[k + n - 2] == r[k..][n - 2]) && r[|r| - 1] == r[k..][|r| - k - 1]
    ensures r[k - 1] == r[..k][k - 1]
  {}

  /** Without a star nothing closes. */
  lemma {:induction false} NoStar(r: string)
    requires '*' !in r
    ensures !SlowUsed(r).0
    decreases |r|
  {
    if r != [] && Get(r).0 != None {
      GetChunk(r);
      NoStar(r[Get(r).1..]);
    }
  }

  lemma NoStarDiffers(r: string, p: Pos)
    requires '*' !in r && r != []
    ensures FastSkip(r, p) != SlowSkip(r, p) && !PlainEnd(r)
  {
    NoStar(r);
    AdvanceCounts(p, r);
    assert r[..|r|] == r;
  }

  /** The slow way from r goes on from t, n characters later; so does the fast one. */
  lemma Onwards(r: string, n: nat, t: string, p: Pos, q: Pos)
    requires 0 < n <= |r| && t == r[n..] && q == Advance(p, r[..n])
    requires SlowUsed(r) == (SlowUsed(t).0, n + SlowUsed(t).1)
    requires FastSkip(r, p) == More(FastSkip(t, q), n)
    requires FastSkip(t, q) == SlowSkip(t, q) <==> PlainEnd(t)
    requires t == [] ==> r[n - 1] == '*'
    ensures FastSkip(r, p) == SlowSkip(r, p) <==> PlainEnd(r)
  {
    hide *;
    var (closed, u) := SlowUsed(t);
    PlainAtOnwards(r, n, closed, u);
    PlainEndIs(r);
    PlainEndIs(t);
    Rejoin(r, n, u);
    AdvanceConcat(p, r[..n], t[..u]);
    SlowSkipIs(r, p);
    SlowSkipIs(t, q);
    MoreIs(FastSkip(t, q), n);
  }

  lemma PlainEndIs(r: string)
    ensures PlainEnd(r) == PlainAt(r, SlowUsed(r).0, SlowUsed(r).1)
  {
    hide SlowUsed, PlainAt;
  }

  lemma SlowSkipIs(r: string, p: Pos)
    ensures SlowSkip(r, p) == Skip(SlowUsed(r).0, SlowUsed(r).1, Advance(p, r[..SlowUsed(r).1]))
  {
    hide SlowUsed, Advance;
  }

  lemma MoreIs(s: Skip, n: nat)
    ensures More(s, n) == s.(used := s.used + n)
  {}

  lemma Rejoin(r: string, n: nat, u: nat)
    requires n <= |r| && u <= |r| - n
    ensures r[..n + u] == r[..n] + r[n..][..u]
  {}

  lemma PlainAtOnwards(r: string, n: nat, closed: bool, u: nat)
    requires 0 < n <= |r| && (closed ==> 2 <= u <= |r| - n)
    requires r[n..] == [] ==> r[n - 1] == '*'
    ensures PlainAt(r, closed, n + u) <==> PlainAt(r[n..], closed, u)
  {
    if closed {
      assert r[n + u - 2] == r[n..][u - 2];
    } else if n < |r| {
      assert r[|r| - 1] == r[n..][|r| - n - 1];
    }
  }

  /** The fast way does what the slow one does - closing or not, the same bytes, line and column
      - exactly when the comment ends plainly. */
  lemma {:induction false} SkippersAgree(r: string, p: Pos)
    ensures FastSkip(r, p) == SlowSkip(r, p) <==> PlainEnd(r)
    decreases |r|
  {
    hide FastSkip, SlowUsed, Get, SpliceLen, Advance, PlainEnd, SlowSkip, More;
    if r == [] {
      NothingLeft(p);
    } else if '*' !in r {
      NoStarDiffers(r, p);
    } else {
      GetChunk(r);
      if Get(r).0 == Some('*') {
        AtStar(r, p);
      } else {
        var n := Get(r).1;
        PassOver(r, p);
        SkippersAgree(r[n..], Advance(p, r[..n]));
        Onwards(r, n, r[n..], p, Advance(p, r[..n]));
      }
    }
  }

  /** Both ways pass over a logical character that is no star. */
  lemma PassOver(r: string, p: Pos)
    requires r != [] && '*' in r && Get(r).0 != Some('*')
    ensures var n := Get(r).1;
            0 < n < |r| && SlowUsed(r) == (SlowUsed(r[n..]).0, n + SlowUsed(r[n..]).1)
            && FastSkip(r, p) == More(FastSkip(r[n..], Advance(p, r[..n])), n)
  {
    hide FastSkip, SlowUsed, Get, SpliceLen, Advance, More;
    var n := Get(r).1;
    GetChunk(r);
    assert r[..n] == r[..n - 1] + [r[n - 1]] && r == r[..n] + r[n..];
    FastChunk(r[..n], r[n..], p);
    SlowStep(r);
  }

  lemma NothingLeft(p: Pos)
    ensures FastSkip([], p) == SlowSkip([], p) && PlainEnd([])
  {}

  lemma SlowStep(r: string)
    requires Get(r).0.Some?
    ensures var (c, n) := Get(r);
            var (d, m) := Get(r[n..]);
            SlowUsed(r) == if c == Some('*') && d == Some('/') then (true, n + m) else (SlowUsed(r[n..]).0, n + SlowUsed(r[n..]).1)
  {
    hide Get;
  }

  lemma FastStep(r: string, p: Pos)
    requires r != [] && r[0] == '*'
    ensures FastSkip(r, p) == FastStar(r[1..], p)
  {
    hide SpliceLen;
    var t := r[1..];
    assert |r| > 1 ==> r[1] == t[0];
    assert forall k :: 0 <= k < |t| ==> r[1 + k] == t[k];
  }

  /** The fast way gets to a logical star as it would through its splices, and looks behind it. */
  lemma FastToStar(r: string, p: Pos)
    requires Get(r).0 == Some('*')
    ensures var n := Get(r).1;
            0 < n <= |r| && FastSkip(r, p) == More(FastStar(r[n..], Advance(p, r[..n - 1])), n - 1)
            && Advance(p, r[..n]) == Past(Advance(p, r[..n - 1]), '*')
  {
    hide FastSkip, Get, SpliceLen, Advance, More, FastStar;
    var n := Get(r).1;
    GetChunk(r);
    var (pre, s) := (r[..n - 1], r[n - 1..]);
    assert r == pre + s && s[0] == '*' && s[1..] == r[n..];
    FastChunk(pre, s, p);
    FastStep(s, Advance(p, pre));
    assert r[..n] == pre + ['*'];
    AdvanceOne(p, pre, '*');
  }

  /** The fast way from a star at position p with t behind it. */
  function FastStar(t: string, p: Pos): Skip {
    var k := SpliceLen(t);
    if t != [] && t[0] == '/' then Skip(true, 2, Pos(p.line, p.col + 2))
    else if k > 0 && |t| > k && t[k] == '/' then Skip(true, 2 + k, Pos(p.line + 1, 1))
    else More(FastSkip(t, Pos(p.line, p.col + 1)), 1)
  }

  lemma {:induction false} AtStar(r: string, p: Pos)
    requires Get(r).0 == Some('*')
    ensures FastSkip(r, p) == SlowSkip(r, p) <==> PlainEnd(r)
    decreases |r|, 0
  {
    hide FastSkip, SlowUsed, Get, SpliceLen, Advance, PlainEnd, SlowSkip;
    var n := Get(r).1;
    FastToStar(r, p);
    GetChunk(r);
    NextByte(r[n..]);
    if Get(r[n..]).0 == Some('/') {
      Closing(r, p, n);
    } else {
      SlowStep(r);
      SkippersAgree(r[n..], Advance(p, r[..n]));
      Onwards(r, n, r[n..], p, Advance(p, r[..n]));
    }
  }

  /** The byte tests that the fast way makes after a star. */
  lemma NextByte(t: string)
    ensures t != [] && t[0] == '/' ==> Get(t) == (Some('/'), 1)
    ensures var k := SpliceLen(t); k > 0 && |t| > k && t[k] == '/' ==> Get(t) == (Some('/'), k + 1)
    ensures Get(t).0 == Some('/') && Get(t).1 == 1 ==> t[0] == '/'
  {
    var k := SpliceLen(t);
    if k > 0 && |t| > k && t[k] == '/' {
      assert t[k..][0] == '/';
      assert SpliceLen(t[k..]) == 0;
    }
  }

  /** Where the logical comment closes, at a star whose last byte is r[n - 1]. */
  lemma Closing(r: string, p: Pos, n: nat)
    requires Get(r) == (Some('*'), n) && n <= |r| && Get(r[n..]).0 == Some('/')
    ensures FastSkip(r, p) == SlowSkip(r, p) <==> PlainEnd(r)
  {
    hide FastSkip, SlowUsed, Get, SpliceLen, Advance, FastStar;
    GetChunk(r);
    SlowStep(r);
    var m := Get(r[n..]).1;
    if m == 1 {
      NextByte(r[n..]);
      PlainClose(r, p, n);
      assert r[n - 1] == '*';
    } else {
      SplicedSlash(r[n..]);
      assert r[n + m - 2] == r[n..][m - 2] == LF;
      SplicedClose(r, p, n);
    }
  }

  lemma PlainClose(r: string, p: Pos, n: nat)
    requires Get(r) == (Some('*'), n) && n < |r| && r[n] == '/' && SlowUsed(r) == (true, n + 1)
    ensures FastSkip(r, p) == SlowSkip(r, p)
  {
    hide FastSkip, SlowUsed, Get, SpliceLen, Advance;
    FastToStar(r, p);
    assert r[..n + 1] == r[..n] + ['/'] && r[n..][0] == '/';
    AdvanceOne(p, r[..n], '/');
  }

  lemma AfterLineEnd(r: string, p: Pos, e: nat)
    requires 2 <= e <= |r| && r[e - 1] == '/' && r[e - 2] == LF
    ensures Advance(p, r[..e]).col == 2
  {
    assert r[..e] == r[..e - 1] + ['/'] && r[..e - 1] == r[..e - 2] + [LF];
    AdvanceOne(p, r[..e - 1], '/');
    AdvanceOne(p, r[..e - 2], LF);
  }

  /** A slash that splices stand before. */
  lemma SplicedSlash(t: string)
    requires t != [] && Get(t).0 == Some('/') && Get(t).1 > 1
    ensures var m := Get(t).1;
            '*' !in t[..m] && t[m - 1] == '/' && t[m - 2] == LF && t[0] != '/'
  {
    hide Get;
    GetChunk(t);
    NextByte(t);
    var m := Get(t).1;
    assert t[..m] == t[..m - 1] + ['/'];
  }

  /** A splice between the star and the slash: the fast way gets the column wrong or goes past. */
  lemma SplicedClose(r: string, p: Pos, n: nat)
    requires Get(r) == (Some('*'), n) && n < |r| && Get(r[n..]).0 == Some('/') && Get(r[n..]).1 > 1
    ensures FastSkip(r, p) != SlowSkip(r, p)
  {
    hide FastSkip, SlowUsed, Get, SpliceLen, Advance, SlowSkip;
    var t := r[n..];
    var (m, k) := (Get(t).1, SpliceLen(t));
    SlowStep(r);
    SplicedSlash(t);
    FastToStar(r, p);
    assert SlowSkip(r, p) == Skip(true, n + m, Advance(p, r[..n + m])) by { SlowClosed(r, p, n + m); }
    if k > 0 && |t| > k && t[k] == '/' {
      assert t[m - 1] == r[n + m - 1] && t[m - 2] == r[n + m - 2];
      AfterLineEnd(r, p, n + m);
    } else {
      GoesPast(t, m, Advance(p, r[..n]));
    }
  }

  lemma SlowClosed(r: string, p: Pos, e: nat)
    requires SlowUsed(r) == (true, e)
    ensures SlowSkip(r, p) == Skip(true, e, Advance(p, r[..e]))
  {
    hide SlowUsed;
  }

  lemma GoesPast(t: string, m: nat, p: Pos)
    requires 0 < m <= |t| && '*' !in t[..m]
    ensures !FastSkip(t, p).closed || FastSkip(t, p).used > m
  {
    hide FastSkip, Advance;
    assert t == t[..m] + t[m..];
    if '*' in t[m..] {
      FastChunk(t[..m], t[m..], p);
    } else {
      NoStarFast(t, p);
    }
  }

  lemma NoStarFast(t: string, p: Pos)
    requires '*' !in t
    ensures FastSkip(t, p) == Skip(false, |t|, p)
  {}

  /** A comment without a backslash that is closed at all ends plainly. */
  lemma {:induction false} NoBackslashPlain(r: string)
    requires BS !in r && SlowUsed(r).0
    ensures PlainEnd(r)
    decreases |r|
  {
    var t := r[1..];
    assert Get(r) == (Some(r[0]), 1) && Get(t) == if t == [] then (None, 0) else (Some(t[0]), 1);
    if !(r[0] == '*' && t != [] && t[0] == '/') {
      NoBackslashPlain(t);
      PlainAtOnwards(r, 1, true, SlowUsed(t).1);
    }
  }

  /** A comment closed by a star, two line splices and a slash: the fast way does not see it end. */
  lemma SplicedExample(p: Pos)
    ensures var r := ['*', BS, LF, BS, LF, '/'];
            SlowSkip(r, p) == Skip(true, 6, Pos(p.line + 2, 2)) && FastSkip(r, p) == Skip(false, 6, Pos(p.line, p.col + 1))
  {
    var r := ['*', BS, LF, BS, LF, '/'];
    assert Get(r) == (Some('*'), 1);
    assert r[1..][2..][2..] == ['/'] && r[1..][2..] == [BS, LF, '/'];
    assert Get(['/']) == (Some('/'), 1);
    assert Get([BS, LF, '/']) == (Some('/'), 3);
    assert Get(r[1..]) == (Some('/'), 5);
    AfterStarSplices(p, r);
    assert FastSkip(r[1..], Pos(p.line, p.col + 1)) == Skip(false, 5, Pos(p.line, p.col + 1));
  }

  lemma AfterStarSplices(p: Pos, r: string)
    requires r == ['*', BS, LF, BS, LF, '/']
    ensures Advance(p, r[..6]) == Pos(p.line + 2, 2)
  {
    assert r[..6] == ((((['*'] + [BS]) + [LF]) + [BS]) + [LF]) + ['/'];
    AdvanceOne(p, (((['*'] + [BS]) + [LF]) + [BS]) + [LF], '/');
    AdvanceOne(p, ((['*'] + [BS]) + [LF]) + [BS], LF);
    AdvanceOne(p, (['*'] + [BS]) + [LF], BS);
    AdvanceOne(p, ['*'] + [BS], LF);
    AdvanceOne(p, ['*'], BS);
    assert ['*'] == [] + ['*'];
    AdvanceOne(p, [], '*');
  }

  /** With one splice between the closing star and slash, the fast way closes the comment too, and says
      column 1 of the next line, where it is column 2. */
  lemma OneSpliceEnd(pre: string, cut: string, rest: string, p: Pos)
    requires '*' !in pre && (cut == ['\\', '\n'] || cut == ['\\', '\r', '\n'])
    ensures FastSkip(pre + (['*'] + (cut + (['/'] + rest))), p) == Skip(true, |pre| + |cut| + 2, Pos(Advance(p, pre).line + 1, 1))
  {
    hide FastSkip, SpliceLen, Advance;
    var t := cut + (['/'] + rest);
    var s := ['*'] + t;
    FastChunk(pre, s, p);
    FastStep(s, Advance(p, pre));
    assert s[1..] == t && t[|cut|] == '/' && t[0] == '\\';
    CutLength(cut, ['/'] + rest);
  }

  lemma CutLength(cut: string, s: string)
    requires cut == ['\\', '\n'] || cut == ['\\', '\r', '\n']
    ensures SpliceLen(cut + s) == |cut|
  {}

  /** A comment that is never closed: the fast way counts lines and columns up to its last star only. */
  lemma UnclosedEnd(pre: string, tail: string, p: Pos)
    requires '*' !in pre && '*' !in tail && (tail == [] || tail[0] != '/') && SpliceLen(tail) == 0
    ensures FastSkip(pre + (['*'] + tail), p) == Skip(false, |pre| + 1 + |tail|, Advance(p, pre + ['*']))
    ensures FastSkip(tail, p) == Skip(false, |tail|, p)
  {
    var s := ['*'] + tail;
    FastChunk(pre, s, p);
    FastStep(s, Advance(p, pre));
    assert s[1..] == tail;
    AdvanceOne(p, pre, '*');
  }
}
