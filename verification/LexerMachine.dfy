/** The reader as the preprocessor runs it: a position in the source bytes with its line and
    column, read through the splicing layer, and the tokenizer on top of it. */
module LexerMachine {
  import opened Options
  import opened Splicing
  import opened BlockComment
  import opened Lexer

  /** What is left of the source after n more logical characters. */
  function DropLogical(r: string, n: nat): (s: string)
    ensures |s| <= |r|
    decreases n
  {
    if n == 0 then r else DropLogical(r[Get(r).1..], n - 1)
  }

  /** Does a block comment come next that the two ways of skipping disagree on? */
  predicate CommentTrap(r: string) {
    var s := SkipBlanks(Splice(r));
    |s| >= 2 && s[0] == '/' && s[1] == '*' && !PlainEnd(DropLogical(r, |Splice(r)| - |s| + 2))
  }

  lemma {:induction false} NothingSpliced(r: string)
    requires '\\' !in r
    ensures Splice(r) == r
  {
    if r != [] { NothingSpliced(r[1..]); }
  }

  lemma {:induction false} DropPlain(r: string, n: nat)
    requires '\\' !in r && n <= |r|
    ensures DropLogical(r, n) == r[n..]
  {
    if n > 0 {
      assert Get(r) == (Some(r[0]), 1);
      DropPlain(r[1..], n - 1);
    }
  }

  /** Without a backslash the two ways can disagree on a comment only that is never closed. */
  lemma TrapIsSpliced(r: string)
    requires '\\' !in r && CommentTrap(r)
    ensures |SkipBlanks(r)| >= 2 && AfterClose(SkipBlanks(r)[2..]) == None
  {
    hide Splice, SkipBlanks, DropLogical, SlowUsed, AfterClose, PlainEnd;
    NothingSpliced(r);
    BlanksInFront(r);
    var s := SkipBlanks(r);
    var n := |r| - |s| + 2;
    DropPlain(r, n);
    assert r[n..] == s[2..];
    PlainComment(s[2..]);
  }

  lemma PlainComment(t: string)
    requires '\\' !in t && !PlainEnd(t)
    ensures AfterClose(t) == None
  {
    hide Splice, SlowUsed, AfterClose, PlainEnd;
    SlowIsLogical(t);
    NothingSpliced(t);
    if SlowUsed(t).0 { NoBackslashPlain(t); }
  }

  lemma {:induction false} BlanksInFront(r: string)
    ensures r[|r| - |SkipBlanks(r)|..] == SkipBlanks(r)
  {
    if r != [] && IsBlank(r[0]) { BlanksInFront(r[1..]); }
  }

  class CppReader {
    const buf: string
    var pos: nat
    var line: nat
    var col: nat

    ghost predicate Valid()
      reads this
    {
      pos <= |buf|
    }

    ghost function Raw(): string
      reads this
      requires Valid()
    {
      buf[pos..]
    }

    /** The logical characters that are left. */
    ghost function Left(): string
      reads this
      requires Valid()
    {
      Splice(Raw())
    }

    ghost function At(): Pos
      reads this
    {
      Pos(line, col)
    }

    /** The line and column are those of the bytes read: the line is one more than the line ends
        among them. */
    ghost predicate InStep()
      reads this
      requires Valid()
    {
      At() == Advance(Pos(1, 1), buf[..pos])
    }

    constructor (buf: string)
      ensures Valid() && InStep() && this.buf == buf && Raw() == buf
    {
      this.buf := buf;
      pos, line, col := 0, 1, 1;
    }

    lemma LineCount()
      requires Valid() && InStep()
      ensures line == 1 + Newlines(buf[..pos])
    {
      AdvanceCounts(Pos(1, 1), buf[..pos]);
    }

    // ---- the layers of reader_getc ----

    /** rb_adv */
    method RbAdv() returns (c: char)
      requires Valid() && pos < |buf|
      modifies this`pos, this`line, this`col
      ensures Valid() && pos == old(pos) + 1 && c == buf[old(pos)] && At() == Past(old(At()), c)
      ensures old(InStep()) ==> InStep()
    {
      c := buf[pos];
      pos := pos + 1;
      if c == LF { line, col := line + 1, 1; } else { col := col + 1; }
      assert buf[..pos] == buf[..pos - 1] + [c];
      AdvanceOne(Pos(1, 1), buf[..pos - 1], c);
    }

    /** ph1_get */
    method Ph1Get() returns (c: Option<char>)
      requires Valid()
      modifies this`pos, this`line, this`col
      ensures Valid() && (old(InStep()) ==> InStep())
      ensures if old(pos) == |buf| then c == None && pos == old(pos) else c == Some(buf[old(pos)]) && pos == old(pos) + 1
    {
      if pos == |buf| { return None; }
      var ch := RbAdv();
      c := Some(ch);
    }

    /** The character c has been read at byte pos - 1, or the end of the source. */
    ghost predicate Reading(c: Option<char>)
      reads this
      requires Valid()
    {
      if c.Some? then pos > 0 && c.value == buf[pos - 1] else pos == |buf|
    }

    /** Where c was read: the bytes from there on. */
    ghost function From(c: Option<char>): string
      reads this
      requires Valid() && Reading(c)
    {
      if c.Some? then buf[pos - 1..] else []
    }

    /** The bytes after the backslash just read that make a line splice with it. */
    method SpliceAhead() returns (k: nat)
      requires Valid() && pos > 0 && buf[pos - 1] == BS
      ensures k <= |buf| - pos && SpliceLen(buf[pos - 1..]) == if k == 0 then 0 else k + 1
    {
      if pos < |buf| && buf[pos] == LF { return 1; }
      if pos + 1 < |buf| && buf[pos] == CR && buf[pos + 1] == LF { return 2; }
      return 0;
    }

    method AdvanceBy(k: nat)
      requires Valid() && k <= |buf| - pos
      modifies this`pos, this`line, this`col
      ensures Valid() && pos == old(pos) + k && (old(InStep()) ==> InStep())
    {
      for i := 0 to k
        invariant Valid() && pos == old(pos) + i && (old(InStep()) ==> InStep())
      {
        var _ := RbAdv();
      }
    }

    /** ph2_raw_get: a character, past the splices before it. */
    method RawGet() returns (c: Option<char>)
      requires Valid()
      modifies this`pos, this`line, this`col
      ensures Valid() && (c, pos - old(pos)) == Get(old(Raw())) && (old(InStep()) ==> InStep())
    {
      hide Advance, SpliceLen, Get, InStep;
      ghost var all := Raw();
      c := Ph1Get();
      ghost var r := From(c);
      assert r == all;
      while c == Some(BS)
        invariant Valid() && Reading(c) && r == From(c) && (old(InStep()) ==> InStep())
        invariant |r| <= |all| && Get(all).0 == Get(r).0 && Get(all).1 == |all| - |r| + Get(r).1
        decreases |r|
      {
        var k := SpliceAhead();
        GetOn(r);
        if k == 0 { return; }
        AdvanceBy(k);
        c := Ph1Get();
        assert From(c) == r[k + 1..];
        r := From(c);
      }
      GetPlain(r);
    }

    /** reader_getc */
    method Getc() returns (c: Option<char>)
      requires Valid()
      modifies this`pos, this`line, this`col
      ensures Valid() && (c, pos - old(pos)) == Get(old(Raw())) && (old(InStep()) ==> InStep())
      ensures if old(Left()) == [] then c == None && Left() == []
              else c == Some(old(Left())[0]) && Left() == old(Left())[1..]
    {
      hide Get, Splice, Advance;
      GetIsSplice(Raw());
      c := RawGet();
      assert Raw() == old(Raw())[pos - old(pos)..];
      SpliceNothing();
    }

    /** reader_peekc: reads and puts the position back. */
    method Peekc() returns (c: Option<char>)
      requires Valid()
      modifies this`pos, this`line, this`col
      ensures Valid() && pos == old(pos) && At() == old(At())
      ensures c == if Left() == [] then None else Some(Left()[0])
    {
      hide Splice, Advance;
      var savedPos, savedLine, savedCol := pos, line, col;
      c := RawGet();
      pos, line, col := savedPos, savedLine, savedCol;
      GetIsSplice(Raw());
    }

    // ---- blanks and comments ----

    method SkipBlank()
      requires Valid()
      modifies this`pos, this`line, this`col
      ensures Valid() && Left() == SkipBlanks(old(Left())) && (old(InStep()) ==> InStep())
      ensures Raw() == DropLogical(old(Raw()), |old(Left())| - |Left()|)
    {
      hide Splice, Get, Advance;
      while true
        invariant Valid() && SkipBlanks(Left()) == SkipBlanks(old(Left())) && |Left()| <= |old(Left())|
        invariant Raw() == DropLogical(old(Raw()), |old(Left())| - |Left()|)
        invariant old(InStep()) ==> InStep()
        decreases |Left()|
      {
        var c := Peekc();
        if c == None || !IsBlank(c.value) { return; }
        ghost var n := |old(Left())| - |Left()|;
        DropOneMore(old(Raw()), n);
        ghost var before := Raw();
        var _ := Getc();
        assert Raw() == before[Get(before).1..];
      }
    }

    /** skip_block_comment when comments are kept: logical characters. */
    method SkipBlockSlow() returns (closed: bool)
      requires Valid()
      modifies this`pos, this`line, this`col
      ensures Valid() && (closed, pos - old(pos)) == SlowUsed(old(Raw())) && (old(InStep()) ==> InStep())
    {
      hide Splice, Get, Advance;
      ghost var start := pos;
      while true
        invariant Valid() && start <= pos && (old(InStep()) ==> InStep())
        invariant SlowUsed(buf[start..]) == (SlowUsed(Raw()).0, pos - start + SlowUsed(Raw()).1)
        decreases |buf| - pos
      {
        ghost var r := Raw();
        GetIsSplice(r);
        var c := Peekc();
        if c == None { return false; }
        var _ := Getc();
        assert Raw() == r[Get(r).1..];
        GetIsSplice(Raw());
        if c == Some('*') {
          var d := Peekc();
          if d == Some('/') {
            var _ := Getc();
            return true;
          }
        }
      }
    }

    /** What the raw way does right behind a star: closes the comment if a slash comes next, or
        after one line splice. */
    method CloseAfterStar() returns (done: bool)
      requires Valid() && col > 0
      modifies this`pos, this`line, this`col
      ensures Valid() && pos >= old(pos)
      ensures var star := Pos(old(line), old(col) - 1);
              FastStar(old(Raw()), star) == if done then Skip(true, pos - old(pos) + 1, At()) else More(FastSkip(Raw(), At()), 1)
      ensures !done ==> pos == old(pos)
    {
      hide FastSkip, SpliceLen;
      SpliceAt(Raw());
      if pos < |buf| && buf[pos] == '/' {
        pos := pos + 1;
        col := col + 1;
        return true;
      }
      if pos + 1 < |buf| && buf[pos] == BS
         && (buf[pos + 1] == LF || (pos + 2 < |buf| && buf[pos + 1] == CR && buf[pos + 2] == LF)) {
        var after := if buf[pos + 1] == CR then pos + 3 else pos + 2;
        if after < |buf| && buf[after] == '/' {
          line := line + 1;
          col := 1;
          pos := after + 1;
          return true;
        }
      }
      return false;
    }

    /** The next star, or the end of the source. */
    method FindStar() returns (star: nat)
      requires Valid()
      ensures pos <= star <= |buf| && '*' !in buf[pos..star] && (star < |buf| ==> buf[star] == '*')
    {
      star := pos;
      while star < |buf| && buf[star] != '*'
        invariant pos <= star <= |buf| && '*' !in buf[pos..star]
      {
        assert buf[pos..star + 1] == buf[pos..star] + [buf[star]];
        star := star + 1;
      }
    }

    /** skip_block_comment when they are not: raw bytes, from star to star. */
    method SkipBlockFast() returns (closed: bool)
      requires Valid()
      modifies this`pos, this`line, this`col
      ensures Valid() && pos >= old(pos)
      ensures Skip(closed, pos - old(pos), At()) == FastSkip(old(Raw()), old(At()))
    {
      hide FastSkip, Advance, FastStar;
      ghost var start := pos;
      while true
        invariant Valid() && start <= pos
        invariant FastSkip(buf[start..], old(At())) == More(FastSkip(Raw(), At()), pos - start)
        decreases |buf| - pos
      {
        var star := FindStar();
        ghost var (r, p, from) := (Raw(), At(), pos);
        if star == |buf| {
          assert buf[pos..star] == r;
          NoStarFast(r, p);
          pos := |buf|;
          return false;
        }
        CountTo(star);
        ghost var q := At();
        assert r == buf[from..star] + buf[star..] && buf[star..][0] == '*' && buf[star..][1..] == buf[star + 1..];
        FastChunk(buf[from..star], buf[star..], p);
        FastStep(buf[star..], q);
        pos := star + 1;
        col := col + 1;
        closed := CloseAfterStar();
        if closed { return; }
      }
    }

    /** Counts the lines and columns up to byte `to`, without moving. */
    method CountTo(to: nat)
      requires Valid() && pos <= to <= |buf|
      modifies this`line, this`col
      ensures At() == Advance(old(At()), buf[pos..to])
    {
      assert Advance(At(), buf[pos..pos]) == At();
      for i := pos to to
        invariant At() == Advance(old(At()), buf[pos..i])
      {
        AdvanceOne(old(At()), buf[pos..i], buf[i]);
        assert buf[pos..i + 1] == buf[pos..i] + [buf[i]];
        if buf[i] == LF { line, col := line + 1, 1; } else { col := col + 1; }
      }
    }

    method SkipLineComment()
      requires Valid()
      modifies this`pos, this`line, this`col
      ensures Valid() && Left() == SkipLine(old(Left())) && (old(InStep()) ==> InStep())
    {
      hide Splice, Get, Advance;
      while true
        invariant Valid() && SkipLine(Left()) == SkipLine(old(Left())) && (old(InStep()) ==> InStep())
        decreases |Left()|
      {
        var c := Peekc();
        if c == None || c == Some(LF) { return; }
        var _ := Getc();
      }
    }

    // ---- the bodies of tokens ----

    /** lex_quoted, after the opening quote. */
    method LexQuoted(delim: char) returns (t: string, ok: bool)
      requires Valid() && delim != BS
      modifies this`pos, this`line, this`col
      ensures Valid() && (t, ok, Left()) == Quoted(delim, old(Left())) && (old(InStep()) ==> InStep())
    {
      hide Splice, Get, Advance, Quoted;
      t := [];
      NothingBefore(Quoted(delim, Left()));
      while true
        invariant Valid() && (old(InStep()) ==> InStep())
        invariant Quoted(delim, old(Left())) == Before(t, Quoted(delim, Left()))
        decreases |Left()|
      {
        ghost var s := Left();
        QuotedStep(delim, s, t);
        var c := Peekc();
        if c == None { return t, false; }
        if c == Some(LF) { return t, false; }
        var _ := Getc();
        t := t + [c.value];
        if c == Some(BS) {
          var esc := Peekc();
          if esc == None { return t, false; }
          if esc == Some(LF) { return t, false; }
          var _ := Getc();
          t := t + [esc.value];
        } else if c == Some(delim) {
          return t, true;
        }
      }
    }

    method LexIdent() returns (t: string)
      requires Valid()
      modifies this`pos, this`line, this`col
      ensures Valid() && (t, Left()) == IdentTail(old(Left())) && (old(InStep()) ==> InStep())
    {
      hide Splice, Get, Advance, IdentTail;
      t := [];
      assert [] + IdentTail(Left()).0 == IdentTail(Left()).0;
      while true
        invariant Valid() && (old(InStep()) ==> InStep())
        invariant IdentTail(old(Left())) == (t + IdentTail(Left()).0, IdentTail(Left()).1)
        decreases |Left()|
      {
        ghost var s := Left();
        IdentStep(s, t);
        var d := Peekc();
        if d == Some(BS) {
          var _ := Getc();
          var e := Peekc();
          if e != Some('u') && e != Some('U') { return; }
          var _ := Getc();
          t := t + [BS, e.value];
        } else {
          if d == None || !IsIdentCont(d.value) { return; }
          t := t + [d.value];
          var _ := Getc();
        }
      }
    }

    method LexAt() returns (t: string)
      requires Valid()
      modifies this`pos, this`line, this`col
      ensures Valid() && (t, Left()) == AtTail(old(Left())) && (old(InStep()) ==> InStep())
    {
      hide Splice, Get, Advance, AtTail;
      t := [];
      assert [] + AtTail(Left()).0 == AtTail(Left()).0;
      while true
        invariant Valid() && (old(InStep()) ==> InStep())
        invariant AtTail(old(Left())) == (t + AtTail(Left()).0, AtTail(Left()).1)
        decreases |Left()|
      {
        AtStep(Left(), t);
        var e := Peekc();
        if e == None || !IsIdentCont(e.value) { return; }
        t := t + [e.value];
        var _ := Getc();
      }
    }

    method LexNumber() returns (t: string)
      requires Valid()
      modifies this`pos, this`line, this`col
      ensures Valid() && (t, Left()) == NumberTail(old(Left())) && (old(InStep()) ==> InStep())
    {
      hide Splice, Get, Advance, NumberTail;
      t := [];
      assert [] + NumberTail(Left()).0 == NumberTail(Left()).0;
      while true
        invariant Valid() && (old(InStep()) ==> InStep())
        invariant NumberTail(old(Left())) == (t + NumberTail(Left()).0, NumberTail(Left()).1)
        decreases |Left()|
      {
        NumberStart(Left());
        assert t + [] == t;
        var d := Peekc();
        if d == None || !InNumber(d.value) { return; }
        NumberStep(Left(), t);
        t := t + [d.value];
        var _ := Getc();
        if IsExponent(d.value) {
          var e := Peekc();
          if e.Some? && IsSign(e.value) {
            t := t + [e.value];
            var _ := Getc();
          }
        }
      }
    }

    /** Takes the next character if it is d. */
    method Accept(d: char) returns (b: bool)
      requires Valid()
      modifies this`pos, this`line, this`col
      ensures Valid() && (old(InStep()) ==> InStep()) && (b <==> old(Left()) != [] && old(Left())[0] == d)
      ensures Left() == if b then old(Left())[1..] else old(Left())
    {
      hide Splice, Get, Advance;
      var c := Peekc();
      b := c == Some(d);
      if b { var _ := Getc(); }
    }

    /** The punctuators: the longest that fits, with a look ahead that is taken back. */
    method LexPunct(c: char) returns (t: string)
      requires Valid()
      modifies this`pos, this`line, this`col
      ensures Valid() && t == PunctTail(c, old(Left())) && Left() == old(Left())[PunctLen(c, old(Left()))..]
      ensures old(InStep()) ==> InStep()
    {
      hide Splice, Get, Advance;
      ghost var s := Left();
      var n := Peekc();
      if c == '.' {
        if n != Some('.') { return []; }
        var savedPos, savedLine, savedCol := pos, line, col;
        var _ := Getc();
        var third := Accept('.');
        if third { return ['.', '.']; }
        pos, line, col := savedPos, savedLine, savedCol;
        return [];
      }
      if n == None || n.value !in Seconds(c) { return []; }
      var _ := Getc();
      t := [n.value];
      if (c == '<' || c == '>') && n.value == c {
        var eq := Accept('=');
        if eq { t := t + ['=']; }
      } else if c == '%' && n.value == ':' {
        var savedPos, savedLine, savedCol := pos, line, col;
        var percent := Accept('%');
        if percent {
          var colon := Accept(':');
          if colon {
            t := t + [':', ':'];
          } else {
            pos, line, col := savedPos, savedLine, savedCol;
          }
        }
      }
    }

    // ---- the tokenizer ----

    /** What reader_next_tok makes of a literal after its prefix and opening quote. */
    method LexLiteral(prefix: string, delim: char) returns (kind: Kind, spell: string, closed: bool)
      requires Valid() && delim != BS
      modifies this`pos, this`line, this`col
      ensures Valid() && Lexeme(kind, spell, closed, Left()) == Literal(prefix, delim, old(Left()))
      ensures old(InStep()) ==> InStep()
    {
      hide Splice, Get, Advance, Quoted;
      var t, ok := LexQuoted(delim);
      kind := if delim == '"' then StringLit else CharConst;
      spell := prefix + ([delim] + t);
      closed := ok;
    }

    /** A block comment, after its opening. */
    method LexComment() returns (closed: bool)
      requires Valid()
      modifies this`pos, this`line, this`col
      ensures Valid() && pos >= old(pos) && Skip(closed, pos - old(pos), At()) == FastSkip(old(Raw()), old(At()))
      ensures PlainEnd(old(Raw())) ==> (closed <==> AfterClose(old(Left())).Some?)
      ensures PlainEnd(old(Raw())) && closed ==> AfterClose(old(Left())) == Some(Left())
      ensures PlainEnd(old(Raw())) && !closed ==> Left() == []
      ensures PlainEnd(old(Raw())) && old(InStep()) ==> InStep()
    {
      hide Splice, Get, Advance, FastSkip, PlainEnd, SlowUsed, SpliceLen;
      ghost var (r, p) := (Raw(), At());
      closed := SkipBlockFast();
      SkippersAgree(r, p);
      SlowSkipIs(r, p);
      SlowIsLogical(r);
      assert r[pos - old(pos)..] == Raw();
      FastUnclosed(r, p);
      SpliceNothing();
      assert buf[..pos] == buf[..old(pos)] + r[..pos - old(pos)];
      AdvanceConcat(Pos(1, 1), buf[..old(pos)], r[..pos - old(pos)]);
    }

    /** The part of reader_next_tok after a first character c that starts no comment. */
    method LexFrom(c: char) returns (kind: Kind, spell: string, closed: bool)
      requires Valid() && !(c == '/' && Left() != [] && (Left()[0] == '*' || Left()[0] == '/'))
      modifies this`pos, this`line, this`col
      ensures Valid() && Lexeme(kind, spell, closed, Left()) == TokFrom(c, old(Left()))
      ensures old(InStep()) ==> InStep()
    {
      hide Splice, Get, Advance, TokFrom, Literal, IdentTail, NumberTail, AtTail, PunctTail, PunctLen;
      ghost var s := Left();
      if c == 'L' || c == 'u' || c == 'U' {
        var next := Peekc();
        if next.Some? && IsQuote(next.value) {
          TokPrefixed(c, s);
          var _ := Getc();
          kind, spell, closed := LexLiteral([c], next.value);
          return;
        }
        if c == 'u' && next == Some('8') {
          var savedPos, savedLine, savedCol := pos, line, col;
          var _ := Getc();
          var n2 := Peekc();
          if n2.Some? && IsQuote(n2.value) {
            TokPrefixed(c, s);
            var _ := Getc();
            assert Left() == s[2..];
            kind, spell, closed := LexLiteral([c, '8'], n2.value);
            return;
          }
          pos, line, col := savedPos, savedLine, savedCol;
        }
      }
      if IsIdentStart(c) {
        TokIdent(c, s);
        var t := LexIdent();
        return Ident, [c] + t, true;
      }
      var n := Peekc();
      if IsDigit(c) || (c == '.' && n.Some? && IsDigit(n.value)) {
        TokNumber(c, s);
        var t := LexNumber();
        return PpNumber, [c] + t, true;
      }
      if IsQuote(c) {
        TokQuote(c, s);
        kind, spell, closed := LexLiteral([], c);
        return;
      }
      if c == '@' && n.Some? && IsIdentStart(n.value) {
        TokAt(c, s);
        var t := LexAt();
        return AtIntrinsic, [c] + t, true;
      }
      TokPunct(c, s);
      var t := LexPunct(c);
      return Punct, [c] + t, true;
    }

    /** A slash has been read, and what comes next makes a comment of it: k logical characters
        before it the source was r. */
    method LexSlash(ghost r: string, ghost k: nat) returns (closed: bool)
      requires Valid() && Raw() == DropLogical(r, k + 1)
      requires Left() != [] && (Left()[0] == '*' || Left()[0] == '/')
      modifies this`pos, this`line, this`col
      ensures Valid()
      ensures old(Left())[0] == '/' || PlainEnd(DropLogical(r, k + 2)) ==>
                Lexeme(Space, [' '], closed, Left()) == TokFrom('/', old(Left())) && (old(InStep()) ==> InStep())
    {
      hide Splice, Get, Advance, TokFrom, PlainEnd, AfterClose, SkipLine, FastSkip;
      ghost var (before, s) := (Raw(), Left());
      var d := Getc();
      if d == Some('/') {
        TokLineComment(s);
        SkipLineComment();
        return true;
      }
      DropOneMore(r, k + 1);
      assert Raw() == before[Get(before).1..] == DropLogical(r, k + 2);
      TokComment(s);
      closed := LexComment();
    }

    /** reader_next_tok without comments kept: the tokenizer on the logical characters, unless a
        comment comes next whose end only the slow way sees. */
    method ReadTok() returns (kind: Kind, spell: string, closed: bool)
      requires Valid()
      modifies this`pos, this`line, this`col
      ensures Valid()
      ensures !CommentTrap(old(Raw())) ==> Lexeme(kind, spell, closed, Left()) == NextTok(old(Left()))
      ensures !CommentTrap(old(Raw())) && old(InStep()) ==> InStep()
    {
      hide Splice, Get, Advance, TokFrom, PlainEnd, SkipBlanks;
      ghost var (r, all) := (Raw(), Left());
      SkipBlank();
      ghost var (s, before) := (Left(), Raw());
      var first := Getc();
      if first == None { return Eof, [], true; }
      var c := first.value;
      if c == LF { return Newline, [LF], true; }
      if c == '/' {
        var d := Peekc();
        if d == Some('*') || d == Some('/') {
          DropOneMore(r, |all| - |s|);
          assert Raw() == before[Get(before).1..];
          closed := LexSlash(r, |all| - |s|);
          return Space, [' '], closed;
        }
      }
      kind, spell, closed := LexFrom(c);
    }
  }

  // ---- small steps ----

  lemma SpliceAt(r: string)
    ensures SpliceLen(r) == if |r| >= 2 && r[0] == BS && r[1] == LF then 2
                            else if |r| >= 3 && r[0] == BS && r[1] == CR && r[2] == LF then 3 else 0
  {}

  lemma GetOn(r: string)
    requires r != []
    ensures SpliceLen(r) == 0 ==> Get(r) == (Some(r[0]), 1)
    ensures SpliceLen(r) > 0 ==> Get(r).0 == Get(r[SpliceLen(r)..]).0 && Get(r).1 == SpliceLen(r) + Get(r[SpliceLen(r)..]).1
  {
    hide SpliceLen;
  }

  lemma GetPlain(r: string)
    requires r == [] || r[0] != BS
    ensures Get(r) == if r == [] then (None, 0) else (Some(r[0]), 1)
  {}

  lemma {:induction false} DropOneMore(r: string, n: nat)
    ensures var s := DropLogical(r, n); DropLogical(r, n + 1) == s[Get(s).1..]
    decreases n
  {
    hide Get;
    if n > 0 {
      DropOneMore(r[Get(r).1..], n - 1);
    } else {
      assert DropLogical(r[Get(r).1..], 0) == r[Get(r).1..];
    }
  }

  /** t in front of what Quoted gives. */
  function Before(t: string, q: (string, bool, string)): (string, bool, string) { (t + q.0, q.1, q.2) }

  lemma NothingBefore(q: (string, bool, string))
    ensures Before([], q) == q
  {
    assert [] + q.0 == q.0;
  }

  lemma QuotedStep(delim: char, s: string, t: string)
    requires delim != BS
    ensures Before(t, Quoted(delim, s)) ==
              if s == [] || s[0] == LF then (t, false, s)
              else if s[0] == BS then
                if |s| == 1 || s[1] == LF then (t + [BS], false, s[1..])
                else Before((t + [s[0]]) + [s[1]], Quoted(delim, s[1..][1..]))
              else if s[0] == delim then (t + [delim], true, s[1..])
              else Before(t + [s[0]], Quoted(delim, s[1..]))
  {
    hide Quoted;
    QuotedUnfold(delim, s);
    if s == [] || s[0] == LF {
      Regroup1(t, ' ', []);
    } else {
      Regroup1(t, s[0], Quoted(delim, s[1..]).0);
      if |s| >= 2 {
        Regroup2(t, s[0], s[1], Quoted(delim, s[1..][1..]).0);
      }
    }
  }

  lemma QuotedUnfold(delim: char, s: string)
    requires delim != BS
    ensures Quoted(delim, s) ==
              if s == [] || s[0] == LF then ([], false, s)
              else if s[0] == BS then
                if |s| == 1 || s[1] == LF then ([BS], false, s[1..])
                else Before([s[0], s[1]], Quoted(delim, s[1..][1..]))
              else if s[0] == delim then ([delim], true, s[1..])
              else Before([s[0]], Quoted(delim, s[1..]))
  {
    assert |s| >= 2 ==> s[1..][1..] == s[2..] && s[..2] == [s[0], s[1]];
  }

  lemma Regroup1(t: string, a: char, u: string)
    ensures t + ([a] + u) == (t + [a]) + u && t + [] == t
  {}

  lemma Regroup2(t: string, a: char, b: char, u: string)
    ensures t + ([a, b] + u) == ((t + [a]) + [b]) + u
    ensures t + ([a, b] + u) == (t + [a, b]) + u
  {}

  lemma IdentUnfold(s: string)
    ensures IdentTail(s) ==
              if s == [] then ([], [])
              else if IsIdentCont(s[0]) then ([s[0]] + IdentTail(s[1..]).0, IdentTail(s[1..]).1)
              else if s[0] != BS then ([], s)
              else if |s| >= 2 && (s[1] == 'u' || s[1] == 'U') then ([BS, s[1]] + IdentTail(s[1..][1..]).0, IdentTail(s[1..][1..]).1)
              else ([], s[1..])
  {
    assert |s| >= 2 ==> s[1..][1..] == s[2..];
  }

  lemma IdentStep(s: string, t: string)
    ensures (t + IdentTail(s).0, IdentTail(s).1) ==
              if s == [] then (t, [])
              else if IsIdentCont(s[0]) then ((t + [s[0]]) + IdentTail(s[1..]).0, IdentTail(s[1..]).1)
              else if s[0] != BS then (t, s)
              else if |s| >= 2 && (s[1] == 'u' || s[1] == 'U') then ((t + [BS, s[1]]) + IdentTail(s[1..][1..]).0, IdentTail(s[1..][1..]).1)
              else (t, s[1..])
  {
    hide IdentTail;
    IdentUnfold(s);
    if s == [] {
      Regroup1(t, ' ', []);
    } else {
      Regroup1(t, s[0], IdentTail(s[1..]).0);
      if |s| >= 2 {
        Regroup2(t, BS, s[1], IdentTail(s[1..][1..]).0);
      }
    }
  }

  /** One round of the loop over a number, with t read so far. */
  lemma NumberStep(s: string, t: string)
    requires s != [] && InNumber(s[0])
    ensures !(IsExponent(s[0]) && |s| >= 2 && IsSign(s[1])) ==>
              t + NumberTail(s).0 == (t + [s[0]]) + NumberTail(s[1..]).0 && NumberTail(s).1 == NumberTail(s[1..]).1
    ensures IsExponent(s[0]) && |s| >= 2 && IsSign(s[1]) ==>
              t + NumberTail(s).0 == ((t + [s[0]]) + [s[1]]) + NumberTail(s[1..][1..]).0
              && NumberTail(s).1 == NumberTail(s[1..][1..]).1
  {
    hide NumberTail;
    if IsExponent(s[0]) && |s| >= 2 && IsSign(s[1]) {
      TwoFirst(s);
      NumberTwo(s[0], s[1], s[1..][1..]);
      Regroup2(t, s[0], s[1], NumberTail(s[1..][1..]).0);
    } else {
      OneFirst(s);
      NumberOne(s[0], s[1..]);
      Regroup1(t, s[0], NumberTail(s[1..]).0);
    }
  }

  lemma OneFirst(s: string)
    requires s != []
    ensures s == [s[0]] + s[1..]
  {}

  lemma TwoFirst(s: string)
    requires |s| >= 2
    ensures s == [s[0], s[1]] + s[1..][1..]
  {}

  lemma AtStep(s: string, t: string)
    ensures (t + AtTail(s).0, AtTail(s).1) ==
              if s == [] || !IsIdentCont(s[0]) then (t, s) else ((t + [s[0]]) + AtTail(s[1..]).0, AtTail(s[1..]).1)
  {
    assert t + [] == t;
    if s != [] && IsIdentCont(s[0]) {
      assert t + ([s[0]] + AtTail(s[1..]).0) == (t + [s[0]]) + AtTail(s[1..]).0;
    }
  }

  lemma {:induction false} FastUnclosed(r: string, p: Pos)
    ensures !FastSkip(r, p).closed ==> FastSkip(r, p).used == |r|
    decreases |r|
  {
    if '*' in r {
      if r[0] != '*' {
        FastUnclosed(r[1..], Past(p, r[0]));
      } else {
        FastUnclosed(r[1..], Pos(p.line, p.col + 1));
      }
    }
  }

  lemma TokComment(s: string)
    requires s != [] && s[0] == '*'
    ensures TokFrom('/', s) == if AfterClose(s[1..]).Some? then Lexeme(Space, [' '], true, AfterClose(s[1..]).value)
                               else Lexeme(Space, [' '], false, [])
  {
    hide AfterClose;
  }

  lemma TokLineComment(s: string)
    requires s != [] && s[0] == '/'
    ensures TokFrom('/', s) == Lexeme(Space, [' '], true, SkipLine(s[1..]))
  {
    hide SkipLine;
  }
}
