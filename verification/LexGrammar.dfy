/** The preprocessing tokens of C11 section 6.4 and the comments of 6.4.9, class by class: what the
    tokenizer makes of a spelling of each class with anything behind it that does not go on with it. */
module LexGrammar {
  import opened Options
  import opened Splicing
  import opened BlockComment
  import opened Lexer

  // ---- characters ----

  /** By their codes. */
  predicate Figure(c: char) { 48 <= c as int <= 57 }

  predicate Letter(c: char) { 65 <= c as int <= 90 || 97 <= c as int <= 122 }

  predicate NameStart(c: char) { Letter(c) || c as int in {95, 36} }

  predicate NameChar(c: char) { NameStart(c) || Figure(c) }

  lemma Classes(c: char)
    ensures IsDigit(c) == Figure(c) && IsAlpha(c) == Letter(c)
    ensures IsIdentStart(c) == NameStart(c) && IsIdentCont(c) == NameChar(c)
    ensures IsBlank(c) <==> c as int in {32, 9, 11, 12, 13}
    ensures IsQuote(c) <==> c as int in {34, 39}
  {}

  lemma First(c: char, s: string)
    requires !IsBlank(c) && c != LF
    ensures NextTok([c] + s) == TokFrom(c, s)
  {
    hide TokFrom;
    assert ([c] + s)[1..] == s && SkipBlanks([c] + s) == [c] + s;
  }

  // ---- white space ----

  /** Blanks in front of a token change nothing. */
  lemma BlankSkipped(c: char, s: string)
    requires c as int in {32, 9, 11, 12, 13}
    ensures NextTok([c] + s) == NextTok(s)
  {
    hide TokFrom;
    assert ([c] + s)[1..] == s;
  }

  lemma LineEndRead(s: string)
    ensures NextTok(['\n'] + s) == Lexeme(Newline, ['\n'], true, s)
    ensures NextTok([]) == Lexeme(Eof, [], true, [])
  {
    hide TokFrom;
    assert (['\n'] + s)[1..] == s;
  }

  // ---- comments ----

  lemma {:induction false} LineSkipped(t: string, f: string)
    requires LF !in t && (f == [] || f[0] == LF)
    ensures SkipLine(t + f) == f
  {
    if t == [] {
      assert t + f == f;
    } else {
      assert (t + f)[1..] == t[1..] + f;
      LineSkipped(t[1..], f);
    }
  }

  /** A `//` comment is one space, up to the end of its line. */
  lemma LineComment(t: string, f: string)
    requires LF !in t && (f == [] || f[0] == LF)
    ensures NextTok("//" + (t + f)) == Lexeme(Space, " ", true, f)
  {
    hide SkipLine;
    var s := ['/'] + (t + f);
    assert "//" + (t + f) == ['/'] + s && s[1..] == t + f;
    LineSkipped(t, f);
    First('/', s);
  }

  predicate ClosesAt(s: string, i: nat) { i + 1 < |s| && s[i] == '*' && s[i + 1] == '/' }

  lemma {:induction false} FirstClose(t: string, f: string)
    requires forall i :: 0 <= i < |t| ==> !ClosesAt(t + "*/", i)
    ensures AfterClose(t + ("*/" + f)) == Some(f)
  {
    var s := t + ("*/" + f);
    if t == [] {
      assert s[2..] == f;
    } else {
      assert s[1..] == t[1..] + ("*/" + f) && s[0] == t[0];
      assert !ClosesAt(t + "*/", 0);
      assert s[1] == (t + "*/")[1];
      forall i | 0 <= i < |t[1..]| ensures !ClosesAt(t[1..] + "*/", i) {
        assert !ClosesAt(t + "*/", i + 1);
        assert (t[1..] + "*/")[i] == (t + "*/")[i + 1] && (t[1..] + "*/")[i + 1] == (t + "*/")[i + 2];
      }
      FirstClose(t[1..], f);
    }
  }

  lemma {:induction false} NoClose(t: string)
    requires forall i :: 0 <= i < |t| ==> !ClosesAt(t, i)
    ensures AfterClose(t) == None
  {
    if |t| >= 2 {
      assert !ClosesAt(t, 0);
      forall i | 0 <= i < |t[1..]| ensures !ClosesAt(t[1..], i) { assert !ClosesAt(t, i + 1); }
      NoClose(t[1..]);
    }
  }

  /** A block comment is one space, up to and with its first closing; one that is never closed takes all
      the rest. */
  lemma BlockCommentRead(t: string, f: string)
    requires forall i :: 0 <= i < |t| ==> !ClosesAt(t + "*/", i)
    ensures NextTok("/*" + (t + ("*/" + f))) == Lexeme(Space, " ", true, f)
  {
    hide AfterClose;
    var s := ['*'] + (t + ("*/" + f));
    assert "/*" + (t + ("*/" + f)) == ['/'] + s && s[1..] == t + ("*/" + f);
    FirstClose(t, f);
    First('/', s);
  }

  lemma OpenComment(t: string)
    requires forall i :: 0 <= i < |t| ==> !ClosesAt(t, i)
    ensures NextTok("/*" + t) == Lexeme(Space, " ", false, [])
  {
    hide AfterClose;
    var s := ['*'] + t;
    assert "/*" + t == ['/'] + s && s[1..] == t;
    NoClose(t);
    First('/', s);
  }

  /** The tokens but for the spaces that comments leave. */
  function Visible(xs: seq<Lexeme>): seq<Lexeme> {
    if xs == [] then [] else (if xs[0].kind == Space then [] else [xs[0]]) + Visible(xs[1..])
  }

  /** A comment at the end of a line hides nothing but itself. */
  lemma CommentInvisible(t: string, f: string)
    requires LF !in t && (f == [] || f[0] == LF)
    ensures Visible(LexAll("//" + (t + f))) == Visible(LexAll(f))
  {
    hide NextTok;
    LineComment(t, f);
  }

  // ---- identifiers ----

  /** What may follow the first character of an identifier: letters, digits, `_`, `$`, and universal
      character names, whose hexadecimal digits are digits and letters. */
  predicate IdentRest(t: string)
    decreases |t|
  {
    t == [] || (NameChar(t[0]) && IdentRest(t[1..]))
    || (|t| >= 2 && t[0] == '\\' && (t[1] == 'u' || t[1] == 'U') && IdentRest(t[2..]))
  }

  predicate EndsIdent(f: string) {
    f == [] || !(NameChar(f[0]) || f[0] == '\\')
  }

  lemma {:induction false} IdentTaken(t: string, f: string)
    requires IdentRest(t) && EndsIdent(f)
    ensures IdentTail(t + f) == (t, f)
    decreases |t|
  {
    if t == [] {
      assert t + f == f;
      if f != [] { Classes(f[0]); }
    } else {
      Classes(t[0]);
      if t[0] == '\\' {
        assert (t + f)[2..] == t[2..] + f && ['\\', t[1]] + t[2..] == t;
        IdentTaken(t[2..], f);
      } else {
        assert (t + f)[1..] == t[1..] + f && [t[0]] + t[1..] == t;
        IdentTaken(t[1..], f);
      }
    }
  }

  /** A prefix of literals in front of a quote. */
  predicate PrefixOf(p: string, f: string) {
    (p == "L" || p == "u" || p == "U" || p == "u8") && f != [] && (f[0] == '"' || f[0] == '\'')
  }

  /** An identifier, as long as it goes on. */
  lemma IdentifierRead(c: char, t: string, f: string)
    requires NameStart(c) && IdentRest(t) && EndsIdent(f) && !PrefixOf([c] + t, f)
    ensures NextTok([c] + (t + f)) == Lexeme(Ident, [c] + t, true, f)
  {
    hide IdentTail, IdentRest;
    Classes(c);
    IdentTaken(t, f);
    First(c, t + f);
    NotPrefixed(c, t, f);
    TokIdent(c, t + f);
  }

  lemma NotPrefixed(c: char, t: string, f: string)
    requires NameStart(c) && IdentRest(t) && EndsIdent(f) && !PrefixOf([c] + t, f)
    ensures !Prefixed(c, t + f)
  {
    var s := t + f;
    if |t| == 0 {
      assert s == f && [c] + t == [c];
    } else if |t| == 1 {
      assert s[0] == t[0] && (f != [] ==> s[1] == f[0]) && [c] + t == [c, t[0]];
    } else {
      assert s[0] == t[0] && s[1] == t[1];
      if t[0] != '\\' { IdentSecond(t); }
    }
  }

  lemma IdentSecond(t: string)
    requires IdentRest(t) && |t| >= 2 && t[0] != '\\'
    ensures NameChar(t[1]) || t[1] == '\\'
  {
    assert IdentRest(t[1..]);
  }

  /** A backslash behind an identifier that starts no universal character name ends it and is lost. */
  lemma BackslashLost(c: char, t: string, f: string)
    requires NameStart(c) && IdentRest(t) && f != [] && f[0] != 'u' && f[0] != 'U'
    ensures NextTok([c] + (t + (['\\'] + f))) == Lexeme(Ident, [c] + t, true, f)
  {
    hide IdentTail, IdentRest;
    var g := ['\\'] + f;
    Classes(c);
    IdentThenBackslash(t, f);
    First(c, t + g);
    NotPrefixedByBackslash(c, t, f);
    TokIdent(c, t + g);
  }

  lemma NotPrefixedByBackslash(c: char, t: string, f: string)
    requires NameStart(c) && IdentRest(t) && f != []
    ensures !Prefixed(c, t + (['\\'] + f))
  {
    var s := t + (['\\'] + f);
    if |t| == 0 {
      assert s[0] == '\\';
    } else if |t| == 1 {
      assert s[0] == t[0] && s[1] == '\\';
    } else {
      assert s[0] == t[0] && s[1] == t[1];
      if t[0] != '\\' { IdentSecond(t); }
    }
  }

  lemma {:induction false} IdentThenBackslash(t: string, f: string)
    requires IdentRest(t) && f != [] && f[0] != 'u' && f[0] != 'U'
    ensures IdentTail(t + (['\\'] + f)) == (t, f)
    decreases |t|
  {
    var s := t + (['\\'] + f);
    if t == [] {
      assert s == ['\\'] + f && s[1..] == f && s[1] == f[0];
    } else {
      Classes(t[0]);
      var n := if t[0] == '\\' then 2 else 1;
      assert s[n..] == t[n..] + (['\\'] + f) && t[..n] + t[n..] == t && s[0] == t[0] && (n == 2 ==> s[1] == t[1]);
      assert n == 1 ==> t[..1] == [t[0]];
      assert n == 2 ==> t[..2] == ['\\', t[1]];
      IdentThenBackslash(t[n..], f);
    }
  }

  // ---- preprocessing numbers ----

  predicate Exponent(c: char) { c in "eEpP" }

  predicate Sign(c: char) { c == '+' || c == '-' }

  predicate NumberChar(c: char) { Letter(c) || Figure(c) || c == '_' || c == '.' }

  /** What may follow the first digit of a preprocessing number. */
  predicate NumberRest(t: string)
    decreases |t|
  {
    t == []
    || (|t| >= 2 && Exponent(t[0]) && Sign(t[1]) && NumberRest(t[2..]))
    || (NumberChar(t[0]) && !(|t| >= 2 && Exponent(t[0]) && Sign(t[1])) && NumberRest(t[1..]))
  }

  /** What ends one: nothing that may stand in it, and no sign behind an exponent letter. */
  predicate EndsNumber(last: char, f: string) { f == [] || !(NumberChar(f[0]) || (Exponent(last) && Sign(f[0]))) }

  lemma NumberClasses(c: char)
    ensures InNumber(c) == NumberChar(c) && IsExponent(c) == Exponent(c) && IsSign(c) == Sign(c)
    ensures Exponent(c) ==> NumberChar(c)
  {
    Classes(c);
  }

  lemma {:induction false} NumberTaken(t: string, f: string)
    requires NumberRest(t) && EndsNumber(if t == [] then '0' else t[|t| - 1], f)
    ensures NumberTail(t + f) == (t, f)
    decreases |t|
  {
    hide NumberTail;
    if t == [] {
      assert t + f == f;
      if f != [] { NumberClasses(f[0]); }
      NumberStart(f);
    } else {
      NumberClasses(t[0]);
      if |t| >= 2 && Exponent(t[0]) && Sign(t[1]) {
        NumberClasses(t[1]);
        assert t + f == [t[0], t[1]] + (t[2..] + f);
        SignEnds(t, f);
        NumberTaken(t[2..], f);
        NumberTwo(t[0], t[1], t[2..] + f);
        assert [t[0], t[1]] + t[2..] == t;
      } else {
        var r := t[1..] + f;
        assert t + f == [t[0]] + r;
        if |t| >= 2 { NumberClasses(t[1]); assert r[0] == t[1]; } else if f != [] { NumberClasses(f[0]); assert r[0] == f[0]; }
        LastEnds(t, f);
        NumberTaken(t[1..], f);
        NumberOne(t[0], r);
        assert [t[0]] + t[1..] == t;
      }
    }
  }

  lemma SignEnds(t: string, f: string)
    requires |t| >= 2 && Exponent(t[0]) && Sign(t[1]) && EndsNumber(t[|t| - 1], f)
    ensures EndsNumber(if t[2..] == [] then '0' else t[2..][|t[2..]| - 1], f)
  {
    assert !Exponent('0');
  }

  lemma LastEnds(t: string, f: string)
    requires t != [] && EndsNumber(t[|t| - 1], f)
    ensures EndsNumber(if t[1..] == [] then '0' else t[1..][|t[1..]| - 1], f)
  {
    assert !Exponent('0');
  }

  /** A preprocessing number, as long as it goes on: it starts with a digit, or with a point and a digit. */
  lemma NumberRead(c: char, t: string, f: string)
    requires (Figure(c) || (c == '.' && t != [] && Figure(t[0]))) && NumberRest(t)
    requires EndsNumber(if t == [] then '0' else t[|t| - 1], f)
    ensures NextTok([c] + (t + f)) == Lexeme(PpNumber, [c] + t, true, f)
  {
    hide NumberTail, NumberRest;
    Classes(c);
    if t != [] { Classes(t[0]); }
    NumberTaken(t, f);
    First(c, t + f);
    TokNumber(c, t + f);
  }

  // ---- literals ----

  /** The characters between the quotes: none ends the literal or the line, and a backslash stands in
      front of one that does not end the line. */
  predicate Inside(delim: char, t: string)
    decreases |t|
  {
    t == []
    || (t[0] != delim && t[0] != '\\' && t[0] != '\n' && Inside(delim, t[1..]))
    || (|t| >= 2 && t[0] == '\\' && t[1] != '\n' && Inside(delim, t[2..]))
  }

  lemma {:induction false} QuotedTaken(delim: char, t: string, f: string)
    requires Inside(delim, t) && (delim == '"' || delim == '\'')
    ensures Quoted(delim, t + ([delim] + f)) == (t + [delim], true, f)
    decreases |t|
  {
    hide Quoted;
    if t == [] {
      assert t + ([delim] + f) == [delim] + f && t + [delim] == [delim];
      QuotedEnd(delim, f);
    } else {
      var n := if t[0] == '\\' then 2 else 1;
      QuotedTaken(delim, t[n..], f);
      assert t + ([delim] + f) == t[..n] + (t[n..] + ([delim] + f)) && t[..n] + (t[n..] + [delim]) == t + [delim];
      QuotedStep(delim, t[..n], t[n..] + ([delim] + f));
    }
  }

  lemma {:induction false} QuotedOpen(delim: char, t: string, f: string)
    requires Inside(delim, t) && (delim == '"' || delim == '\'') && (f == [] || f[0] == '\n')
    ensures Quoted(delim, t + f) == (t, false, f)
    decreases |t|
  {
    hide Quoted;
    if t == [] {
      assert t + f == f;
      QuotedEnd(delim, f);
    } else {
      var n := if t[0] == '\\' then 2 else 1;
      QuotedOpen(delim, t[n..], f);
      assert t + f == t[..n] + (t[n..] + f) && t[..n] + t[n..] == t;
      QuotedStep(delim, t[..n], t[n..] + f);
    }
  }

  lemma QuotedEnd(delim: char, f: string)
    requires delim == '"' || delim == '\''
    ensures Quoted(delim, [delim] + f) == ([delim], true, f)
    ensures f == [] || f[0] == '\n' ==> Quoted(delim, f) == ([], false, f)
  {
    assert ([delim] + f)[1..] == f;
  }

  /** One character, or a backslash with the one behind it. */
  lemma QuotedStep(delim: char, a: string, r: string)
    requires (|a| == 1 && a[0] != delim && a[0] != '\\' && a[0] != '\n') || (|a| == 2 && a[0] == '\\' && a[1] != '\n')
    ensures Quoted(delim, a + r) == (a + Quoted(delim, r).0, Quoted(delim, r).1, Quoted(delim, r).2)
  {
    assert (a + r)[|a|..] == r && (a + r)[..|a|] == a;
    if |a| == 1 { assert a == [a[0]]; }
  }

  predicate IsPrefix(p: string) { p == "" || p == "L" || p == "u" || p == "U" || p == "u8" }

  function KindOf(delim: char): Kind { if delim == '"' then StringLit else CharConst }

  /** A string literal or character constant with any of the prefixes, closed. */
  lemma LiteralRead(p: string, delim: char, t: string, f: string)
    requires IsPrefix(p) && (delim == '"' || delim == '\'') && Inside(delim, t)
    ensures NextTok(p + ([delim] + (t + ([delim] + f)))) == Lexeme(KindOf(delim), p + ([delim] + (t + [delim])), true, f)
  {
    hide Quoted, Inside;
    QuotedTaken(delim, t, f);
    LiteralFrom(p, delim, t + ([delim] + f));
  }

  /** And one that the line or the text ends before its closing quote. */
  lemma OpenLiteral(p: string, delim: char, t: string, f: string)
    requires IsPrefix(p) && (delim == '"' || delim == '\'') && Inside(delim, t) && (f == [] || f[0] == '\n')
    ensures NextTok(p + ([delim] + (t + f))) == Lexeme(KindOf(delim), p + ([delim] + t), false, f)
  {
    hide Quoted, Inside;
    QuotedOpen(delim, t, f);
    LiteralFrom(p, delim, t + f);
  }

  lemma LiteralFrom(p: string, delim: char, s: string)
    requires IsPrefix(p) && (delim == '"' || delim == '\'')
    ensures var (t, ok, rest) := Quoted(delim, s);
            NextTok(p + ([delim] + s)) == Lexeme(KindOf(delim), p + ([delim] + t), ok, rest)
  {
    hide Quoted, TokFrom, NextTok;
    if |p| == 0 {
      BareLiteral(delim, s);
      assert p + ([delim] + s) == [delim] + s && p + ([delim] + Quoted(delim, s).0) == [delim] + Quoted(delim, s).0;
    } else {
      var r := p[1..] + ([delim] + s);
      assert p + ([delim] + s) == [p[0]] + r;
      First(p[0], r);
      PrefixedLiteral(p, delim, s);
    }
  }

  lemma BareLiteral(delim: char, s: string)
    requires delim == '"' || delim == '\''
    ensures var (t, ok, rest) := Quoted(delim, s); NextTok([delim] + s) == Lexeme(KindOf(delim), [delim] + t, ok, rest)
  {
    hide Quoted, TokFrom;
    First(delim, s);
    TokQuote(delim, s);
    assert [] + ([delim] + Quoted(delim, s).0) == [delim] + Quoted(delim, s).0;
  }

  lemma PrefixedLiteral(p: string, delim: char, s: string)
    requires IsPrefix(p) && p != "" && (delim == '"' || delim == '\'')
    ensures var (t, ok, rest) := Quoted(delim, s);
            TokFrom(p[0], p[1..] + ([delim] + s)) == Lexeme(KindOf(delim), p + ([delim] + t), ok, rest)
  {
    hide Quoted, TokFrom;
    var r := p[1..] + ([delim] + s);
    if |p| == 1 {
      assert r == [delim] + s && r[1..] == s && p == [p[0]];
    } else {
      assert p == ['u', '8'] && r == ['8', delim] + s && r[2..] == s;
    }
    TokPrefixed(p[0], r);
  }

  // ---- intrinsics and punctuators ----

  lemma {:induction false} AtTaken(t: string, f: string)
    requires (forall i :: 0 <= i < |t| ==> IsIdentCont(t[i])) && (f == [] || !IsIdentCont(f[0]))
    ensures AtTail(t + f) == (t, f)
    decreases |t|
  {
    if t == [] {
      assert t + f == f;
    } else {
      assert (t + f)[1..] == t[1..] + f && [t[0]] + t[1..] == t;
      AtTaken(t[1..], f);
    }
  }

  /** An @-intrinsic. */
  lemma IntrinsicRead(c: char, t: string, f: string)
    requires NameStart(c)
    requires forall i :: 0 <= i < |t| ==> NameChar(t[i])
    requires f == [] || !NameChar(f[0])
    ensures NextTok(['@', c] + (t + f)) == Lexeme(AtIntrinsic, ['@', c] + t, true, f)
  {
    hide AtTail, TokFrom;
    var s := [c] + (t + f);
    Classes(c);
    forall i | 0 <= i < |t| ensures IsIdentCont(t[i]) { Classes(t[i]); }
    if f != [] { Classes(f[0]); }
    forall i | 0 <= i < |[c] + t| ensures IsIdentCont(([c] + t)[i]) {}
    AtTaken([c] + t, f);
    assert ([c] + t) + f == s && ['@', c] + (t + f) == ['@'] + s;
    assert ['@'] + ([c] + t) == ['@', c] + t;
    First('@', s);
    TokAt('@', s);
  }

  /** A punctuator of C11 section 6.4.6 that no longer one and no comment or number starts at. */
  lemma PunctuatorRead(p: string, f: string)
    requires Punctuator(p) && p != "%:%:" && (forall q :: Punctuator(q) && q <= p + f ==> |q| <= |p|)
    requires !(p == "/" && f != [] && (f[0] == '/' || f[0] == '*')) && !(p == "." && f != [] && Figure(f[0]))
    ensures NextTok(p + f) == Lexeme(Punct, p, true, f)
  {
    hide PunctLen, PunctTail, Punctuator, TokFrom;
    PunctuatorStarts(p);
    var (c, s) := (p[0], p[1..] + f);
    assert p + f == [c] + s;
    var taken := [c] + s[..PunctLen(c, s)];
    PunctLongest(c, s, p);
    TakenIs(p, f, taken);
    PunctStart(p, f);
    TokPunct(c, s);
    First(c, s);
    TailIs(c, s, p);
    assert s[PunctLen(c, s)..] == f;
  }

  /** A character that starts no token of these classes is a token of its own. */
  lemma OtherRead(c: char, f: string)
    requires !IsBlank(c) && c != LF && !NameStart(c) && !Figure(c) && c as int !in {34, 39} && c !in SINGLES && c != '@'
    ensures NextTok([c] + f) == Lexeme(Punct, [c], true, f)
  {
    hide TokFrom;
    Classes(c);
    First(c, f);
    OtherStarts(c, f);
    TokPunct(c, f);
    assert [c] + f[..0] == [c] && f[0..] == f;
  }

  lemma OtherStarts(c: char, f: string)
    requires !NameStart(c) && !Figure(c) && c as int !in {34, 39} && c !in SINGLES && c != '@'
    ensures StartsPunct(c, f) && PunctLen(c, f) == 0
  {
    Classes(c);
  }

  lemma TakenIs(p: string, f: string, taken: string)
    requires Punctuator(p) && (forall q :: Punctuator(q) && q <= p + f ==> |q| <= |p|)
    requires p != [] && taken <= p + f && taken != [] && |p| <= |taken| && (|taken| > 1 ==> Punctuator(taken))
    ensures taken == p
  {
    hide Punctuator;
    if |taken| > 1 {
      assert |taken| <= |p|;
    }
    assert taken == (p + f)[..|taken|] && p == (p + f)[..|p|];
  }

  lemma PunctuatorStarts(p: string)
    requires Punctuator(p)
    ensures p != [] && !IsBlank(p[0]) && p[0] != LF && !IsIdentStart(p[0]) && !IsDigit(p[0]) && !IsQuote(p[0]) && p[0] != '@'
  {}

  lemma PunctuatorSecond(p: string)
    requires Punctuator(p) && |p| > 1
    ensures !IsDigit(p[1]) && !(p[0] == '/' && (p[1] == '/' || p[1] == '*'))
  {}

  /** A punctuator does not start a number or a comment, but for the two that the claim leaves out. */
  lemma PunctStart(p: string, f: string)
    requires Punctuator(p)
    requires !(p == "/" && f != [] && (f[0] == '/' || f[0] == '*')) && !(p == "." && f != [] && Figure(f[0]))
    ensures StartsPunct(p[0], p[1..] + f)
  {
    PunctuatorStarts(p);
    if |p| > 1 { PunctuatorSecond(p); }
    hide Punctuator, PunctLen;
    var s := p[1..] + f;
    if |p| == 1 {
      assert s == f && p == [p[0]];
      if f != [] { Classes(f[0]); }
    } else {
      assert s[0] == p[1];
    }
  }

  lemma TailIs(c: char, s: string, p: string)
    requires [c] + s[..PunctLen(c, s)] == p && p != "%:%:"
    ensures [c] + PunctTail(c, s) == p
  {
    if c == '%' && PunctLen(c, s) == 3 {
      assert false;
    }
  }
}
