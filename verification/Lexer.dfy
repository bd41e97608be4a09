/** The tokenizer (reader_next_tok, comments not kept) as a function on the logical characters
    that are left. */
module Lexer {
  import opened Options
  import opened Splicing
  import opened BlockComment

  datatype Kind = Ident | PpNumber | StringLit | CharConst | AtIntrinsic | Punct | Space | Newline | Eof

  /** A token, whether it was closed - a literal or a comment may run out - and what is left. */
  datatype Lexeme = Lexeme(kind: Kind, spell: string, closed: bool, rest: string)

  predicate IsDigit(c: char) { '0' <= c <= '9' }

  predicate IsAlpha(c: char) { 'a' <= c <= 'z' || 'A' <= c <= 'Z' }

  predicate IsIdentStart(c: char) { IsAlpha(c) || c == '_' || c == '$' }

  predicate IsIdentCont(c: char) { IsIdentStart(c) || IsDigit(c) }

  predicate IsBlank(c: char) { c == ' ' || c == '\t' || c == CR || c as int == 11 || c as int == 12 }

  predicate IsQuote(c: char) { c == '"' || c == '\'' }

  predicate NextIs(s: string, p: char -> bool) { s != [] && p(s[0]) }

  function SkipBlanks(s: string): (r: string)
    ensures |r| <= |s| && (r != [] ==> !IsBlank(r[0]))
  {
    if s != [] && IsBlank(s[0]) then SkipBlanks(s[1..]) else s
  }

  function SkipLine(s: string): (r: string)
    ensures |r| <= |s|
  {
    if s != [] && s[0] != LF then SkipLine(s[1..]) else s
  }

  // ---- what follows the first character of a token: its spelling, and what is left ----

  /** The rest of an identifier. A backslash that starts a universal character name goes in; any
      other one ends the identifier and is lost. */
  function IdentTail(s: string): (r: (string, string))
    ensures |r.1| <= |s|
  {
    if s == [] then ([], [])
    else if IsIdentCont(s[0]) then ([s[0]] + IdentTail(s[1..]).0, IdentTail(s[1..]).1)
    else if s[0] != BS then ([], s)
    else if |s| >= 2 && (s[1] == 'u' || s[1] == 'U') then ([BS, s[1]] + IdentTail(s[2..]).0, IdentTail(s[2..]).1)
    else ([], s[1..])
  }

  function AtTail(s: string): (r: (string, string))
    ensures |r.1| <= |s|
  {
    if s == [] || !IsIdentCont(s[0]) then ([], s) else ([s[0]] + AtTail(s[1..]).0, AtTail(s[1..]).1)
  }

  predicate IsExponent(c: char) { c == 'e' || c == 'E' || c == 'p' || c == 'P' }

  predicate IsSign(c: char) { c == '+' || c == '-' }

  predicate InNumber(c: char) { IsAlpha(c) || IsDigit(c) || c == '_' || c == '.' }

  function NumberTail(s: string): (r: (string, string))
    ensures |r.1| <= |s|
  {
    if s == [] || !InNumber(s[0]) then ([], s)
    else if IsExponent(s[0]) && |s| >= 2 && IsSign(s[1]) then (s[..2] + NumberTail(s[2..]).0, NumberTail(s[2..]).1)
    else ([s[0]] + NumberTail(s[1..]).0, NumberTail(s[1..]).1)
  }

  /** lex_quoted after the opening quote: the characters up to and with the closing one, and
      whether it came. */
  function Quoted(delim: char, s: string): (r: (string, bool, string))
    ensures |r.2| <= |s| && |r.0| + |r.2| == |s|
  {
    if s == [] || s[0] == LF then ([], false, s)
    else if s[0] == BS then
      if |s| == 1 || s[1] == LF then ([BS], false, s[1..])
      else var (t, ok, rest) := Quoted(delim, s[2..]); (s[..2] + t, ok, rest)
    else if s[0] == delim then ([delim], true, s[1..])
    else var (t, ok, rest) := Quoted(delim, s[1..]); ([s[0]] + t, ok, rest)
  }

  /** The characters that make a punctuator of two with c. */
  function Seconds(c: char): set<char> {
    match c
    case '#' => {'#'}
    case '-' => {'>', '-', '='}
    case '+' => {'+', '='}
    case '&' => {'&', '='}
    case '|' => {'|', '='}
    case '<' => {'<', '=', ':', '%'}
    case '>' => {'>', '='}
    case '=' | '!' | '*' | '/' | '^' => {'='}
    case '%' => {'=', '>', ':'}
    case ':' => {'>'}
    case _ => {}
  }

  /** How many characters a punctuator that starts with c takes of those after it. */
  function PunctLen(c: char, s: string): (n: nat)
    ensures n <= |s| && n <= 3
  {
    if c == '.' then if |s| >= 2 && s[0] == '.' && s[1] == '.' then 2 else 0
    else if s == [] || s[0] !in Seconds(c) then 0
    else if (c == '<' || c == '>') && s[0] == c then if |s| >= 2 && s[1] == '=' then 2 else 1
    else if c == '%' && s[0] == ':' then if |s| >= 3 && s[1] == '%' && s[2] == ':' then 3 else 1
    else 1
  }

  /** The spelling that they are given: the characters taken, but for the last of `%:%:`. */
  function PunctTail(c: char, s: string): string {
    if c == '%' && PunctLen(c, s) == 3 then [':', ':', ':'] else s[..PunctLen(c, s)]
  }

  // ---- a token ----

  function Literal(prefix: string, delim: char, s: string): Lexeme {
    var (t, ok, rest) := Quoted(delim, s);
    Lexeme(if delim == '"' then StringLit else CharConst, prefix + ([delim] + t), ok, rest)
  }

  /** A token that starts with c, neither blank nor a line end, with s after it. */
  function TokFrom(c: char, s: string): (x: Lexeme)
    ensures |x.rest| <= |s|
  {
    if c == '/' && NextIs(s, d => d == '*') then
      match AfterClose(s[1..])
      case Some(rest) => AfterCloseShorter(s[1..]); Lexeme(Space, [' '], true, rest)
      case None => Lexeme(Space, [' '], false, [])
    else if c == '/' && NextIs(s, d => d == '/') then Lexeme(Space, [' '], true, SkipLine(s[1..]))
    else if c in {'L', 'u', 'U'} && NextIs(s, IsQuote) then Literal([c], s[0], s[1..])
    else if c == 'u' && |s| >= 2 && s[0] == '8' && IsQuote(s[1]) then Literal([c, '8'], s[1], s[2..])
    else if IsIdentStart(c) then Lexeme(Ident, [c] + IdentTail(s).0, true, IdentTail(s).1)
    else if IsDigit(c) || (c == '.' && NextIs(s, IsDigit)) then Lexeme(PpNumber, [c] + NumberTail(s).0, true, NumberTail(s).1)
    else if IsQuote(c) then Literal([], c, s)
    else if c == '@' && NextIs(s, IsIdentStart) then Lexeme(AtIntrinsic, [c] + AtTail(s).0, true, AtTail(s).1)
    else Lexeme(Punct, [c] + PunctTail(c, s), true, s[PunctLen(c, s)..])
  }

  /** reader_next_tok */
  function NextTok(s0: string): (x: Lexeme)
    ensures |x.rest| <= |s0| && (x.kind != Eof ==> |x.rest| < |s0|)
  {
    var s := SkipBlanks(s0);
    if s == [] then Lexeme(Eof, [], true, [])
    else if s[0] == LF then Lexeme(Newline, [LF], true, s[1..])
    else TokFromNotEof(s[0], s[1..]); TokFrom(s[0], s[1..])
  }

  lemma TokFromNotEof(c: char, s: string)
    ensures TokFrom(c, s).kind != Eof
  {}

  lemma {:induction false} AfterCloseShorter(s: string)
    ensures AfterClose(s).Some? ==> |AfterClose(s).value| < |s|
  {
    if |s| >= 2 {
      AfterCloseShorter(s[1..]);
    }
  }

  // ---- longest match ----

  const PAIRS: set<(char, char)> := {
    ('-', '>'), ('+', '+'), ('-', '-'), ('<', '<'), ('>', '>'), ('<', '='), ('>', '='), ('=', '='), ('!', '='),
    ('&', '&'), ('|', '|'), ('*', '='), ('/', '='), ('%', '='), ('+', '='), ('-', '='), ('&', '='), ('^', '='),
    ('|', '='), ('#', '#'), ('<', ':'), (':', '>'), ('<', '%'), ('%', '>'), ('%', ':')}

  const SINGLES: set<char> := {
    '[', ']', '(', ')', '{', '}', '.', '&', '*', '+', '-', '~', '!', '/', '%', '<', '>', '^', '|', '?', ':', ';', '=', ',', '#'}

  /** The punctuators of C11 section 6.4.6. */
  predicate Punctuator(p: string) {
    match |p|
    case 1 => p[0] in SINGLES
    case 2 => (p[0], p[1]) in PAIRS
    case 3 => p in {"...", "<<=", ">>="}
    case 4 => p == "%:%:"
    case _ => false
  }

  lemma SecondsArePairs(a: char, b: char)
    ensures (a, b) in PAIRS <==> b in Seconds(a)
  {}

  /** No punctuator longer than the characters taken starts there; and what is taken is a
      punctuator, unless none starts there at all. */
  lemma PunctLongest(c: char, s: string, p: string)
    ensures var taken := [c] + s[..PunctLen(c, s)];
            (Punctuator(p) && p <= [c] + s ==> |p| <= |taken|)
            && (|taken| > 1 ==> Punctuator(taken)) && taken <= [c] + s
  {
    var t := [c] + s;
    var n := PunctLen(c, s);
    assert n == 2 ==> [c] + s[..n] == [c, s[0], s[1]];
    assert n == 3 ==> [c] + s[..n] == [c, s[0], s[1], s[2]];
    if n > 0 { SecondsArePairs(c, s[0]); }
    if p <= t && |p| >= 2 {
      assert p[0] == t[0] && p[1] == t[1];
      SecondsArePairs(p[0], p[1]);
      assert |p| >= 3 ==> p[2] == t[2];
      assert |p| >= 4 ==> p[3] == t[3];
    }
  }

  // ---- a token read again ----

  predicate Separated(f: string) { f == [] || f[0] == ' ' }

  lemma {:induction false} IdentAgain(s: string, f: string)
    requires Separated(f)
    ensures IdentTail(IdentTail(s).0 + f) == (IdentTail(s).0, f)
    decreases |s|
  {
    var t := IdentTail(s).0;
    if t == [] {
      assert t + f == f;
    } else if IsIdentCont(s[0]) {
      IdentAgain(s[1..], f);
      assert (t + f)[1..] == IdentTail(s[1..]).0 + f;
    } else {
      IdentAgain(s[2..], f);
      assert (t + f)[2..] == IdentTail(s[2..]).0 + f;
    }
  }

  lemma {:induction false} AtAgain(s: string, f: string)
    requires Separated(f)
    ensures AtTail(AtTail(s).0 + f) == (AtTail(s).0, f)
    decreases |s|
  {
    var t := AtTail(s).0;
    if t == [] {
      assert t + f == f;
    } else {
      AtAgain(s[1..], f);
      assert (t + f)[1..] == AtTail(s[1..]).0 + f;
    }
  }

  lemma NumberOne(c: char, r: string)
    requires InNumber(c) && !(IsExponent(c) && NextIs(r, IsSign))
    ensures NumberTail([c] + r) == ([c] + NumberTail(r).0, NumberTail(r).1)
  {
    assert ([c] + r)[1..] == r;
  }

  lemma NumberTwo(c: char, d: char, r: string)
    requires IsExponent(c) && IsSign(d)
    ensures NumberTail([c, d] + r) == ([c, d] + NumberTail(r).0, NumberTail(r).1)
  {
    assert ([c, d] + r)[2..] == r && ([c, d] + r)[..2] == [c, d];
  }

  lemma NumberStart(s: string)
    ensures NumberTail(s).0 == [] || (s != [] && NumberTail(s).0[0] == s[0])
    ensures s == [] || !InNumber(s[0]) ==> NumberTail(s) == ([], s)
  {}

  lemma {:induction false} NumberAgain(s: string, f: string)
    requires Separated(f)
    ensures NumberTail(NumberTail(s).0 + f) == (NumberTail(s).0, f)
    decreases |s|
  {
    hide NumberTail;
    NumberStart(s);
    if s == [] || !InNumber(s[0]) {
      assert [] + f == f;
      NumberStart(f);
    } else {
      var c := s[0];
      if IsExponent(c) && |s| >= 2 && IsSign(s[1]) {
        assert s == [c, s[1]] + s[2..];
        NumberTwo(c, s[1], s[2..]);
        NumberAgain(s[2..], f);
        NumberTwo(c, s[1], NumberTail(s[2..]).0 + f);
        assert NumberTail(s).0 + f == [c, s[1]] + (NumberTail(s[2..]).0 + f);
      } else {
        var u := NumberTail(s[1..]).0;
        assert s == [c] + s[1..];
        NumberOne(c, s[1..]);
        NumberStart(s[1..]);
        NumberAgain(s[1..], f);
        NumberOne(c, u + f);
        assert NumberTail(s).0 + f == [c] + (u + f);
      }
    }
  }

  lemma {:induction false} QuotedAgain(delim: char, s: string, f: string)
    requires Quoted(delim, s).1
    ensures Quoted(delim, Quoted(delim, s).0 + f) == (Quoted(delim, s).0, true, f)
    decreases |s|
  {
    var t := Quoted(delim, s).0;
    if s[0] == BS {
      QuotedAgain(delim, s[2..], f);
      assert (t + f)[2..] == Quoted(delim, s[2..]).0 + f && (t + f)[..2] == s[..2];
    } else if s[0] == delim {
      assert t + f == [delim] + f;
    } else {
      QuotedAgain(delim, s[1..], f);
      assert (t + f)[1..] == Quoted(delim, s[1..]).0 + f;
    }
  }

  lemma PunctAgain(c: char, s: string, f: string)
    requires Separated(f)
    ensures var t := PunctTail(c, s);
            PunctTail(c, t + f) == t && (t + f)[PunctLen(c, t + f)..] == f <==> !(c == '%' && PunctLen(c, s) == 3)
  {
    var t := PunctTail(c, s);
    if c == '%' && PunctLen(c, s) == 3 {
      assert (t + f)[0] == ':' && (t + f)[1] == ':';
    } else {
      var n := PunctLen(c, s);
      assert t == s[..n] && |t| == n;
      assert n == 0 ==> t + f == f;
      assert n >= 1 ==> (t + f)[0] == s[0];
      assert n >= 2 ==> (t + f)[1] == s[1];
      assert |f| > 0 ==> (t + f)[n] == ' ';
      assert PunctLen(c, t + f) == n;
      assert (t + f)[..n] == t && (t + f)[n..] == f;
    }
  }

  /** What a token of a kind that carries text looks like, closed. */
  predicate Proper(x: Lexeme) { x.closed && x.kind !in {Space, Newline, Eof} }

  lemma LiteralAgain(prefix: string, delim: char, s: string, f: string)
    requires Quoted(delim, s).1
    ensures var t := Quoted(delim, s).0;
            Literal(prefix, delim, t + f) == Literal(prefix, delim, s).(rest := f)
  {
    QuotedAgain(delim, s, f);
  }

  lemma {:induction false} IdentHead(s: string)
    ensures IdentTail(s).0 != [] ==> IsIdentCont(IdentTail(s).0[0]) || IdentTail(s).0[0] == BS
    ensures |IdentTail(s).0| > 1 && IsIdentCont(IdentTail(s).0[0]) ==> IsIdentCont(IdentTail(s).0[1]) || IdentTail(s).0[1] == BS
  {
    if s != [] && IsIdentCont(s[0]) && s[1..] != [] {
      assert IdentTail(s).0[1..] == IdentTail(s[1..]).0;
    }
  }

  lemma PunctHead(c: char, s: string)
    ensures PunctTail(c, s) == [] ||
            (s != [] && PunctTail(c, s)[0] == s[0] && s[0] in Seconds(c) + {'.'} && (s[0] == '.' ==> c == '.'))
  {}

  lemma AtHead(s: string)
    ensures NextIs(s, IsIdentStart) ==> AtTail(s).0 != [] && AtTail(s).0[0] == s[0]
  {}

  lemma NumberHead(s: string)
    ensures NextIs(s, IsDigit) ==> NumberTail(s).0 != [] && NumberTail(s).0[0] == s[0]
  {}

  predicate Prefixed(c: char, s: string) {
    (c in {'L', 'u', 'U'} && NextIs(s, IsQuote)) || (c == 'u' && |s| >= 2 && s[0] == '8' && IsQuote(s[1]))
  }

  lemma TokPrefixed(c: char, s: string)
    requires Prefixed(c, s)
    ensures TokFrom(c, s) == if IsQuote(s[0]) then Literal([c], s[0], s[1..]) else Literal([c, '8'], s[1], s[2..])
  {
    hide Literal, IdentTail;
  }

  lemma TokIdent(c: char, s: string)
    requires IsIdentStart(c) && !Prefixed(c, s)
    ensures TokFrom(c, s) == Lexeme(Ident, [c] + IdentTail(s).0, true, IdentTail(s).1)
  {
    hide Literal, IdentTail;
  }

  predicate StartsNumber(c: char, s: string) { IsDigit(c) || (c == '.' && NextIs(s, IsDigit)) }

  lemma TokNumber(c: char, s: string)
    requires StartsNumber(c, s)
    ensures TokFrom(c, s) == Lexeme(PpNumber, [c] + NumberTail(s).0, true, NumberTail(s).1)
  {
    hide Literal, NumberTail;
  }

  lemma TokQuote(c: char, s: string)
    requires IsQuote(c)
    ensures TokFrom(c, s) == Literal([], c, s)
  {
    hide Literal;
  }

  lemma TokAt(c: char, s: string)
    requires c == '@' && NextIs(s, IsIdentStart)
    ensures TokFrom(c, s) == Lexeme(AtIntrinsic, [c] + AtTail(s).0, true, AtTail(s).1)
  {
    hide AtTail;
  }

  predicate StartsPunct(c: char, s: string) {
    !IsIdentStart(c) && !StartsNumber(c, s) && !IsQuote(c) && !(c == '@' && NextIs(s, IsIdentStart))
    && !(c == '/' && s != [] && (s[0] == '/' || s[0] == '*'))
  }

  lemma TokPunct(c: char, s: string)
    requires StartsPunct(c, s)
    ensures TokFrom(c, s) == Lexeme(Punct, [c] + PunctTail(c, s), true, s[PunctLen(c, s)..])
  {
    hide PunctTail, PunctLen;
  }

  lemma PrefixedAgain(c: char, s: string, f: string)
    requires Prefixed(c, s) && TokFrom(c, s).closed
    ensures var x := TokFrom(c, s);
            x.kind != Punct && x.spell != [] && x.spell[0] == c && TokFrom(c, x.spell[1..] + f) == x.(rest := f)
  {
    hide TokFrom, Quoted;
    TokPrefixed(c, s);
    var x := TokFrom(c, s);
    if IsQuote(s[0]) {
      var u := Quoted(s[0], s[1..]).0 + f;
      LiteralAgain([c], s[0], s[1..], f);
      assert x.spell[1..] + f == [s[0]] + u && ([s[0]] + u)[1..] == u;
    } else {
      var u := Quoted(s[1], s[2..]).0 + f;
      LiteralAgain([c, '8'], s[1], s[2..], f);
      assert x.spell[1..] + f == ['8', s[1]] + u && (['8', s[1]] + u)[2..] == u;
    }
    TokPrefixed(c, x.spell[1..] + f);
  }

  lemma IdentTokAgain(c: char, s: string, f: string)
    requires IsIdentStart(c) && !Prefixed(c, s) && Separated(f)
    ensures var x := TokFrom(c, s);
            x.kind != Punct && x.spell != [] && x.spell[0] == c && TokFrom(c, x.spell[1..] + f) == x.(rest := f)
  {
    hide TokFrom, IdentTail;
    var t := IdentTail(s).0;
    TokIdent(c, s);
    IdentHead(s);
    IdentAgain(s, f);
    assert TokFrom(c, s).spell[1..] == t;
    assert t == [] ==> t + f == f;
    assert |t| > 0 ==> (t + f)[0] == t[0];
    assert |t| > 1 ==> (t + f)[1] == t[1];
    assert |t| == 1 && f != [] ==> (t + f)[1] == ' ';
    TokIdent(c, t + f);
  }

  lemma NumberTokAgain(c: char, s: string, f: string)
    requires StartsNumber(c, s) && Separated(f)
    ensures var x := TokFrom(c, s);
            x.kind != Punct && x.spell != [] && x.spell[0] == c && TokFrom(c, x.spell[1..] + f) == x.(rest := f)
  {
    hide TokFrom, NumberTail;
    var t := NumberTail(s).0;
    TokNumber(c, s);
    NumberHead(s);
    NumberAgain(s, f);
    assert TokFrom(c, s).spell[1..] == t;
    TokNumber(c, t + f);
  }

  lemma QuoteTokAgain(c: char, s: string, f: string)
    requires IsQuote(c) && TokFrom(c, s).closed
    ensures var x := TokFrom(c, s);
            x.kind != Punct && x.spell != [] && x.spell[0] == c && TokFrom(c, x.spell[1..] + f) == x.(rest := f)
  {
    hide TokFrom, Quoted;
    TokQuote(c, s);
    LiteralAgain([], c, s, f);
    assert TokFrom(c, s).spell[1..] == Quoted(c, s).0;
    TokQuote(c, Quoted(c, s).0 + f);
  }

  lemma AtTokAgain(c: char, s: string, f: string)
    requires c == '@' && NextIs(s, IsIdentStart) && Separated(f)
    ensures var x := TokFrom(c, s);
            x.kind != Punct && x.spell != [] && x.spell[0] == c && TokFrom(c, x.spell[1..] + f) == x.(rest := f)
  {
    hide TokFrom, AtTail;
    TokAt(c, s);
    AtHead(s);
    AtAgain(s, f);
    assert TokFrom(c, s).spell[1..] == AtTail(s).0;
    TokAt(c, AtTail(s).0 + f);
  }

  lemma PunctTokAgain(c: char, s: string, f: string)
    requires StartsPunct(c, s) && Separated(f)
    ensures var x := TokFrom(c, s);
            x.spell != [] && x.spell[0] == c
            && (TokFrom(c, x.spell[1..] + f) == x.(rest := f) <==> !(c == '%' && PunctLen(c, s) == 3))
  {
    hide TokFrom, PunctTail, PunctLen;
    var t := PunctTail(c, s);
    TokPunct(c, s);
    PunctHead(c, s);
    PunctAgain(c, s, f);
    assert TokFrom(c, s).spell[1..] == t;
    assert t != [] ==> (t + f)[0] == t[0];
    assert t == [] ==> t + f == f;
    TokPunct(c, t + f);
    assert TokFrom(c, t + f).spell[1..] == PunctTail(c, t + f);
  }

  /** The one spelling that is not what was read. */
  predicate Misspelt(x: Lexeme) { x.kind == Punct && x.spell == ['%', ':', ':', ':'] }

  lemma MisspeltIs(c: char, s: string)
    requires StartsPunct(c, s)
    ensures Misspelt(TokFrom(c, s)) <==> c == '%' && PunctLen(c, s) == 3
  {
    hide TokFrom;
    TokPunct(c, s);
    assert TokFrom(c, s).spell[1..] == PunctTail(c, s);
  }

  /** Reading the spelling of a token, followed by a space or by nothing, gives the token back if
      and only if it is not `%:%:`. */
  lemma TokAgain(c: char, s: string, f: string)
    requires Separated(f) && Proper(TokFrom(c, s))
    ensures var x := TokFrom(c, s);
            x.spell != [] && x.spell[0] == c && (TokFrom(c, x.spell[1..] + f) == x.(rest := f) <==> !Misspelt(x))
  {
    if Prefixed(c, s) {
      hide TokFrom, PunctLen;
      PrefixedAgain(c, s, f);
    } else if IsIdentStart(c) {
      hide TokFrom, PunctLen;
      IdentTokAgain(c, s, f);
    } else if StartsNumber(c, s) {
      hide TokFrom, PunctLen;
      NumberTokAgain(c, s, f);
    } else if IsQuote(c) {
      hide TokFrom, PunctLen;
      QuoteTokAgain(c, s, f);
    } else if c == '@' && NextIs(s, IsIdentStart) {
      hide TokFrom, PunctLen;
      AtTokAgain(c, s, f);
    } else {
      hide PunctLen, PunctTail, AfterClose;
      assert StartsPunct(c, s);
      PunctTokAgain(c, s, f);
      MisspeltIs(c, s);
    }
  }

  // ---- a text read token by token ----

  /** All the tokens of a text, without the blanks between them. */
  function LexAll(s: string): seq<Lexeme>
    decreases |s|
  {
    if NextTok(s).kind == Eof then [] else [NextTok(s)] + LexAll(NextTok(s).rest)
  }

  /** The spellings with a space between each two. */
  function Join(xs: seq<Lexeme>): string {
    if xs == [] then [] else if |xs| == 1 then xs[0].spell else xs[0].spell + ([' '] + Join(xs[1..]))
  }

  /** x is a token that the tokenizer reads somewhere, closed and not the misspelt one. */
  ghost predicate Produced(x: Lexeme) { Proper(x) && !Misspelt(x) && exists s :: NextTok(s) == x }

  predicate SameTokens(xs: seq<Lexeme>, ys: seq<Lexeme>) {
    |xs| == |ys|
    && forall i :: 0 <= i < |xs| ==> xs[i].kind == ys[i].kind && xs[i].spell == ys[i].spell && xs[i].closed == ys[i].closed
  }

  lemma NextAgain(x: Lexeme, f: string)
    requires Produced(x) && Separated(f)
    ensures x.spell != [] && Proper(x) && NextTok(x.spell + f) == x.(rest := f)
  {
    hide TokFrom;
    var s0 :| NextTok(s0) == x;
    var s := SkipBlanks(s0);
    var c := s[0];
    assert x == TokFrom(c, s[1..]);
    TokAgain(c, s[1..], f);
    var t := x.spell + f;
    assert t[0] == c && t[1..] == x.spell[1..] + f;
    assert SkipBlanks(t) == t;
  }

  lemma BlankFirst(t: string)
    ensures NextTok([' '] + t) == NextTok(t)
  {
    hide TokFrom;
    assert ([' '] + t)[1..] == t;
  }

  /** Longest-match reading undoes spacing: the spellings of any tokens, joined by single spaces
      and read again, give the same kinds and spellings. */
  lemma {:induction false} JoinedTokens(xs: seq<Lexeme>)
    requires forall i :: 0 <= i < |xs| ==> Produced(xs[i])
    ensures SameTokens(LexAll(Join(xs)), xs)
    decreases |xs|
  {
    hide NextTok, Produced;
    if xs == [] {
      EofOfNothing();
    } else {
      var f := if |xs| == 1 then [] else [' '] + Join(xs[1..]);
      var t := Join(xs);
      assert t == xs[0].spell + f;
      NextAgain(xs[0], f);
      JoinedTokens(xs[1..]);
      LexFirst(t, xs[0].(rest := f));
      if |xs| == 1 {
        EofOfNothing();
      } else {
        LexBlank(Join(xs[1..]));
      }
    }
  }

  lemma EofOfNothing()
    ensures LexAll([]) == []
  {}

  lemma LexFirst(t: string, x: Lexeme)
    requires NextTok(t) == x && Proper(x)
    ensures LexAll(t) == [x] + LexAll(x.rest)
  {
    hide NextTok;
  }

  lemma LexBlank(t: string)
    ensures LexAll([' '] + t) == LexAll(t)
  {
    hide NextTok;
    BlankFirst(t);
  }

  // ---- the same from the source text ----

  lemma {:induction false} TailsNoLineEnd(s: string)
    ensures LF !in IdentTail(s).0 && LF !in NumberTail(s).0 && LF !in AtTail(s).0
    decreases |s|
  {
    if s != [] {
      TailsNoLineEnd(s[1..]);
      if |s| >= 2 {
        TailsNoLineEnd(s[2..]);
      }
    }
  }

  lemma {:induction false} QuotedNoLineEnd(delim: char, s: string)
    requires delim != LF
    ensures LF !in Quoted(delim, s).0
    decreases |s|
  {
    if s != [] {
      QuotedNoLineEnd(delim, s[1..]);
      if |s| >= 2 {
        QuotedNoLineEnd(delim, s[2..]);
      }
    }
  }

  lemma PunctNoLineEnd(c: char, s: string)
    ensures LF !in PunctTail(c, s)
  {
    var n := PunctLen(c, s);
    assert n >= 1 ==> s[0] != LF;
    assert n >= 2 ==> s[1] != LF;
    assert n == 3 ==> s[2] != LF;
  }

  lemma TokNoLineEnd(c: char, s: string)
    requires c != LF
    ensures LF !in TokFrom(c, s).spell
  {
    hide IdentTail, NumberTail, AtTail, Quoted, PunctTail, PunctLen, AfterClose, SkipLine;
    TailsNoLineEnd(s);
    QuotedNoLineEnd(c, s);
    if s != [] && IsQuote(s[0]) {
      QuotedNoLineEnd(s[0], s[1..]);
    }
    if |s| >= 2 && IsQuote(s[1]) {
      QuotedNoLineEnd(s[1], s[2..]);
    }
    PunctNoLineEnd(c, s);
  }

  lemma {:induction false} JoinOneLine(xs: seq<Lexeme>)
    requires forall i :: 0 <= i < |xs| ==> Produced(xs[i])
    ensures LF !in Join(xs)
    decreases |xs|
  {
    hide TokFrom;
    if xs != [] {
      var s0 :| NextTok(s0) == xs[0];
      var s := SkipBlanks(s0);
      TokNoLineEnd(s[0], s[1..]);
      JoinOneLine(xs[1..]);
    }
  }

  /** The joined spellings as a source text: phase 2 leaves them alone, and the tokens come back. */
  lemma JoinedSource(xs: seq<Lexeme>)
    requires forall i :: 0 <= i < |xs| ==> Produced(xs[i])
    ensures SameTokens(LexAll(Splice(Join(xs))), xs)
  {
    hide LexAll, Join, Produced, Splice;
    JoinOneLine(xs);
    SpliceOneLine(Join(xs));
    JoinedTokens(xs);
  }

  /** `%:%:` is read as one token spelled `%:::`, and that spelling is read as two. */
  lemma DigraphPasteExample()
    ensures NextTok("%:%:") == Lexeme(Punct, "%:::", true, "")
    ensures NextTok("%:::") == Lexeme(Punct, "%:", true, "::")
  {
    assert "%:%:"[1..] == ":%:" && "%:::"[1..] == ":::";
    assert ":%:"[3..] == "" && ":::"[1..] == "::";
    assert PunctLen('%', ":%:") == 3 && PunctLen('%', ":::") == 1;
    TokPunct('%', ":%:");
    TokPunct('%', ":::");
  }
}
