/** The `#` operator of macro bodies, which makes a string literal of an argument, and the reading
    of such a literal by _Pragma, which takes it apart again. */
module Stringify {
  import opened Splicing
  import opened Lexer

  /** An element of an argument: white space, or a token with its spelling, whether white space
      stands before it, and whether it is a string literal or character constant. */
  datatype ArgTok = Blank | Tok(spell: string, spaced: bool, literal: bool)

  const QUOTE: char := '"'

  function Escape(s: string): string {
    if s == [] then [] else (if s[0] == QUOTE || s[0] == BS then [BS, s[0]] else [s[0]]) + Escape(s[1..])
  }

  predicate EndsBlank(s: string) { s != [] && s[|s| - 1] == ' ' }

  function Trim(s: string): (r: string)
    ensures r <= s && !EndsBlank(r)
  {
    if EndsBlank(s) then Trim(s[..|s| - 1]) else s
  }

  /** The loop over the argument, on the text without its escapes. */
  function Build(text: string, first: bool, xs: seq<ArgTok>): string
    decreases |xs|
  {
    if xs == [] then text
    else
      match xs[0]
      case Blank =>
        Build(if !first && text != [] && !EndsBlank(text) then text + [' '] else text, first, xs[1..])
      case Tok(spell, spaced, _) =>
        Build((if !first && spaced && !EndsBlank(text) then text + [' '] else text) + spell, false, xs[1..])
  }

  /** stringify */
  function Stringified(xs: seq<ArgTok>): string { [QUOTE] + (Escape(Trim(Build([], true, xs))) + [QUOTE]) }

  // ---- what C11 section 6.10.3.2 asks for ----

  /** The spellings, with one space between two tokens that white space separates and none before
      the first or after the last. */
  function Text(xs: seq<ArgTok>): string {
    if xs == [] then []
    else if xs[0].Blank? then Text(xs[1..])
    else xs[0].spell + TextAfter(false, xs[1..])
  }

  /** What follows a token; `gap` says that white space has been seen since. */
  function TextAfter(gap: bool, xs: seq<ArgTok>): string
    decreases |xs|
  {
    if xs == [] then []
    else if xs[0].Blank? then TextAfter(true, xs[1..])
    else (if gap || xs[0].spaced then [' '] else []) + (xs[0].spell + TextAfter(false, xs[1..]))
  }

  /** The argument with the quotes and backslashes of its literals escaped, and no others. */
  function EscapeLiterals(xs: seq<ArgTok>): (ys: seq<ArgTok>)
    ensures |ys| == |xs|
  {
    if xs == [] then [] else [EscapeLiteral(xs[0])] + EscapeLiterals(xs[1..])
  }

  function EscapeLiteral(x: ArgTok): ArgTok { if x.Tok? && x.literal then x.(spell := Escape(x.spell)) else x }

  /** The string literal that C11 asks for. */
  function StandardLiteral(xs: seq<ArgTok>): string { [QUOTE] + (Text(EscapeLiterals(xs)) + [QUOTE]) }

  /** A token outside literals that holds a quote or a backslash. */
  predicate Stray(x: ArgTok) { x.Tok? && !x.literal && (QUOTE in x.spell || BS in x.spell) }

  /** A token's spelling is not empty, neither starts nor ends with a space, and holds no line end. */
  predicate Spelled(x: ArgTok) {
    x.Tok? ==> x.spell != [] && x.spell[0] != ' ' && x.spell[|x.spell| - 1] != ' ' && LF !in x.spell
  }

  predicate AllSpelled(xs: seq<ArgTok>) { forall i :: 0 <= i < |xs| ==> Spelled(xs[i]) }

  lemma TrimOnce(s: string)
    requires !EndsBlank(s)
    ensures Trim(s) == s && Trim(s + [' ']) == s
  {
    assert (s + [' '])[..|s|] == s;
  }

  lemma EndsLike(t: string, s: string)
    requires s != []
    ensures EndsBlank(t + s) == EndsBlank(s) && t + s != []
  {}

  lemma {:induction false} BuildAfter(t: string, gap: bool, xs: seq<ArgTok>)
    requires AllSpelled(xs) && t != [] && !EndsBlank(t)
    ensures Trim(Build(t + (if gap then [' '] else []), false, xs)) == t + TextAfter(gap, xs)
    decreases |xs|
  {
    hide Trim;
    var text := t + (if gap then [' '] else []);
    assert !gap ==> text == t;
    if xs == [] {
      TrimOnce(t);
    } else if xs[0].Blank? {
      BuildAfter(t, true, xs[1..]);
    } else {
      var (sp, sep) := (xs[0].spell, if gap || xs[0].spaced then [' '] else []);
      var t1 := (t + sep) + sp;
      EndsLike(t + sep, sp);
      BuildAfter(t1, false, xs[1..]);
      assert t1 + [] == t1;
      assert Build(text, false, xs) == Build(t1, false, xs[1..]);
      assert t1 + TextAfter(false, xs[1..]) == t + (sep + (sp + TextAfter(false, xs[1..])));
    }
  }

  /** The loop puts its spaces where C asks for them. */
  lemma {:induction false} BuildIsText(xs: seq<ArgTok>)
    requires AllSpelled(xs)
    ensures Trim(Build([], true, xs)) == Text(xs)
    decreases |xs|
  {
    hide Trim;
    if xs == [] {
      TrimOnce([]);
    } else if xs[0].Blank? {
      BuildIsText(xs[1..]);
    } else {
      assert [] + xs[0].spell == xs[0].spell == xs[0].spell + [];
      BuildAfter(xs[0].spell, false, xs[1..]);
    }
  }

  // ---- which characters are escaped ----

  lemma {:induction false} EscapeConcat(a: string, b: string)
    ensures Escape(a + b) == Escape(a) + Escape(b)
  {
    if a == [] {
      assert a + b == b;
    } else {
      assert (a + b)[1..] == a[1..] + b;
      EscapeConcat(a[1..], b);
    }
  }

  lemma {:induction false} EscapeGrows(s: string)
    ensures |Escape(s)| >= |s|
    ensures if QUOTE in s || BS in s then |Escape(s)| > |s| else Escape(s) == s
  {
    if s != [] {
      EscapeGrows(s[1..]);
      assert s == [s[0]] + s[1..];
    }
  }

  /** What the code makes of one token, as against C. */
  lemma EscapeToken(x: ArgTok)
    requires x.Tok?
    ensures var y := EscapeLiteral(x); y.Tok? && y.spaced == x.spaced && |Escape(x.spell)| >= |y.spell|
    ensures var y := EscapeLiteral(x);
            if Stray(x) then |Escape(x.spell)| > |y.spell| else Escape(x.spell) == y.spell
  {
    EscapeGrows(x.spell);
  }

  lemma EscapeLiteralsCons(xs: seq<ArgTok>)
    requires xs != []
    ensures EscapeLiterals(xs)[0] == EscapeLiteral(xs[0]) && EscapeLiterals(xs)[1..] == EscapeLiterals(xs[1..])
    ensures EscapeLiteral(xs[0]).Tok? == xs[0].Tok? && (xs[0].Tok? ==> EscapeLiteral(xs[0]).spaced == xs[0].spaced)
  {}

  lemma {:induction false} EscapedAfter(gap: bool, xs: seq<ArgTok>)
    ensures var (code, c11) := (Escape(TextAfter(gap, xs)), TextAfter(gap, EscapeLiterals(xs)));
            |code| >= |c11| && (code == c11 <==> forall x <- xs :: !Stray(x))
    decreases |xs|
  {
    hide Escape, EscapeLiterals, EscapeLiteral;
    if xs == [] {
      EscapeGrows([]);
    } else {
      EscapeLiteralsCons(xs);
      assert forall x <- xs :: x == xs[0] || x in xs[1..];
      if xs[0].Blank? {
        EscapedAfter(true, xs[1..]);
      } else {
        EscapedAfter(false, xs[1..]);
        EscapedHead(if gap || xs[0].spaced then [' '] else [], xs);
      }
    }
  }

  lemma {:induction false} EscapedHead(sep: string, xs: seq<ArgTok>)
    requires xs != [] && xs[0].Tok? && EscapeLiteral(xs[0]).Tok? && sep in {[], [' ']}
    requires var (code, c11) := (Escape(TextAfter(false, xs[1..])), TextAfter(false, EscapeLiterals(xs[1..])));
             |code| >= |c11| && (code == c11 <==> forall x <- xs[1..] :: !Stray(x))
    ensures var (code, c11) := (Escape(sep + (xs[0].spell + TextAfter(false, xs[1..]))),
                                sep + (EscapeLiteral(xs[0]).spell + TextAfter(false, EscapeLiterals(xs[1..]))));
            |code| >= |c11| && (code == c11 <==> forall x <- xs :: !Stray(x))
  {
    hide Escape, EscapeLiterals, EscapeLiteral, TextAfter;
    var (x, y) := (xs[0], EscapeLiteral(xs[0]));
    var (a, b) := (TextAfter(false, xs[1..]), TextAfter(false, EscapeLiterals(xs[1..])));
    assert forall z <- xs :: z == x || z in xs[1..];
    EscapeToken(x);
    EscapeConcat(sep, x.spell + a);
    EscapeConcat(x.spell, a);
    EscapeGrows(sep);
    assert (sep + (y.spell + b))[|sep| + |y.spell|..] == b;
    assert (sep + (Escape(x.spell) + Escape(a)))[|sep| + |Escape(x.spell)|..] == Escape(a);
  }

  lemma {:induction false} EscapedText(xs: seq<ArgTok>)
    ensures var (code, c11) := (Escape(Text(xs)), Text(EscapeLiterals(xs)));
            |code| >= |c11| && (code == c11 <==> forall x <- xs :: !Stray(x))
    decreases |xs|
  {
    hide Escape, EscapeLiterals, EscapeLiteral, TextAfter;
    if xs == [] {
      EscapeGrows([]);
    } else {
      EscapeLiteralsCons(xs);
      assert forall x <- xs :: x == xs[0] || x in xs[1..];
      if xs[0].Blank? {
        EscapedText(xs[1..]);
      } else {
        EscapedAfter(false, xs[1..]);
        EscapedHead([], xs);
        NoSeparator(xs[0].spell + TextAfter(false, xs[1..]));
        NoSeparator(EscapeLiteral(xs[0]).spell + TextAfter(false, EscapeLiterals(xs[1..])));
      }
    }
  }

  lemma NoSeparator(s: string)
    ensures [] + s == s
  {}

  /** `#` makes the literal that C11 asks for exactly when no token but a string literal or character
      constant holds a quote or a backslash: the code escapes those as well. */
  lemma StringifyIsStandard(xs: seq<ArgTok>)
    requires AllSpelled(xs)
    ensures Stringified(xs) == StandardLiteral(xs) <==> forall x <- xs :: !Stray(x)
  {
    hide Build, Trim, Escape, Text, EscapeLiterals, Stray;
    BuildIsText(xs);
    EscapedText(xs);
    SameBetweenQuotes(Escape(Text(xs)), Text(EscapeLiterals(xs)));
  }

  lemma SameBetweenQuotes(s: string, t: string)
    ensures [QUOTE] + (s + [QUOTE]) == [QUOTE] + (t + [QUOTE]) <==> s == t
  {
    var (a, b) := ([QUOTE] + (s + [QUOTE]), [QUOTE] + (t + [QUOTE]));
    assert a[1..|a| - 1] == s && b[1..|b| - 1] == t;
  }

  /** For the argument `\n`, which is the tokens `\` and `n`, C11 asks for a literal with one
      backslash and the code makes one with two. */
  lemma StrayBackslashExample()
    ensures var xs := [Tok("\\", false, false), Tok("n", false, false)];
            AllSpelled(xs) && StandardLiteral(xs) == "\"\\n\"" && Stringified(xs) == "\"\\\\n\""
  {
    var xs := [Tok("\\", false, false), Tok("n", false, false)];
    assert xs[1..] == [Tok("n", false, false)];
    assert EscapeLiterals(xs) == xs;
    assert Text(xs) == "\\n";
    BuildIsText(xs);
    assert "\\n"[1..] == "n" && "n"[1..] == "";
    assert Escape("\\n") == "\\\\n";
  }

  // ---- taking the literal apart ----

  /** The loop of emit_pragma_text: up to a quote that ends the text, `\"` and `\\` give their
      second character. */
  function Unescape(s: string): string {
    if s == [] || s == [QUOTE] then []
    else if s[0] == BS && |s| > 1 && (s[1] == QUOTE || s[1] == BS) then [s[1]] + Unescape(s[2..])
    else [s[0]] + Unescape(s[1..])
  }

  function Destringized(lit: string): string {
    Unescape(if lit != [] && lit[0] == QUOTE then lit[1..] else lit)
  }

  /** Other characters behind a backslash keep it, and a text that needs no quotes is taken as it is. */
  lemma {:induction false} UnescapeOther(c: char, r: string)
    requires c != '"' && c != '\\'
    ensures Unescape(['\\', c] + r) == ['\\'] + Unescape([c] + r)
    ensures r != [] && '"' !in r && '\\' !in r ==> Destringized(r) == r
    ensures Unescape(['\\', '"']) == ['"'] && Unescape(['\\', '\\']) == ['\\'] && Unescape(['\\']) == ['\\']
  {
    assert (['\\', c] + r)[1..] == [c] + r;
    if r != [] && '"' !in r && '\\' !in r { UnescapePlain(r); }
  }

  lemma {:induction false} UnescapePlain(r: string)
    requires '"' !in r && '\\' !in r
    ensures Unescape(r) == r
  {
    if r != [] { UnescapePlain(r[1..]); }
  }

  lemma {:induction false} UnescapeEscape(t: string)
    ensures Unescape(Escape(t) + [QUOTE]) == t
  {
    if t == [] {
      assert Escape(t) + [QUOTE] == [QUOTE];
    } else {
      var (s, rest) := (Escape(t) + [QUOTE], Escape(t[1..]) + [QUOTE]);
      UnescapeEscape(t[1..]);
      if t[0] == QUOTE || t[0] == BS {
        assert s == [BS, t[0]] + rest && s[2..] == rest;
      } else {
        assert s == [t[0]] + rest && s[1..] == rest;
      }
    }
  }

  lemma {:induction false} EscapeOneLine(t: string)
    requires LF !in t
    ensures LF !in Escape(t)
  {
    if t != [] {
      EscapeOneLine(t[1..]);
    }
  }

  /** An escaped text of one line and a quote are just what the tokenizer takes as the rest of a
      string literal. */
  lemma {:induction false} QuotedEscape(t: string, f: string)
    requires LF !in t
    ensures Quoted(QUOTE, Escape(t) + ([QUOTE] + f)) == (Escape(t) + [QUOTE], true, f)
  {
    hide Quoted;
    var rest := Escape(t[if t == [] then 0 else 1..]) + ([QUOTE] + f);
    if t == [] {
      assert Escape(t) + ([QUOTE] + f) == [QUOTE] + f && Escape(t) + [QUOTE] == [QUOTE];
      QuotedOne(QUOTE, f);
    } else {
      QuotedEscape(t[1..], f);
      var u := Escape(t[1..]);
      if t[0] == QUOTE || t[0] == BS {
        assert Escape(t) + ([QUOTE] + f) == [BS, t[0]] + rest && Escape(t) + [QUOTE] == [BS, t[0]] + (u + [QUOTE]);
        QuotedPair(t[0], rest);
      } else {
        assert Escape(t) + ([QUOTE] + f) == [t[0]] + rest && Escape(t) + [QUOTE] == [t[0]] + (u + [QUOTE]);
        QuotedOne(t[0], rest);
      }
    }
  }

  lemma QuotedOne(c: char, s: string)
    requires c != LF && c != BS
    ensures Quoted(QUOTE, [c] + s) ==
              if c == QUOTE then ([c], true, s) else ([c] + Quoted(QUOTE, s).0, Quoted(QUOTE, s).1, Quoted(QUOTE, s).2)
  {
    assert ([c] + s)[1..] == s;
  }

  lemma QuotedPair(c: char, s: string)
    requires c != LF
    ensures Quoted(QUOTE, [BS, c] + s) == ([BS, c] + Quoted(QUOTE, s).0, Quoted(QUOTE, s).1, Quoted(QUOTE, s).2)
  {
    assert ([BS, c] + s)[2..] == s && ([BS, c] + s)[..2] == [BS, c];
  }

  lemma {:induction false} TextOneLine(gap: bool, xs: seq<ArgTok>)
    requires AllSpelled(xs)
    ensures LF !in Text(xs) && LF !in TextAfter(gap, xs)
    decreases |xs|
  {
    if xs != [] {
      TextOneLine(true, xs[1..]);
      TextOneLine(false, xs[1..]);
    }
  }

  /** What `#` makes of an argument is one string literal, whatever follows it, and _Pragma gets
      back from it the text of the argument. */
  lemma StringifyRoundTrip(xs: seq<ArgTok>, f: string)
    requires AllSpelled(xs)
    ensures NextTok(Stringified(xs) + f) == Lexeme(StringLit, Stringified(xs), true, f)
    ensures Destringized(Stringified(xs)) == Text(xs)
  {
    hide Build, Trim, NextTok, Escape, Unescape, Text;
    BuildIsText(xs);
    TextOneLine(false, xs);
    UnescapeEscape(Text(xs));
    assert Stringified(xs)[1..] == Escape(Text(xs)) + [QUOTE];
    LiteralRead(Text(xs), f);
  }

  lemma LiteralRead(t: string, f: string)
    requires LF !in t
    ensures var lit := [QUOTE] + (Escape(t) + [QUOTE]);
            NextTok(lit + f) == Lexeme(StringLit, lit, true, f)
  {
    hide TokFrom, Escape, Quoted;
    var lit := [QUOTE] + (Escape(t) + [QUOTE]);
    var u := Escape(t) + ([QUOTE] + f);
    QuotedEscape(t, f);
    TokQuote(QUOTE, u);
    assert [] + lit == lit;
    assert lit + f == [QUOTE] + u;
    QuoteFirst(u);
  }

  lemma QuoteFirst(u: string)
    ensures NextTok([QUOTE] + u) == TokFrom(QUOTE, u)
  {
    hide TokFrom;
    assert ([QUOTE] + u)[1..] == u && SkipBlanks([QUOTE] + u) == [QUOTE] + u;
  }

  // ---- the loops ----

  /** Escaping keeps the last character, and whether there is one. */
  lemma EscapeEnds(t: string)
    ensures Escape(t) == [] <==> t == []
    ensures EndsBlank([QUOTE] + Escape(t)) == EndsBlank(t)
  {
    if t != [] {
      var (init, c) := (t[..|t| - 1], t[|t| - 1]);
      assert t == init + [c];
      EscapeConcat(init, [c]);
      assert Escape([c]) == if c == QUOTE || c == BS then [BS, c] else [c];
    }
  }

  method Stringify(xs: seq<ArgTok>) returns (sb: string)
    ensures sb == Stringified(xs)
  {
    hide Build, Trim, Escape;
    sb := [QUOTE];
    var first := true;
    ghost var text: string := [];
    EscapeNothing();
    for i := 0 to |xs|
      invariant sb == [QUOTE] + Escape(text)
      invariant Build(text, first, xs[i..]) == Build([], true, xs)
    {
      EscapeEnds(text);
      BuildStep(text, first, xs[i..]);
      assert xs[i..][1..] == xs[i + 1..];
      var last := sb[|sb| - 1];
      match xs[i] {
        case Blank =>
          if !first && |sb| > 1 && last != ' ' {
            PutChar(text, ' ');
            sb, text := sb + [' '], text + [' '];
          }
        case Tok(spell, spaced, _) =>
          if !first && spaced && (|sb| <= 1 || last != ' ') {
            PutChar(text, ' ');
            sb, text := sb + [' '], text + [' '];
          }
          first := false;
          ghost var before := text;
          assert before + spell[..0] == before;
          for j := 0 to |spell|
            invariant text == before + spell[..j] && sb == [QUOTE] + Escape(text)
          {
            PutChar(text, spell[j]);
            if spell[j] == QUOTE || spell[j] == BS { sb := sb + [BS]; }
            sb := sb + [spell[j]];
            text := text + [spell[j]];
            assert spell[..j + 1] == spell[..j] + [spell[j]];
          }
          assert spell[..|spell|] == spell;
      }
    }
    BuildStep(text, first, []);
    assert xs[|xs|..] == [] && text == Build([], true, xs);
    ghost var whole := text;
    while |sb| > 1 && sb[|sb| - 1] == ' '
      invariant sb == [QUOTE] + Escape(text) && Trim(text) == Trim(whole)
    {
      EscapeEnds(text);
      TrimStep(text);
      PutChar(text[..|text| - 1], ' ');
      assert text == text[..|text| - 1] + [' '];
      text := text[..|text| - 1];
      sb := sb[..|sb| - 1];
    }
    EscapeEnds(text);
    TrimStep(text);
    sb := sb + [QUOTE];
    assert sb == [QUOTE] + (Escape(text) + [QUOTE]);
  }

  lemma EscapeNothing()
    ensures Escape([]) == [] && [QUOTE] + [] == [QUOTE]
  {}

  lemma PutChar(t: string, c: char)
    ensures Escape(t + [c]) == Escape(t) + (if c == QUOTE || c == BS then [BS, c] else [c])
    ensures (Escape(t) + [BS]) + [c] == Escape(t) + [BS, c]
  {
    EscapeConcat(t, [c]);
    assert Escape([c]) == if c == QUOTE || c == BS then [BS, c] else [c];
  }

  lemma BuildStep(text: string, first: bool, xs: seq<ArgTok>)
    ensures Build(text, first, xs) ==
              if xs == [] then text
              else
                match xs[0]
                case Blank => Build(if !first && text != [] && !EndsBlank(text) then text + [' '] else text, first, xs[1..])
                case Tok(spell, spaced, _) =>
                  Build((if !first && spaced && !EndsBlank(text) then text + [' '] else text) + spell, false, xs[1..])
  {}

  lemma TrimStep(text: string)
    ensures Trim(text) == if EndsBlank(text) then Trim(text[..|text| - 1]) else text
  {}

  method Destringize(lit: string) returns (ds: string)
    ensures ds == Destringized(lit)
  {
    hide Unescape;
    var p := if lit != [] && lit[0] == QUOTE then 1 else 0;
    ds := [];
    assert lit[0..] == lit && [] + Unescape(lit[p..]) == Unescape(lit[p..]);
    while p < |lit| && !(lit[p] == QUOTE && p + 1 == |lit|)
      invariant p <= |lit| && ds + Unescape(lit[p..]) == Destringized(lit)
    {
      UnescapeStep(lit[p..], ds);
      if lit[p] == BS && p + 1 < |lit| && (lit[p + 1] == QUOTE || lit[p + 1] == BS) {
        assert lit[p..][2..] == lit[p + 2..];
        ds := ds + [lit[p + 1]];
        p := p + 2;
      } else {
        assert lit[p..][1..] == lit[p + 1..];
        ds := ds + [lit[p]];
        p := p + 1;
      }
    }
    assert lit[p..] == [] || lit[p..] == [QUOTE];
    UnescapeStep(lit[p..], ds);
  }

  lemma UnescapeStep(s: string, ds: string)
    ensures ds + Unescape(s) ==
              if s == [] || s == [QUOTE] then ds
              else if s[0] == BS && |s| > 1 && (s[1] == QUOTE || s[1] == BS) then (ds + [s[1]]) + Unescape(s[2..])
              else (ds + [s[0]]) + Unescape(s[1..])
  {
    if s == [] || s == [QUOTE] {
      assert ds + [] == ds;
    } else if s[0] == BS && |s| > 1 && (s[1] == QUOTE || s[1] == BS) {
      PutFirst(ds, s[1], Unescape(s[2..]));
    } else {
      PutFirst(ds, s[0], Unescape(s[1..]));
    }
  }

  lemma PutFirst(ds: string, c: char, u: string)
    ensures ds + ([c] + u) == (ds + [c]) + u
  {}
}
