/** Printing and parsing undo each other. */
module JsonRoundTrip {
  import opened Options
  import opened Json

  predicate NulFree(s: string) { forall i :: 0 <= i < |s| ==> s[i] != NUL }

  predicate DistinctKeys(pairs: seq<Pair>) { forall i, j :: 0 <= i < j < |pairs| ==> pairs[i].key != pairs[j].key }

  /** The trees that the printer can render without loss. */
  predicate WellFormed(n: Node) {
    match n
    case Number(num) => num.Exact? && -EXACT_MAX <= num.n <= EXACT_MAX
    case Str(s) => NulFree(s)
    case Arr(items) => forall i :: 0 <= i < |items| ==> WellFormed(items[i])
    case Obj(pairs) =>
      DistinctKeys(pairs) && forall i :: 0 <= i < |pairs| ==> NulFree(pairs[i].key) && WellFormed(pairs[i].val)
    case _ => true
  }

  predicate AllWs(s: string) { forall i :: 0 <= i < |s| ==> IsWs(s[i]) }

  predicate WsIndent(indent: Option<string>) { indent.Some? ==> AllWs(indent.value) }

  /** Text that a number in front of it would take in. */
  predicate ExtendsNumber(f: string) { f != [] && (IsDigit(f[0]) || f[0] in {'.', 'e', 'E'}) }

  // ---- white space ----

  lemma {:induction false} SkipAllWs(w: string, s: string)
    requires AllWs(w)
    ensures SkipWs(w + s) == SkipWs(s)
  {
    if w == [] {
      assert w + s == s;
    } else {
      assert (w + s)[1..] == w[1..] + s;
      SkipAllWs(w[1..], s);
    }
  }

  lemma {:induction false} RepeatWs(s: string, k: nat)
    requires AllWs(s)
    ensures AllWs(Repeat(s, k))
  {
    if k > 0 {
      RepeatWs(s, k - 1);
    }
  }

  lemma BreakWs(indent: Option<string>, k: nat)
    requires WsIndent(indent)
    ensures AllWs(Break(indent, k))
  {
    if indent.Some? {
      RepeatWs(indent.value, k);
    }
  }

  // ---- strings ----

  lemma EscapeRead(c: char, s: string)
    requires c != NUL
    ensures StrBody(Escape(c) + s) == ([c] + StrBody(s).0, StrBody(s).1)
  {
    EscapeKinds(c);
    hide Escape, StrBody, Unicode, HexDigit;
    var e := Escape(c);
    if |e| == 1 {
      PlainBody(c, s);
      assert e + s == [c] + s;
    } else if |e| == 2 {
      LetterBody(e[1], s);
      assert e + s == [BACKSLASH, e[1]] + s;
    } else {
      var h := ['0', '0', HexDigit(c as int / 16), HexDigit(c as int % 16)];
      HexRead(c, s);
      HexBody(h, s);
      assert e + s == [BACKSLASH, 'u'] + (h + s);
    }
  }

  lemma EscapeKinds(c: char)
    requires c != NUL
    ensures var e := Escape(c);
            if |e| == 1 then e == [c] && c != QUOTE && c != BACKSLASH
            else if |e| == 2 then e == [BACKSLASH, e[1]] && e[1] != 'u' && Unescape(e[1]) == c
            else c as int < 0x20 && e == [BACKSLASH, 'u'] + ['0', '0', HexDigit(c as int / 16), HexDigit(c as int % 16)]
  {}

  lemma PlainBody(c: char, s: string)
    requires c != QUOTE && c != BACKSLASH
    ensures StrBody([c] + s) == ([c] + StrBody(s).0, StrBody(s).1)
  {
    assert ([c] + s)[1..] == s;
  }

  lemma LetterBody(letter: char, s: string)
    requires letter != 'u'
    ensures StrBody([BACKSLASH, letter] + s) == ([Unescape(letter)] + StrBody(s).0, StrBody(s).1)
  {
    assert ([BACKSLASH, letter] + s)[1..] == [letter] + s && ([letter] + s)[1..] == s;
  }

  lemma HexBody(h: string, s: string)
    ensures var (u, t) := Unicode(h + s);
            StrBody([BACKSLASH, 'u'] + (h + s)) == (u + StrBody(t).0, StrBody(t).1)
  {
    hide Unicode;
    assert ([BACKSLASH, 'u'] + (h + s))[1..] == ['u'] + (h + s) && (['u'] + (h + s))[1..] == h + s;
  }

  /** A control character comes back from its four hexadecimal digits. */
  lemma HexRead(c: char, s: string)
    requires c as int < 0x20
    ensures Unicode(['0', '0', HexDigit(c as int / 16), HexDigit(c as int % 16)] + s) == ([c], s)
  {
    var (h, l) := (HexDigit(c as int / 16), HexDigit(c as int % 16));
    assert HexValue(h) == Some(c as int / 16) && HexValue(l) == Some(c as int % 16);
    var t := ['0', '0', h, l] + s;
    assert t[1..] == ['0', h, l] + s;
    assert t[1..][1..] == [h, l] + s;
    assert t[1..][1..][1..] == [l] + s;
    assert t[1..][1..][1..][1..] == s;
  }

  lemma {:induction false} StrRead(s: string, f: string)
    requires NulFree(s)
    ensures StrBody(EscapeAll(s) + ([QUOTE] + f)) == (s, f)
  {
    hide Escape, StrBody;
    var q := [QUOTE] + f;
    if s == [] {
      assert EscapeAll(s) + q == q;
      QuoteBody(f);
    } else {
      StrRead(s[1..], f);
      assert EscapeAll(s) + q == Escape(s[0]) + (EscapeAll(s[1..]) + q);
      EscapeRead(s[0], EscapeAll(s[1..]) + q);
      assert s == [s[0]] + s[1..];
    }
  }

  lemma QuoteBody(f: string)
    ensures StrBody([QUOTE] + f) == ([], f)
  {
    assert ([QUOTE] + f)[1..] == f;
  }

  /** A printed string literal in front of f. */
  lemma ShowStrRead(s: string, f: string)
    requires NulFree(s)
    ensures ShowStr(s) + f == [QUOTE] + (EscapeAll(s) + ([QUOTE] + f))
    ensures StrBody((ShowStr(s) + f)[1..]) == (s, f)
  {
    assert UpToNul(s) == s;
    assert ShowStr(s) + f == [QUOTE] + (EscapeAll(s) + ([QUOTE] + f));
    StrRead(s, f);
  }

  // ---- numbers ----

  function Pow10(k: nat): nat { if k == 0 then 1 else 10 * Pow10(k - 1) }

  lemma {:induction false} DigitsRead(n: nat)
    ensures forall i :: 0 <= i < |Digits(n)| ==> IsDigit(Digits(n)[i])
    ensures Decimal(Digits(n)) == n
  {
    if n >= 10 {
      DigitsRead(n / 10);
      assert Digits(n)[..|Digits(n)| - 1] == Digits(n / 10);
    } else {
      assert Digits(n)[..0] == [];
      assert Decimal([]) == 0;
    }
  }

  lemma {:induction false} DigitsShort(n: nat, k: nat)
    requires k > 0 && n < Pow10(k)
    ensures |Digits(n)| <= k
  {
    if n >= 10 {
      DigitsShort(n / 10, k - 1);
    }
  }

  lemma {:induction false} DigitRunOf(d: string, f: string)
    requires forall i :: 0 <= i < |d| ==> IsDigit(d[i])
    requires f == [] || !IsDigit(f[0])
    ensures DigitRun(d + f) == |d|
  {
    if d == [] {
      assert d + f == f;
    } else {
      assert (d + f)[1..] == d[1..] + f;
      DigitRunOf(d[1..], f);
    }
  }

  lemma PowerOfTen()
    ensures Pow10(16) == 10000000000000000
  {
    assert Pow10(4) == 10000;
    assert Pow10(8) == 10000 * Pow10(4);
    assert Pow10(12) == 10000 * Pow10(8);
  }

  /** A sign and digits in front of f are read as that number. */
  lemma NumberText(neg: bool, d: string, f: string)
    requires d != [] && |d| <= 16 && (forall i :: 0 <= i < |d| ==> IsDigit(d[i])) && !ExtendsNumber(f)
    ensures var lex := if neg then ['-'] + d else d;
            ((lex + f)[0] == '-' || IsDigit((lex + f)[0])) && PsNumber(lex + f) == Ok(Number(IntOf(neg, d, lex)), f)
  {
    DigitRunOf(d, f);
    assert FracLen(f) == 0 && ExpLen(f) == 0;
    hide Decimal, IntOf, DigitRun, FracLen, ExpLen, PsNumber;
    var lex := if neg then ['-'] + d else d;
    var (s, t) := (lex + f, d + f);
    assert s[0] == lex[0];
    assert neg ==> s[1..] == t;
    assert t[..|d|] == d && t[|d|..] == f && s[..|lex|] == lex && s[|lex|..] == f;
    WholeNumber(s, t, |d|, |lex|);
  }

  /** A number without fraction and exponent. */
  lemma WholeNumber(s: string, t: string, n: nat, len: nat)
    requires s != [] && (s[0] == '-' || IsDigit(s[0])) && t == (if s[0] == '-' then s[1..] else s)
    requires n <= |t| && DigitRun(t) == n && FracLen(t[n..]) == 0 && ExpLen(t[n..]) == 0
    requires len == (if s[0] == '-' then 1 else 0) + n && len < 64
    ensures PsNumber(s) == Ok(Number(IntOf(s[0] == '-', t[..n], s[..len])), s[len..])
  {
    hide Decimal, IntOf, DigitRun, FracLen, ExpLen;
    assert t[n..][0..] == t[n..];
  }

  lemma NumberRead(i: int, f: string)
    requires -EXACT_MAX <= i <= EXACT_MAX && !ExtendsNumber(f)
    ensures var s := ShowNum(Exact(i)) + f;
            (s[0] == '-' || IsDigit(s[0])) && PsNumber(s) == Ok(Number(Exact(i)), f)
  {
    hide PsNumber;
    var m := if i < 0 then -i else i;
    DigitsRead(m);
    PowerOfTen();
    DigitsShort(m, 16);
    NumberText(i < 0, Digits(m), f);
  }

  // ---- trees ----

  lemma {:induction false} SetNew(pairs: seq<Pair>, key: string, val: Node)
    requires forall i :: 0 <= i < |pairs| ==> pairs[i].key != key
    ensures SetPair(pairs, key, val) == pairs + [Pair(key, val)]
  {
    if pairs != [] {
      SetNew(pairs[1..], key, val);
    }
  }

  /** The first character of a printed tree: no white space and no closing bracket. */
  lemma ShowStarts(n: Node, indent: Option<string>, depth: nat)
    requires WellFormed(n)
    ensures var s := Show(n, indent, depth); s != [] && !IsWs(s[0]) && s[0] != ']' && s[0] != '}'
  {
    hide EscapeAll, ShowItems, ShowPairs, UpToNul, Break, Digits;
    if n.Number? && n.num.Exact? {
      DigitsRead(if n.num.n < 0 then -n.num.n else n.num.n);
    }
  }

  lemma SkipWsTwice(s: string)
    ensures SkipWs(SkipWs(s)) == SkipWs(s)
  {}

  lemma PsValueAfterWs(w: string, s: string)
    requires AllWs(w)
    ensures PsValue(w + s) == PsValue(s)
  {
    SkipAllWs(w, s);
  }

  lemma PsItemsAfterWs(w: string, s: string, acc: seq<Node>)
    requires AllWs(w) && s != []
    ensures PsItems(w + s, acc) == PsItems(s, acc)
  {
    hide PsValue;
    PsValueAfterWs(w, s);
    ItemsFrom(w + s, s, acc);
  }

  lemma ItemsFrom(s: string, t: string, acc: seq<Node>)
    requires s != [] && t != [] && PsValue(s) == PsValue(t)
    ensures PsItems(s, acc) == PsItems(t, acc)
  {
    hide PsValue, SkipWs;
  }

  lemma ValueSkips(s: string)
    ensures PsValue(SkipWs(s)) == PsValue(s)
  {
    hide StrBody, PsItems, PsPairs, PsNumber;
    SkipWsTwice(s);
  }

  lemma PsItemsSkip(s: string, acc: seq<Node>)
    requires SkipWs(s) != []
    ensures PsItems(SkipWs(s), acc) == PsItems(s, acc)
  {
    hide PsValue;
    ValueSkips(s);
  }

  lemma PsPairsAfterWs(w: string, s: string, acc: seq<Pair>)
    requires AllWs(w)
    ensures PsPairs(w + s, acc) == PsPairs(s, acc)
    ensures PsPairs(SkipWs(s), acc) == PsPairs(s, acc)
  {
    SkipAllWs(w, s);
    SkipWsTwice(s);
  }

  lemma Constants(f: string)
    ensures PsValue("null" + f) == Ok(Null, f)
    ensures PsValue("true" + f) == Ok(Bool(true), f) && PsValue("false" + f) == Ok(Bool(false), f)
    ensures PsValue("[]" + f) == Ok(Arr([]), f) && PsValue("{}" + f) == Ok(Obj([]), f)
  {
    NullWord(f);
    BoolWords(f);
    EmptyMarks(f);
  }

  lemma NullWord(f: string)
    ensures PsValue("null" + f) == Ok(Null, f)
  {
    hide StrBody, PsItems, PsPairs, PsNumber;
    var s := "null" + f;
    assert s[..4] == "null" && s[4..] == f && s[0] == 'n';
  }

  lemma BoolWords(f: string)
    ensures PsValue("true" + f) == Ok(Bool(true), f) && PsValue("false" + f) == Ok(Bool(false), f)
  {
    hide StrBody, PsItems, PsPairs, PsNumber;
    var (s, t) := ("true" + f, "false" + f);
    assert s[..4] == "true" && s[4..] == f && t[..5] == "false" && t[5..] == f;
  }

  lemma EmptyMarks(f: string)
    ensures PsValue("[]" + f) == Ok(Arr([]), f) && PsValue("{}" + f) == Ok(Obj([]), f)
  {
    hide StrBody, PsItems, PsPairs, PsNumber;
    assert ("[]" + f)[1..] == "]" + f && ("{}" + f)[1..] == "}" + f;
    assert ("]" + f)[1..] == f == ("}" + f)[1..];
  }

  lemma Regroup<T>(acc: seq<T>, s: seq<T>)
    requires s != []
    ensures (acc + [s[0]]) + s[1..] == acc + s
    ensures acc == [] ==> acc + s == s
    ensures |s| == 1 ==> s == [s[0]]
  {}

  /** A separator is its character and white space. */
  lemma CommaSplit(indent: Option<string>, s: string) returns (w: string)
    ensures AllWs(w) && Comma(indent) + s == [] + ([','] + (w + s))
  {
    w := if indent == None then [' '] else [];
  }

  lemma ColonSplit(indent: Option<string>, s: string) returns (w: string)
    ensures AllWs(w) && Colon(indent) + s == [':'] + (w + s)
  {
    w := if indent == None then [] else [' '];
  }

  // ---- one step of the parser at a time ----

  lemma StringStep(t: string)
    ensures PsValue([QUOTE] + t) == Ok(Str(StrBody(t).0), StrBody(t).1)
  {
    hide StrBody, PsItems, PsPairs, PsNumber;
    assert ([QUOTE] + t)[1..] == t;
  }

  lemma ArrayStep(t: string)
    requires SkipWs(t) != [] && SkipWs(t)[0] != ']'
    ensures PsValue(['['] + t) == PsItems(t, [])
  {
    hide StrBody, PsItems, PsPairs, PsNumber;
    assert (['['] + t)[1..] == t;
    PsItemsSkip(t, []);
  }

  lemma ObjectStep(t: string)
    requires SkipWs(t) != [] && SkipWs(t)[0] != '}'
    ensures PsValue(['{'] + t) == PsPairs(t, [])
  {
    hide StrBody, PsItems, PsPairs, PsNumber;
    assert (['{'] + t)[1..] == t;
    PsPairsAfterWs([], t, []);
  }

  lemma NumberStep(s: string)
    requires s != [] && (s[0] == '-' || IsDigit(s[0]))
    ensures PsValue(s) == PsNumber(s)
  {
    hide StrBody, PsItems, PsPairs, PsNumber;
  }

  /** After an item that is followed by white space w and the character c. */
  lemma ItemStep(s: string, acc: seq<Node>, item: Node, w: string, c: char, t: string)
    requires s != [] && AllWs(w) && !IsWs(c) && PsValue(s) == Ok(item, w + ([c] + t))
    ensures c == ']' ==> PsItems(s, acc) == Ok(Arr(acc + [item]), t)
    ensures c == ',' ==> PsItems(s, acc) == PsItems(t, acc + [item])
  {
    hide StrBody, PsPairs, PsNumber, PsValue;
    SkipAllWs(w, [c] + t);
    assert ([c] + t)[1..] == t;
  }

  /** After a member that is followed by white space w and the character c. */
  lemma PairStep(s: string, acc: seq<Pair>, key: string, v: string, val: Node, w: string, c: char, t: string)
    requires AllWs(w) && !IsWs(c)
    requires SkipWs(s) != [] && SkipWs(s)[0] == QUOTE && StrBody(SkipWs(s)[1..]) == (key, [':'] + v)
    requires PsValue(v) == Ok(val, w + ([c] + t))
    ensures c == '}' ==> PsPairs(s, acc) == Ok(Obj(SetPair(acc, UpToNul(key), val)), t)
    ensures c == ',' ==> PsPairs(s, acc) == PsPairs(t, SetPair(acc, UpToNul(key), val))
  {
    hide StrBody, PsItems, PsNumber, PsValue, UpToNul, SetPair;
    SkipAllWs(w, [c] + t);
    assert ([c] + t)[1..] == t && ([':'] + v)[1..] == v;
  }

  /** Parsing the printed text of a tree gives the tree back and stops at its end, for compact
      output and for pretty output with any indent of white space, at any depth, whatever text
      follows that a number would not take in. */
  lemma {:induction false} ParseOfShow(n: Node, indent: Option<string>, depth: nat, f: string)
    requires WellFormed(n) && WsIndent(indent) && !ExtendsNumber(f)
    ensures PsValue(Show(n, indent, depth) + f) == Ok(n, f)
    decreases n, 2
  {
    hide PsValue;
    match n {
      case Null => Constants(f);
      case Bool(b) => Constants(f);
      case Number(num) =>
        ShowStarts(n, indent, depth);
        NumberRead(num.n, f);
        NumberStep(ShowNum(num) + f);
      case Str(str) =>
        ShowStrRead(str, f);
        StringStep((ShowStr(str) + f)[1..]);
        assert ShowStr(str) + f == [QUOTE] + (ShowStr(str) + f)[1..];
      case Arr(items) =>
        Constants(f);
        if items != [] {
          ParseOfArray(n, indent, depth, f);
        }
      case Obj(pairs) =>
        Constants(f);
        if pairs != [] {
          ParseOfObject(n, indent, depth, f);
        }
    }
  }

  lemma {:induction false} ParseOfArray(n: Node, indent: Option<string>, depth: nat, f: string)
    requires n.Arr? && n.items != [] && WellFormed(n) && WsIndent(indent)
    ensures PsValue(Show(n, indent, depth) + f) == Ok(n, f)
    decreases n, 1
  {
    hide PsValue, PsItems;
    var items := n.items;
    var close := Break(indent, depth) + ([']'] + f);
    var t := ShowItems(items, indent, depth) + close;
    assert Show(n, indent, depth) + f == ['['] + t;
    var rest := FirstItem(items, indent, depth, close);
    ShowStarts(items[0], indent, depth + 1);
    ArrayStep(t);
    ParseOfItems(n, items, indent, depth, [], f);
    Regroup([], items);
  }

  /** A printed list: white space, its first tree, and the rest. */
  lemma FirstItem(items: seq<Node>, indent: Option<string>, depth: nat, close: string) returns (rest: string)
    requires items != [] && WsIndent(indent) && WellFormed(items[0])
    ensures rest == if |items| == 1 then close else Comma(indent) + (ShowItems(items[1..], indent, depth) + close)
    ensures ShowItems(items, indent, depth) + close == Break(indent, depth + 1) + (Show(items[0], indent, depth + 1) + rest)
    ensures AllWs(Break(indent, depth + 1))
    ensures SkipWs(ShowItems(items, indent, depth) + close) == Show(items[0], indent, depth + 1) + rest
  {
    hide Show, Break;
    rest := if |items| == 1 then close else Comma(indent) + (ShowItems(items[1..], indent, depth) + close);
    var (b, v, c, m) := (Break(indent, depth + 1), Show(items[0], indent, depth + 1),
                         if |items| == 1 then [] else Comma(indent), ShowItems(items[1..], indent, depth));
    assert ((b + (v + c)) + m) + close == b + (v + rest);
    BreakWs(indent, depth + 1);
    ShowStarts(items[0], indent, depth + 1);
    SkipAllWs(Break(indent, depth + 1), Show(items[0], indent, depth + 1) + rest);
  }

  lemma {:induction false} ParseOfItems(n: Node, items: seq<Node>, indent: Option<string>, depth: nat, acc: seq<Node>, f: string)
    requires WsIndent(indent) && items != [] && (forall i :: 0 <= i < |items| ==> WellFormed(items[i]))
    requires forall i :: 0 <= i < |items| ==> items[i] < n
    ensures PsItems(ShowItems(items, indent, depth) + (Break(indent, depth) + ([']'] + f)), acc) == Ok(Arr(acc + items), f)
    decreases n, 0, |items|
  {
    hide Show, PsValue, PsItems, SkipWs, ShowItems;
    var close := Break(indent, depth) + ([']'] + f);
    var s := ShowItems(items, indent, depth) + close;
    var rest := FirstItem(items, indent, depth, close);
    ParseOfShow(items[0], indent, depth + 1, rest);
    PsValueAfterWs(Break(indent, depth + 1), Show(items[0], indent, depth + 1) + rest);
    if |items| == 1 {
      BreakWs(indent, depth);
      ItemStep(s, acc, items[0], Break(indent, depth), ']', f);
      Regroup(acc, items);
    } else {
      var more := ShowItems(items[1..], indent, depth) + close;
      var w := CommaSplit(indent, more);
      ItemStep(s, acc, items[0], [], ',', w + more);
      PsItemsAfterWs(w, more, acc + [items[0]]);
      ParseOfItems(n, items[1..], indent, depth, acc + [items[0]], f);
      Regroup(acc, items);
    }
  }

  lemma {:induction false} ParseOfObject(n: Node, indent: Option<string>, depth: nat, f: string)
    requires n.Obj? && n.pairs != [] && WellFormed(n) && WsIndent(indent)
    ensures PsValue(Show(n, indent, depth) + f) == Ok(n, f)
    decreases n, 1
  {
    hide PsValue, PsPairs, SkipWs, ShowPairs, Break, ShowStr;
    var pairs := n.pairs;
    var close := Break(indent, depth) + (['}'] + f);
    var t := ShowPairs(pairs, indent, depth) + close;
    assert Show(n, indent, depth) + f == ['{'] + t;
    var rest := FirstPair(pairs, indent, depth, close);
    ObjectStep(t);
    Regroup([], pairs);
    ParseOfPairs(n, pairs, indent, depth, [], f);
  }

  lemma CloseEnds(indent: Option<string>, depth: nat, f: string)
    ensures !ExtendsNumber(Break(indent, depth) + (['}'] + f))
  {}

  /** A printed list of members: white space, the first key, a colon, its value, and the rest. */
  lemma FirstPair(pairs: seq<Pair>, indent: Option<string>, depth: nat, close: string) returns (rest: string)
    requires pairs != [] && WsIndent(indent)
    ensures rest == if |pairs| == 1 then close else Comma(indent) + (ShowPairs(pairs[1..], indent, depth) + close)
    ensures var v := Colon(indent) + (Show(pairs[0].val, indent, depth + 1) + rest);
            SkipWs(ShowPairs(pairs, indent, depth) + close) == ShowStr(pairs[0].key) + v
    ensures SkipWs(ShowPairs(pairs, indent, depth) + close) != [] && SkipWs(ShowPairs(pairs, indent, depth) + close)[0] == QUOTE
    ensures !ExtendsNumber(close) ==> !ExtendsNumber(rest)
  {
    hide Show, Break, EscapeAll, UpToNul;
    rest := if |pairs| == 1 then close else Comma(indent) + (ShowPairs(pairs[1..], indent, depth) + close);
    var v := Colon(indent) + (Show(pairs[0].val, indent, depth + 1) + rest);
    BreakWs(indent, depth + 1);
    var (b, k, w, x, c, m) := (Break(indent, depth + 1), ShowStr(pairs[0].key), Colon(indent), Show(pairs[0].val, indent, depth + 1),
                               if |pairs| == 1 then [] else Comma(indent), ShowPairs(pairs[1..], indent, depth));
    assert ((b + (k + (w + (x + c)))) + m) + close == b + (k + v);
    SkipAllWs(Break(indent, depth + 1), ShowStr(pairs[0].key) + v);
  }

  lemma {:induction false} ParseOfPairs(n: Node, pairs: seq<Pair>, indent: Option<string>, depth: nat, acc: seq<Pair>, f: string)
    requires WsIndent(indent) && pairs != [] && DistinctKeys(acc + pairs)
    requires forall i :: 0 <= i < |pairs| ==> NulFree(pairs[i].key) && WellFormed(pairs[i].val)
    requires forall i :: 0 <= i < |pairs| ==> pairs[i].val < n
    ensures PsPairs(ShowPairs(pairs, indent, depth) + (Break(indent, depth) + (['}'] + f)), acc) == Ok(Obj(acc + pairs), f)
    decreases n, 0, |pairs|
  {
    hide Show, StrBody, PsValue, PsPairs, EscapeAll, ShowStr, SkipWs, SetPair, UpToNul, ShowPairs;
    hide Break, Comma, Colon, WsIndent, WellFormed, DistinctKeys, ExtendsNumber;
    var close := Break(indent, depth) + (['}'] + f);
    var s := ShowPairs(pairs, indent, depth) + close;
    CloseEnds(indent, depth, f);
    var rest := FirstPair(pairs, indent, depth, close);
    var (key, val) := (pairs[0].key, pairs[0].val);
    var x := Show(val, indent, depth + 1) + rest;
    var w := ColonSplit(indent, x);
    ShowStrRead(key, Colon(indent) + x);
    ParseOfShow(val, indent, depth + 1, rest);
    PsValueAfterWs(w, x);
    NewKey(acc, pairs);
    SetNew(acc, key, val);
    var acc1 := acc + [Pair(key, val)];
    if |pairs| == 1 {
      BreakWs(indent, depth);
      PairStep(s, acc, key, w + x, val, Break(indent, depth), '}', f);
      Regroup(acc, pairs);
    } else {
      var more := ShowPairs(pairs[1..], indent, depth) + close;
      var u := CommaSplit(indent, more);
      PairStep(s, acc, key, w + x, val, [], ',', u + more);
      PsPairsAfterWs(u, more, acc1);
      Regroup(acc, pairs);
      ParseOfPairs(n, pairs[1..], indent, depth, acc1, f);
    }
  }

  lemma NewKey(acc: seq<Pair>, pairs: seq<Pair>)
    requires pairs != [] && DistinctKeys(acc + pairs)
    ensures forall i :: 0 <= i < |acc| ==> acc[i].key != pairs[0].key
  {
    forall i | 0 <= i < |acc|
      ensures acc[i].key != pairs[0].key
    {
      assert (acc + pairs)[i] == acc[i] && (acc + pairs)[|acc|] == pairs[0];
    }
  }

  // ---- what the parser returns ----

  /** Distinct keys that are C strings, and exact numbers within the range of exactness. */
  predicate Sound(n: Node) {
    match n
    case Number(num) => num.Exact? ==> -EXACT_MAX <= num.n <= EXACT_MAX
    case Arr(items) => forall i :: 0 <= i < |items| ==> Sound(items[i])
    case Obj(pairs) => SoundPairs(pairs)
    case _ => true
  }

  predicate SoundPairs(pairs: seq<Pair>) {
    DistinctKeys(pairs) && forall i :: 0 <= i < |pairs| ==> NulFree(pairs[i].key) && Sound(pairs[i].val)
  }

  /** Setting a key keeps the keys distinct, and is visible under that key only. */
  /** A key that is there takes the new value in its place. */
  lemma {:induction false} SetInPlace(pairs: seq<Pair>, key: string, val: Node, i: nat)
    requires i < |pairs| && pairs[i].key == key && forall j :: 0 <= j < i ==> pairs[j].key != key
    ensures SetPair(pairs, key, val) == pairs[i := Pair(key, val)]
  {
    if i > 0 {
      SetInPlace(pairs[1..], key, val, i - 1);
      assert [pairs[0]] + pairs[1..][i - 1 := Pair(key, val)] == pairs[i := Pair(key, val)];
    }
  }

  lemma {:induction false} SetPairSound(pairs: seq<Pair>, key: string, val: Node)
    requires SoundPairs(pairs) && NulFree(key) && Sound(val)
    ensures SoundPairs(SetPair(pairs, key, val))
    ensures forall p :: p in SetPair(pairs, key, val) <==> p == Pair(key, val) || (p in pairs && p.key != key)
  {
    if pairs != [] {
      if pairs[0].key == key {
        assert pairs == [pairs[0]] + pairs[1..];
        assert forall p :: p in pairs[1..] ==> p.key != key;
      } else {
        SetPairSound(pairs[1..], key, val);
        var r := SetPair(pairs[1..], key, val);
        forall i | 0 <= i < |r|
          ensures r[i].key != pairs[0].key
        {
          assert r[i] in r;
        }
      }
    }
  }

  /** An object that the parser returns has each key once. As everywhere in this module, a string is
      taken to fit the buffer measured for it; JsonBuffer says when it does. */
  lemma {:induction false} ParsedSound(s: string)
    ensures PsValue(s).Ok? ==> Sound(PsValue(s).node)
    decreases |s|, 0
  {
    hide StrBody;
    var t := SkipWs(s);
    if t != [] && t[0] == '{' {
      ParsedPairsSound(SkipWs(t[1..]), []);
    } else if t != [] && t[0] == '[' {
      ParsedItemsSound(SkipWs(t[1..]), []);
    }
  }

  lemma {:induction false} ParsedItemsSound(s: string, acc: seq<Node>)
    requires forall i :: 0 <= i < |acc| ==> Sound(acc[i])
    ensures PsItems(s, acc).Ok? ==> Sound(PsItems(s, acc).node)
    decreases |s|, 1
  {
    hide StrBody, PsValue;
    if s != [] {
      ParsedSound(s);
      var v := PsValue(s);
      if v.Ok? && SkipWs(v.rest) != [] && SkipWs(v.rest)[0] == ',' {
        ParsedItemsSound(SkipWs(v.rest)[1..], acc + [v.node]);
      }
    }
  }

  lemma {:induction false} ParsedPairsSound(s: string, acc: seq<Pair>)
    requires SoundPairs(acc)
    ensures PsPairs(s, acc).Ok? ==> Sound(PsPairs(s, acc).node)
    decreases |s|, 1
  {
    hide KeyOf, PsValue, Sound;
    var (k, r1) := KeyOf(s);
    if k.Some? && PsValue(r1).Ok? {
      var v := PsValue(r1);
      ParsedSound(r1);
      var acc1 := SetPair(acc, UpToNul(k.value), v.node);
      SetPairSound(acc, UpToNul(k.value), v.node);
      ObjSound(acc1);
      var t := SkipWs(v.rest);
      if t != [] && t[0] == ',' {
        ParsedPairsSound(t[1..], acc1);
      }
    }
  }

  lemma ObjSound(pairs: seq<Pair>)
    requires SoundPairs(pairs)
    ensures Sound(Obj(pairs))
  {}

  /** Numbers that are exact, and strings without NUL. */
  predicate Lossless(n: Node) {
    match n
    case Number(num) => num.Exact?
    case Str(s) => NulFree(s)
    case Arr(items) => forall i :: 0 <= i < |items| ==> Lossless(items[i])
    case Obj(pairs) => forall i :: 0 <= i < |pairs| ==> Lossless(pairs[i].val)
    case _ => true
  }

  lemma {:induction false} SoundLossless(n: Node)
    requires Sound(n) && Lossless(n)
    ensures WellFormed(n)
  {
    match n {
      case Arr(items) =>
        forall i | 0 <= i < |items| ensures WellFormed(items[i]) { SoundLossless(items[i]); }
      case Obj(pairs) =>
        forall i | 0 <= i < |pairs| ensures WellFormed(pairs[i].val) { SoundLossless(pairs[i].val); }
      case _ =>
    }
  }

  /** Printing is a normal form: any text that parses to a lossless tree can be replaced by the
      printed text of that tree, which parses to the same tree to its very end. */
  lemma ReparseStable(s: string, indent: Option<string>)
    requires PsValue(s).Ok? && Lossless(PsValue(s).node) && WsIndent(indent)
    ensures PsValue(Show(PsValue(s).node, indent, 0)) == Ok(PsValue(s).node, [])
  {
    hide PsValue, Show;
    var n := PsValue(s).node;
    ParsedSound(s);
    SoundLossless(n);
    ParseOfShow(n, indent, 0, []);
    assert Show(n, indent, 0) + [] == Show(n, indent, 0);
  }
}
