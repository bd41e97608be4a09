/** The texts that the JSON parser accepts: exactly those of a grammar of concrete syntax trees, each
    with the tree of values that it stands for. White space is that of RFC 8259; numbers may have leading
    zeros and empty parts, and a text may end inside a string. */
module JsonGrammar {
  import opened Options
  import opened Json
  import R = JsonRoundTrip

  // ---- simple escapes ----

  /** RFC 8259 section 7: the code of what a letter behind a backslash stands for. */
  function EscapeCode(letter: char): Option<int> {
    match letter
    case '"' => Some(34)
    case '\\' => Some(92)
    case '/' => Some(47)
    case 'b' => Some(8)
    case 'f' => Some(12)
    case 'n' => Some(10)
    case 'r' => Some(13)
    case 't' => Some(9)
    case _ => None
  }

  /** A letter that stands for nothing gives a question mark. */
  lemma EscapeRead(letter: char, s: string)
    requires letter != 'u'
    ensures var code := EscapeCode(letter);
            StrBody(['\\', letter] + s) == ([if code.Some? then code.value as char else '?'] + StrBody(s).0, StrBody(s).1)
  {
    assert (['\\', letter] + s)[1..] == [letter] + s && ([letter] + s)[1..] == s;
  }

  /** Any other character stands for itself, and the quote ends the string. */
  lemma PlainRead(c: char, s: string)
    ensures c != '"' && c != '\\' ==> StrBody([c] + s) == ([c] + StrBody(s).0, StrBody(s).1)
    ensures StrBody(['"'] + s) == ([], s)
  {
    assert ([c] + s)[1..] == s && (['"'] + s)[1..] == s;
  }

  /** A text that ends inside a string gives what came before; a backslash at its very end is lost. */
  lemma {:induction false} CutRead(t: string)
    requires '"' !in t && '\\' !in t
    ensures StrBody(t) == (t, []) && StrBody(t + ['\\']) == (t, [])
  {
    if t == [] {
      assert t + ['\\'] == ['\\'];
    } else {
      CutRead(t[1..]);
      assert (t + ['\\'])[1..] == t[1..] + ['\\'] && [t[0]] + t[1..] == t;
    }
  }

  /** The integers that a double holds exactly, and all others as they are written. */
  lemma IntegersExact(neg: bool, digits: string, text: string)
    ensures var v: int := if neg then 0 - Decimal(digits) else Decimal(digits);
            IntOf(neg, digits, text) == if -9007199254740992 <= v <= 9007199254740992 then Exact(v) else Lib(text)
  {}

  // ---- concrete syntax ----

  datatype Cst =
    | CWord(ws: string, word: Node)
    | CNumber(ws: string, neg: bool, digits: string, frac: string, exp: string)
    | CString(ws: string, raw: string, val: string)
    | CArray(ws: string, inner: string, items: seq<Item>)
    | CObject(ws: string, inner: string, members: seq<Member>)

  /** A value with the white space behind it. */
  datatype Item = Item(val: Cst, after: string)

  /** A key, up to and with its closing quote, as it is written and as it is read. */
  datatype Member = Member(ws: string, raw: string, key: string, colon: string, val: Cst, after: string)

  predicate Ws(w: string) { forall i :: 0 <= i < |w| ==> w[i] as int in {32, 9, 13, 10} }

  predicate Figures(w: string) { forall i :: 0 <= i < |w| ==> 48 <= w[i] as int <= 57 }

  predicate StartsFigure(f: string) { f != [] && 48 <= f[0] as int <= 57 }

  /** raw is the rest of a string whose characters are val, with its closing quote. */
  ghost predicate StringReads(raw: string, val: string) { forall f :: StrBody(raw + f) == (val, f) }

  function WordText(n: Node): string { if n == Null then "null" else if n == Bool(true) then "true" else "false" }

  function NumberText(c: Cst): string
    requires c.CNumber?
  {
    (if c.neg then "-" else "") + (c.digits + (c.frac + c.exp))
  }

  function Text(c: Cst): string
    decreases c, 1
  {
    c.ws + Core(c)
  }

  function Core(c: Cst): string
    decreases c, 0
  {
    match c
    case CWord(_, n) => WordText(n)
    case CNumber(_, _, _, _, _) => NumberText(c)
    case CString(_, raw, _) => "\"" + raw
    case CArray(_, inner, items) => "[" + if items == [] then inner + "]" else ItemsText(items)
    case CObject(_, inner, members) => "{" + if members == [] then inner + "}" else MembersText(members)
  }

  function ItemsText(items: seq<Item>): string
    requires items != []
    decreases items, 2
  {
    Text(items[0].val) + (items[0].after + (if |items| == 1 then "]" else "," + ItemsText(items[1..])))
  }

  function MembersText(ms: seq<Member>): string
    requires ms != []
    decreases ms, 2
  {
    KeyText(ms[0]) + (Text(ms[0].val) + (ms[0].after + (if |ms| == 1 then "}" else "," + MembersText(ms[1..]))))
  }

  function KeyText(m: Member): string { m.ws + ("\"" + (m.raw + (m.colon + ":"))) }

  function NodeOf(c: Cst): Node
    decreases c, 0
  {
    match c
    case CWord(_, n) => n
    case CNumber(_, neg, digits, frac, exp) =>
      Number(if frac == [] && exp == [] then IntOf(neg, digits, NumberText(c)) else Lib(NumberText(c)))
    case CString(_, _, val) => Str(val)
    case CArray(_, _, items) => Arr(Nodes(items))
    case CObject(_, _, members) => Obj(Pairs(members, []))
  }

  function Nodes(items: seq<Item>): seq<Node>
    decreases items, 1
  {
    if items == [] then [] else [NodeOf(items[0].val)] + Nodes(items[1..])
  }

  /** The pairs of an object: a key that comes again takes the new value. */
  function Pairs(ms: seq<Member>, acc: seq<Pair>): seq<Pair>
    decreases ms, 1
  {
    if ms == [] then acc else Pairs(ms[1..], SetPair(acc, UpToNul(ms[0].key), NodeOf(ms[0].val)))
  }

  predicate IsFraction(frac: string) { frac == [] || (frac[0] == '.' && Figures(frac[1..])) }

  predicate IsExponent(exp: string) {
    exp == [] || ((exp[0] == 'e' || exp[0] == 'E')
                  && (Figures(exp[1..]) || (|exp| >= 2 && (exp[1] == '+' || exp[1] == '-') && Figures(exp[2..]))))
  }

  ghost predicate Proper(c: Cst)
    decreases c, 0
  {
    Ws(c.ws) &&
    match c
    case CWord(_, n) => n == Null || n.Bool?
    case CNumber(_, neg, digits, frac, exp) =>
      Figures(digits) && (neg || digits != []) && IsFraction(frac) && IsExponent(exp) && |NumberText(c)| < 64
    case CString(_, raw, val) => StringReads(raw, val)
    case CArray(_, inner, items) => Ws(inner) && ItemsProper(items)
    case CObject(_, inner, members) => Ws(inner) && MembersProper(members)
  }

  ghost predicate ItemsProper(items: seq<Item>)
    decreases items, 1
  {
    items == [] || (Proper(items[0].val) && Ws(items[0].after) && ItemsProper(items[1..]))
  }

  ghost predicate MembersProper(ms: seq<Member>)
    decreases ms, 1
  {
    ms == [] || (KeyProper(ms[0]) && Proper(ms[0].val) && Ws(ms[0].after) && MembersProper(ms[1..]))
  }

  ghost predicate KeyProper(m: Member) { Ws(m.ws) && Ws(m.colon) && StringReads(m.raw, m.key) }

  /** What may follow: anything but what a number would take in. */
  predicate Ends(c: Cst, f: string) {
    c.CNumber? && f != [] ==>
      !StartsFigure(f)
      && (c.exp == [] ==> f[0] != 'e' && f[0] != 'E' && (c.frac == [] ==> f[0] != '.'))
      && (|c.exp| == 1 ==> f[0] != '+' && f[0] != '-')
  }

  // ---- what the grammar derives is accepted ----

  lemma Join3(a: string, b: string, c: string)
    ensures (a + b) + c == a + (b + c)
  {}

  lemma Join4(a: string, b: string, c: string, d: string)
    ensures (a + (b + c)) + d == a + (b + (c + d)) && ((a + b) + c) + d == a + ((b + c) + d)
  {}

  lemma WsIs(c: char)
    ensures IsWs(c) <==> c as int in {32, 9, 13, 10}
    ensures IsDigit(c) <==> 48 <= c as int <= 57
  {}

  lemma {:induction false} WsSkipped(w: string, t: string)
    requires Ws(w) && (t == [] || !IsWs(t[0]))
    ensures SkipWs(w + t) == t
  {
    if w == [] {
      assert w + t == t;
    } else {
      WsIs(w[0]);
      assert (w + t)[1..] == w[1..] + t;
      WsSkipped(w[1..], t);
    }
  }

  lemma {:induction false} FiguresRun(a: string, f: string)
    requires Figures(a) && !StartsFigure(f)
    ensures DigitRun(a + f) == |a|
  {
    if a == [] {
      assert a + f == f;
    } else {
      assert (a + f)[1..] == a[1..] + f;
      FiguresRun(a[1..], f);
    }
  }

  lemma FractionLength(frac: string, f: string)
    requires IsFraction(frac) && !StartsFigure(f) && (frac == [] ==> f == [] || f[0] != '.')
    ensures FracLen(frac + f) == |frac|
  {
    if frac == [] {
      assert frac + f == f;
    } else {
      assert (frac + f)[1..] == frac[1..] + f;
      FiguresRun(frac[1..], f);
    }
  }

  lemma ExponentLength(exp: string, f: string)
    requires IsExponent(exp) && !StartsFigure(f) && (exp == [] ==> f == [] || (f[0] != 'e' && f[0] != 'E'))
    requires |exp| == 1 ==> f == [] || (f[0] != '+' && f[0] != '-')
    ensures ExpLen(exp + f) == |exp|
  {
    var s := exp + f;
    if exp == [] {
      assert s == f;
    } else if |exp| >= 2 && (exp[1] == '+' || exp[1] == '-') {
      assert s[2..] == exp[2..] + f;
      FiguresRun(exp[2..], f);
    } else {
      assert s[1..] == exp[1..] + f;
      assert |s| > 1 ==> s[1] == if |exp| > 1 then exp[1] else f[0];
      FiguresRun(exp[1..], f);
    }
  }

  /** The parts of a number are taken one by one. */
  lemma NumberTaken(c: Cst, f: string)
    requires c.CNumber? && Proper(c) && Ends(c, f)
    ensures var s := NumberText(c) + f;
            s != [] && (s[0] == '-' || IsDigit(s[0])) && PsNumber(s) == Ok(NodeOf(c), f)
  {
    NoFigure(c, f);
    NumberParts(c, f);
    var (s, t) := (NumberText(c) + f, c.digits + (c.frac + (c.exp + f)));
    var u := c.frac + (c.exp + f);
    FiguresRun(c.digits, u);
    FractionLength(c.frac, c.exp + f);
    ExponentLength(c.exp, f);
    hide DigitRun, FracLen, ExpLen, IntOf, IsFraction, IsExponent, Ends;
    assert t[..|c.digits|] == c.digits && t[|c.digits|..] == u && u[|c.frac|..] == c.exp + f;
    assert t[|c.digits| + |c.frac|..] == c.exp + f;
    NumberIs(c, f, s, t);
  }

  lemma NumberParts(c: Cst, f: string)
    requires c.CNumber? && Proper(c)
    ensures var (s, t) := (NumberText(c) + f, c.digits + (c.frac + (c.exp + f)));
            s != [] && (s[0] == '-' <==> c.neg) && (s[0] == '-' || IsDigit(s[0])) && t == if c.neg then s[1..] else s
    ensures var s := NumberText(c) + f; s[..|NumberText(c)|] == NumberText(c) && s[|NumberText(c)|..] == f
    ensures |NumberText(c)| == (if c.neg then 1 else 0) + |c.digits| + |c.frac| + |c.exp| < 64
  {
    hide IsFraction, IsExponent;
    if !c.neg { assert NumberText(c)[0] == c.digits[0]; }
  }

  lemma NumberIs(c: Cst, f: string, s: string, t: string)
    requires c.CNumber? && s != [] && (s[0] == '-' <==> c.neg) && (s[0] == '-' || IsDigit(s[0])) && t == (if c.neg then s[1..] else s)
    requires var n := |c.digits|;
             n + |c.frac| <= |t| && DigitRun(t) == n && t[..n] == c.digits && FracLen(t[n..]) == |c.frac|
             && ExpLen(t[n + |c.frac|..]) == |c.exp|
    requires var l := |NumberText(c)|; l <= |s| && s[..l] == NumberText(c) && s[l..] == f
    requires |NumberText(c)| == (if c.neg then 1 else 0) + |c.digits| + |c.frac| + |c.exp| < 64
    ensures PsNumber(s) == Ok(NodeOf(c), f)
  {
    hide DigitRun, FracLen, ExpLen, IntOf, NumberText;
  }

  lemma NoFigure(c: Cst, f: string)
    requires c.CNumber? && Proper(c) && Ends(c, f)
    ensures !StartsFigure(c.exp + f) && !StartsFigure(c.frac + (c.exp + f))
    ensures c.frac == [] ==> c.exp + f == [] || (c.exp + f)[0] != '.'
  {}

  lemma WsAll(w: string)
    requires Ws(w)
    ensures R.AllWs(w)
  {
    forall i | 0 <= i < |w| ensures IsWs(w[i]) { WsIs(w[i]); }
  }

  /** The first character behind the white space in front. */
  lemma CoreStarts(c: Cst)
    requires Proper(c)
    ensures Core(c) != [] && !IsWs(Core(c)[0]) && Core(c)[0] !in "]},:"
    ensures c.CNumber? ==> Core(c)[0] == '-' || IsDigit(Core(c)[0])
  {
    hide Text, ItemsText, MembersText, StringReads;
    if c.CNumber? {
      NumberParts(c, []);
      assert NumberText(c) + [] == NumberText(c);
    }
  }

  lemma EmptyStep(w: string, f: string)
    requires Ws(w)
    ensures PsValue("[" + (w + ("]" + f))) == Ok(Arr([]), f) && PsValue("{" + (w + ("}" + f))) == Ok(Obj([]), f)
  {
    hide StrBody, PsItems, PsPairs, PsNumber;
    WsSkipped(w, "]" + f);
    WsSkipped(w, "}" + f);
    assert ("[" + (w + ("]" + f)))[1..] == w + ("]" + f) && ("{" + (w + ("}" + f)))[1..] == w + ("}" + f);
    assert ("]" + f)[1..] == f == ("}" + f)[1..];
  }

  /** Every text that the grammar derives is accepted, with the tree that it stands for, and the parser
      stops at its end. */
  lemma {:induction false} Accepts(c: Cst, f: string)
    requires Proper(c) && Ends(c, f)
    ensures PsValue(Text(c) + f) == Ok(NodeOf(c), f)
    decreases c, 3
  {
    hide PsValue, Core, Proper, Ends, NodeOf;
    CoreStarts(c);
    WsOf(c);
    WsAll(c.ws);
    Join3(c.ws, Core(c), f);
    R.PsValueAfterWs(c.ws, Core(c) + f);
    AcceptsCore(c, f);
  }

  lemma {:induction false} AcceptsCore(c: Cst, f: string)
    requires Proper(c) && Ends(c, f)
    ensures PsValue(Core(c) + f) == Ok(NodeOf(c), f)
    decreases c, 2
  {
    match c {
      case CWord(_, _) => AcceptsLeaf(c, f);
      case CNumber(_, _, _, _, _) => AcceptsLeaf(c, f);
      case CString(_, _, _) => AcceptsLeaf(c, f);
      case CArray(_, _, _) => AcceptsArray(c, f);
      case CObject(_, _, _) => AcceptsObject(c, f);
    }
  }

  lemma AcceptsLeaf(c: Cst, f: string)
    requires Proper(c) && Ends(c, f) && (c.CWord? || c.CNumber? || c.CString?)
    ensures PsValue(Core(c) + f) == Ok(NodeOf(c), f)
  {
    hide PsValue, StrBody, PsNumber, Ends, IntOf, NumberText, ItemsText, MembersText, Nodes, Pairs;
    if c.CWord? {
      R.Constants(f);
    } else if c.CNumber? {
      NumberTaken(c, f);
      R.NumberStep(NumberText(c) + f);
    } else {
      Join3([QUOTE], c.raw, f);
      R.StringStep(c.raw + f);
    }
  }

  lemma {:induction false} AcceptsArray(c: Cst, f: string)
    requires Proper(c) && c.CArray?
    ensures PsValue(Core(c) + f) == Ok(NodeOf(c), f)
    decreases c, 1
  {
    hide PsValue, PsItems, ItemsText, SkipWs, Nodes, ItemsProper, Ws;
    var (inner, items) := (c.inner, c.items);
    if items == [] {
      Join4(['['], inner, [']'], f);
      EmptyStep(inner, f);
      NoNodes();
    } else {
      Join3(['['], ItemsText(items), f);
      FirstItem(items, f);
      R.ArrayStep(ItemsText(items) + f);
      AcceptsItems(items, [], f);
      assert [] + Nodes(items) == Nodes(items);
    }
  }

  lemma NoNodes()
    ensures Nodes([]) == [] && Pairs([], []) == []
  {}

  lemma {:induction false} AcceptsObject(c: Cst, f: string)
    requires Proper(c) && c.CObject?
    ensures PsValue(Core(c) + f) == Ok(NodeOf(c), f)
    decreases c, 1
  {
    hide PsValue, PsPairs, MembersText, SkipWs, Pairs, MembersProper, Ws;
    var (inner, members) := (c.inner, c.members);
    if members == [] {
      Join4(['{'], inner, ['}'], f);
      EmptyStep(inner, f);
      NoNodes();
    } else {
      Join3(['{'], MembersText(members), f);
      FirstMember(members, f);
      R.ObjectStep(MembersText(members) + f);
      AcceptsMembers(members, [], f);
    }
  }

  lemma FirstItem(items: seq<Item>, f: string)
    requires items != [] && ItemsProper(items)
    ensures var t := SkipWs(ItemsText(items) + f); t != [] && t[0] != ']'
  {
    hide Core, Proper;
    var c := items[0].val;
    assert Proper(c) by { ItemsAre(items); }
    CoreStarts(c);
    assert Ws(c.ws) by { WsOf(c); }
    var g := Core(c) + (ItemsText(items)[|Text(c)|..] + f);
    assert ItemsText(items) + f == c.ws + g;
    WsSkipped(c.ws, g);
  }

  lemma ItemsAre(items: seq<Item>)
    requires items != [] && ItemsProper(items)
    ensures Proper(items[0].val) && Ws(items[0].after) && ItemsProper(items[1..])
  {
    hide Proper;
  }

  lemma MembersAre(ms: seq<Member>)
    requires ms != [] && MembersProper(ms)
    ensures KeyProper(ms[0]) && Proper(ms[0].val) && Ws(ms[0].after) && MembersProper(ms[1..])
  {
    hide Proper, KeyProper;
  }

  lemma WsOf(c: Cst)
    requires Proper(c)
    ensures Ws(c.ws)
  {
    hide ItemsProper, MembersProper, StringReads, NumberText;
  }

  lemma FirstMember(ms: seq<Member>, f: string)
    requires ms != [] && MembersProper(ms)
    ensures var t := SkipWs(MembersText(ms) + f); t != [] && t[0] != '}'
  {
    hide Proper, Core, Text;
    MembersAre(ms);
    var m := ms[0];
    var g := MembersText(ms)[|m.ws|..] + f;
    assert MembersText(ms) + f == m.ws + g && g[0] == '"';
    WsSkipped(m.ws, g);
  }

  /** Behind a value in an array or object there is white space or a mark, which no number takes in. */
  lemma EndsInside(c: Cst, w: string, mark: char, g: string)
    requires Ws(w) && mark in {',', ']', '}'}
    ensures Ends(c, w + ([mark] + g))
  {
    var t := w + ([mark] + g);
    assert t[0] == if w == [] then mark else w[0];
  }

  lemma {:induction false} AcceptsItems(items: seq<Item>, acc: seq<Node>, f: string)
    requires items != [] && ItemsProper(items)
    ensures PsItems(ItemsText(items) + f, acc) == Ok(Arr(acc + Nodes(items)), f)
    decreases items, 1
  {
    hide PsValue, PsItems, Core, Proper, Ends, Text, NodeOf, Nodes, ItemsText, ItemsProper, Ws, SkipWs;
    ItemsAre(items);
    ItemsOpen(items, f);
    var (i, mark) := (items[0], if |items| == 1 then ']' else ',');
    var t := if |items| == 1 then f else ItemsText(items[1..]) + f;
    var g := i.after + ([mark] + t);
    EndsInside(i.val, i.after, mark, t);
    Accepts(i.val, g);
    WsAll(i.after);
    TextSome(i.val);
    WsIs(mark);
    R.ItemStep(Text(i.val) + g, acc, NodeOf(i.val), i.after, mark, t);
    if |items| > 1 {
      AcceptsItems(items[1..], acc + [NodeOf(i.val)], f);
      Regroup(acc, NodeOf(i.val), Nodes(items[1..]));
    }
  }

  lemma Regroup(acc: seq<Node>, n: Node, more: seq<Node>)
    ensures (acc + [n]) + more == acc + ([n] + more)
  {}

  lemma ItemsOpen(items: seq<Item>, f: string)
    requires items != []
    ensures ItemsText(items) + f ==
              Text(items[0].val) + (items[0].after + (if |items| == 1 then [']'] + f else [','] + (ItemsText(items[1..]) + f)))
    ensures Nodes(items) == if |items| == 1 then [NodeOf(items[0].val)] else [NodeOf(items[0].val)] + Nodes(items[1..])
  {
    hide Text, NodeOf;
    if |items| == 1 {
      assert items[1..] == [];
      NoNodes();
      Join4(Text(items[0].val), items[0].after, [']'], f);
    } else {
      Join3([','], ItemsText(items[1..]), f);
      Join4(Text(items[0].val), items[0].after, [','] + ItemsText(items[1..]), f);
    }
  }

  lemma TextSome(c: Cst)
    requires Proper(c)
    ensures Text(c) != []
  {
    CoreStarts(c);
    hide Core;
  }

  lemma {:induction false} AcceptsMembers(ms: seq<Member>, acc: seq<Pair>, f: string)
    requires ms != [] && MembersProper(ms)
    ensures PsPairs(MembersText(ms) + f, acc) == Ok(Obj(Pairs(ms, acc)), f)
    decreases ms, 1
  {
    hide PsValue, PsPairs, Core, Proper, Ends, SetPair, UpToNul, KeyOf, Text, NodeOf, Pairs, MembersText, MembersProper, Ws, SkipWs, KeyText,
         KeyProper;
    MembersAre(ms);
    PairsOpen(ms, acc, f);
    var (m, mark) := (ms[0], if |ms| == 1 then '}' else ',');
    var t := if |ms| == 1 then f else MembersText(ms[1..]) + f;
    var g := m.after + ([mark] + t);
    EndsInside(m.val, m.after, mark, t);
    Accepts(m.val, g);
    KeyTaken(m, Text(m.val) + g);
    MemberStep(MembersText(ms) + f, acc, m.key, Text(m.val) + g, NodeOf(m.val), m.after, mark, t);
    if |ms| > 1 {
      AcceptsMembers(ms[1..], SetPair(acc, UpToNul(m.key), NodeOf(m.val)), f);
    }
  }

  lemma PairsOpen(ms: seq<Member>, acc: seq<Pair>, f: string)
    requires ms != []
    ensures MembersText(ms) + f ==
              KeyText(ms[0]) + (Text(ms[0].val) + (ms[0].after + (if |ms| == 1 then ['}'] + f else [','] + (MembersText(ms[1..]) + f))))
    ensures var acc1 := SetPair(acc, UpToNul(ms[0].key), NodeOf(ms[0].val));
            Pairs(ms, acc) == if |ms| == 1 then acc1 else Pairs(ms[1..], acc1)
  {
    hide Text, NodeOf, KeyText, SetPair, UpToNul;
    var (k, v, a) := (KeyText(ms[0]), Text(ms[0].val), ms[0].after);
    if |ms| == 1 {
      assert ms[1..] == [];
      Join4(v, a, ['}'], f);
      Join3(k, v + (a + ['}']), f);
    } else {
      var more := MembersText(ms[1..]);
      Join3([','], more, f);
      Join4(v, a, [','] + more, f);
      Join3(k, v + (a + ([','] + more)), f);
    }
  }

  /** A key with its colon. */
  lemma KeyTaken(m: Member, f: string)
    requires KeyProper(m)
    ensures KeyOf(KeyText(m) + f) == (Some(m.key), f)
  {
    hide StrBody;
    var u := m.raw + (m.colon + (":" + f));
    assert KeyText(m) + f == m.ws + ("\"" + u) && ("\"" + u)[1..] == u;
    WsSkipped(m.ws, "\"" + u);
    WsSkipped(m.colon, ":" + f);
    assert (":" + f)[1..] == f;
  }

  lemma MemberStep(s: string, acc: seq<Pair>, key: string, v: string, val: Node, w: string, mark: char, t: string)
    requires KeyOf(s) == (Some(key), v) && PsValue(v) == Ok(val, w + ([mark] + t)) && Ws(w) && mark in {',', '}'}
    ensures mark == '}' ==> PsPairs(s, acc) == Ok(Obj(SetPair(acc, UpToNul(key), val)), t)
    ensures mark == ',' ==> PsPairs(s, acc) == PsPairs(t, SetPair(acc, UpToNul(key), val))
  {
    hide KeyOf, PsValue, SetPair, UpToNul;
    WsSkipped(w, [mark] + t);
    assert ([mark] + t)[1..] == t;
  }

  // ---- what is accepted, the grammar derives ----

  /** Does the string end by its closing quote, and not with the text? */
  predicate Closed(s: string)
    decreases |s|
  {
    s != [] && (s[0] == '"' || if s[0] != '\\' then Closed(s[1..]) else |s| > 1 && Closed(EscapeSeq(s[1..]).1))
  }

  /** The digits of ps_hex4 again, with other text behind them. */
  lemma {:induction false} Hex4Again(a: string, x: string, y: string, k: nat, v: nat)
    requires x != [] && Hex4(a + x, k, v).1 == x
    ensures Hex4(a + y, k, v) == (Hex4(a + x, k, v).0, y)
    decreases k
  {
    if a == [] {
      assert a + x == x && a + y == y;
      HexShorter(x, k, v);
    } else {
      assert k > 0;
      assert (a + x)[1..] == a[1..] + x && (a + y)[1..] == a[1..] + y;
      if HexValue(a[0]) == None {
        assert |a| == 1 && a[1..] + y == y;
      } else {
        Hex4Again(a[1..], x, y, k - 1, v * 16 + HexValue(a[0]).value);
      }
    }
  }

  /** Where digits are still to be read, one character at least is taken; and what is left is the end of
      the text. */
  lemma {:induction false} HexShorter(t: string, k: nat, v: nat)
    ensures k > 0 && t != [] ==> |Hex4(t, k, v).1| < |t|
    ensures |Hex4(t, k, v).1| <= |t| && t[|t| - |Hex4(t, k, v).1|..] == Hex4(t, k, v).1
    decreases k
  {
    if k > 0 && t != [] && HexValue(t[0]).Some? {
      HexShorter(t[1..], k - 1, v * 16 + HexValue(t[0]).value);
    }
  }

  /** Two texts between which looking for a second `\u` escape makes no difference. */
  predicate Alike(x: string, y: string) {
    x != [] && y != [] && x[0] == y[0] && (x[0] == '\\' ==> |x| >= 2 && |y| >= 2 && x[1] == y[1])
  }

  predicate Paired(n: nat, x: string) { 0xD800 <= n <= 0xDBFF && |x| >= 2 && x[0] == '\\' && x[1] == 'u' }

  lemma UnicodeIs(t: string)
    ensures var (n, x) := Hex4(t, 4, 0);
            if Paired(n, x) then
              var (lo, z) := Hex4(x[2..], 4, 0);
              Unicode(t) == (Utf8(if 0xDC00 <= lo <= 0xDFFF then 0x10000 + (n - 0xD800) * 0x400 + (lo - 0xDC00) else n), z)
            else Unicode(t) == (Utf8(n), x)
  {
    hide Hex4, Utf8;
  }

  lemma SingleAgain(a: string, x: string, y: string)
    requires Hex4(a + x, 4, 0).1 == x && Alike(x, y) && !Paired(Hex4(a + x, 4, 0).0, x)
    ensures Unicode(a + x).1 == x && Unicode(a + y) == (Unicode(a + x).0, y)
  {
    hide Hex4, Utf8, Unicode;
    Hex4Again(a, x, y, 4, 0);
    UnicodeIs(a + x);
    UnicodeIs(a + y);
  }

  lemma PairAgain(h: string, b: string, x: string, y: string)
    requires var w := ['\\', 'u'] + (b + x);
             Hex4(h + w, 4, 0).1 == w && Paired(Hex4(h + w, 4, 0).0, w) && Hex4(b + x, 4, 0).1 == x && x != []
    ensures var (w, c) := (['\\', 'u'] + (b + x), ['\\', 'u'] + (b + y));
            Unicode(h + w).1 == x && Unicode(h + c) == (Unicode(h + w).0, y)
  {
    hide Hex4, Utf8, Unicode;
    var (w, c) := (['\\', 'u'] + (b + x), ['\\', 'u'] + (b + y));
    Hex4Again(h, w, c, 4, 0);
    Hex4Again(b, x, y, 4, 0);
    assert w[2..] == b + x && c[2..] == b + y;
    UnicodeIs(h + w);
    UnicodeIs(h + c);
  }

  lemma UnicodeAgain(t: string, y: string)
    requires Alike(Unicode(t).1, y)
    ensures var (u, x) := Unicode(t); |x| <= |t| && t[|t| - |x|..] == x && Unicode(t[..|t| - |x|] + y) == (u, y)
  {
    hide Hex4, Utf8, Unicode;
    UnicodeIs(t);
    HexShorter(t, 4, 0);
    var (n, w) := Hex4(t, 4, 0);
    var h := t[..|t| - |w|];
    assert t == h + w;
    if Paired(n, w) {
      HexShorter(w[2..], 4, 0);
      var x := Hex4(w[2..], 4, 0).1;
      var b := w[2..][..|w| - 2 - |x|];
      assert w == ['\\', 'u'] + (b + x);
      PairAgain(h, b, x, y);
      Whole(h, b, x, y, t);
    } else {
      SingleAgain(h, w, y);
    }
  }

  lemma Whole(h: string, b: string, x: string, y: string, t: string)
    requires t == h + (['\\', 'u'] + (b + x))
    ensures |x| <= |t| && t[|t| - |x|..] == x && t[..|t| - |x|] + y == h + (['\\', 'u'] + (b + y))
  {
    var a := h + (['\\', 'u'] + b);
    Join4(h, ['\\', 'u'], b, x);
    Join4(h, ['\\', 'u'], b, y);
    assert t == a + x && a + y == h + (['\\', 'u'] + (b + y)) by { Join3(['\\', 'u'], b, x); Join3(['\\', 'u'], b, y); }
    assert t[..|t| - |x|] == a;
  }

  /** A closed string reads the same whatever follows it. */
  lemma {:induction false} ClosedReads(s: string)
    requires Closed(s)
    ensures var (v, r) := StrBody(s);
            |r| < |s| && s[|s| - |r|..] == r && StringReads(s[..|s| - |r|], v)
    ensures s[0] == '\\' ==> |s| - |StrBody(s).1| >= 2
    decreases |s|
  {
    hide EscapeSeq, Closed;
    var (v, r) := StrBody(s);
    OpenClosed(s);
    if s[0] == '"' {
      assert s[..1] == ['"'];
      forall f ensures StrBody(s[..1] + f) == ([], f) { PlainRead('"', f); }
    } else if s[0] != '\\' {
      ClosedReads(s[1..]);
      ClosedPlain(s, r, v);
    } else {
      var (u, x) := EscapeSeq(s[1..]);
      ClosedReads(x);
      ClosedEscape(s, u, x, r, StrBody(x).0);
    }
  }

  lemma OpenClosed(s: string)
    requires Closed(s)
    ensures s != [] && (s[0] == '"' || if s[0] != '\\' then Closed(s[1..]) else |s| > 1 && Closed(EscapeSeq(s[1..]).1))
  {
    hide EscapeSeq;
  }

  lemma ClosedPlain(s: string, r: string, v: string)
    requires s != [] && s[0] != '"' && s[0] != '\\' && |r| < |s| - 1 && s[1..][|s| - 1 - |r|..] == r
    requires v == [s[0]] + StrBody(s[1..]).0 && StringReads(s[1..][..|s| - 1 - |r|], StrBody(s[1..]).0)
    ensures s[|s| - |r|..] == r && StringReads(s[..|s| - |r|], v)
  {
    hide StrBody;
    var (raw, tail) := (s[..|s| - |r|], s[1..][..|s| - 1 - |r|]);
    assert raw == [s[0]] + tail;
    forall f ensures StrBody(raw + f) == (v, f) {
      PlainRead(s[0], tail + f);
      assert raw + f == [s[0]] + (tail + f);
      assert StrBody(tail + f) == (StrBody(s[1..]).0, f);
    }
  }

  /** Raw text that starts a closed string goes on alike with anything behind it. */
  lemma ClosedEscape(s: string, u: string, x: string, r: string, v: string)
    requires |s| > 1 && s[0] == '\\' && (u, x) == EscapeSeq(s[1..]) && x != [] && |r| < |x|
    requires x[|x| - |r|..] == r && StringReads(x[..|x| - |r|], v) && (x[0] == '\\' ==> |x| - |r| >= 2)
    ensures |s| >= 2 + |x| && s[|s| - |r|..] == r && StringReads(s[..|s| - |r|], u + v)
  {
    hide StrBody, Unicode;
    var (raw, tail) := (s[..|s| - |r|], x[..|x| - |r|]);
    EscapeAgain(s[1..], x);
    assert s[|s| - |x|..] == x && x == tail + r;
    var head := s[..|s| - |x|];
    assert raw == head + tail;
    forall f ensures StrBody(raw + f) == (u + v, f) {
      assert Alike(x, tail + f);
      EscapeAgain(s[1..], tail + f);
      assert head == ['\\'] + s[1..][..|s| - 1 - |x|];
      assert raw + f == ['\\'] + (s[1..][..|s| - 1 - |x|] + (tail + f));
      EscapeStep(s[1..][..|s| - 1 - |x|] + (tail + f));
      assert StrBody(tail + f) == (v, f);
    }
  }

  lemma EscapeStep(t: string)
    requires t != []
    ensures var (u, x) := EscapeSeq(t); StrBody(['\\'] + t) == (u + StrBody(x).0, StrBody(x).1)
  {
    hide EscapeSeq;
    assert (['\\'] + t)[1..] == t;
  }

  lemma EscapeAgain(t: string, y: string)
    requires t != [] && Alike(EscapeSeq(t).1, y)
    ensures var (u, x) := EscapeSeq(t);
            |x| < |t| && t[|t| - |x|..] == x && t[..|t| - |x|] + y != [] && EscapeSeq(t[..|t| - |x|] + y) == (u, y)
  {
    hide Unicode;
    var (u, x) := EscapeSeq(t);
    if t[0] == 'u' {
      UnicodeAgain(t[1..], y);
      var a := t[1..][..|t| - 1 - |x|];
      assert t[..|t| - |x|] + y == ['u'] + (a + y) && (['u'] + (a + y))[1..] == a + y;
    } else {
      assert t[..1] + y == [t[0]] + y && ([t[0]] + y)[1..] == y;
    }
  }

  lemma {:induction false} NotClosed(s: string)
    requires !Closed(s)
    ensures StrBody(s).1 == []
    decreases |s|
  {
    hide EscapeSeq;
    if s != [] && s[0] != '"' {
      if s[0] != '\\' { NotClosed(s[1..]); } else if |s| > 1 { NotClosed(EscapeSeq(s[1..]).1); }
    }
  }

  /** The white space in front of a text. */
  lemma {:induction false} WsInFront(s: string) returns (w: string)
    ensures s == w + SkipWs(s) && Ws(w) && (SkipWs(s) == [] || !IsWs(SkipWs(s)[0]))
  {
    if s != [] && IsWs(s[0]) {
      WsIs(s[0]);
      var v := WsInFront(s[1..]);
      w := [s[0]] + v;
    } else {
      w := [];
      assert [] + s == s;
    }
  }

  lemma {:induction false} RunIsFigures(s: string)
    ensures Figures(s[..DigitRun(s)]) && !StartsFigure(s[DigitRun(s)..])
  {
    if s != [] && IsDigit(s[0]) {
      RunIsFigures(s[1..]);
      assert s[..DigitRun(s)] == [s[0]] + s[1..][..DigitRun(s[1..])];
      assert s[DigitRun(s)..] == s[1..][DigitRun(s[1..])..];
    }
  }

  lemma FractionIs(s: string)
    ensures var n := FracLen(s);
            IsFraction(s[..n]) && (n > 0 ==> !StartsFigure(s[n..])) && (n == 0 ==> s == [] || s[0] != '.')
  {
    if s != [] && s[0] == '.' {
      RunIsFigures(s[1..]);
      var m := DigitRun(s[1..]);
      assert s[..1 + m][1..] == s[1..][..m] && s[1 + m..] == s[1..][m..];
    }
  }

  lemma ExponentIs(s: string)
    ensures var n := ExpLen(s);
            IsExponent(s[..n]) && (n > 0 ==> !StartsFigure(s[n..])) && (n == 0 ==> s == [] || (s[0] != 'e' && s[0] != 'E'))
            && (n == 1 ==> |s| == 1 || (s[1] != '+' && s[1] != '-'))
  {
    if s != [] && (s[0] == 'e' || s[0] == 'E') {
      var k := if |s| > 1 && (s[1] == '+' || s[1] == '-') then 2 else 1;
      RunIsFigures(s[k..]);
      var m := DigitRun(s[k..]);
      assert s[..k + m][k..] == s[k..][..m] && s[k + m..] == s[k..][m..];
      assert k == 2 ==> s[..k + m][1] == s[1];
    }
  }

  /** A number that is accepted is one of the grammar, and what follows ends it. */
  lemma NumberParsed(s: string) returns (c: Cst)
    requires s != [] && (s[0] == '-' || IsDigit(s[0])) && PsNumber(s).Ok?
    ensures c.CNumber? && c.ws == [] && Proper(c) && s == NumberText(c) + PsNumber(s).rest
    ensures NodeOf(c) == PsNumber(s).node && Ends(c, PsNumber(s).rest)
  {
    hide DigitRun, FracLen, ExpLen, IntOf, IsFraction, IsExponent, Ends, Figures, NumberText, PsNumber;
    var neg := s[0] == '-';
    var t := if neg then s[1..] else s;
    var n := DigitRun(t);
    var u := t[n..];
    var f := FracLen(u);
    var v := u[f..];
    var e := ExpLen(v);
    c := CNumber([], neg, t[..n], u[..f], v[..e]);
    RunIsFigures(t);
    FractionIs(u);
    ExponentIs(v);
    if !neg { DigitsFirst(t); }
    NumberSplit(c, s, t, u, v, n, f, e);
    NumberEnds(c, u, v);
    ParsedIs(c, s, t, u, v);
  }

  lemma ParsedIs(c: Cst, s: string, t: string, u: string, v: string)
    requires s != [] && (s[0] == '-' || IsDigit(s[0])) && t == (if s[0] == '-' then s[1..] else s) && PsNumber(s).Ok?
    requires u == t[DigitRun(t)..] && v == u[FracLen(u)..]
    requires c == CNumber([], s[0] == '-', t[..DigitRun(t)], u[..FracLen(u)], v[..ExpLen(v)])
    requires NumberText(c) <= s
    requires Figures(c.digits) && (c.neg || c.digits != []) && IsFraction(c.frac) && IsExponent(c.exp)
    requires |NumberText(c)| == (if c.neg then 1 else 0) + |c.digits| + |c.frac| + |c.exp|
    ensures Proper(c) && s == NumberText(c) + PsNumber(s).rest && NodeOf(c) == PsNumber(s).node
    ensures PsNumber(s).rest == s[|NumberText(c)|..]
  {
    hide DigitRun, FracLen, ExpLen, PsNumber, IntOf, NumberText, IsFraction, IsExponent, Figures, Proper, NodeOf;
    assert t[DigitRun(t) + FracLen(u)..] == v;
    var len := |NumberText(c)|;
    assert s[..len] == NumberText(c) && s == s[..len] + s[len..];
    NumberNode(s, t, u, v, len);
    NumberProper(c);
  }

  lemma NumberProper(c: Cst)
    requires c.CNumber? && c.ws == [] && Figures(c.digits) && (c.neg || c.digits != []) && IsFraction(c.frac) && IsExponent(c.exp)
    requires |NumberText(c)| < 64
    ensures Proper(c)
    ensures NodeOf(c) == Number(if |c.frac| == 0 && |c.exp| == 0 then IntOf(c.neg, c.digits, NumberText(c)) else Lib(NumberText(c)))
  {
    hide NumberText, IsFraction, IsExponent, Figures, IntOf;
  }

  lemma NumberNode(s: string, t: string, u: string, v: string, len: nat)
    requires s != [] && (s[0] == '-' || IsDigit(s[0])) && t == (if s[0] == '-' then s[1..] else s) && PsNumber(s).Ok?
    requires u == t[DigitRun(t)..] && v == u[FracLen(u)..] == t[DigitRun(t) + FracLen(u)..]
    requires len == (if s[0] == '-' then 1 else 0) + DigitRun(t) + FracLen(u) + ExpLen(v) <= |s|
    ensures len < 64 && PsNumber(s).rest == s[len..]
    ensures PsNumber(s).node == Number(if FracLen(u) == 0 && ExpLen(v) == 0 then IntOf(s[0] == '-', t[..DigitRun(t)], s[..len]) else Lib(s[..len]))
  {
    hide DigitRun, FracLen, ExpLen, IntOf;
  }

  lemma DigitsFirst(t: string)
    ensures t != [] && IsDigit(t[0]) ==> DigitRun(t) > 0
  {}

  lemma NumberSplit(c: Cst, s: string, t: string, u: string, v: string, n: nat, f: nat, e: nat)
    requires s != [] && t == (if s[0] == '-' then s[1..] else s)
    requires n <= |t| && u == t[n..] && f <= |u| && v == u[f..] && e <= |v|
    requires c == CNumber([], s[0] == '-', t[..n], u[..f], v[..e])
    ensures NumberText(c) <= s && |NumberText(c)| == (if c.neg then 1 else 0) + n + f + e
    ensures v[e..] == s[|NumberText(c)|..]
  {
    Halves(t, n);
    Halves(u, f);
    Halves(v, e);
    if c.neg { Halves(s, 1); assert s[..1] == "-"; } else { assert "" + s == s; }
    hide NumberText;
    NumberWhole(c, s, t, u, v, v[e..]);
  }

  lemma Halves(t: string, n: nat)
    requires n <= |t|
    ensures t == t[..n] + t[n..] && |t[..n]| == n
  {}

  lemma NumberWhole(c: Cst, s: string, t: string, u: string, v: string, r: string)
    requires c.CNumber? && s == (if c.neg then "-" else "") + t && t == c.digits + u && u == c.frac + v && v == c.exp + r
    ensures NumberText(c) <= s && s[|NumberText(c)|..] == r
    ensures |NumberText(c)| == (if c.neg then 1 else 0) + |c.digits| + |c.frac| + |c.exp|
  {
    var sign := if c.neg then "-" else "";
    Join3(sign, c.digits + (c.frac + c.exp), r);
    Join4(c.digits, c.frac, c.exp, r);
    InFront(NumberText(c), r);
  }

  lemma InFront(a: string, b: string)
    ensures a <= a + b && (a + b)[|a|..] == b
  {}

  lemma NumberEnds(c: Cst, u: string, v: string)
    requires c.CNumber? && |c.frac| <= |u| && |c.exp| <= |v| && u[|c.frac|..] == v && u[..|c.frac|] == c.frac && v[..|c.exp|] == c.exp
    requires !StartsFigure(u)
    requires (c.frac != [] ==> !StartsFigure(v)) && (c.frac == [] ==> u == [] || u[0] != '.')
    requires (c.exp != [] ==> !StartsFigure(v[|c.exp|..])) && (c.exp == [] ==> v == [] || (v[0] != 'e' && v[0] != 'E'))
    requires |c.exp| == 1 ==> |v| == 1 || (v[1] != '+' && v[1] != '-')
    ensures Ends(c, v[|c.exp|..])
  {}

  /** The text ends inside a string that it starts with. */
  predicate CutInString(s: string) { var t := SkipWs(s); t != [] && t[0] == '"' && !Closed(t[1..]) }

  /** Every accepted text that does not end inside a string starts with a text of the grammar; what stands
      for it is the tree that the parser returns, and what follows it is what the parser leaves. */
  lemma {:induction false} Accepted(s: string) returns (c: Cst)
    requires PsValue(s).Ok? && !CutInString(s)
    ensures Proper(c) && s == Text(c) + PsValue(s).rest && NodeOf(c) == PsValue(s).node && Ends(c, PsValue(s).rest)
    decreases |s|, 3
  {
    var w := WsInFront(s);
    var t := SkipWs(s);
    R.ValueSkips(s);
    var b := CoreAccepted(t);
    c := b.(ws := w);
    Rewrap(b, w, PsValue(t).rest);
  }

  lemma Rewrap(b: Cst, w: string, f: string)
    requires Proper(b) && b.ws == [] && Ws(w)
    ensures var c := b.(ws := w); Proper(c) && Text(c) + f == w + (Text(b) + f) && NodeOf(c) == NodeOf(b) && (Ends(c, f) <==> Ends(b, f))
  {
    assert w + b.ws == w;
    WsLonger(b, w);
    EndsSame(b, w, f);
    hide Text, NodeOf, Proper, Ends, Ws;
    Join3(w, Text(b), f);
  }

  lemma EndsSame(b: Cst, w: string, f: string)
    ensures Ends(b.(ws := w), f) <==> Ends(b, f)
  {}

  /** The same of a text without white space in front. */
  lemma {:induction false} CoreAccepted(t: string) returns (c: Cst)
    requires PsValue(t).Ok? && SkipWs(t) == t && !CutInString(t)
    ensures Proper(c) && c.ws == [] && t == Text(c) + PsValue(t).rest && NodeOf(c) == PsValue(t).node && Ends(c, PsValue(t).rest)
    decreases |t|, 2
  {
    hide StrBody, PsItems, PsPairs, PsNumber;
    ClosesTo(t);
    if t[0] == '"' {
      c := StringAccepted(t);
    } else if t[0] == '[' {
      c := ArrayAccepted(t);
    } else if t[0] == '{' {
      c := ObjectAccepted(t);
    } else if StartsWith(t, "true") || StartsWith(t, "false") || StartsWith(t, "null") {
      c := WordAccepted(t);
    } else {
      c := NumberParsed(t);
      assert Text(c) == [] + NumberText(c) == NumberText(c);
    }
  }

  lemma WordAccepted(t: string) returns (c: Cst)
    requires StartsWith(t, "true") || StartsWith(t, "false") || StartsWith(t, "null")
    ensures PsValue(t).Ok? && c.CWord? && Proper(c) && c.ws == [] && t == Text(c) + PsValue(t).rest && NodeOf(c) == PsValue(t).node
  {
    hide StrBody, PsItems, PsPairs, PsNumber, PsValue;
    var (n, k) := if StartsWith(t, "null") then (Null, 4) else if StartsWith(t, "true") then (Bool(true), 4) else (Bool(false), 5);
    c := CWord([], n);
    assert t == WordText(n) + t[k..];
    assert Text(c) == [] + WordText(n) == WordText(n);
    R.Constants(t[k..]);
  }

  lemma ClosesTo(t: string)
    requires PsValue(t).Ok? && SkipWs(t) == t
    ensures t != []
  {}

  lemma StringAccepted(t: string) returns (c: Cst)
    requires t != [] && SkipWs(t) == t && t[0] == '"' && Closed(t[1..])
    ensures PsValue(t).Ok? && Proper(c) && c.ws == [] && c.CString? && t == Text(c) + PsValue(t).rest && NodeOf(c) == PsValue(t).node
  {
    hide StrBody, Closed, PsValue, SkipWs, Text, StringReads, Proper, NodeOf, Ws;
    var u := t[1..];
    ClosedReads(u);
    var (v, r) := StrBody(u);
    var raw := u[..|u| - |r|];
    assert t == [QUOTE] + u && u == raw + r;
    R.StringStep(u);
    c := CString([], raw, v);
    StringIs(raw, v);
    Join3([QUOTE], raw, r);
  }

  lemma StringIs(raw: string, v: string)
    requires StringReads(raw, v)
    ensures var c := CString([], raw, v); Proper(c) && Text(c) == [QUOTE] + raw && NodeOf(c) == Str(v)
  {
    hide StringReads;
    assert [] + ([QUOTE] + raw) == [QUOTE] + raw;
  }

  /** In an array or object no value can end with the text, so none ends inside a string. */
  lemma NotCut(s: string)
    requires PsValue(s).Ok? && SkipWs(PsValue(s).rest) != []
    ensures !CutInString(s)
  {
    hide StrBody, PsItems, PsPairs, PsNumber;
    var t := SkipWs(s);
    if t != [] && t[0] == '"' && !Closed(t[1..]) {
      NotClosed(t[1..]);
    }
  }

  /** What opens an array or an object, and what the parser does behind it. */
  lemma OpenStep(t: string)
    requires t != [] && SkipWs(t) == t && (t[0] == '[' || t[0] == '{')
    ensures var u := SkipWs(t[1..]);
            PsValue(t) == if t[0] == '[' then (if u != [] && u[0] == ']' then Ok(Arr([]), u[1..]) else PsItems(u, []))
                          else if u != [] && u[0] == '}' then Ok(Obj([]), u[1..]) else PsPairs(u, [])
    ensures |SkipWs(t[1..])| < |t|
  {
    hide StrBody, PsItems, PsPairs, PsNumber;
  }

  lemma {:induction false} ArrayAccepted(t: string) returns (c: Cst)
    requires t != [] && SkipWs(t) == t && t[0] == '[' && PsValue(t).Ok?
    ensures Proper(c) && c.ws == [] && c.CArray? && t == Text(c) + PsValue(t).rest && NodeOf(c) == PsValue(t).node
    decreases |t|, 1
  {
    hide PsItems, PsValue, Proper, Text, NodeOf, SkipWs, Ws;
    var w := WsInFront(t[1..]);
    var u := SkipWs(t[1..]);
    OpenStep(t);
    if u != [] && u[0] == ']' {
      c := CArray([], w, []);
      EmptyArray(w);
      assert t == ['['] + (w + ([']'] + u[1..]));
      Join4(['['], w, [']'], u[1..]);
    } else {
      var items := ItemsAccepted(u, []);
      var rest := PsItems(u, []).rest;
      ItemsRewrap(items, w, rest);
      var more := [items[0].(val := items[0].val.(ws := w + items[0].val.ws))] + items[1..];
      c := CArray([], [], more);
      ArrayOf(more);
      assert [] + Nodes(items) == Nodes(items);
      assert t == ['['] + (w + u);
      hide ItemsText, SkipWs, Nodes, ItemsProper;
      Join3(['['], ItemsText(more), rest);
    }
  }

  lemma EmptyArray(w: string)
    requires Ws(w)
    ensures var c := CArray([], w, []); Proper(c) && Text(c) == ['['] + (w + [']']) && NodeOf(c) == Arr([])
  {}

  lemma ArrayOf(items: seq<Item>)
    requires items != [] && ItemsProper(items)
    ensures var c := CArray([], [], items); Proper(c) && Text(c) == ['['] + ItemsText(items) && NodeOf(c) == Arr(Nodes(items))
  {
    hide ItemsText, ItemsProper, Nodes;
  }

  /** White space in front of items goes to the first. */
  lemma ItemsRewrap(items: seq<Item>, w: string, f: string)
    requires items != [] && ItemsProper(items) && Ws(w)
    ensures var first := items[0].(val := items[0].val.(ws := w + items[0].val.ws));
            var more := [first] + items[1..];
            ItemsProper(more) && ItemsText(more) + f == w + (ItemsText(items) + f) && Nodes(more) == Nodes(items)
  {
    var c := items[0].val;
    var d := c.(ws := w + c.ws);
    var more := [items[0].(val := d)] + items[1..];
    hide Text, NodeOf, Core, Proper;
    assert more[1..] == items[1..] && |more| == |items|;
    ItemsAre(items);
    WsLonger(c, w);
    var tail := items[0].after + (if |items| == 1 then "]" else "," + ItemsText(items[1..]));
    assert ItemsText(items) == Text(c) + tail && ItemsText(more) == Text(d) + tail;
    hide ItemsText, Nodes;
    Join4(w, Text(c), tail, f);
  }

  lemma WsLonger(c: Cst, w: string)
    requires Proper(c) && Ws(w)
    ensures var d := c.(ws := w + c.ws); Proper(d) && Text(d) == w + Text(c) && NodeOf(d) == NodeOf(c)
  {
    hide ItemsProper, MembersProper, StringReads, ItemsText, MembersText, Core, IsFraction, IsExponent, Nodes, Pairs, NumberText;
    var d := c.(ws := w + c.ws);
    SameCore(c, d);
    Join3(w, c.ws, Core(c));
  }

  lemma SameCore(c: Cst, d: Cst)
    requires d == c.(ws := d.ws)
    ensures Core(d) == Core(c) && NodeOf(d) == NodeOf(c) && (c.CNumber? ==> NumberText(d) == NumberText(c))
  {
    hide ItemsText, MembersText, Nodes, Pairs;
  }

  lemma {:induction false} ItemsAccepted(s: string, acc: seq<Node>) returns (items: seq<Item>)
    requires PsItems(s, acc).Ok?
    ensures items != [] && ItemsProper(items) && s == ItemsText(items) + PsItems(s, acc).rest
    ensures PsItems(s, acc).node == Arr(acc + Nodes(items))
    decreases |s|, 4
  {
    hide PsValue, PsItems, Core, Proper, Ends, Text, NodeOf, SkipWs, ItemsText, Nodes, ItemsProper, Ws;
    ItemsStep(s, acc);
    var (item, rest) := (PsValue(s).node, PsValue(s).rest);
    NotCut(s);
    var c := Accepted(s);
    var w := WsInFront(rest);
    var t := SkipWs(rest);
    if t[0] == ']' {
      items := [Item(c, w)];
      OneItem(c, w);
      Join4(Text(c), w, "]", t[1..]);
    } else {
      var more := ItemsAccepted(t[1..], acc + [item]);
      items := [Item(c, w)] + more;
      MoreItems(c, w, more);
      Join4(Text(c), w, "," + ItemsText(more), PsItems(s, acc).rest);
      Join3(",", ItemsText(more), PsItems(s, acc).rest);
      assert (acc + [item]) + Nodes(more) == acc + ([item] + Nodes(more));
    }
  }

  /** What an item that is accepted has behind it. */
  lemma ItemsStep(s: string, acc: seq<Node>)
    requires PsItems(s, acc).Ok?
    ensures PsValue(s).Ok? && |PsValue(s).rest| < |s|
    ensures var (t, more) := (SkipWs(PsValue(s).rest), acc + [PsValue(s).node]);
            t != [] && |t| < |s|
            && if t[0] == ']' then t == "]" + t[1..] && PsItems(s, acc) == Ok(Arr(more), t[1..])
               else t == "," + t[1..] && PsItems(s, acc) == PsItems(t[1..], more)
  {
    hide PsValue;
  }

  lemma OneItem(c: Cst, w: string)
    requires Proper(c) && Ws(w)
    ensures var items := [Item(c, w)];
            ItemsProper(items) && ItemsText(items) == Text(c) + (w + "]") && Nodes(items) == [NodeOf(c)]
  {
    hide Proper, Text, NodeOf;
    assert [Item(c, w)][1..] == [];
    assert [NodeOf(c)] + Nodes([]) == [NodeOf(c)];
  }

  lemma MoreItems(c: Cst, w: string, more: seq<Item>)
    requires Proper(c) && Ws(w) && more != [] && ItemsProper(more)
    ensures var items := [Item(c, w)] + more;
            ItemsProper(items) && ItemsText(items) == Text(c) + (w + ("," + ItemsText(more))) && Nodes(items) == [NodeOf(c)] + Nodes(more)
  {
    hide Proper, Text, NodeOf;
    var items := [Item(c, w)] + more;
    assert items[1..] == more && |items| > 1;
  }

  lemma {:induction false} ObjectAccepted(t: string) returns (c: Cst)
    requires t != [] && SkipWs(t) == t && t[0] == '{' && PsValue(t).Ok?
    ensures Proper(c) && c.ws == [] && c.CObject? && t == Text(c) + PsValue(t).rest && NodeOf(c) == PsValue(t).node
    decreases |t|, 1
  {
    hide PsPairs, PsValue, Proper, Text, NodeOf, Pairs, MembersText, SkipWs, MembersProper, Ws;
    var w := WsInFront(t[1..]);
    var u := SkipWs(t[1..]);
    OpenStep(t);
    if u != [] && u[0] == '}' {
      c := CObject([], w, []);
      EmptyObject(w);
      assert t == ['{'] + (w + (['}'] + u[1..]));
      Join4(['{'], w, ['}'], u[1..]);
    } else {
      var ms := MembersAccepted(u, []);
      var rest := PsPairs(u, []).rest;
      MembersRewrap(ms, w, rest);
      var more := [ms[0].(ws := w + ms[0].ws)] + ms[1..];
      c := CObject([], [], more);
      ObjectOf(more);
      assert t == ['{'] + (w + u);
      Join3(['{'], MembersText(more), rest);
    }
  }

  lemma EmptyObject(w: string)
    requires Ws(w)
    ensures var c := CObject([], w, []); Proper(c) && Text(c) == ['{'] + (w + ['}']) && NodeOf(c) == Obj([])
  {}

  lemma ObjectOf(ms: seq<Member>)
    requires ms != [] && MembersProper(ms)
    ensures var c := CObject([], [], ms); Proper(c) && Text(c) == ['{'] + MembersText(ms) && NodeOf(c) == Obj(Pairs(ms, []))
  {
    hide MembersText, MembersProper, Pairs;
  }

  /** White space in front of members goes to the first. */
  lemma MembersRewrap(ms: seq<Member>, w: string, f: string)
    requires ms != [] && MembersProper(ms) && Ws(w)
    ensures var more := [ms[0].(ws := w + ms[0].ws)] + ms[1..];
            MembersProper(more) && MembersText(more) + f == w + (MembersText(ms) + f) && Pairs(more, []) == Pairs(ms, [])
  {
    hide Core, Proper, Text, KeyText, KeyProper, SetPair, UpToNul, NodeOf, Pairs;
    var m := ms[0];
    var n := m.(ws := w + m.ws);
    var more := [n] + ms[1..];
    assert more[1..] == ms[1..] && |more| == |ms| && more[0] == n;
    MembersAre(ms);
    KeyRewrap(m, w);
    var tail := Text(m.val) + (m.after + (if |ms| == 1 then "}" else "," + MembersText(ms[1..])));
    MembersOpen(ms);
    MembersOpen(more);
    hide MembersText;
    Join4(w, KeyText(m), tail, f);
    SamePairs(ms, more);
  }

  lemma MembersOpen(ms: seq<Member>)
    requires ms != []
    ensures MembersText(ms) == KeyText(ms[0]) + (Text(ms[0].val) + (ms[0].after + (if |ms| == 1 then "}" else "," + MembersText(ms[1..]))))
  {
    hide Text, KeyText;
  }

  lemma SamePairs(ms: seq<Member>, more: seq<Member>)
    requires ms != [] && |more| == |ms| && more[1..] == ms[1..] && more[0].key == ms[0].key && more[0].val == ms[0].val
    ensures Pairs(more, []) == Pairs(ms, [])
  {
    hide SetPair, UpToNul, NodeOf;
  }

  lemma KeyRewrap(m: Member, w: string)
    requires KeyProper(m) && Ws(w)
    ensures var n := m.(ws := w + m.ws); KeyProper(n) && KeyText(n) == w + KeyText(m)
  {
    hide StringReads;
  }

  lemma {:induction false} MembersAccepted(s: string, acc: seq<Pair>) returns (ms: seq<Member>)
    requires PsPairs(s, acc).Ok?
    ensures ms != [] && MembersProper(ms) && s == MembersText(ms) + PsPairs(s, acc).rest
    ensures PsPairs(s, acc).node == Obj(Pairs(ms, acc))
    decreases |s|, 4
  {
    hide PsValue, PsItems, Core, Proper, Ends, KeyOf, SetPair, UpToNul, KeyProper, KeyText, Text, NodeOf, Pairs;
    var (k, r1) := KeyOf(s);
    var m := KeyAccepted(s);
    NotCut(r1);
    var c := Accepted(r1);
    var rest := PsValue(r1).rest;
    var w := WsInFront(rest);
    var t := SkipWs(rest);
    var here := m.(val := c, after := w);
    KeyMoved(m, c, w);
    var acc1 := SetPair(acc, UpToNul(k.value), PsValue(r1).node);
    if t[0] == '}' {
      ms := [here];
      assert t == "}" + t[1..];
      Join4(Text(c), w, "}", t[1..]);
      Join3(KeyText(here), Text(c) + (w + "}"), t[1..]);
      OneMember(here, acc);
    } else {
      assert t == "," + t[1..];
      var more := MembersAccepted(t[1..], acc1);
      ms := [here] + more;
      MoreMembers(here, more, acc);
      var r := PsPairs(s, acc).rest;
      Join3(",", MembersText(more), r);
      Join4(Text(c), w, "," + MembersText(more), r);
      Join3(KeyText(here), Text(c) + (w + ("," + MembersText(more))), r);
    }
  }

  lemma KeyMoved(m: Member, c: Cst, w: string)
    ensures var n := m.(val := c, after := w); KeyText(n) == KeyText(m) && (KeyProper(n) <==> KeyProper(m)) && n.key == m.key
  {}

  lemma OneMember(m: Member, acc: seq<Pair>)
    requires KeyProper(m) && Proper(m.val) && Ws(m.after)
    ensures MembersProper([m]) && Pairs([m], acc) == SetPair(acc, UpToNul(m.key), NodeOf(m.val))
    ensures MembersText([m]) == KeyText(m) + (Text(m.val) + (m.after + "}"))
  {
    hide Proper, KeyProper, SetPair, UpToNul, KeyText, Text, NodeOf;
    assert [m][1..] == [];
  }

  lemma MoreMembers(m: Member, more: seq<Member>, acc: seq<Pair>)
    requires KeyProper(m) && Proper(m.val) && Ws(m.after) && more != [] && MembersProper(more)
    ensures var ms := [m] + more;
            MembersProper(ms) && Pairs(ms, acc) == Pairs(more, SetPair(acc, UpToNul(m.key), NodeOf(m.val)))
            && MembersText(ms) == KeyText(m) + (Text(m.val) + (m.after + ("," + MembersText(more))))
  {
    hide Proper, KeyProper, SetPair, UpToNul, KeyText, Text, NodeOf;
    var ms := [m] + more;
    assert ms[1..] == more && |ms| > 1;
  }

  lemma KeyParts(s: string)
    requires KeyOf(s).0.Some?
    ensures var t := SkipWs(s);
            t != [] && t == "\"" + t[1..]
            && var (k, r1) := StrBody(t[1..]);
               KeyOf(s).0 == Some(k) && SkipWs(r1) == ":" + KeyOf(s).1
  {
    hide StrBody;
  }

  /** A key that is read is one of the grammar. */
  lemma KeyAccepted(s: string) returns (m: Member)
    requires KeyOf(s).0.Some?
    ensures KeyProper(m) && s == KeyText(m) + KeyOf(s).1 && m.key == KeyOf(s).0.value
  {
    hide StrBody, Closed, StringReads, KeyOf, SkipWs, KeyText, Ws;
    KeyParts(s);
    var w := WsInFront(s);
    var u := SkipWs(s)[1..];
    var (k, r1) := StrBody(u);
    if !Closed(u) { NotClosed(u); NothingBehind(); }
    ClosedReads(u);
    var colon := WsInFront(r1);
    m := Member(w, u[..|u| - |r1|], k, colon, CWord([], Null), []);
    KeyJoin(m, u, r1, KeyOf(s).1);
  }

  lemma NothingBehind()
    ensures SkipWs([]) == []
  {}

  lemma KeyJoin(m: Member, u: string, r1: string, v: string)
    requires u == m.raw + r1 && r1 == m.colon + (":" + v)
    ensures m.ws + ("\"" + u) == KeyText(m) + v
  {
    var a := m.colon + ":";
    assert r1 == a + v && u == (m.raw + a) + v;
    assert "\"" + u == ("\"" + (m.raw + a)) + v;
  }
}
