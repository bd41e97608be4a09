/** The parser's cursor and the printer's buffer. */
module JsonMachine {
  import opened Options
  import opened Json
  import opened JsonRoundTrip
  import JsonBuffer

  /** ps_t: the text and the position of the next character. */
  class Parser {
    const text: string
    var p: nat

    ghost predicate Valid()
      reads this
    {
      p <= |text|
    }

    ghost function Rest(): string
      reads this
      requires Valid()
    {
      text[p..]
    }

    constructor (text: string)
      ensures Valid() && this.text == text && Rest() == text
    {
      this.text := text;
      p := 0;
    }

    /** Is c the next character? */
    predicate At(c: char)
      reads this
      requires Valid()
      ensures At(c) == (Rest() != [] && Rest()[0] == c)
    {
      p < |text| && text[p] == c
    }

    method Skip()
      requires Valid()
      modifies this
      ensures Valid() && Rest() == SkipWs(old(Rest()))
    {
      while p < |text| && IsWs(text[p])
        invariant Valid() && SkipWs(Rest()) == SkipWs(old(Rest()))
      {
        p := p + 1;
      }
    }

    method ReadHex4() returns (v: nat)
      requires Valid()
      modifies this
      ensures Valid() && (v, Rest()) == Hex4(old(Rest()), 4, 0)
    {
      v := 0;
      var i := 0;
      while i < 4
        invariant i <= 4 && Valid() && Hex4(Rest(), 4 - i, v) == Hex4(old(Rest()), 4, 0)
      {
        if p >= |text| { return 0; }
        var d := HexValue(text[p]);
        p := p + 1;
        if d == None { return 0; }
        v := v * 16 + d.value;
        i := i + 1;
      }
    }

    /** A \u escape after its `u`. */
    method ReadUnicode() returns (u: string)
      requires Valid()
      modifies this
      ensures Valid() && (u, Rest()) == Unicode(old(Rest()))
    {
      hide Hex4, Utf8;
      var cp := ReadHex4();
      if 0xD800 <= cp <= 0xDBFF && p + 1 < |text| && text[p] == BACKSLASH && text[p + 1] == 'u' {
        ghost var t := Rest();
        p := p + 2;
        assert t[2..] == Rest();
        var lo := ReadHex4();
        if 0xDC00 <= lo <= 0xDFFF { cp := 0x10000 + (cp - 0xD800) * 0x400 + (lo - 0xDC00); }
      }
      u := Utf8(cp);
    }

    /** What follows a backslash. */
    method ReadEscape() returns (u: string)
      requires Valid() && Rest() != []
      modifies this
      ensures Valid() && (u, Rest()) == EscapeSeq(old(Rest()))
    {
      ghost var s := Rest();
      var c := text[p];
      p := p + 1;
      assert s[1..] == Rest();
      if c == 'u' { u := ReadUnicode(); } else { u := [Unescape(c)]; }
    }

    /** The first pass over a string after its opening quote: the size of its buffer. */
    method MeasureStrBody() returns (cap: nat)
      requires Valid()
      ensures cap == JsonBuffer.Measure(Rest())
    {
      var q := p;
      cap := 0;
      ghost var goal := JsonBuffer.Measure(Rest());
      while q < |text| && text[q] != QUOTE
        invariant p <= q && cap + (if q <= |text| then JsonBuffer.Measure(text[q..]) else 0) == goal
        decreases |text| - q
      {
        ghost var s := text[q..];
        var c := text[q];
        q := q + 1;
        assert s[1..] == text[q..];
        if c == BACKSLASH && q < |text| {
          ghost var skip := if text[q] == 'u' then 6 else 2;
          q, cap := q + (if text[q] == 'u' then 5 else 1), cap + 4;
          assert JsonBuffer.Beyond(s, skip) == if q <= |text| then text[q..] else [];
        } else {
          cap := cap + 1;
          if c == BACKSLASH { q := q + 1; }
        }
      }
    }

    /** The characters of a string after its opening quote, with the size of the buffer that holds
        them when the two passes keep in step. */
    method ReadStrBody() returns (buf: string, cap: nat)
      requires Valid()
      modifies this
      ensures Valid() && (buf, Rest()) == StrBody(old(Rest()))
      ensures cap == JsonBuffer.Measure(old(Rest())) && (JsonBuffer.InStep(old(Rest())) ==> |buf| <= cap)
    {
      hide EscapeSeq;
      cap := MeasureStrBody();
      if JsonBuffer.InStep(Rest()) { JsonBuffer.BufferFits(Rest()); }
      buf := [];
      ghost var goal := StrBody(Rest());
      Regroup0(goal.0);
      while p < |text| && text[p] != QUOTE
        invariant Valid() && goal == (buf + StrBody(Rest()).0, StrBody(Rest()).1)
        decreases |text| - p
      {
        ghost var s := Rest();
        var c := text[p];
        p := p + 1;
        assert s[1..] == Rest();
        if c != BACKSLASH {
          AppendAssoc(buf, [c], StrBody(Rest()).0);
          buf := buf + [c];
        } else {
          if p >= |text| {
            break;
          }
          var u := ReadEscape();
          AppendAssoc(buf, u, StrBody(Rest()).0);
          buf := buf + u;
        }
      }
      Regroup0(buf);
      if p < |text| {
        ghost var s := Rest();
        p := p + 1;
        assert s[1..] == Rest();
      }
    }

    method DigitsAhead()
      requires Valid()
      modifies this
      ensures Valid() && p == old(p) + DigitRun(old(Rest()))
    {
      ghost var s := Rest();
      while p < |text| && IsDigit(text[p])
        invariant old(p) <= p && Valid() && p - old(p) + DigitRun(Rest()) == DigitRun(s)
      {
        p := p + 1;
      }
    }

    method SkipFraction()
      requires Valid()
      modifies this
      ensures Valid() && p == old(p) + FracLen(old(Rest()))
    {
      if p < |text| && text[p] == '.' {
        ghost var s := Rest();
        p := p + 1;
        assert s[1..] == Rest();
        DigitsAhead();
      }
    }

    method SkipExponent()
      requires Valid()
      modifies this
      ensures Valid() && p == old(p) + ExpLen(old(Rest()))
    {
      if p < |text| && (text[p] == 'e' || text[p] == 'E') {
        ghost var (s, q) := (Rest(), p);
        p := p + 1;
        if p < |text| && (text[p] == '+' || text[p] == '-') { p := p + 1; }
        assert s[p - q..] == Rest();
        DigitsAhead();
      }
    }

    method ReadNumber() returns (n: Option<Node>)
      requires Valid() && Rest() != [] && (Rest()[0] == '-' || IsDigit(Rest()[0]))
      modifies this
      ensures Valid() && Agrees(n, PsNumber(old(Rest())))
    {
      hide DigitRun, IntOf, FracLen, ExpLen;
      ghost var s := Rest();
      var start := p;
      var neg := text[p] == '-';
      if neg { p := p + 1; }
      var digits := p;
      ghost var t := text[digits..];
      assert t == if neg then s[1..] else s;
      DigitsAhead();
      var digitsEnd := p;
      assert t[digitsEnd - digits..] == Rest();
      SkipFraction();
      assert t[p - digits..] == Rest();
      SkipExponent();
      assert s[p - start..] == Rest() && s[..p - start] == text[start..p];
      assert t[..digitsEnd - digits] == text[digits..digitsEnd];
      if p - start >= 64 { return None; }
      n := Some(Number(if p == digitsEnd then IntOf(neg, text[digits..digitsEnd], text[start..p]) else Lib(text[start..p])));
    }

    /** A method's answer agrees with the parser function: the same value and the same text left,
        or failure of both. */
    ghost predicate Agrees(n: Option<Node>, r: Parse)
      reads this
      requires Valid()
    {
      match r case Fail => n == None case Ok(node, rest) => n == Some(node) && Rest() == rest
    }

    method Literal(w: string) returns (b: bool)
      requires Valid()
      modifies this
      ensures Valid() && b == StartsWith(old(Rest()), w)
      ensures Rest() == if b then old(Rest())[|w|..] else old(Rest())
    {
      b := |text| - p >= |w| && text[p..p + |w|] == w;
      if b {
        assert Rest()[..|w|] == w;
        p := p + |w|;
      } else {
        assert |Rest()| >= |w| ==> Rest()[..|w|] == text[p..p + |w|];
      }
    }

    method ReadArray() returns (n: Option<Node>)
      requires Valid() && At('[')
      modifies this
      ensures Valid() && Agrees(n, PsValue(old(Rest())))
      decreases |Rest()|, 0
    {
      hide StrBody, PsNumber, PsPairs, PsValue, SkipWs;
      ghost var s := Rest();
      p := p + 1;
      assert s[1..] == Rest() && s == ['['] + Rest();
      ghost var t := Rest();
      ArrayUnfold(t);
      Skip();
      if At(']') {
        ghost var t1 := Rest();
        p := p + 1;
        assert t1[1..] == Rest();
        return Some(Arr([]));
      }
      n := ReadItems();
    }

    /** The items of an array, up to and with its bracket. */
    method ReadItems() returns (n: Option<Node>)
      requires Valid()
      modifies this
      ensures Valid() && Agrees(n, PsItems(old(Rest()), []))
      decreases |Rest()|, 2
    {
      hide StrBody, PsNumber, PsPairs, PsValue, SkipWs;
      var items := [];
      ghost var goal := PsItems(Rest(), []);
      while p < |text|
        invariant Valid() && |Rest()| <= |old(Rest())| && PsItems(Rest(), items) == goal
        decreases |Rest()|
      {
        ghost var here := Rest();
        SkipWsTwice(here);
        ValueSkips(here);
        Skip();
        var item := ReadValue();
        if item == None { return None; }
        items := items + [item.value];
        Skip();
        if p >= |text| { return None; }
        ghost var t2 := Rest();
        var c := text[p];
        p := p + 1;
        assert t2[1..] == Rest();
        if c == ']' { return Some(Arr(items)); }
        if c != ',' { return None; }
      }
      n := None;
    }

    method ReadObject() returns (n: Option<Node>)
      requires Valid() && At('{')
      modifies this
      ensures Valid() && Agrees(n, PsValue(old(Rest())))
      decreases |Rest()|, 0
    {
      hide StrBody, PsNumber, PsItems, PsValue, UpToNul, SetPair, KeyOf, SkipWs;
      ghost var s := Rest();
      p := p + 1;
      assert s[1..] == Rest() && s == ['{'] + Rest();
      ghost var t := Rest();
      ObjectUnfold(t);
      Skip();
      if At('}') {
        ghost var t1 := Rest();
        p := p + 1;
        assert t1[1..] == Rest();
        return Some(Obj([]));
      }
      n := ReadMembers();
    }

    /** The members of an object, up to and with its brace. */
    method ReadMembers() returns (n: Option<Node>)
      requires Valid()
      modifies this
      ensures Valid() && Agrees(n, PsPairs(old(Rest()), []))
      decreases |Rest()|, 2
    {
      hide PsItems, PsValue, UpToNul, SetPair, KeyOf, SkipWs;
      assert KeyOf([]) == (None, []) by { NoKey(); }
      var pairs := [];
      ghost var goal := PsPairs(Rest(), []);
      while p < |text|
        invariant Valid() && |Rest()| <= |old(Rest())| && PsPairs(Rest(), pairs) == goal
        decreases |Rest()|
      {
        var key := ReadKey();
        if key == None { return None; }
        var val := ReadValue();
        if val == None { return None; }
        pairs := SetKey(pairs, UpToNul(key.value), val.value);
        Skip();
        if p >= |text| { return None; }
        ghost var t3 := Rest();
        var c := text[p];
        p := p + 1;
        assert t3[1..] == Rest();
        if c == '}' { return Some(Obj(pairs)); }
        if c != ',' { return None; }
      }
      n := None;
    }

    /** A key and its colon. */
    method ReadKey() returns (key: Option<string>)
      requires Valid()
      modifies this
      ensures Valid() && (key, if key == None then [] else Rest()) == KeyOf(old(Rest()))
      ensures key.Some? ==> |Rest()| < |old(Rest())|
    {
      hide StrBody;
      Skip();
      if !At(QUOTE) { return None; }
      ghost var t1 := Rest();
      p := p + 1;
      assert t1[1..] == Rest();
      var k, _ := ReadStrBody();
      Skip();
      if !At(':') { return None; }
      ghost var t2 := Rest();
      p := p + 1;
      assert t2[1..] == Rest();
      key := Some(k);
    }

    /** The last cases of ps_value: the literals and the numbers. */
    method ReadWord() returns (n: Option<Node>)
      requires Valid() && Rest() != [] && SkipWs(Rest()) == Rest() && Rest()[0] !in {QUOTE, '{', '['}
      modifies this
      ensures Valid() && Agrees(n, PsValue(old(Rest())))
    {
      hide StrBody, PsNumber, PsItems, PsPairs, SkipWs, StartsWith;
      var isTrue := Literal("true");
      if isTrue { return Some(Bool(true)); }
      var isFalse := Literal("false");
      if isFalse { return Some(Bool(false)); }
      var isNull := Literal("null");
      if isNull { return Some(Null); }
      if text[p] == '-' || IsDigit(text[p]) {
        n := ReadNumber();
        return;
      }
      n := None;
    }

    method ReadValue() returns (n: Option<Node>)
      requires Valid()
      modifies this
      ensures Valid() && Agrees(n, PsValue(old(Rest())))
      decreases |Rest()|, 1
    {
      hide StrBody, PsNumber, PsItems, PsPairs, SkipWs, StartsWith;
      ValueSkips(Rest());
      SkipWsTwice(Rest());
      Skip();
      if p >= |text| { return None; }
      var c := text[p];
      if c == QUOTE {
        ghost var s := Rest();
        p := p + 1;
        assert s[1..] == Rest();
        var buf, _ := ReadStrBody();
        return Some(Str(buf));
      }
      if c == '{' {
        n := ReadObject();
        return;
      }
      if c == '[' {
        n := ReadArray();
        return;
      }
      n := ReadWord();
    }
  }

  lemma NoKey()
    ensures KeyOf([]) == (None, [])
  {}

  lemma ArrayUnfold(t: string)
    ensures PsValue(['['] + t) ==
              if SkipWs(t) != [] && SkipWs(t)[0] == ']' then Ok(Arr([]), SkipWs(t)[1..]) else PsItems(SkipWs(t), [])
  {
    hide StrBody, PsNumber, PsPairs, PsItems;
    assert (['['] + t)[1..] == t;
  }

  lemma ObjectUnfold(t: string)
    ensures PsValue(['{'] + t) ==
              if SkipWs(t) != [] && SkipWs(t)[0] == '}' then Ok(Obj([]), SkipWs(t)[1..]) else PsPairs(SkipWs(t), [])
  {
    hide StrBody, PsNumber, PsPairs, PsItems;
    assert (['{'] + t)[1..] == t;
  }

  lemma Regroup0(b: string)
    ensures [] + b == b == b + []
  {}

  lemma {:induction false} SetPairPast(pairs: seq<Pair>, key: string, val: Node, i: nat)
    requires i <= |pairs| && forall j :: 0 <= j < i ==> pairs[j].key != key
    ensures SetPair(pairs, key, val) == pairs[..i] + SetPair(pairs[i..], key, val)
  {
    if i > 0 {
      SetPairPast(pairs[1..], key, val, i - 1);
      assert pairs[1..][i - 1..] == pairs[i..] && pairs[..i] == [pairs[0]] + pairs[1..][..i - 1];
    }
  }

  /** cson_set_n on the list of members. */
  method SetKey(pairs: seq<Pair>, key: string, val: Node) returns (r: seq<Pair>)
    ensures r == SetPair(pairs, key, val)
  {
    var i := 0;
    while i < |pairs|
      invariant i <= |pairs| && forall j :: 0 <= j < i ==> pairs[j].key != key
    {
      if pairs[i].key == key {
        SetPairPast(pairs, key, val, i);
        r := pairs[i := Pair(key, val)];
        return;
      }
      i := i + 1;
    }
    SetPairPast(pairs, key, val, i);
    r := pairs + [Pair(key, val)];
  }

  /** cson_parse. */
  method CsonParse(text: string) returns (n: Option<Node>)
    ensures n == match PsValue(text) case Fail => None case Ok(node, _) => Some(node)
  {
    var ps := new Parser(text);
    n := ps.ReadValue();
  }

  /** sb_t: the printer's buffer. */
  class Builder {
    var buf: string

    constructor ()
      ensures buf == []
    {
      buf := [];
    }

    method PutChar(c: char)
      modifies this
      ensures buf == old(buf) + [c]
    {
      buf := buf + [c];
    }

    method PutStr(s: string)
      modifies this
      ensures buf == old(buf) + s
    {
      buf := buf + s;
    }

    method PutJsonString(s: string)
      modifies this
      ensures buf == old(buf) + ShowStr(s)
    {
      hide Escape, EscapeAll, UpToNul;
      PutChar(QUOTE);
      var i := 0;
      ghost var (start, e) := (buf, EscapeAll(UpToNul(s)));
      assert s[0..] == s;
      while i < |s| && s[i] != NUL
        invariant i <= |s| && buf + EscapeAll(UpToNul(s[i..])) == start + e
      {
        EscapeStep(s, i);
        AppendAssoc(buf, Escape(s[i]), EscapeAll(UpToNul(s[i + 1..])));
        PutStr(Escape(s[i]));
        i := i + 1;
      }
      EscapeStep(s, i);
      Regroup0(buf);
      PutChar(QUOTE);
      AppendAssoc(old(buf), [QUOTE], e);
      AppendAssoc(old(buf), [QUOTE] + e, [QUOTE]);
      AppendAssoc([QUOTE], e, [QUOTE]);
    }

    method PutIndents(indent: string, k: nat)
      modifies this
      ensures buf == old(buf) + Repeat(indent, k)
    {
      var d := 0;
      while d < k
        invariant d <= k && buf + Repeat(indent, k - d) == old(buf) + Repeat(indent, k)
      {
        AppendAssoc(buf, indent, Repeat(indent, k - d - 1));
        PutStr(indent);
        d := d + 1;
      }
      Regroup0(buf);
    }

    method PutBreak(indent: Option<string>, k: nat)
      modifies this
      ensures buf == old(buf) + Break(indent, k)
    {
      match indent {
        case None => Regroup0(buf);
        case Some(s) =>
          AppendAssoc(buf, [LF], Repeat(s, k));
          PutChar(LF);
          PutIndents(s, k);
      }
    }

    method PutNode(n: Node, indent: Option<string>, depth: nat)
      modifies this
      ensures buf == old(buf) + Show(n, indent, depth)
      decreases n, 1
    {
      match n {
        case Null => PutStr("null");
        case Bool(b) => PutStr(if b then "true" else "false");
        case Number(num) => PutStr(ShowNum(num));
        case Str(s) => PutJsonString(s);
        case Arr(items) => PutArray(n, indent, depth);
        case Obj(pairs) => PutObject(n, indent, depth);
      }
    }

    method PutItem(item: Node, last: bool, indent: Option<string>, depth: nat)
      modifies this
      ensures buf == old(buf) + ItemText(item, last, indent, depth)
      decreases item, 2
    {
      hide Break, Comma, Show;
      PutBreak(indent, depth + 1);
      PutNode(item, indent, depth + 1);
      if !last { PutStr(Comma(indent)); }
      var (b, s, c) := (Break(indent, depth + 1), Show(item, indent, depth + 1), if last then [] else Comma(indent));
      assert ((old(buf) + b) + s) + c == old(buf) + (b + (s + c));
    }

    method PutArray(n: Node, indent: Option<string>, depth: nat)
      requires n.Arr?
      modifies this
      ensures buf == old(buf) + Show(n, indent, depth)
      decreases n, 0
    {
      hide ItemText, Break;
      PutChar('[');
      var items := n.items;
      var i := 0;
      ghost var (start, all) := (buf, ShowItems(items, indent, depth));
      assert items[0..] == items;
      while i < |items|
        invariant i <= |items| && buf + ShowItems(items[i..], indent, depth) == start + all
      {
        assert items[i..][1..] == items[i + 1..];
        AppendAssoc(buf, ItemText(items[i], i == |items| - 1, indent, depth), ShowItems(items[i + 1..], indent, depth));
        PutItem(items[i], i == |items| - 1, indent, depth);
        i := i + 1;
      }
      Regroup0(buf);
      if |items| > 0 { PutBreak(indent, depth); }
      PutChar(']');
      Brackets(old(buf), ['['], all, Break(indent, depth), [']']);
    }

    method PutMember(pair: Pair, last: bool, indent: Option<string>, depth: nat)
      modifies this
      ensures buf == old(buf) + PairText(pair, last, indent, depth)
      decreases pair, 2
    {
      hide Break, Comma, Show, ShowStr, Colon;
      PutBreak(indent, depth + 1);
      PutJsonString(pair.key);
      PutStr(Colon(indent));
      PutNode(pair.val, indent, depth + 1);
      if !last { PutStr(Comma(indent)); }
      var (b, k, w) := (Break(indent, depth + 1), ShowStr(pair.key), Colon(indent));
      var (x, c) := (Show(pair.val, indent, depth + 1), if last then [] else Comma(indent));
      assert ((((old(buf) + b) + k) + w) + x) + c == old(buf) + (b + (k + (w + (x + c))));
    }

    method PutObject(n: Node, indent: Option<string>, depth: nat)
      requires n.Obj?
      modifies this
      ensures buf == old(buf) + Show(n, indent, depth)
      decreases n, 0
    {
      hide PairText, Break;
      PutChar('{');
      var pairs := n.pairs;
      var i := 0;
      ghost var (start, all) := (buf, ShowPairs(pairs, indent, depth));
      assert pairs[0..] == pairs;
      while i < |pairs|
        invariant i <= |pairs| && buf + ShowPairs(pairs[i..], indent, depth) == start + all
      {
        assert pairs[i..][1..] == pairs[i + 1..];
        AppendAssoc(buf, PairText(pairs[i], i == |pairs| - 1, indent, depth), ShowPairs(pairs[i + 1..], indent, depth));
        PutMember(pairs[i], i == |pairs| - 1, indent, depth);
        i := i + 1;
      }
      Regroup0(buf);
      if |pairs| > 0 { PutBreak(indent, depth); }
      PutChar('}');
      Brackets(old(buf), ['{'], all, Break(indent, depth), ['}']);
    }
  }

  lemma Brackets(b: string, open: string, all: string, br: string, close: string)
    ensures (((b + open) + all) + br) + close == b + (open + (all + (br + close)))
    ensures all == [] ==> ((b + open) + all) + close == b + (open + close)
  {}

  lemma EscapeStep(s: string, i: nat)
    requires i <= |s|
    ensures i == |s| || s[i] == NUL ==> EscapeAll(UpToNul(s[i..])) == []
    ensures i < |s| && s[i] != NUL ==> EscapeAll(UpToNul(s[i..])) == Escape(s[i]) + EscapeAll(UpToNul(s[i + 1..]))
  {
    if i < |s| && s[i] != NUL {
      assert s[i..][1..] == s[i + 1..];
      assert ([s[i]] + UpToNul(s[i + 1..]))[1..] == UpToNul(s[i + 1..]);
    }
  }

  lemma AppendAssoc(a: string, b: string, c: string)
    ensures (a + b) + c == a + (b + c)
  {}

  /** cson_dumps and cson_dumps_pp. */
  method Dumps(n: Node, indent: Option<string>) returns (s: string)
    ensures s == Show(n, indent, 0)
    ensures WellFormed(n) && WsIndent(indent) ==> PsValue(s) == Ok(n, [])
  {
    hide Show, PsValue, WellFormed;
    var sb := new Builder();
    sb.PutNode(n, indent, 0);
    s := sb.buf;
    Regroup0(Show(n, indent, 0));
    if WellFormed(n) && WsIndent(indent) {
      ParseOfShow(n, indent, 0, []);
    }
  }
}
