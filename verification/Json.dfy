/** The JSON library: trees, the printer and the parser of RFC 8259 texts, as functions. A text is
    a string whose characters stand for bytes. */
module Json {
  import opened Options

  /** A number is a C double: the integers up to 2^53 are exact, any other one is what the C
      library makes of its text. */
  datatype Num = Exact(n: int) | Lib(text: string)

  datatype Node =
    | Null
    | Bool(b: bool)
    | Number(num: Num)
    | Str(s: string)
    | Arr(items: seq<Node>)
    | Obj(pairs: seq<Pair>)

  datatype Pair = Pair(key: string, val: Node)

  const EXACT_MAX: int := 0x20_0000_0000_0000

  const NUL: char := 0 as char
  const TAB: char := 9 as char
  const LF: char := 10 as char
  const CR: char := 13 as char
  const QUOTE: char := '\"'
  const BACKSLASH: char := '\\'

  // ---- the printer ----

  /** The part of a C string that its reader sees. */
  function UpToNul(s: string): (r: string)
    ensures forall i :: 0 <= i < |r| ==> r[i] != NUL
    ensures (forall i :: 0 <= i < |s| ==> s[i] != NUL) ==> r == s
  {
    if s == [] || s[0] == NUL then [] else [s[0]] + UpToNul(s[1..])
  }

  function HexDigit(d: nat): (c: char)
    requires d < 16
  {
    if d < 10 then ('0' as int + d) as char else ('a' as int + d - 10) as char
  }

  /** One character of a string literal. */
  function Escape(c: char): string {
    if c == QUOTE then [BACKSLASH, QUOTE]
    else if c == BACKSLASH then [BACKSLASH, BACKSLASH]
    else if c == LF then [BACKSLASH, 'n']
    else if c == CR then [BACKSLASH, 'r']
    else if c == TAB then [BACKSLASH, 't']
    else if c as int < 0x20 then [BACKSLASH, 'u', '0', '0', HexDigit(c as int / 16), HexDigit(c as int % 16)]
    else [c]
  }

  function EscapeAll(s: string): string {
    if s == [] then [] else Escape(s[0]) + EscapeAll(s[1..])
  }

  /** sb_json_string. */
  function ShowStr(s: string): string { [QUOTE] + (EscapeAll(UpToNul(s)) + [QUOTE]) }

  function Digits(n: nat): (s: string)
    ensures s != []
  {
    if n < 10 then [('0' as int + n) as char] else Digits(n / 10) + [('0' as int + n % 10) as char]
  }

  function ShowNum(n: Num): string {
    match n
    case Exact(i) => if i < 0 then ['-'] + Digits(-i) else Digits(i)
    case Lib(text) => text
  }

  function Repeat(s: string, k: nat): string {
    if k == 0 then [] else s + Repeat(s, k - 1)
  }

  /** A line break and k indents, when the output is pretty. */
  function Break(indent: Option<string>, k: nat): string {
    match indent case None => [] case Some(s) => [LF] + Repeat(s, k)
  }

  function Comma(indent: Option<string>): string { if indent == None then [',', ' '] else [','] }

  function Colon(indent: Option<string>): string { if indent == None then [':'] else [':', ' '] }

  /** sb_node. */
  function Show(n: Node, indent: Option<string>, depth: nat): string
    decreases n, 0
  {
    match n
    case Null => "null"
    case Bool(b) => if b then "true" else "false"
    case Number(num) => ShowNum(num)
    case Str(s) => ShowStr(s)
    case Arr(items) =>
      if items == [] then "[]" else ['['] + (ShowItems(items, indent, depth) + (Break(indent, depth) + [']']))
    case Obj(pairs) =>
      if pairs == [] then "{}" else ['{'] + (ShowPairs(pairs, indent, depth) + (Break(indent, depth) + ['}']))
  }

  function ShowItems(items: seq<Node>, indent: Option<string>, depth: nat): string
    decreases items, 1
  {
    if items == [] then []
    else ItemText(items[0], |items| == 1, indent, depth) + ShowItems(items[1..], indent, depth)
  }

  /** An item with the break before it and, unless it is the last one, the comma after it. */
  function ItemText(item: Node, last: bool, indent: Option<string>, depth: nat): string
    decreases item, 1
  {
    Break(indent, depth + 1) + (Show(item, indent, depth + 1) + (if last then [] else Comma(indent)))
  }

  function ShowPairs(pairs: seq<Pair>, indent: Option<string>, depth: nat): string
    decreases pairs, 2
  {
    if pairs == [] then []
    else PairText(pairs[0], |pairs| == 1, indent, depth) + ShowPairs(pairs[1..], indent, depth)
  }

  function PairText(pair: Pair, last: bool, indent: Option<string>, depth: nat): string
    decreases pair, 1
  {
    Break(indent, depth + 1) +
    (ShowStr(pair.key) + (Colon(indent) + (Show(pair.val, indent, depth + 1) + (if last then [] else Comma(indent)))))
  }

  // ---- the parser ----

  /** A value and the text after it, or failure. */
  datatype Parse = Fail | Ok(node: Node, rest: string)

  predicate IsWs(c: char) { c == ' ' || c == TAB || c == CR || c == LF }

  function SkipWs(s: string): (r: string)
    ensures |r| <= |s|
  {
    if s != [] && IsWs(s[0]) then SkipWs(s[1..]) else s
  }

  predicate IsDigit(c: char) { '0' <= c <= '9' }

  function HexValue(c: char): Option<nat> {
    if '0' <= c <= '9' then Some(c as int - '0' as int)
    else if 'a' <= c <= 'f' then Some(c as int - 'a' as int + 10)
    else if 'A' <= c <= 'F' then Some(c as int - 'A' as int + 10)
    else None
  }

  /** ps_hex4, with k digits still to read. */
  function Hex4(s: string, k: nat, v: nat): (r: (nat, string))
    ensures |r.1| <= |s|
    decreases k
  {
    if k == 0 then (v, s)
    else if s == [] then (0, s)
    else
      match HexValue(s[0])
      case None => (0, s[1..])
      case Some(d) => Hex4(s[1..], k - 1, v * 16 + d)
  }

  function Byte(n: int): char { (n % 256) as char }

  /** utf8_encode. */
  function Utf8(cp: nat): string {
    if cp < 0x80 then [Byte(cp)]
    else if cp < 0x800 then [Byte(0xC0 + cp / 0x40), Byte(0x80 + cp % 0x40)]
    else if cp < 0x10000 then [Byte(0xE0 + cp / 0x1000), Byte(0x80 + (cp / 0x40) % 0x40), Byte(0x80 + cp % 0x40)]
    else [Byte(0xF0 + cp / 0x40000), Byte(0x80 + (cp / 0x1000) % 0x40), Byte(0x80 + (cp / 0x40) % 0x40), Byte(0x80 + cp % 0x40)]
  }

  /** A \u escape, from its first hexadecimal digit on, with the second half of a surrogate pair. */
  function Unicode(s: string): (r: (string, string))
    ensures |r.1| <= |s|
  {
    var (cp, t) := Hex4(s, 4, 0);
    if 0xD800 <= cp <= 0xDBFF && |t| >= 2 && t[0] == BACKSLASH && t[1] == 'u' then
      var (lo, u) := Hex4(t[2..], 4, 0);
      (Utf8(if 0xDC00 <= lo <= 0xDFFF then 0x10000 + (cp - 0xD800) * 0x400 + (lo - 0xDC00) else cp), u)
    else (Utf8(cp), t)
  }

  function Unescape(c: char): char {
    match c
    case '\"' => QUOTE
    case '\\' => BACKSLASH
    case '/' => '/'
    case 'b' => 8 as char
    case 'f' => 12 as char
    case 'n' => LF
    case 'r' => CR
    case 't' => TAB
    case _ => '?'
  }

  /** What follows a backslash: the characters it stands for, and the text after it. */
  function EscapeSeq(s: string): (r: (string, string))
    requires s != []
    ensures |r.1| < |s|
  {
    if s[0] == 'u' then Unicode(s[1..]) else ([Unescape(s[0])], s[1..])
  }

  /** The characters of a string after its opening quote, and the text after its closing one. */
  function StrBody(s: string): (r: (string, string))
    ensures |r.1| <= |s|
    decreases |s|
  {
    if s == [] then ([], s)
    else if s[0] == QUOTE then ([], s[1..])
    else if s[0] != BACKSLASH then
      var (b, r) := StrBody(s[1..]);
      ([s[0]] + b, r)
    else if |s| == 1 then ([], [])
    else
      var (u, t) := EscapeSeq(s[1..]);
      var (b, r) := StrBody(t);
      (u + b, r)
  }

  function DigitRun(s: string): (n: nat)
    ensures n <= |s|
  {
    if s != [] && IsDigit(s[0]) then 1 + DigitRun(s[1..]) else 0
  }

  /** The length of the fraction at the front of s, if there is one. */
  function FracLen(s: string): (n: nat)
    ensures n <= |s|
  {
    if s != [] && s[0] == '.' then 1 + DigitRun(s[1..]) else 0
  }

  function ExpLen(s: string): (n: nat)
    ensures n <= |s|
  {
    if s == [] || !(s[0] == 'e' || s[0] == 'E') then 0
    else
      var sign := if |s| > 1 && (s[1] == '+' || s[1] == '-') then 1 else 0;
      1 + sign + DigitRun(s[1 + sign..])
  }

  function Decimal(s: string): nat {
    if s == [] then 0
    else Decimal(s[..|s| - 1]) * 10 + (if IsDigit(s[|s| - 1]) then s[|s| - 1] as int - '0' as int else 0)
  }

  /** The number that a sign and a digit string denote. */
  function IntOf(neg: bool, digits: string, text: string): Num {
    var v: int := if neg then 0 - Decimal(digits) else Decimal(digits);
    if -EXACT_MAX <= v <= EXACT_MAX then Exact(v) else Lib(text)
  }

  function PsNumber(s: string): (r: Parse)
    requires s != [] && (s[0] == '-' || IsDigit(s[0]))
    ensures r.Ok? ==> |r.rest| < |s|
  {
    var neg := s[0] == '-';
    var t := if neg then s[1..] else s;
    var n := DigitRun(t);
    var f := FracLen(t[n..]);
    var e := ExpLen(t[n + f..]);
    var len := (if neg then 1 else 0) + n + f + e;
    if len >= 64 then Fail
    else Ok(Number(if f + e == 0 then IntOf(neg, t[..n], s[..len]) else Lib(s[..len])), s[len..])
  }

  predicate StartsWith(s: string, w: string) { |s| >= |w| && s[..|w|] == w }

  /** ps_value. */
  function PsValue(s0: string): (r: Parse)
    ensures r.Ok? ==> |r.rest| < |s0|
    decreases |s0|, 0
  {
    var s := SkipWs(s0);
    if s == [] then Fail
    else if s[0] == QUOTE then var (b, r) := StrBody(s[1..]); Ok(Str(b), r)
    else if s[0] == '{' then
      var t := SkipWs(s[1..]);
      if t != [] && t[0] == '}' then Ok(Obj([]), t[1..]) else PsPairs(t, [])
    else if s[0] == '[' then
      var t := SkipWs(s[1..]);
      if t != [] && t[0] == ']' then Ok(Arr([]), t[1..]) else PsItems(t, [])
    else if StartsWith(s, "true") then Ok(Bool(true), s[4..])
    else if StartsWith(s, "false") then Ok(Bool(false), s[5..])
    else if StartsWith(s, "null") then Ok(Null, s[4..])
    else if s[0] == '-' || IsDigit(s[0]) then PsNumber(s)
    else Fail
  }

  /** The items of an array, after the ones in acc. */
  function PsItems(s: string, acc: seq<Node>): (r: Parse)
    ensures r.Ok? ==> |r.rest| < |s|
    decreases |s|, 1
  {
    if s == [] then Fail
    else
      match PsValue(s)
      case Fail => Fail
      case Ok(item, rest) =>
        var t := SkipWs(rest);
        if t == [] then Fail
        else if t[0] == ']' then Ok(Arr(acc + [item]), t[1..])
        else if t[0] != ',' then Fail
        else PsItems(t[1..], acc + [item])
  }

  /** cson_set_n: the value of a key that is there is replaced in place, a new key goes last. */
  function SetPair(pairs: seq<Pair>, key: string, val: Node): (r: seq<Pair>)
    ensures |pairs| <= |r| <= |pairs| + 1
  {
    if pairs == [] then [Pair(key, val)]
    else if pairs[0].key == key then [Pair(key, val)] + pairs[1..]
    else [pairs[0]] + SetPair(pairs[1..], key, val)
  }

  /** A key, up to and with its colon: its characters and the text after it. */
  function KeyOf(s: string): (r: (Option<string>, string))
    ensures r.0.Some? ==> |r.1| < |s|
  {
    var s1 := SkipWs(s);
    if s1 == [] || s1[0] != QUOTE then (None, [])
    else
      var (k, r1) := StrBody(s1[1..]);
      var s2 := SkipWs(r1);
      if s2 == [] || s2[0] != ':' then (None, []) else (Some(k), s2[1..])
  }

  /** The members of an object, after the ones in acc. */
  function PsPairs(s: string, acc: seq<Pair>): (r: Parse)
    ensures r.Ok? ==> |r.rest| < |s|
    decreases |s|, 1
  {
    var (k, r1) := KeyOf(s);
    if k == None then Fail
    else
      match PsValue(r1)
      case Fail => Fail
      case Ok(val, r2) =>
        var acc1 := SetPair(acc, UpToNul(k.value), val);
        var t := SkipWs(r2);
        if t == [] then Fail
        else if t[0] == '}' then Ok(Obj(acc1), t[1..])
        else if t[0] != ',' then Fail
        else PsPairs(t[1..], acc1)
  }
}
