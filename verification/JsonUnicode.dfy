/** The `\u` escapes of JSON strings: what they are decoded to is UTF-8 (RFC 3629) of the code
    point that RFC 8259 section 7 gives them. */
module JsonUnicode {
  import opened Options
  import opened Json

  predicate IsHex(c: char) { HexValue(c).Some? }

  /** Four hexadecimal digits, of either case. */
  predicate Four(d: string) { |d| == 4 && forall i :: 0 <= i < 4 ==> IsHex(d[i]) }

  function Digit(c: char): nat { if IsHex(c) then HexValue(c).value else 0 }

  /** The number that four digits denote. */
  function Code(d: string): (n: nat)
    requires Four(d)
    ensures n < 0x10000
  {
    HexSmall(d[0]); HexSmall(d[1]); HexSmall(d[2]); HexSmall(d[3]);
    Digit(d[0]) * 0x1000 + Digit(d[1]) * 0x100 + Digit(d[2]) * 0x10 + Digit(d[3])
  }

  lemma HexSmall(c: char)
    ensures Digit(c) < 16
  {}

  predicate High(n: nat) { 0xD800 <= n <= 0xDBFF }

  predicate Low(n: nat) { 0xDC00 <= n <= 0xDFFF }

  /** A Unicode scalar value. */
  predicate Scalar(n: nat) { n <= 0x10FFFF && !High(n) && !Low(n) }

  // ---- UTF-8 read back, by its definition ----

  function At(s: string, i: nat): int { if i < |s| then s[i] as int else -1 }

  predicate Continues(b: int) { 0x80 <= b <= 0xBF }

  /** The first code point of a UTF-8 text, shortest form only, and what follows it. */
  function Decode(s: string): Option<(nat, string)> {
    var (a, b, c, d) := (At(s, 0), At(s, 1), At(s, 2), At(s, 3));
    if 0 <= a < 0x80 then Some((a, s[1..]))
    else if 0xC2 <= a <= 0xDF && Continues(b) then Some(((a - 0xC0) * 0x40 + (b - 0x80), s[2..]))
    else if 0xE0 <= a <= 0xEF && Continues(b) && Continues(c) then
      var n := (a - 0xE0) * 0x1000 + (b - 0x80) * 0x40 + (c - 0x80);
      if n >= 0x800 && Scalar(n) then Some((n, s[3..])) else None
    else if 0xF0 <= a <= 0xF4 && Continues(b) && Continues(c) && Continues(d) then
      var n := (a - 0xF0) * 0x40000 + (b - 0x80) * 0x1000 + (c - 0x80) * 0x40 + (d - 0x80);
      if n >= 0x10000 && Scalar(n) then Some((n, s[4..])) else None
    else None
  }

  /** The digits of cp to the base 64. */
  lemma Digits64(cp: nat)
    ensures var (x, y, z) := (cp / 0x40000, (cp / 0x1000) % 0x40, (cp / 0x40) % 0x40);
            cp == x * 0x40000 + y * 0x1000 + z * 0x40 + cp % 0x40
            && (cp < 0x40000 ==> cp / 0x1000 == y) && (cp < 0x1000 ==> cp / 0x40 == z)
  {
    assert cp / 0x1000 == (cp / 0x40000) * 0x40 + (cp / 0x1000) % 0x40;
    assert cp / 0x40 == (cp / 0x1000) * 0x40 + (cp / 0x40) % 0x40;
  }

  lemma ByteIs(n: nat)
    requires n < 0x100
    ensures Byte(n) as int == n
  {}

  lemma Decode1(a: nat, f: string)
    requires a < 0x80
    ensures Decode([Byte(a)] + f) == Some((a, f))
  {
    assert ([Byte(a)] + f)[1..] == f;
  }

  lemma Decode2(a: nat, b: nat, f: string)
    requires 2 <= a < 0x20 && b < 0x40
    ensures Decode([Byte(0xC0 + a), Byte(0x80 + b)] + f) == Some((a * 0x40 + b, f))
  {
    ByteIs(0xC0 + a); ByteIs(0x80 + b);
    hide Byte;
    var s := [Byte(0xC0 + a), Byte(0x80 + b)] + f;
    assert At(s, 0) == 0xC0 + a && At(s, 1) == 0x80 + b && s[2..] == f;
  }

  lemma Decode3(a: nat, b: nat, c: nat, f: string)
    requires a < 0x10 && b < 0x40 && c < 0x40
    requires var n := a * 0x1000 + b * 0x40 + c; n >= 0x800 && Scalar(n)
    ensures Decode([Byte(0xE0 + a), Byte(0x80 + b), Byte(0x80 + c)] + f) == Some((a * 0x1000 + b * 0x40 + c, f))
  {
    ByteIs(0xE0 + a); ByteIs(0x80 + b); ByteIs(0x80 + c);
    hide Byte;
    var s := [Byte(0xE0 + a), Byte(0x80 + b), Byte(0x80 + c)] + f;
    assert At(s, 0) == 0xE0 + a && At(s, 1) == 0x80 + b && At(s, 2) == 0x80 + c && s[3..] == f;
  }

  lemma Decode4(a: nat, b: nat, c: nat, d: nat, f: string)
    requires b < 0x40 && c < 0x40 && d < 0x40
    requires var n := a * 0x40000 + b * 0x1000 + c * 0x40 + d; n >= 0x10000 && Scalar(n)
    ensures Decode([Byte(0xF0 + a), Byte(0x80 + b), Byte(0x80 + c), Byte(0x80 + d)] + f)
         == Some((a * 0x40000 + b * 0x1000 + c * 0x40 + d, f))
  {
    ByteIs(0xF0 + a); ByteIs(0x80 + b); ByteIs(0x80 + c); ByteIs(0x80 + d);
    hide Byte;
    var s := [Byte(0xF0 + a), Byte(0x80 + b), Byte(0x80 + c), Byte(0x80 + d)] + f;
    assert At(s, 0) == 0xF0 + a && At(s, 1) == 0x80 + b && At(s, 2) == 0x80 + c && At(s, 3) == 0x80 + d && s[4..] == f;
  }

  /** utf8_encode writes every scalar value in the form that UTF-8 defines for it. */
  lemma Utf8Decodes(cp: nat, f: string)
    requires Scalar(cp)
    ensures Decode(Utf8(cp) + f) == Some((cp, f))
  {
    hide Decode, Byte;
    Digits64(cp);
    if cp < 0x80 {
      Decode1(cp, f);
    } else if cp < 0x800 {
      Decode2(cp / 0x40, cp % 0x40, f);
    } else if cp < 0x10000 {
      Decode3(cp / 0x1000, (cp / 0x40) % 0x40, cp % 0x40, f);
    } else {
      Decode4(cp / 0x40000, (cp / 0x1000) % 0x40, (cp / 0x40) % 0x40, cp % 0x40, f);
    }
  }

  // ---- escapes ----

  lemma FourRead(d: string, f: string)
    requires Four(d)
    ensures Hex4(d + f, 4, 0) == (Code(d), f)
  {
    var s := d + f;
    assert s == [d[0]] + ([d[1]] + ([d[2]] + ([d[3]] + f)));
    HexOne(d[3], f, 0, (Digit(d[0]) * 16 + Digit(d[1])) * 16 + Digit(d[2]));
    HexOne(d[2], [d[3]] + f, 1, Digit(d[0]) * 16 + Digit(d[1]));
    HexOne(d[1], [d[2]] + ([d[3]] + f), 2, Digit(d[0]));
    HexOne(d[0], [d[1]] + ([d[2]] + ([d[3]] + f)), 3, 0);
  }

  lemma HexOne(c: char, s: string, k: nat, v: nat)
    requires IsHex(c)
    ensures Hex4([c] + s, k + 1, v) == Hex4(s, k, v * 16 + Digit(c))
    ensures Hex4(s, 0, v) == (v, s)
  {
    assert ([c] + s)[1..] == s;
  }

  /** An escape that is no high surrogate gives the UTF-8 of its number, whatever follows. */
  lemma EscapeRead(d: string, f: string)
    requires Four(d) && !High(Code(d))
    ensures Unicode(d + f) == (Utf8(Code(d)), f)
    ensures Scalar(Code(d)) ==> Decode(Unicode(d + f).0) == Some((Code(d), []))
  {
    hide Hex4, Utf8, Decode, Code;
    FourRead(d, f);
    if Scalar(Code(d)) {
      Utf8Decodes(Code(d), []);
      assert Utf8(Code(d)) + [] == Utf8(Code(d));
    }
  }

  function PairCode(hi: nat, lo: nat): nat
    requires High(hi) && Low(lo)
  {
    0x10000 + (hi - 0xD800) * 0x400 + (lo - 0xDC00)
  }

  const ESCAPE := [BACKSLASH, 'u']

  /** A high surrogate with an escape behind it takes that escape in: a low one completes the
      pair, any other one is lost. */
  lemma SurrogateRead(d: string, e: string, f: string)
    requires Four(d) && High(Code(d)) && Four(e)
    ensures Unicode(d + (ESCAPE + (e + f))) == (Utf8(if Low(Code(e)) then PairCode(Code(d), Code(e)) else Code(d)), f)
    ensures Low(Code(e)) ==> Decode(Unicode(d + (ESCAPE + (e + f))).0) == Some((PairCode(Code(d), Code(e)), []))
  {
    hide Hex4, Utf8, Decode, Code;
    var t := ESCAPE + (e + f);
    FourRead(d, t);
    FourRead(e, f);
    assert t[2..] == e + f;
    if Low(Code(e)) {
      var n := PairCode(Code(d), Code(e));
      Utf8Decodes(n, []);
      assert Utf8(n) + [] == Utf8(n);
    }
  }

  /** Every code point above the basic plane has a surrogate pair, and the pair decodes to it. */
  lemma PairExists(cp: nat)
    requires 0x10000 <= cp <= 0x10FFFF
    ensures var (hi, lo) := (0xD800 + (cp - 0x10000) / 0x400, 0xDC00 + (cp - 0x10000) % 0x400);
            High(hi) && Low(lo) && PairCode(hi, lo) == cp
  {}
}
