/** What printed texts look like: separators, line breaks, indents and escapes, written out. */
module JsonLayout {
  import opened Options
  import opened Json

  /** The texts one after another, with a separator between each two. */
  function Joined(sep: string, ts: seq<string>): string {
    if ts == [] then "" else if |ts| == 1 then ts[0] else ts[0] + (sep + Joined(sep, ts[1..]))
  }

  function Indents(ind: string, k: nat): string { if k == 0 then "" else ind + Indents(ind, k - 1) }

  function ItemTexts(items: seq<Node>, front: string, indent: Option<string>, depth: nat): (ts: seq<string>)
    ensures |ts| == |items|
    ensures forall i :: 0 <= i < |items| ==> ts[i] == front + Show(items[i], indent, depth)
  {
    seq(|items|, i requires 0 <= i < |items| => front + Show(items[i], indent, depth))
  }

  function PairTexts(pairs: seq<Pair>, front: string, colon: string, indent: Option<string>, depth: nat): (ts: seq<string>)
    ensures |ts| == |pairs|
    ensures forall i :: 0 <= i < |pairs| ==> ts[i] == front + (ShowStr(pairs[i].key) + (colon + Show(pairs[i].val, indent, depth)))
  {
    seq(|pairs|, i requires 0 <= i < |pairs| => front + (ShowStr(pairs[i].key) + (colon + Show(pairs[i].val, indent, depth))))
  }

  lemma {:induction false} IndentsAre(ind: string, k: nat)
    ensures Repeat(ind, k) == Indents(ind, k)
  {
    if k > 0 { IndentsAre(ind, k - 1); }
  }

  lemma JoinedCons(sep: string, t: string, ts: seq<string>)
    ensures Joined(sep, [t] + ts) == if ts == [] then t else t + (sep + Joined(sep, ts))
  {
    assert ([t] + ts)[1..] == ts;
  }

  lemma {:induction false} ItemsJoined(items: seq<Node>, indent: Option<string>, depth: nat, front: string, sep: string)
    requires items != [] && front == Break(indent, depth + 1) && sep == Comma(indent)
    ensures ShowItems(items, indent, depth) == Joined(sep, ItemTexts(items, front, indent, depth + 1))
    decreases |items|
  {
    hide Show, Joined, ItemTexts;
    var t := front + Show(items[0], indent, depth + 1);
    var ts := ItemTexts(items[1..], front, indent, depth + 1);
    assert ItemTexts(items, front, indent, depth + 1) == [t] + ts;
    JoinedCons(sep, t, ts);
    if |items| == 1 {
      assert ShowItems(items, indent, depth) == ItemText(items[0], true, indent, depth) + [] == t;
    } else {
      ItemsJoined(items[1..], indent, depth, front, sep);
      assert ItemText(items[0], false, indent, depth) == t + sep;
      assert (t + sep) + Joined(sep, ts) == t + (sep + Joined(sep, ts));
    }
  }

  lemma {:induction false} PairsJoined(pairs: seq<Pair>, indent: Option<string>, depth: nat, front: string, colon: string, sep: string)
    requires pairs != [] && front == Break(indent, depth + 1) && colon == Colon(indent) && sep == Comma(indent)
    ensures ShowPairs(pairs, indent, depth) == Joined(sep, PairTexts(pairs, front, colon, indent, depth + 1))
    decreases |pairs|
  {
    hide Show, ShowStr, Joined, PairTexts;
    var p := pairs[0];
    var body := ShowStr(p.key) + (colon + Show(p.val, indent, depth + 1));
    var t := front + body;
    var ts := PairTexts(pairs[1..], front, colon, indent, depth + 1);
    assert PairTexts(pairs, front, colon, indent, depth + 1) == [t] + ts;
    JoinedCons(sep, t, ts);
    if |pairs| == 1 {
      assert ShowPairs(pairs, indent, depth) == PairText(p, true, indent, depth) + [] == t;
    } else {
      PairsJoined(pairs[1..], indent, depth, front, colon, sep);
      assert PairText(p, false, indent, depth) == t + sep;
      assert (t + sep) + Joined(sep, ts) == t + (sep + Joined(sep, ts));
    }
  }

  /** Compact: everything on one line, a comma and a space between items, a colon behind keys. */
  lemma CompactArray(items: seq<Node>, depth: nat)
    ensures Show(Arr(items), None, depth) == "[" + (Joined(", ", ItemTexts(items, "", None, depth + 1)) + "]")
  {
    if items != [] { ItemsJoined(items, None, depth, "", ", "); }
  }

  lemma CompactObject(pairs: seq<Pair>, depth: nat)
    ensures Show(Obj(pairs), None, depth) == "{" + (Joined(", ", PairTexts(pairs, "", ":", None, depth + 1)) + "}")
  {
    if pairs != [] { PairsJoined(pairs, None, depth, "", ":", ", "); }
  }

  /** Pretty: each item on a line of its own, one indent deeper than the brackets, a colon and a space
      behind keys; nothing inside empty brackets. */
  lemma PrettyArray(items: seq<Node>, ind: string, depth: nat)
    ensures Show(Arr(items), Some(ind), depth) ==
              if items == [] then "[]"
              else "[" + (Joined(",", ItemTexts(items, "\n" + Indents(ind, depth + 1), Some(ind), depth + 1))
                          + ("\n" + Indents(ind, depth) + "]"))
  {
    if items != [] {
      IndentsAre(ind, depth);
      IndentsAre(ind, depth + 1);
      ItemsJoined(items, Some(ind), depth, "\n" + Indents(ind, depth + 1), ",");
    }
  }

  lemma PrettyObject(pairs: seq<Pair>, ind: string, depth: nat)
    ensures Show(Obj(pairs), Some(ind), depth) ==
              if pairs == [] then "{}"
              else "{" + (Joined(",", PairTexts(pairs, "\n" + Indents(ind, depth + 1), ": ", Some(ind), depth + 1))
                          + ("\n" + Indents(ind, depth) + "}"))
  {
    if pairs != [] {
      IndentsAre(ind, depth);
      IndentsAre(ind, depth + 1);
      PairsJoined(pairs, Some(ind), depth, "\n" + Indents(ind, depth + 1), ": ", ",");
    }
  }

  /** A string: quotes around its characters up to the first NUL. Five have a letter, the other control
      characters four hexadecimal digits, and all others stand for themselves. */
  lemma StringShown(s: string)
    ensures ShowStr(s) == "\"" + (Escaped(UpToNul(s)) + "\"")
  {
    EscapesAre(UpToNul(s));
  }

  function Escaped(s: string): string { if s == [] then "" else EscapeOf(s[0]) + Escaped(s[1..]) }

  lemma {:induction false} EscapesAre(s: string)
    ensures EscapeAll(s) == Escaped(s)
  {
    hide Escape, EscapeOf;
    if s != [] {
      EscapeIs(s[0]);
      EscapesAre(s[1..]);
    }
  }

  lemma {:induction false} CutAtNul(s: string, rest: string)
    requires forall i :: 0 <= i < |s| ==> s[i] as int != 0
    ensures UpToNul(s + ([0 as char] + rest)) == s == UpToNul(s)
  {
    if s != [] {
      assert (s + ([0 as char] + rest))[1..] == s[1..] + ([0 as char] + rest);
      CutAtNul(s[1..], rest);
    } else {
      assert s + ([0 as char] + rest) == [0 as char] + rest;
    }
  }

  function EscapeOf(c: char): string {
    var n := c as int;
    if n == 34 then ['\\', '"']
    else if n == 92 then ['\\', '\\']
    else if n == 10 then ['\\', 'n']
    else if n == 13 then ['\\', 'r']
    else if n == 9 then ['\\', 't']
    else if n < 32 then ['\\', 'u', '0', '0', HEX[n / 16], HEX[n % 16]]
    else [c]
  }

  const HEX: string := "0123456789abcdef"

  lemma EscapeIs(c: char)
    ensures Escape(c) == EscapeOf(c)
  {
    if c as int < 32 {
      HexIs(c as int / 16);
      HexIs(c as int % 16);
    }
  }

  lemma HexIs(d: nat)
    requires d < 16
    ensures HexDigit(d) == HEX[d]
  {}
}
