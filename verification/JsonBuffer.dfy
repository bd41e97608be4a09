/** The two passes over a string of a JSON text: the first measures the buffer that the second fills.
    They take a `\u` escape with a bad digit differently, and can fall out of step there. */
module JsonBuffer {
  import opened Options
  import opened Json
  import opened JsonRoundTrip

  function Beyond(s: string, n: nat): string { if n <= |s| then s[n..] else [] }

  /** The measuring pass, from after the opening quote on: the size of the buffer without its NUL. */
  function Measure(s: string): nat
    decreases |s|
  {
    if s == [] || s[0] == QUOTE then 0
    else if s[0] != BACKSLASH || |s| == 1 then 1 + Measure(s[1..])
    else 4 + Measure(Beyond(s, if s[1] == 'u' then 6 else 2))
  }

  /** What a `\u` escape leaves of its four characters unread when a digit is bad, for t after the `u`. */
  function Unread(t: string): (u: string)
    ensures |u| <= 4
  {
    var r := Hex4(t, 4, 0).1;
    var n := |r| + 4 - |t|;
    if n < 0 then [] else if n > 4 then [] else if n <= |r| then r[..n] else r
  }

  /** How the second pass comes through the characters that the first has skipped: the string ends in
      them, an escape ends with them, or one goes on behind them. */
  datatype Landing = Ends | Lands | Crosses

  function Land(u: string): Landing
    decreases |u|
  {
    if u == [] then Lands
    else if u[0] == QUOTE then Ends
    else if u[0] != BACKSLASH then Land(u[1..])
    else if |u| >= 2 && u[1] != 'u' then Land(u[2..])
    else if |u| >= 3 && HexValue(u[2]) == None then Land(u[3..])
    else Crosses
  }

  /** No escape goes on behind the four characters of a `\u` escape before it. */
  predicate InStep(s: string)
    decreases |s|
  {
    if s == [] || s[0] == QUOTE then true
    else if s[0] != BACKSLASH || |s| == 1 then InStep(s[1..])
    else if s[1] != 'u' then InStep(s[2..])
    else |s| < 6 || Land(Unread(s[2..])) == Ends || (Land(Unread(s[2..])) == Lands && InStep(s[6..]))
  }

  /** The digits that ps_hex4 takes: all four, or up to and with a bad one, or up to the end. */
  lemma {:induction false} Hex4Takes(t: string, k: nat, v: nat)
    ensures var (n, r) := Hex4(t, k, v);
            |r| <= |t| && r == t[|t| - |r|..] && |t| - |r| <= k && (|t| - |r| < k ==> n == 0)
            && (t != [] && k > 0 ==> |r| < |t|)
    decreases k
  {
    if k > 0 && t != [] && HexValue(t[0]).Some? {
      Hex4Takes(t[1..], k - 1, v * 16 + HexValue(t[0]).value);
    }
  }

  lemma Utf8Short(cp: nat)
    ensures |Utf8(cp)| <= 4 && |Utf8(0)| == 1
  {}

  /** The text behind an escape, and what it stands for: a character, or for `\u` what Unicode says. */
  lemma BodyOfEscape(s: string)
    requires |s| >= 2 && s[0] == BACKSLASH
    ensures s[1] != 'u' ==> |StrBody(s).0| == 1 + |StrBody(s[2..]).0|
    ensures s[1] == 'u' ==> |StrBody(s).0| == |Unicode(s[2..]).0| + |StrBody(Unicode(s[2..]).1).0|
  {
    hide Unicode;
    assert s[1..][1..] == s[2..];
  }

  /** A `\u` escape with a bad digit stands for one character. */
  lemma BadEscape(s: string)
    requires |s| >= 2 && s[0] == BACKSLASH && s[1] == 'u' && Hex4(s[2..], 4, 0).0 == 0
    ensures |StrBody(s).0| == 1 + |StrBody(Hex4(s[2..], 4, 0).1).0|
  {
    hide Hex4, Utf8, StrBody;
    BodyOfEscape(s);
    Utf8Short(0);
  }

  /** Through the characters that the first pass has skipped, the second writes no more than one for
      each. */
  lemma {:induction false} LandFits(r: string, d: nat)
    requires d <= |r|
    ensures Land(r[..d]) == Ends ==> |StrBody(r).0| <= d
    ensures Land(r[..d]) == Lands ==> |StrBody(r).0| <= d + |StrBody(r[d..]).0|
    decreases d
  {
    hide Hex4, EscapeSeq;
    var u := r[..d];
    if d == 0 || r[0] == QUOTE {
      assert d == 0 ==> r[d..] == r;
    } else if r[0] != BACKSLASH {
      assert r[1..][..d - 1] == u[1..] && r[1..][d - 1..] == r[d..];
      LandFits(r[1..], d - 1);
    } else if d >= 2 && r[1] != 'u' {
      assert r[2..][..d - 2] == u[2..] && r[2..][d - 2..] == r[d..];
      LandFits(r[2..], d - 2);
      BodyOfEscape(r);
    } else if d >= 3 && HexValue(r[2]) == None {
      assert r[3..][..d - 3] == u[3..] && r[3..][d - 3..] == r[d..];
      LandFits(r[3..], d - 3);
      FirstBad(r[2..]);
      BadEscape(r);
    }
  }

  lemma FirstBad(t: string)
    requires t != [] && HexValue(t[0]) == None
    ensures Hex4(t, 4, 0) == (0, t[1..])
  {}

  /** A string is never longer than the text that it is read from. */
  lemma {:induction false} NoLonger(s: string)
    ensures |StrBody(s).0| <= |s|
    decreases |s|
  {
    hide Unicode;
    if s != [] && s[0] != QUOTE {
      if s[0] != BACKSLASH {
        NoLonger(s[1..]);
      } else if |s| > 1 {
        BodyOfEscape(s);
        if s[1] != 'u' { NoLonger(s[2..]); } else {
          NoLonger(Unicode(s[2..]).1);
          UnicodeNoLonger(s[2..]);
        }
      }
    }
  }

  lemma UnicodeNoLonger(t: string)
    ensures |Unicode(t).0| + |Unicode(t).1| <= |t| + 2
  {
    hide Hex4, Utf8;
    var (n, r) := Hex4(t, 4, 0);
    Hex4Takes(t, 4, 0);
    Utf8Short(n);
    if |r| >= 2 {
      var lo := Hex4(r[2..], 4, 0).0;
      Hex4Takes(r[2..], 4, 0);
      Utf8Short(if 0xDC00 <= lo <= 0xDFFF && n >= 0xD800 then 0x10000 + (n - 0xD800) * 0x400 + (lo - 0xDC00) else n);
    }
  }

  /** What the second pass writes behind the digits of a `\u` escape, t standing after its `u`. */
  lemma {:induction false} BehindDigits(t: string)
    requires |t| < 4 || Land(Unread(t)) == Ends || (Land(Unread(t)) == Lands && |StrBody(t[4..]).0| <= Measure(t[4..]))
    ensures var (n, r) := Hex4(t, 4, 0);
            |StrBody(r).0| <= 3 + Measure(Beyond(t, 4)) && (n != 0 ==> |StrBody(r).0| <= Measure(Beyond(t, 4)))
  {
    hide Hex4, Measure, StrBody, Land;
    var (n, r) := Hex4(t, 4, 0);
    Hex4Takes(t, 4, 0);
    if |t| < 4 {
      NoLonger(r);
    } else {
      var d := |r| + 4 - |t|;
      assert Unread(t) == r[..d] && r[d..] == t[4..];
      LandFits(r, d);
      if d == 0 { NothingUnread(); assert r[..d] == []; }
    }
  }

  lemma NothingUnread()
    ensures Land([]) == Lands
  {}

  /** The buffer that the first pass measures holds what the second writes, in every text whose string
      keeps the passes in step. */
  lemma {:induction false} BufferFits(s: string)
    requires InStep(s)
    ensures |StrBody(s).0| <= Measure(s)
    decreases |s|, 2
  {
    hide Unread, Hex4, Utf8, EscapeSeq, Land;
    if s != [] && s[0] != QUOTE {
      if s[0] != BACKSLASH || |s| == 1 {
        BufferFits(s[1..]);
      } else if s[1] != 'u' {
        BufferFits(s[2..]);
        BodyOfEscape(s);
      } else {
        EscapeFits(s);
      }
    }
  }

  lemma {:induction false} EscapeFits(s: string)
    requires InStep(s) && |s| >= 2 && s[0] == BACKSLASH && s[1] == 'u'
    ensures |StrBody(s).0| <= Measure(s)
    decreases |s|, 1
  {
    hide Unread, Hex4, Utf8, Land, StrBody;
    var t := s[2..];
    var (n, r) := Hex4(t, 4, 0);
    BodyOfEscape(s);
    assert Beyond(t, 4) == Beyond(s, 6);
    Hex4Takes(t, 4, 0);
    if |t| >= 4 && InStep(t[4..]) { BufferFits(t[4..]); }
    assert |t| >= 4 ==> t[4..] == s[6..];
    BehindDigits(t);
    Utf8Short(n);
    if 0xD800 <= n <= 0xDBFF && |r| >= 2 && r[0] == BACKSLASH && r[1] == 'u' {
      PairFits(s, n, r);
    }
  }

  /** The second escape of a surrogate pair. */
  lemma {:induction false} PairFits(s: string, n: nat, r: string)
    requires InStep(s) && |s| >= 2 && s[0] == BACKSLASH && s[1] == 'u'
    requires (n, r) == Hex4(s[2..], 4, 0) && 0xD800 <= n <= 0xDBFF && |r| >= 2 && r[0] == BACKSLASH && r[1] == 'u'
    ensures |StrBody(s).0| <= Measure(s)
    decreases |s|, 0
  {
    hide Hex4, Utf8, StrBody;
    var t := s[2..];
    Hex4Takes(t, 4, 0);
    assert r == t[4..] == s[6..] && Beyond(s, 6) == r;
    NothingUnread();
    assert Unread(t) == [];
    hide Unread, Land;
    var t2 := r[2..];
    var lo := Hex4(t2, 4, 0).0;
    BodyOfEscape(s);
    assert Beyond(r, 6) == Beyond(t2, 4);
    assert |t2| >= 4 ==> t2[4..] == r[6..];
    if |t2| >= 4 && InStep(t2[4..]) { BufferFits(t2[4..]); }
    BehindDigits(t2);
    Utf8Short(if 0xDC00 <= lo <= 0xDFFF then 0x10000 + (n - 0xD800) * 0x400 + (lo - 0xDC00) else n);
  }

  /** Every string that is printed has the room that reading it back takes. */
  lemma {:induction false} PrintedFits(s: string, f: string)
    requires NulFree(s)
    ensures |StrBody(EscapeAll(s) + ([QUOTE] + f)).0| == |s| <= Measure(EscapeAll(s) + ([QUOTE] + f))
  {
    hide StrBody, Measure;
    StrRead(s, f);
    if s != [] {
      PrintedFits(s[1..], f);
      StrRead(s[1..], f);
      var q := EscapeAll(s[1..]) + ([QUOTE] + f);
      assert EscapeAll(s) + ([QUOTE] + f) == Escape(s[0]) + q;
      MeasureEscape(s[0], q);
    }
  }

  lemma MeasureEscape(c: char, s: string)
    ensures Measure(Escape(c) + s) >= 1 + Measure(s)
  {
    var e := Escape(c);
    assert (e + s)[|e|..] == s;
    assert forall i :: 0 <= i < |e| ==> (e + s)[i] == e[i];
  }

  // ---- out of step ----

  function Plain(n: nat): string { seq(n, _ => 'A') }

  lemma {:induction false} PlainBody(n: nat, f: string)
    ensures |StrBody(Plain(n) + ([QUOTE] + f)).0| == n
  {
    var s := Plain(n) + ([QUOTE] + f);
    if n == 0 {
      assert s == [QUOTE] + f;
    } else {
      assert Plain(n) == ['A'] + Plain(n - 1);
      assert s[1..] == Plain(n - 1) + ([QUOTE] + f);
      PlainBody(n - 1, f);
    }
  }

  /** The rest of a string that the first pass takes to end at its third character and the second,
      with an escape going on into it, behind n more. */
  function Trap(n: nat): string { [BACKSLASH, BACKSLASH, QUOTE] + (Plain(n) + [QUOTE]) }

  lemma TrapParts(n: nat)
    ensures InStep(Trap(n)) && Measure(Trap(n)) == 4
    ensures |StrBody(Trap(n)[1..]).0| == 1 + n
  {
    var (s, q) := (Trap(n), Plain(n) + [QUOTE]);
    assert s[2..] == [QUOTE] + q && s[1..] == [BACKSLASH, QUOTE] + q && s[1..][2..] == q;
    BodyOfEscape(s[1..]);
    assert [QUOTE] + [] == [QUOTE];
    PlainBody(n, []);
  }

  /** An escape that goes on behind the characters u takes the first backslash of the trap. */
  lemma {:induction false} CrossesInto(u: string, n: nat)
    requires Land(u) == Crosses && |u| <= 3
    ensures |StrBody(u + Trap(n)).0| >= 1 + n
    decreases |u|
  {
    hide Trap, Hex4, EscapeSeq;
    var s := u + Trap(n);
    TrapParts(n);
    if u[0] != BACKSLASH {
      assert s[1..] == u[1..] + Trap(n);
      CrossesInto(u[1..], n);
    } else if |u| >= 2 && u[1] != 'u' {
      assert s[2..] == u[2..] + Trap(n);
      CrossesInto(u[2..], n);
      BodyOfEscape(s);
    } else {
      assert |u| == 1 ==> u == [BACKSLASH];
      assert |u| == 2 ==> u == [BACKSLASH, 'u'];
      assert |u| == 3 ==> u[..2] == [BACKSLASH, 'u'];
      CrossingEscape(u, n);
    }
  }

  lemma CrossingEscape(u: string, n: nat)
    requires u in {[BACKSLASH], [BACKSLASH, 'u']} || (|u| == 3 && u[..2] == [BACKSLASH, 'u'] && HexValue(u[2]).Some?)
    ensures |StrBody(u + Trap(n)).0| >= 1 + n
  {
    var (s, f) := (u + Trap(n), Trap(n));
    TrapParts(n);
    assert f[0] == BACKSLASH && HexValue(BACKSLASH) == None;
    if |u| == 1 {
      assert s[2..] == f[1..] && s[1] == BACKSLASH;
      BodyOfEscape(s);
    } else {
      assert s[2..] == u[2..] + f;
      if |u| == 2 {
        assert s[2..] == f;
      } else {
        assert s[2..][1..] == f;
      }
      assert Hex4(s[2..], 4, 0) == (0, f[1..]);
      BadEscape(s);
    }
  }

  /** The condition is exact for each escape: with the four characters h, every string in step may
      follow and the buffer holds, exactly when no escape goes on behind h. */
  lemma EscapeExact(h: string)
    requires |h| == 4
    ensures (forall f | InStep(f) :: |StrBody([BACKSLASH, 'u'] + (h + f)).0| <= Measure([BACKSLASH, 'u'] + (h + f)))
            <==> Land(Unread(h)) != Crosses
  {
    hide InStep, StrBody, Measure, Land, Unread, Hex4, Trap;
    if Land(Unread(h)) != Crosses {
      forall f | InStep(f)
        ensures |StrBody([BACKSLASH, 'u'] + (h + f)).0| <= Measure([BACKSLASH, 'u'] + (h + f))
      {
        StepOver(h, f);
        BufferFits([BACKSLASH, 'u'] + (h + f));
      }
    } else {
      TrapParts(8);
      TrapOverruns(h, 8);
    }
  }

  lemma {:induction false} Hex4Before(h: string, f: string, k: nat, v: nat)
    requires |h| >= k
    ensures Hex4(h + f, k, v) == (Hex4(h, k, v).0, Hex4(h, k, v).1 + f)
    decreases k
  {
    if k == 0 || HexValue(h[0]) == None {
      assert k > 0 ==> (h + f)[1..] == h[1..] + f;
    } else {
      assert (h + f)[1..] == h[1..] + f;
      Hex4Before(h[1..], f, k - 1, v * 16 + HexValue(h[0]).value);
    }
  }

  lemma UnreadBefore(h: string, f: string)
    requires |h| == 4
    ensures Unread(h + f) == Unread(h) == Hex4(h, 4, 0).1
  {
    hide Hex4;
    Hex4Before(h, f, 4, 0);
    Hex4Takes(h, 4, 0);
    var r := Hex4(h, 4, 0).1;
    assert (r + f)[..|r|] == r && r[..|r|] == r;
  }

  lemma StepOver(h: string, f: string)
    requires |h| == 4
    ensures var s := [BACKSLASH, 'u'] + (h + f);
            (InStep(s) <==> Land(Unread(h)) == Ends || (Land(Unread(h)) == Lands && InStep(f))) && Measure(s) == 4 + Measure(f)
  {
    hide Unread, Land;
    var s := [BACKSLASH, 'u'] + (h + f);
    UnreadBefore(h, f);
    assert s[2..] == h + f && s[6..] == f && Beyond(s, 6) == f;
  }

  /** In front of the trap, an escape behind which another goes on makes the second pass write more than
      the first has measured. */
  lemma TrapOverruns(h: string, n: nat)
    requires |h| == 4 && Land(Unread(h)) == Crosses
    ensures var s := [BACKSLASH, 'u'] + (h + Trap(n)); Measure(s) == 8 && |StrBody(s).0| >= 2 + n
  {
    hide Land, Measure, StrBody, InStep, Trap, Unread, Hex4;
    var s := [BACKSLASH, 'u'] + (h + Trap(n));
    StepOver(h, Trap(n));
    TrapParts(n);
    UnreadBefore(h, Trap(n));
    Hex4Takes(h, 4, 0);
    Hex4Before(h, Trap(n), 4, 0);
    if Hex4(h, 4, 0).1 == [] { NothingUnread(); }
    assert s[2..] == h + Trap(n);
    BadEscape(s);
    CrossesInto(Unread(h), n);
  }

  /** For instance `\uzab\"` and n more characters: the first pass stops at the escaped quote and
      measures 4, the second writes 4 + n. */
  lemma OverrunExample(n: nat)
    ensures var s := [BACKSLASH, 'u'] + (['z', 'a', 'b', BACKSLASH] + ([QUOTE] + (Plain(n) + [QUOTE])));
            Measure(s) == 4 && |StrBody(s).0| == 4 + n
  {
    hide Land, Unread, InStep, Hex4, EscapeSeq;
    var (h, q) := (['z', 'a', 'b', BACKSLASH], Plain(n) + [QUOTE]);
    var s := [BACKSLASH, 'u'] + (h + ([QUOTE] + q));
    StepOver(h, [QUOTE] + q);
    var u := [BACKSLASH, QUOTE] + q;
    var t := ['z', 'a', 'b'] + u;
    assert s[2..] == t && t[1..] == ['a', 'b'] + u;
    FirstBad(t);
    BadEscape(s);
    TwoPlain(u);
    assert u[2..] == q;
    BodyOfEscape(u);
    assert [QUOTE] + [] == [QUOTE];
    PlainBody(n, []);
  }

  lemma TwoPlain(u: string)
    ensures |StrBody(['a', 'b'] + u).0| == 2 + |StrBody(u).0|
  {
    assert (['a', 'b'] + u)[1..] == ['b'] + u && (['b'] + u)[1..] == u;
  }
}
