/** Decimal numerals: padded and unpadded printing, reading back, and comparison as text. */
module Decimal {
  import opened Wrappers

  function DigitChar(d: nat): char
    requires d < 10
  {
    '0' + d as char
  }

  predicate IsDigit(c: char) {
    '0' <= c <= '9'
  }

  predicate AllDigits(s: string) {
    forall i :: 0 <= i < |s| ==> IsDigit(s[i])
  }

  function DigitValue(c: char): nat
    requires IsDigit(c)
  {
    (c - '0') as nat
  }

  function Pow10(w: nat): nat {
    if w == 0 then 1 else 10 * Pow10(w - 1)
  }

  /** The last `w` digits of `n`. */
  function Pad(n: nat, w: nat): (s: string)
    ensures |s| == w && AllDigits(s)
  {
    if w == 0 then "" else Pad(n / 10, w - 1) + [DigitChar(n % 10)]
  }

  /** The shortest numeral of `n`. */
  function Digits(n: nat): (s: string)
    ensures |s| >= 1 && AllDigits(s)
  {
    if n < 10 then [DigitChar(n)] else Digits(n / 10) + [DigitChar(n % 10)]
  }

  /** Printing with a minimal width, as the format `0<w>d` does. */
  function PadAtLeast(n: nat, w: nat): (s: string)
    ensures AllDigits(s)
  {
    if n < Pow10(w) && w > 0 then Pad(n, w) else Digits(n)
  }

  /** Reading a string of ASCII digits. */
  function ReadDigits(s: string): nat
    requires AllDigits(s)
  {
    if s == "" then 0 else 10 * ReadDigits(s[..|s| - 1]) + DigitValue(s[|s| - 1])
  }

  function ReadNat(s: string): Option<nat> {
    if s != "" && AllDigits(s) then Some(ReadDigits(s)) else None
  }

  /** Text order, character code by character code. */
  predicate Less(s: string, t: string) {
    if t == "" then false
    else if s == "" then true
    else if s[0] != t[0] then s[0] < t[0]
    else Less(s[1..], t[1..])
  }

  predicate LessEq(s: string, t: string) {
    s == t || Less(s, t)
  }

  // ---------- Reading back ----------

  lemma {:induction false} ReadPad(n: nat, w: nat)
    requires n < Pow10(w)
    ensures ReadDigits(Pad(n, w)) == n
  {
    if w > 0 {
      ReadPad(n / 10, w - 1);
      assert Pad(n, w)[..w - 1] == Pad(n / 10, w - 1);
    }
  }

  lemma {:induction false} ReadShortest(n: nat)
    ensures ReadDigits(Digits(n)) == n
  {
    if n >= 10 {
      ReadShortest(n / 10);
      assert Digits(n)[..|Digits(n)| - 1] == Digits(n / 10);
    } else {
      assert Digits(n)[..0] == "";
    }
  }

  lemma ReadPadAtLeast(n: nat, w: nat)
    ensures PadAtLeast(n, w) != "" && ReadDigits(PadAtLeast(n, w)) == n
  {
    if n < Pow10(w) && w > 0 { ReadPad(n, w); } else { ReadShortest(n); }
  }

  /** A numeral is below the power of ten of its length, and is what padding its value to that length prints. */
  lemma {:induction false} PadRead(s: string)
    requires AllDigits(s)
    ensures ReadDigits(s) < Pow10(|s|)
    ensures Pad(ReadDigits(s), |s|) == s
  {
    if s != "" {
      var front := s[..|s| - 1];
      PadRead(front);
      assert ReadDigits(s) / 10 == ReadDigits(front) && ReadDigits(s) % 10 == DigitValue(s[|s| - 1]);
    }
  }

  /** Without a leading zero, the shortest numeral of its value is the numeral itself. */
  lemma {:induction false} ShortestRead(s: string)
    requires AllDigits(s) && s != "" && (s[0] != '0' || |s| == 1)
    ensures Digits(ReadDigits(s)) == s
    ensures |s| > 1 ==> ReadDigits(s) >= Pow10(|s| - 1)
  {
    var front := s[..|s| - 1];
    if |s| > 1 {
      ShortestRead(front);
      var n := ReadDigits(s);
      assert n / 10 == ReadDigits(front) && n % 10 == DigitValue(s[|s| - 1]);
      if |front| == 1 {
        assert front[..0] == "";
        assert ReadDigits(front) == DigitValue(s[0]) >= 1;
      }
      assert n >= 10;
    } else {
      assert ReadDigits(front) == 0;
    }
  }

  /** The shortest numeral of a number of at least two digits has no leading zero. */
  lemma {:induction false} ShortestNoZero(n: nat)
    ensures n >= 1 ==> Digits(n)[0] != '0'
    ensures forall w: nat :: n >= Pow10(w) ==> |Digits(n)| > w
  {
    if n >= 10 {
      ShortestNoZero(n / 10);
      forall w: nat | n >= Pow10(w)
        ensures |Digits(n)| > w
      {
        if w > 0 { assert n / 10 >= Pow10(w - 1); }
      }
    } else {
      forall w: nat | n >= Pow10(w)
        ensures w == 0
      {
        if w > 0 { Pow10Positive(w - 1); }
      }
    }
  }

  lemma {:induction false} Pow10Positive(w: nat)
    ensures Pow10(w) >= 1
  {
    if w > 0 { Pow10Positive(w - 1); }
  }

  // ---------- Text order ----------

  lemma {:induction false} LessIrreflexive(s: string)
    ensures !Less(s, s)
  {
    if s != "" { LessIrreflexive(s[1..]); }
  }

  /** Texts with equally long heads compare by their heads first. */
  lemma {:induction false} LessConcat(p: string, q: string, u: string, v: string)
    requires |p| == |q|
    ensures Less(p + u, q + v) <==> Less(p, q) || (p == q && Less(u, v))
  {
    if p == "" {
      assert p + u == u && q + v == v;
    } else {
      LessConcat(p[1..], q[1..], u, v);
      assert (p + u)[1..] == p[1..] + u && (q + v)[1..] == q[1..] + v;
      if p[0] == q[0] {
        assert p == q <==> p[1..] == q[1..] by {
          assert p == [p[0]] + p[1..] && q == [q[0]] + q[1..];
        }
      }
    }
  }

  lemma LastDigitDecides(x: nat, y: nat)
    ensures x < y <==> x / 10 < y / 10 || (x / 10 == y / 10 && DigitChar(x % 10) < DigitChar(y % 10))
  {}

  lemma LessSnoc(p: string, q: string, c: char, d: char)
    requires |p| == |q|
    ensures Less(p + [c], q + [d]) <==> Less(p, q) || (p == q && c < d)
  {
    LessConcat(p, q, [c], [d]);
    assert [c][1..] == [d][1..] == "";
  }

  /** Numerals padded to one width compare as the numbers do. */
  lemma {:induction false} PadOrder(x: nat, y: nat, w: nat)
    requires x < Pow10(w) && y < Pow10(w)
    ensures Less(Pad(x, w), Pad(y, w)) <==> x < y
    ensures Pad(x, w) == Pad(y, w) <==> x == y
  {
    ReadPad(x, w);
    ReadPad(y, w);
    if w > 0 {
      PadOrder(x / 10, y / 10, w - 1);
      LessSnoc(Pad(x / 10, w - 1), Pad(y / 10, w - 1), DigitChar(x % 10), DigitChar(y % 10));
      LastDigitDecides(x, y);
    }
  }
}
