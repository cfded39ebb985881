/** Text comparison as Python's `str` operators and SQLite's BINARY collation
    perform it (code point by code point, a proper prefix first), and the
    decimal spelling of integers that `str(n)` and an f-string produce. */
module Text {

  /** `a <= b` on text. */
  predicate LexLe(a: string, b: string)
  {
    a == [] || (b != [] && (a[0] < b[0] || (a[0] == b[0] && LexLe(a[1..], b[1..]))))
  }

  /** `a < b` on text. */
  predicate LexLt(a: string, b: string)
  {
    b != [] && (a == [] || a[0] < b[0] || (a[0] == b[0] && LexLt(a[1..], b[1..])))
  }

  lemma {:induction false} LexLtIsNotLe(a: string, b: string)
    ensures LexLt(a, b) <==> !LexLe(b, a)
  {
    if a != [] && b != [] && a[0] == b[0] {
      LexLtIsNotLe(a[1..], b[1..]);
    }
  }

  lemma {:induction false} LexLeRefl(a: string)
    ensures LexLe(a, a)
  {
    if a != [] {
      LexLeRefl(a[1..]);
    }
  }

  lemma {:induction false} LexLeTrans(a: string, b: string, c: string)
    requires LexLe(a, b) && LexLe(b, c)
    ensures LexLe(a, c)
  {
    if a != [] && a[0] == b[0] && b[0] == c[0] {
      LexLeTrans(a[1..], b[1..], c[1..]);
    }
  }

  lemma {:induction false} LexLeTotal(a: string, b: string)
    ensures LexLe(a, b) || LexLe(b, a)
  {
    if a != [] && b != [] && a[0] == b[0] {
      LexLeTotal(a[1..], b[1..]);
    }
  }

  lemma {:induction false} LexLeAntisym(a: string, b: string)
    requires LexLe(a, b) && LexLe(b, a)
    ensures a == b
  {
    if a != [] && b != [] {
      LexLeAntisym(a[1..], b[1..]);
      assert a == [a[0]] + a[1..] && b == [b[0]] + b[1..];
    }
  }

  /** Comparing a text with a longer one only looks at the longer one's
      prefix of the same length. */
  lemma {:induction false} LexLeShortLong(t: string, d: string)
    requires |t| <= |d|
    ensures LexLe(t, d) <==> LexLe(t, d[..|t|])
  {
    if t != [] {
      assert d[..|t|][1..] == d[1..][..|t| - 1];
      LexLeShortLong(t[1..], d[1..]);
    }
  }

  /** A longer text is at most a shorter one exactly when its prefix of that
      length is strictly smaller: an equal prefix makes it larger. */
  lemma {:induction false} LexLeLongShort(d: string, t: string)
    requires |t| < |d|
    ensures LexLe(d, t) <==> LexLt(d[..|t|], t)
  {
    if t != [] {
      assert d[..|t|][1..] == d[1..][..|t| - 1];
      LexLeLongShort(d[1..], t[1..]);
    }
  }

  predicate IsDigit(c: char)
  {
    '0' <= c <= '9'
  }

  predicate AllDigits(s: string)
  {
    forall i :: 0 <= i < |s| ==> IsDigit(s[i])
  }

  function DigitValue(c: char): nat
    requires IsDigit(c)
  {
    c as int - '0' as int
  }

  function DigitChar(d: nat): (c: char)
    requires d < 10
    ensures IsDigit(c) && DigitValue(c) == d
  {
    ('0' as int + d) as char
  }

  function Pow10(n: nat): (p: nat)
    ensures p >= 1
  {
    if n == 0 then 1 else 10 * Pow10(n - 1)
  }

  /** The number a string of decimal digits spells, most significant first. */
  function DigitsValue(s: string): nat
    requires AllDigits(s)
  {
    if s == [] then 0 else DigitValue(s[0]) * Pow10(|s| - 1) + DigitsValue(s[1..])
  }

  /** `str(n)` for a non-negative integer: decimal, no leading zeros. */
  function NatToString(n: nat): (s: string)
    ensures |s| >= 1 && AllDigits(s)
  {
    if n < 10 then [DigitChar(n)] else NatToString(n / 10) + [DigitChar(n % 10)]
  }

  lemma {:induction false} MulMono(a: nat, b: nat, p: nat)
    requires a <= b
    ensures a * p <= b * p
    decreases b - a
  {
    if a < b {
      MulMono(a, b - 1, p);
      assert b * p == (b - 1) * p + p;
    }
  }

  lemma {:induction false} DigitsValueBound(s: string)
    requires AllDigits(s)
    ensures DigitsValue(s) < Pow10(|s|)
  {
    if s != [] {
      DigitsValueBound(s[1..]);
      var d, p := DigitValue(s[0]), Pow10(|s| - 1);
      MulMono(d, 9, p);
      assert Pow10(|s|) == 9 * p + p;
    }
  }

  lemma {:induction false} DigitsValueSnoc(s: string, c: char)
    requires AllDigits(s) && IsDigit(c)
    ensures AllDigits(s + [c]) && DigitsValue(s + [c]) == 10 * DigitsValue(s) + DigitValue(c)
  {
    assert AllDigits(s + [c]);
    if s != [] {
      assert (s + [c])[1..] == s[1..] + [c];
      DigitsValueSnoc(s[1..], c);
      var d, p := DigitValue(s[0]), Pow10(|s| - 1);
      assert d * (10 * p) == 10 * (d * p);
    }
  }

  /** Reading back the decimal spelling of `n` gives `n`. */
  lemma {:induction false} NatToStringValue(n: nat)
    ensures DigitsValue(NatToString(n)) == n
  {
    if n < 10 {
      assert NatToString(n)[1..] == [];
    } else {
      NatToStringValue(n / 10);
      DigitsValueSnoc(NatToString(n / 10), DigitChar(n % 10));
    }
  }

  lemma FourDigitSpelling(n: nat)
    requires 1000 <= n <= 9999
    ensures |NatToString(n)| == 4
  {
    var a, b, c := n / 10, n / 10 / 10, n / 10 / 10 / 10;
    assert 100 <= a && 10 <= b && c < 10;
    assert |NatToString(c)| == 1;
    assert |NatToString(b)| == |NatToString(c)| + 1;
    assert |NatToString(a)| == |NatToString(b)| + 1;
    assert |NatToString(n)| == |NatToString(a)| + 1;
  }

  lemma LeadingDigitDecides(x: nat, y: nat, p: nat, rx: nat, ry: nat)
    requires x < y && rx < p
    ensures x * p + rx < y * p + ry
  {
    MulMono(x + 1, y, p);
    assert (x + 1) * p == x * p + p;
  }

  /** On digit strings of one length, text order is numeric order. */
  lemma {:induction false} LexLeDigits(a: string, b: string)
    requires AllDigits(a) && AllDigits(b) && |a| == |b|
    ensures LexLe(a, b) <==> DigitsValue(a) <= DigitsValue(b)
  {
    if a != [] {
      var p := Pow10(|a| - 1);
      var da, db := DigitValue(a[0]), DigitValue(b[0]);
      DigitsValueBound(a[1..]);
      DigitsValueBound(b[1..]);
      assert DigitsValue(a) == da * p + DigitsValue(a[1..]);
      assert DigitsValue(b) == db * p + DigitsValue(b[1..]);
      if da < db {
        LeadingDigitDecides(da, db, p, DigitsValue(a[1..]), DigitsValue(b[1..]));
      } else if db < da {
        LeadingDigitDecides(db, da, p, DigitsValue(b[1..]), DigitsValue(a[1..]));
      } else {
        LexLeDigits(a[1..], b[1..]);
      }
    }
  }
}
