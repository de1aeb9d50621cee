/** Decimal text: Python's `str(n)` and `f"{n}"` for a non-negative integer,
    `int(text)` on digit text, and the comma-grouped counts such as `(1,234)`
    that the scraped review cells hold. */
module Decimal {
  import opened Wrappers
  import opened Text

  predicate AllDigits(s: string) {
    forall i :: 0 <= i < |s| ==> IsAsciiDigit(s[i])
  }

  function DigitChar(d: nat): (c: char)
    requires d < 10
    ensures IsAsciiDigit(c)
  {
    (48 + d) as char
  }

  /** `str(n)` for `n >= 0`. */
  function NatStr(n: nat): (r: string)
    ensures r != [] && AllDigits(r)
    decreases n
  {
    if n < 10 then [DigitChar(n)] else NatStr(n / 10) + [DigitChar(n % 10)]
  }

  /** The value of a string of decimal digits (leading zeros allowed). */
  function DigitsValue(s: string): nat
    requires AllDigits(s)
    decreases |s|
  {
    if s == [] then 0
    else DigitsValue(s[..|s| - 1]) * 10 + (s[|s| - 1] as int - '0' as int)
  }

  /** Python's `int(text)`, restricted to what the scraped cells hold:
      surrounding whitespace is ignored, and what remains must be a non-empty
      run of ASCII digits; anything else raises `ValueError`, here `None`. */
  function PyInt(text: string): (r: Option<nat>)
    ensures r.Some? <==> Strip(text, IsSpace) != [] && AllDigits(Strip(text, IsSpace))
  {
    var t := Strip(text, IsSpace);
    if t != [] && AllDigits(t) then Some(DigitsValue(t)) else None
  }

  /** Reading back what `str` wrote gives the number again. */
  lemma {:induction false} NatStrRoundTrip(n: nat)
    ensures DigitsValue(NatStr(n)) == n
    decreases n
  {
    if n >= 10 {
      var s := NatStr(n);
      assert s[..|s| - 1] == NatStr(n / 10);
      NatStrRoundTrip(n / 10);
    }
  }

  lemma NatStrInjective(m: nat, n: nat)
    ensures NatStr(m) == NatStr(n) ==> m == n
  {
    NatStrRoundTrip(m);
    NatStrRoundTrip(n);
  }

  lemma NatStrHasNoSpace(n: nat)
    ensures Strip(NatStr(n), IsSpace) == NatStr(n)
  {
    var s := NatStr(n);
    assert forall i :: 0 <= i < |s| ==> !IsSpace(s[i]);
    StripNoop(s, IsSpace);
  }

  lemma PyIntNatStr(n: nat)
    ensures PyInt(NatStr(n)) == Some(n)
  {
    NatStrHasNoSpace(n);
    NatStrRoundTrip(n);
  }

  function Pow10(k: nat): (p: nat)
    ensures p >= 1
  {
    if k == 0 then 1 else 10 * Pow10(k - 1)
  }

  lemma ShiftDigit(x: int, p: int, y: int, d: int)
    ensures (x * p + y) * 10 + d == x * (10 * p) + (y * 10 + d)
  {
  }

  /** The last digit of a non-empty digit string, as a number. */
  function LastDigit(s: string): nat
    requires s != [] && AllDigits(s)
  {
    s[|s| - 1] as int - '0' as int
  }

  lemma {:induction false} DigitsValueConcat(a: string, b: string)
    requires AllDigits(a) && AllDigits(b)
    ensures AllDigits(a + b)
    ensures DigitsValue(a + b) == DigitsValue(a) * Pow10(|b|) + DigitsValue(b)
    decreases |b|
  {
    assert AllDigits(a + b);
    if b == [] {
      assert a + b == a;
    } else {
      var b' := b[..|b| - 1];
      var ab := a + b;
      assert ab[..|ab| - 1] == a + b' && ab[|ab| - 1] == b[|b| - 1];
      DigitsValueConcat(a, b');
      assert DigitsValue(ab) == DigitsValue(a + b') * 10 + LastDigit(b);
      assert DigitsValue(b) == DigitsValue(b') * 10 + LastDigit(b);
      ShiftDigit(DigitsValue(a), Pow10(|b'|), DigitsValue(b'), LastDigit(b));
    }
  }

  /** Three digits, zero padded: one thousands group. */
  function Pad3(n: nat): (r: string)
    requires n < 1000
    ensures |r| == 3 && AllDigits(r)
  {
    [DigitChar(n / 100), DigitChar(n / 10 % 10), DigitChar(n % 10)]
  }

  /** A count written with thousands separators, as in `1,234`. */
  function Grouped(n: nat): (r: string)
    ensures r != []
    ensures forall i :: 0 <= i < |r| ==> IsAsciiDigit(r[i]) || r[i] == ','
    ensures IsAsciiDigit(r[0])
    decreases n
  {
    if n < 1000 then NatStr(n) else Grouped(n / 1000) + "," + Pad3(n % 1000)
  }

  lemma Pad3Value(n: nat)
    requires n < 1000
    ensures DigitsValue(Pad3(n)) == n
  {
    var s := Pad3(n);
    var a, b, c := n / 100, n / 10 % 10, n % 10;
    assert s[..2][..1] == s[..1] && s[..1][..0] == [];
    assert DigitsValue(s[..1]) == a;
    assert DigitsValue(s[..2]) == 10 * a + b;
    assert n / 10 == 10 * a + b;
    assert n == 10 * (n / 10) + c;
  }

  lemma FilterSeparated(hi: string, lo: string)
    requires AllDigits(lo)
    ensures Filter(hi + "," + lo, IsAsciiDigit) == Filter(hi, IsAsciiDigit) + lo
  {
    var comma := ",";
    var f := Filter(hi, IsAsciiDigit);
    FilterConcat(hi, comma, IsAsciiDigit);
    assert Filter(comma, IsAsciiDigit) == [];
    assert f + [] == f;
    assert Filter(hi + comma, IsAsciiDigit) == f;
    FilterConcat(hi + comma, lo, IsAsciiDigit);
    assert Filter(lo, IsAsciiDigit) == lo;
  }

  lemma FilterGroupedStep(n: nat)
    requires n >= 1000
    ensures Filter(Grouped(n), IsAsciiDigit)
         == Filter(Grouped(n / 1000), IsAsciiDigit) + Pad3(n % 1000)
  {
    FilterSeparated(Grouped(n / 1000), Pad3(n % 1000));
  }

  /** Dropping the separators of a grouped count leaves digits whose value is
      the count. */
  lemma {:induction false} GroupedDigits(n: nat)
    ensures AllDigits(Filter(Grouped(n), IsAsciiDigit))
    ensures DigitsValue(Filter(Grouped(n), IsAsciiDigit)) == n
    decreases n
  {
    if n < 1000 {
      NatStrRoundTrip(n);
    } else {
      var q, r := n / 1000, n % 1000;
      FilterGroupedStep(n);
      GroupedDigits(q);
      var d := Filter(Grouped(q), IsAsciiDigit);
      DigitsValueConcat(d, Pad3(r));
      Pad3Value(r);
      assert Pow10(3) == 1000;
      assert n == q * 1000 + r;
    }
  }

  lemma {:induction false} RemoveCommasKeepsDigits(s: string)
    requires forall i :: 0 <= i < |s| ==> IsAsciiDigit(s[i]) || s[i] == ','
    ensures RemoveAll(s, ",") == Filter(s, IsAsciiDigit)
    decreases |s|
  {
    if s != [] {
      assert s[..1] == [s[0]];
      RemoveCommasKeepsDigits(s[1..]);
    }
  }
}
