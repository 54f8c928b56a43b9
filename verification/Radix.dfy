/** Positional notation: digit sequences, most significant first, against the numbers they denote. */
module Radix {
  import opened Text

  type byte = b: nat | b < 256

  function Pow(base: nat, e: nat): (r: nat)
    ensures base > 0 ==> r > 0
  {
    if e == 0 then 1 else Pow(base, e - 1) * base
  }

  lemma {:induction false} PowAdd(base: nat, a: nat, b: nat)
    ensures Pow(base, a + b) == Pow(base, a) * Pow(base, b)
  {
    if b > 0 {
      PowAdd(base, a, b - 1);
      MulAssociates(Pow(base, a), Pow(base, b - 1), base);
    }
  }

  lemma {:induction false} MulAssociates(a: nat, b: nat, c: nat)
    ensures a * b * c == a * (b * c)
  {
  }

  function Value(base: nat, ds: seq<nat>): nat {
    if ds == [] then 0 else Value(base, ds[..|ds| - 1]) * base + ds[|ds| - 1]
  }

  /** The last `m` digits of `v`, padded with zeros. */
  function Digits(base: nat, v: nat, m: nat): (ds: seq<nat>)
    requires base > 0
    ensures |ds| == m && forall i :: 0 <= i < m ==> ds[i] < base
    decreases m
  {
    if m == 0 then [] else Digits(base, v / base, m - 1) + [v % base]
  }

  ghost predicate AllBelow(base: nat, ds: seq<nat>) {
    forall i :: 0 <= i < |ds| ==> ds[i] < base
  }

  lemma {:induction false} ValueAppend(base: nat, ds: seq<nat>, d: nat)
    ensures Value(base, ds + [d]) == Value(base, ds) * base + d
  {
    assert (ds + [d])[..|ds|] == ds;
  }

  lemma {:induction false} MulNonnegative(a: nat, b: nat)
    ensures 0 <= a * b
    decreases b
  {
    if b > 0 {
      MulNonnegative(a, b - 1);
      assert a * b == a * (b - 1) + a;
    }
  }

  lemma {:induction false} MulLess(a: nat, b: nat, base: nat)
    requires a < b
    ensures a * base + base <= b * base
    decreases b
  {
    assert b * base == (b - 1) * base + base;
    if a < b - 1 {
      MulLess(a, b - 1, base);
    }
  }

  lemma {:induction false} DivModUnique(q: nat, base: nat, d: nat)
    requires d < base
    ensures (q * base + d) / base == q && (q * base + d) % base == d
  {
    var v := q * base + d;
    var q', d' := v / base, v % base;
    assert q' * base + d' == v;
    if q < q' {
      MulLess(q, q', base);
    } else if q' < q {
      MulLess(q', q, base);
    }
  }

  lemma {:induction false} DigitsOfValue(base: nat, ds: seq<nat>)
    requires base > 0 && AllBelow(base, ds)
    ensures Digits(base, Value(base, ds), |ds|) == ds
  {
    if ds != [] {
      var front, d := ds[..|ds| - 1], ds[|ds| - 1];
      DivModUnique(Value(base, front), base, d);
      DigitsOfValue(base, front);
      assert ds == front + [d];
    }
  }

  lemma {:induction false} QuotientFits(v: nat, base: nat, p: nat)
    requires base > 0 && v < p * base
    ensures v / base < p && v / base * base + v % base == v
  {
    var q := v / base;
    if p < q {
      MulLess(p, q, base);
    }
  }

  lemma {:induction false} ValueOfDigits(base: nat, v: nat, m: nat)
    requires base > 0 && v < Pow(base, m)
    ensures Value(base, Digits(base, v, m)) == v
    decreases m
  {
    if m > 0 {
      hide Value, Pow;
      var q, d := v / base, v % base;
      PowUnfold(base, m);
      QuotientFits(v, base, Pow(base, m - 1));
      ValueOfDigits(base, q, m - 1);
      ValueAppend(base, Digits(base, q, m - 1), d);
    }
  }

  lemma {:induction false} PowUnfold(base: nat, e: nat)
    requires e > 0
    ensures Pow(base, e) == Pow(base, e - 1) * base
  {
  }

  lemma {:induction false} ValueBound(base: nat, ds: seq<nat>)
    requires base > 0 && AllBelow(base, ds)
    ensures Value(base, ds) < Pow(base, |ds|)
  {
    if ds != [] {
      var front := ds[..|ds| - 1];
      ValueBound(base, front);
      MulLess(Value(base, front), Pow(base, |front|), base);
    }
  }

  // ---------------------------------------------------------------- bitwise or

  function BitOr(a: nat, b: nat): nat
    decreases a + b
  {
    if a == 0 && b == 0 then 0
    else BitOr(a / 2, b / 2) * 2 + if a % 2 == 1 || b % 2 == 1 then 1 else 0
  }

  lemma {:induction false} OrZero(a: nat)
    ensures BitOr(a, 0) == a
  {
    if a > 0 {
      OrZero(a / 2);
    }
  }

  /** Or-ing into bits that a shift has cleared is adding. */
  lemma {:induction false} OrIsSum(q: nat, k: nat, b: nat)
    requires b < Pow(2, k)
    ensures BitOr(q * Pow(2, k), b) == q * Pow(2, k) + b
    decreases k
  {
    var a := q * Pow(2, k);
    if k == 0 {
      OrZero(q);
    } else if a != 0 || b != 0 {
      var half := q * Pow(2, k - 1);
      assert a == half * 2;
      assert a / 2 == half && a % 2 == 0;
      OrIsSum(q, k - 1, b / 2);
    }
  }

  // ---------------------------------------------------------------- decimal numerals

  function DigitChar(d: nat): (c: char)
    requires d < 10
    ensures IsDigit(c)
  {
    '0' + d as char
  }

  predicate IsDigit(c: char) {
    '0' <= c <= '9'
  }

  /** The decimal numeral of `n`, as `String(n)` gives it. */
  function Decimal(n: nat): (s: string)
    ensures s != [] && forall i :: 0 <= i < |s| ==> IsDigit(s[i])
  {
    if n < 10 then [DigitChar(n)] else Decimal(n / 10) + [DigitChar(n % 10)]
  }

  /** `s.padStart(width, fill)` for a one-character filler. */
  function PadStart(s: string, width: nat, fill: char): (r: string)
    ensures |r| == if |s| < width then width else |s|
    decreases width - |s|
  {
    if |s| < width then PadStart([fill] + s, width, fill) else s
  }

  /** The numeral of `n` at a fixed width. */
  function Fixed(n: nat, width: nat): (s: string)
    ensures |s| == width && forall i :: 0 <= i < width ==> IsDigit(s[i])
  {
    if width == 0 then "" else Fixed(n / 10, width - 1) + [DigitChar(n % 10)]
  }

  lemma {:induction false} PadStartAppend(s: string, c: char, width: nat, fill: char)
    requires width > 0 && |s| < width
    ensures PadStart(s + [c], width, fill) == PadStart(s, width - 1, fill) + [c]
    decreases width - |s|
  {
    if |s| < width - 1 {
      PadStartAppend([fill] + s, c, width, fill);
      assert [fill] + s + [c] == [fill] + (s + [c]);
    }
  }

  lemma {:induction false} FixedZero(width: nat)
    ensures Fixed(0, width) == PadStart("", width, '0')
  {
    if width > 0 {
      FixedZero(width - 1);
      PadStartAppend("", '0', width, '0');
      assert "" + ['0'] == ['0'] + "";
    }
  }

  /** Padding a numeral that fits gives the fixed-width one. */
  lemma {:induction false} PaddedIsFixed(n: nat, width: nat)
    requires width > 0 && n < Pow(10, width)
    ensures |Decimal(n)| <= width
    ensures PadStart(Decimal(n), width, '0') == Fixed(n, width)
  {
    if n < 10 {
      FixedZero(width - 1);
      PadStartAppend("", DigitChar(n), width, '0');
      assert "" + [DigitChar(n)] == Decimal(n);
    } else {
      assert width > 1 by { assert Pow(10, width) == Pow(10, width - 1) * 10; }
      PaddedIsFixed(n / 10, width - 1);
      PadStartAppend(Decimal(n / 10), DigitChar(n % 10), width, '0');
    }
  }

  /** Fixed-width numerals are ordered as strings the way their numbers are. */
  lemma {:induction false} FixedIsMonotone(a: nat, b: nat, width: nat)
    requires a < Pow(10, width) && b < Pow(10, width)
    ensures LexLess(Fixed(a, width), Fixed(b, width)) <==> a < b
    ensures Fixed(a, width) == Fixed(b, width) <==> a == b
  {
    if width > 0 {
      FixedIsMonotone(a / 10, b / 10, width - 1);
      var ca, cb := DigitChar(a % 10), DigitChar(b % 10);
      LexByParts(Fixed(a / 10, width - 1), [ca], Fixed(b / 10, width - 1), [cb]);
      assert LexLess([ca], [cb]) <==> a % 10 < b % 10;
      assert Fixed(a, width)[..width - 1] == Fixed(a / 10, width - 1);
      assert Fixed(b, width)[..width - 1] == Fixed(b / 10, width - 1);
      assert Fixed(a, width)[width - 1] == ca && Fixed(b, width)[width - 1] == cb;
    }
  }
}
