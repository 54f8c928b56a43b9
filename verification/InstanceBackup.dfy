/**
 * Retention of the panel's own backups (packages/shared/src/instanceBackup.ts and the worker job that uploads them):
 * object names carry a timestamp, and the newest names are the ones kept.
 */
module InstanceBackup {
  import opened Wrappers
  import opened Text
  import opened StableSort
  import opened Radix

  /** The UTC fields of an instant; `Date` goes far beyond the years 0 to 9999 on both sides. */
  datatype Instant = Instant(year: int, month: nat, day: nat, hour: nat, minute: nat, second: nat)

  predicate IsInstant(t: Instant) {
    1 <= t.month <= 12 && 1 <= t.day <= 31 && t.hour < 24 && t.minute < 60 && t.second < 60
  }

  predicate Before(a: Instant, b: Instant) {
    a.year < b.year || (a.year == b.year && (
      a.month < b.month || (a.month == b.month && (
        a.day < b.day || (a.day == b.day && (
          a.hour < b.hour || (a.hour == b.hour && (
            a.minute < b.minute || (a.minute == b.minute && a.second < b.second)))))))))
  }

  // ---------------------------------------------------------------- names

  const FOLDER := "yeah-instance/"
  const PREFIX := "yeah-instance/yeah-"
  const SUFFIX := ".sql.gz"

  function Numeral(n: int): string {
    if n < 0 then "-" + Decimal(-n) else Decimal(n)
  }

  function Pad(n: nat): string {
    PadStart(Decimal(n), 2, '0')
  }

  function Key(t: Instant): string {
    var d := Numeral(t.year) + (Pad(t.month) + Pad(t.day));
    var c := Pad(t.hour) + (Pad(t.minute) + Pad(t.second));
    PREFIX + (d + ("-" + (c + SUFFIX)))
  }

  predicate AreDigits(s: string) {
    forall i :: 0 <= i < |s| ==> IsDigit(s[i])
  }

  /** `/^yeah-instance\/yeah-\d{8}-\d{6}\.sql\.gz$/`. */
  predicate IsOurs(key: string) {
    && |key| == 41
    && key[..19] == PREFIX && AreDigits(key[19..27]) && key[27] == '-' && AreDigits(key[28..34]) && key[34..] == SUFFIX
  }

  lemma {:induction false} FourDigits(n: nat)
    ensures |Decimal(n)| == 4 <==> 1000 <= n <= 9999
  {
    var a, b, c := n / 10, n / 10 / 10, n / 10 / 10 / 10;
    assert n >= 10 ==> |Decimal(n)| == |Decimal(a)| + 1;
    assert a >= 10 ==> |Decimal(a)| == |Decimal(b)| + 1;
    assert b >= 10 ==> |Decimal(b)| == |Decimal(c)| + 1;
    assert c >= 10 ==> |Decimal(c)| == |Decimal(c / 10)| + 1;
  }

  lemma {:induction false} PadIsFixed(n: nat)
    requires n < 100
    ensures Pad(n) == Fixed(n, 2)
  {
    assert Pow(10, 2) == 100;
    PaddedIsFixed(n, 2);
  }

  /** The date and the time part of a name, for any year. */
  lemma {:induction false} KeyParts(t: Instant)
    requires IsInstant(t)
    ensures var d := Numeral(t.year) + (Fixed(t.month, 2) + Fixed(t.day, 2));
            var c := Fixed(t.hour, 2) + (Fixed(t.minute, 2) + Fixed(t.second, 2));
            Key(t) == PREFIX + (d + ("-" + (c + SUFFIX))) && |c| == 6 && |d| == |Numeral(t.year)| + 4
  {
    hide Pad, Numeral, Fixed;
    PadIsFixed(t.month);
    PadIsFixed(t.day);
    PadIsFixed(t.hour);
    PadIsFixed(t.minute);
    PadIsFixed(t.second);
  }

  /** A name has the expected shape exactly if its year has four digits. */
  lemma {:induction false} OursExactlyInFourDigitYears(t: Instant)
    requires IsInstant(t)
    ensures IsOurs(Key(t)) <==> 1000 <= t.year <= 9999
  {
    hide Decimal, Fixed, Key;
    KeyParts(t);
    FourDigits(if t.year < 0 then 0 else t.year);
    var y := Numeral(t.year);
    var d := y + (Fixed(t.month, 2) + Fixed(t.day, 2));
    var c := Fixed(t.hour, 2) + (Fixed(t.minute, 2) + Fixed(t.second, 2));
    var key := Key(t);
    assert |key| == 37 + |y|;
    if |y| == 4 {
      assert key[19..27] == d && key[28..34] == c && key[34..] == SUFFIX && key[27] == '-' && key[..19] == PREFIX;
      assert d[0] == y[0];
      assert AreDigits(c);
      assert t.year >= 0 ==> AreDigits(d);
    }
  }

  /** The names that are ours: the folder, eight digits, a dash, six digits, and the ending. */
  lemma {:induction false} OursExactly(key: string)
    ensures IsOurs(key) <==>
            && |key| == 41 && key[..19] == "yeah-instance/yeah-" && key[27] == '-' && key[34..] == ".sql.gz"
            && (forall i :: 19 <= i < 27 || 28 <= i < 34 ==> '0' <= key[i] <= '9')
  {
    if |key| == 41 {
      var date, time := key[19..27], key[28..34];
      assert forall i :: 19 <= i < 27 ==> key[i] == date[i - 19];
      assert forall i :: 28 <= i < 34 ==> key[i] == time[i - 28];
    }
  }

  /** The number that two characters of a name write. */
  function TwoAt(s: string, i: nat): int
    requires i + 1 < |s|
  {
    (s[i] as int - 48) * 10 + (s[i + 1] as int - 48)
  }

  /** A name holds its instant, field by field. */
  lemma {:induction false} NameHoldsTheInstant(t: Instant)
    requires IsInstant(t) && 1000 <= t.year <= 9999
    ensures var s := Key(t);
            && |s| == 41 && s[..19] == "yeah-instance/yeah-" && s[27..28] == "-" && s[34..] == ".sql.gz"
            && TwoAt(s, 19) * 100 + TwoAt(s, 21) == t.year && TwoAt(s, 23) == t.month && TwoAt(s, 25) == t.day
            && TwoAt(s, 28) == t.hour && TwoAt(s, 30) == t.minute && TwoAt(s, 32) == t.second
  {
    hide Decimal, Fixed, Numeral, Key;
    KeyParts(t);
    var y, key := t.year, Key(t);
    YearDigits(y);
    var date := Fixed(y / 100, 2) + Fixed(y % 100, 2) + (Fixed(t.month, 2) + Fixed(t.day, 2));
    var time := Fixed(t.hour, 2) + (Fixed(t.minute, 2) + Fixed(t.second, 2));
    assert key == PREFIX + (date + ("-" + (time + SUFFIX)));
    FieldAt(key, 19, y / 100);
    FieldAt(key, 21, y % 100);
    FieldAt(key, 23, t.month);
    FieldAt(key, 25, t.day);
    FieldAt(key, 28, t.hour);
    FieldAt(key, 30, t.minute);
    FieldAt(key, 32, t.second);
  }

  lemma {:induction false} YearDigits(y: int)
    requires 1000 <= y <= 9999
    ensures Numeral(y) == Fixed(y / 100, 2) + Fixed(y % 100, 2)
  {
    assert Decimal(y / 1000) == [DigitChar(y / 1000)];
    assert Decimal(y / 100) == Decimal(y / 1000) + [DigitChar(y / 100 % 10)];
    assert Decimal(y / 10) == Decimal(y / 100) + [DigitChar(y / 10 % 10)];
    TwoDigits(y / 100);
    TwoDigits(y % 100);
  }

  lemma {:induction false} TwoDigits(n: nat)
    requires n < 100
    ensures Fixed(n, 2) == [DigitChar(n / 10), DigitChar(n % 10)]
  {
    assert Fixed(n / 10, 1) == Fixed(n / 100, 0) + [DigitChar(n / 10 % 10)];
  }

  lemma {:induction false} FieldAt(s: string, i: nat, n: nat)
    requires n < 100 && i + 2 <= |s| && s[i..i + 2] == Fixed(n, 2)
    ensures TwoAt(s, i) == n
  {
    TwoDigits(n);
    assert s[i] == s[i..i + 2][0] && s[i + 1] == s[i..i + 2][1];
  }

  // ---------------------------------------------------------------- string order and time order

  /** A name after its year. */
  function Tail(t: Instant): string
    requires IsInstant(t)
  {
    Fixed(t.month, 2) + Fixed(t.day, 2)
    + ("-" + (Fixed(t.hour, 2) + (Fixed(t.minute, 2) + Fixed(t.second, 2)) + SUFFIX))
  }

  lemma {:induction false} KeyIsYearAndTail(t: Instant)
    requires IsInstant(t)
    ensures Key(t) == PREFIX + (Numeral(t.year) + Tail(t))
  {
    hide Key, Numeral, Fixed;
    KeyParts(t);
    var d, c := Fixed(t.month, 2) + Fixed(t.day, 2), Fixed(t.hour, 2) + (Fixed(t.minute, 2) + Fixed(t.second, 2));
    var y, r := Numeral(t.year), "-" + (c + SUFFIX);
    assert (y + d) + r == y + (d + r);
  }

  predicate EarlierInYear(a: Instant, b: Instant) {
    Before(a.(year := 0), b.(year := 0))
  }

  lemma {:induction false} FieldInOrder(a: nat, b: nat)
    requires a < 100 && b < 100
    ensures LexLess(Fixed(a, 2), Fixed(b, 2)) <==> a < b
    ensures Fixed(a, 2) == Fixed(b, 2) <==> a == b
  {
    hide Fixed, LexLess;
    assert Pow(10, 2) == 100;
    FixedIsMonotone(a, b, 2);
  }

  lemma {:induction false} PairInOrder(a: nat, b: nat, a': nat, b': nat)
    requires a < 100 && b < 100 && a' < 100 && b' < 100
    ensures var s, s' := Fixed(a, 2) + Fixed(b, 2), Fixed(a', 2) + Fixed(b', 2);
            && (LexLess(s, s') <==> a < a' || (a == a' && b < b'))
            && (s == s' <==> a == a' && b == b')
  {
    hide Fixed, LexLess;
    FieldInOrder(a, a');
    FieldInOrder(b, b');
    LexByParts(Fixed(a, 2), Fixed(b, 2), Fixed(a', 2), Fixed(b', 2));
    var s, s' := Fixed(a, 2) + Fixed(b, 2), Fixed(a', 2) + Fixed(b', 2);
    assert s[..2] == Fixed(a, 2) && s[2..] == Fixed(b, 2) && s'[..2] == Fixed(a', 2) && s'[2..] == Fixed(b', 2);
  }

  lemma {:induction false} TailsInOrder(a: Instant, b: Instant)
    requires IsInstant(a) && IsInstant(b)
    ensures LexLess(Tail(a), Tail(b)) <==> EarlierInYear(a, b)
  {
    hide Fixed, LexLess;
    var da, db := Fixed(a.month, 2) + Fixed(a.day, 2), Fixed(b.month, 2) + Fixed(b.day, 2);
    var ma, mb := Fixed(a.minute, 2) + Fixed(a.second, 2), Fixed(b.minute, 2) + Fixed(b.second, 2);
    var ca, cb := Fixed(a.hour, 2) + ma, Fixed(b.hour, 2) + mb;
    PairInOrder(a.month, a.day, b.month, b.day);
    LexByParts(da, "-" + (ca + SUFFIX), db, "-" + (cb + SUFFIX));
    LexSamePrefix("-", ca + SUFFIX, cb + SUFFIX);
    LexByParts(ca, SUFFIX, cb, SUFFIX);
    LexTotal(SUFFIX, SUFFIX);
    FieldInOrder(a.hour, b.hour);
    PairInOrder(a.minute, a.second, b.minute, b.second);
    LexByParts(Fixed(a.hour, 2), ma, Fixed(b.hour, 2), mb);
  }

  /** The names of two instants whose years have numerals of one length. */
  lemma {:induction false} SameLengthNames(a: Instant, b: Instant)
    requires IsInstant(a) && IsInstant(b) && |Numeral(a.year)| == |Numeral(b.year)|
    ensures LexLess(Key(a), Key(b)) <==>
            LexLess(Numeral(a.year), Numeral(b.year)) || (Numeral(a.year) == Numeral(b.year) && EarlierInYear(a, b))
  {
    hide Key, Numeral, LexLess, EarlierInYear, Tail;
    KeyIsYearAndTail(a);
    KeyIsYearAndTail(b);
    TailsInOrder(a, b);
    LexByParts(Numeral(a.year), Tail(a), Numeral(b.year), Tail(b));
    LexSamePrefix(PREFIX, Numeral(a.year) + Tail(a), Numeral(b.year) + Tail(b));
  }

  /** The names of two instants whose years differ after a common beginning decide there. */
  lemma {:induction false} DifferingNames(a: Instant, b: Instant, n: nat)
    requires IsInstant(a) && IsInstant(b)
    requires var y, z := Numeral(a.year), Numeral(b.year); n < |y| && n < |z| && y[..n] == z[..n] && y[n] < z[n]
    ensures LexLess(Key(a), Key(b)) && !LexLess(Key(b), Key(a))
  {
    hide Key, Numeral, LexLess, Tail;
    var y, z := Numeral(a.year), Numeral(b.year);
    KeyIsYearAndTail(a);
    KeyIsYearAndTail(b);
    var s, t := y + Tail(a), z + Tail(b);
    assert s == y[..n] + s[n..] && t == y[..n] + t[n..];
    assert s[n..][0] == y[n] && t[n..][0] == z[n];
    FirstDecides(s[n..], t[n..]);
    LexSamePrefix(y[..n], s[n..], t[n..]);
    LexSamePrefix(PREFIX, s, t);
    LexTotal(Key(a), Key(b));
  }

  lemma {:induction false} FirstDecides(a: string, b: string)
    requires a != [] && b != [] && a[0] < b[0]
    ensures LexLess(a, b)
  {
  }

  lemma {:induction false} WidthIs(n: nat, w: nat)
    requires w > 0
    ensures |Decimal(n)| == w <==> n < Pow(10, w) && (w == 1 || Pow(10, w - 1) <= n)
    decreases w
  {
    PowUnfold(10, w);
    if w == 1 {
      assert Pow(10, 0) == 1;
    } else {
      hide Pow;
      PowUnfold(10, w - 1);
      WidthIs(n / 10, w - 1);
    }
  }

  lemma {:induction false} WiderIsMore(m: nat, n: nat)
    requires m <= n
    ensures |Decimal(m)| <= |Decimal(n)|
    decreases n
  {
    if m >= 10 {
      WiderIsMore(m / 10, n / 10);
    }
  }

  /** Numerals of one width are ordered as their numbers are. */
  lemma {:induction false} SameWidthInOrder(m: nat, n: nat)
    requires |Decimal(m)| == |Decimal(n)|
    ensures LexLess(Decimal(m), Decimal(n)) <==> m < n
    ensures Decimal(m) == Decimal(n) <==> m == n
  {
    hide Decimal, Fixed, LexLess, Pow;
    var w := |Decimal(m)|;
    WidthIs(m, w);
    WidthIs(n, w);
    PaddedIsFixed(m, w);
    PaddedIsFixed(n, w);
    FixedIsMonotone(m, n, w);
  }

  /** Where the width grows: `99...9` and `100...0`. */
  lemma {:induction false} WidthGrows(n: nat)
    requires |Decimal(n)| != |Decimal(n + 1)|
    ensures Decimal(n)[0] == '9' && Decimal(n + 1)[0] == '1' && n >= 9
    ensures n > 9 ==> |Decimal(n - 1)| == |Decimal(n)|
    decreases n
  {
    TensStep(n);
    if n == 9 {
      assert Decimal(10) == Decimal(1) + [DigitChar(0)];
    } else if n > 9 {
      WidthGrows(n / 10);
    }
  }

  lemma {:induction false} TensStep(n: nat)
    ensures (n + 1) / 10 == n / 10 || ((n + 1) / 10 == n / 10 + 1 && n > 0 && (n - 1) / 10 == n / 10)
  {
  }

  lemma {:induction false} WidthMustGrow(lo: nat, hi: nat) returns (n: nat)
    requires lo <= hi && |Decimal(lo)| != |Decimal(hi)|
    ensures lo <= n < hi && |Decimal(n)| != |Decimal(n + 1)|
    decreases hi - lo
  {
    hide Decimal;
    if |Decimal(lo)| != |Decimal(lo + 1)| {
      n := lo;
    } else {
      n := WidthMustGrow(lo + 1, hi);
    }
  }

  /** Every two instants of these years have their names ordered as strings the way they are in time. */
  ghost predicate YearsInOrder(lo: int, hi: int) {
    forall a, b :: IsInstant(a) && IsInstant(b) && lo <= a.year <= hi && lo <= b.year <= hi ==>
      (LexLess(Key(a), Key(b)) <==> Before(a, b))
  }

  /** All years have as many digits, or it is one year, or a negative pair at which the number of digits changes. */
  predicate OrderlyYears(lo: int, hi: int) {
    || hi <= lo
    || (0 <= lo <= hi && |Decimal(lo)| == |Decimal(hi)|)
    || (lo == -1 <= hi <= 9)
    || (lo + 1 == hi < 0 && |Decimal(-lo)| != |Decimal(-hi)|)
  }

  lemma {:induction false} SameYear(a: Instant, b: Instant)
    requires IsInstant(a) && IsInstant(b) && a.year == b.year
    ensures LexLess(Key(a), Key(b)) <==> Before(a, b)
  {
    hide Key, Numeral, LexLess;
    SameLengthNames(a, b);
    LexTotal(Numeral(a.year), Numeral(b.year));
  }

  lemma {:induction false} SameWidthYears(a: Instant, b: Instant)
    requires IsInstant(a) && IsInstant(b) && a.year >= 0 && b.year >= 0 && |Decimal(a.year)| == |Decimal(b.year)|
    ensures LexLess(Key(a), Key(b)) <==> Before(a, b)
  {
    hide Key, LexLess, Decimal;
    SameLengthNames(a, b);
    SameWidthInOrder(a.year, b.year);
  }

  /** Negative years of one width are ordered backwards. */
  lemma {:induction false} NegativeYears(a: Instant, b: Instant)
    requires IsInstant(a) && IsInstant(b) && a.year < b.year < 0 && |Decimal(-a.year)| == |Decimal(-b.year)|
    ensures !LexLess(Key(a), Key(b))
  {
    hide Key, LexLess, Decimal;
    SameLengthNames(a, b);
    SameWidthInOrder(-a.year, -b.year);
    assert Numeral(a.year)[1..] == Decimal(-a.year) && Numeral(b.year)[1..] == Decimal(-b.year);
    LexSamePrefix("-", Decimal(-a.year), Decimal(-b.year));
  }

  lemma {:induction false} NegativeFirst(a: Instant, b: Instant)
    requires IsInstant(a) && IsInstant(b) && a.year < 0 <= b.year
    ensures LexLess(Key(a), Key(b)) && !LexLess(Key(b), Key(a))
  {
    hide Key, LexLess, Decimal;
    assert IsDigit(Numeral(b.year)[0]);
    DifferingNames(a, b, 0);
  }

  /** A year `-100...0` comes before its successor `-99...9`. */
  lemma {:induction false} NegativeStep(a: Instant, b: Instant)
    requires IsInstant(a) && IsInstant(b) && a.year + 1 == b.year < 0 && |Decimal(-a.year)| != |Decimal(-b.year)|
    ensures LexLess(Key(a), Key(b)) && !LexLess(Key(b), Key(a))
  {
    hide Key, LexLess, Decimal;
    WidthGrows(-b.year);
    assert Numeral(a.year)[1] == Decimal(-a.year)[0] && Numeral(b.year)[1] == Decimal(-b.year)[0];
    assert Numeral(a.year)[..1] == "-" && Numeral(b.year)[..1] == "-";
    DifferingNames(a, b, 1);
  }

  /** A year `99...9` comes after its successor `100...0`. */
  lemma {:induction false} WideStep(a: Instant, b: Instant)
    requires IsInstant(a) && IsInstant(b) && 0 <= a.year && a.year + 1 == b.year
    requires |Decimal(a.year)| != |Decimal(b.year)|
    ensures !LexLess(Key(a), Key(b))
  {
    hide Key, LexLess, Decimal;
    WidthGrows(a.year);
    DifferingNames(b, a, 0);
  }

  lemma {:induction false} OrderlyPair(lo: int, hi: int, a: Instant, b: Instant)
    requires OrderlyYears(lo, hi) && IsInstant(a) && IsInstant(b) && lo <= a.year <= hi && lo <= b.year <= hi
    ensures LexLess(Key(a), Key(b)) <==> Before(a, b)
  {
    hide Key, LexLess, Decimal, IsInstant;
    if a.year == b.year {
      SameYear(a, b);
    } else if a.year < 0 <= b.year {
      NegativeFirst(a, b);
    } else if b.year < 0 <= a.year {
      NegativeFirst(b, a);
    } else if a.year < 0 {
      if a.year < b.year { NegativeStep(a, b); } else { NegativeStep(b, a); }
    } else {
      OneWidth(lo, hi, a.year);
      OneWidth(lo, hi, b.year);
      SameWidthYears(a, b);
    }
  }

  lemma {:induction false} OneWidth(lo: int, hi: int, y: nat)
    requires OrderlyYears(lo, hi) && lo < hi && lo <= y <= hi
    ensures |Decimal(y)| == |Decimal(hi)|
  {
    if 0 <= lo {
      hide Decimal;
      WiderIsMore(lo, y);
      WiderIsMore(y, hi);
    }
  }

  lemma {:induction false} Disorder(lo: int, hi: int) returns (a: Instant, b: Instant)
    requires !OrderlyYears(lo, hi)
    ensures IsInstant(a) && IsInstant(b) && lo <= a.year < b.year <= hi && !LexLess(Key(a), Key(b))
  {
    hide Key, LexLess, Decimal;
    var y: int;
    if hi < -1 {
      y := if |Decimal(-lo)| == |Decimal(-(lo + 1))| then lo else lo + 1;
      if y != lo {
        WidthGrows(-lo - 1);
        OneDigit(9);
        OneDigit(8);
      }
    } else if lo < -1 {
      y := -2;
      OneDigit(1);
      OneDigit(2);
    } else {
      var first := FirstYear(lo, hi);
      y := WidthMustGrow(first, hi);
    }
    a, b := Instant(y, 1, 1, 0, 0, 0), Instant(y + 1, 1, 1, 0, 0, 0);
    if y < 0 { NegativeYears(a, b); } else { WideStep(a, b); }
  }

  lemma {:induction false} OneDigit(n: nat)
    ensures |Decimal(n)| == 1 <==> n < 10
  {
  }

  lemma {:induction false} FirstYear(lo: int, hi: int) returns (y: nat)
    requires -1 <= lo <= hi && !OrderlyYears(lo, hi)
    ensures lo <= y <= hi && |Decimal(y)| != |Decimal(hi)|
  {
    y := if lo < 0 then 0 else lo;
    OneDigit(0);
    OneDigit(if hi < 0 then 0 else hi);
  }

  /**
   * The exact condition: string order is time order over a range of years if and only if all years have the same
   * number of digits, up to the odd cases of a single year, of -1 before 0 to 9 and of a pair like -10 and -9.
   */
  lemma {:induction false} YearsInOrderExactlyWhen(lo: int, hi: int)
    ensures YearsInOrder(lo, hi) <==> OrderlyYears(lo, hi)
  {
    hide Key, LexLess, OrderlyYears, IsInstant;
    if OrderlyYears(lo, hi) {
      forall a, b | IsInstant(a) && IsInstant(b) && lo <= a.year <= hi && lo <= b.year <= hi
        ensures LexLess(Key(a), Key(b)) <==> Before(a, b)
      {
        OrderlyPair(lo, hi, a, b);
      }
    } else {
      var a, b := Disorder(lo, hi);
      assert Before(a, b);
    }
  }

  /** Names of the expected shape are ordered as strings the way their instants are ordered in time. */
  lemma {:induction false} NamesAreInTimeOrder(a: Instant, b: Instant)
    requires IsInstant(a) && IsInstant(b) && IsOurs(Key(a)) && IsOurs(Key(b))
    ensures LexLess(Key(a), Key(b)) <==> Before(a, b)
    ensures Key(a) == Key(b) <==> a == b
  {
    hide Decimal, Key, LexLess, IsOurs;
    OursExactlyInFourDigitYears(a);
    OursExactlyInFourDigitYears(b);
    FourDigits(a.year);
    FourDigits(b.year);
    SameWidthYears(a, b);
    SameWidthYears(b, a);
    LexTotal(Key(a), Key(b));
    assert a != b ==> Before(a, b) || Before(b, a);
  }

  // ---------------------------------------------------------------- retention

  function Reversed(xs: seq<string>): (r: seq<string>)
    ensures |r| == |xs| && forall i :: 0 <= i < |r| ==> r[i] == xs[|xs| - 1 - i]
  {
    seq(|xs|, i requires 0 <= i < |xs| => xs[|xs| - 1 - i])
  }

  /** Our names, newest first. */
  function NewestFirst(keys: seq<string>): seq<string> {
    Reversed(Sort(Filter(keys, IsOurs), LexLeq))
  }

  function Kept(keys: seq<string>, keep: int): seq<string> {
    var ours := NewestFirst(keys);
    ours[..if keep < 0 then 0 else if keep < |ours| then keep else |ours|]
  }

  function ToDelete(keys: seq<string>, keep: int): seq<string> {
    var ours := NewestFirst(keys);
    var from := if keep > 0 then keep else 0;
    if from < |ours| then ours[from..] else []
  }

  lemma {:induction false} LexLeqIsTotal()
    ensures TotalPreorder(LexLeq)
  {
    hide LexLess;
    forall a: string, b: string ensures LexLeq(a, b) || LexLeq(b, a) {
      LexTotal(a, b);
    }
    forall a: string, b: string, c: string | LexLeq(a, b) && LexLeq(b, c) ensures LexLeq(a, c) {
      if a != b && b != c {
        LexTransitive(a, b, c);
      }
    }
  }

  lemma {:induction false} ReversedPermutes(xs: seq<string>)
    ensures multiset(Reversed(xs)) == multiset(xs)
  {
    if xs != [] {
      var n := |xs| - 1;
      ReversedPermutes(xs[..n]);
      assert xs == xs[..n] + [xs[n]];
      assert Reversed(xs) == [xs[n]] + Reversed(xs[..n]);
    }
  }

  lemma {:induction false} NewestFirstIsSorted(keys: seq<string>)
    ensures var ours := NewestFirst(keys);
            && multiset(ours) == multiset(Filter(keys, IsOurs))
            && (forall k :: k in ours <==> k in keys && IsOurs(k))
            && forall i, j :: 0 <= i < j < |ours| ==> LexLeq(ours[j], ours[i])
  {
    hide Sort, Filter, LexLess, IsOurs, LexLeq;
    var mine := Filter(keys, IsOurs);
    LexLeqIsTotal();
    SortSorts(mine, LexLeq);
    SortPermutes(mine, LexLeq);
    ReversedPermutes(Sort(mine, LexLeq));
    SameElements(NewestFirst(keys), mine);
  }

  lemma {:induction false} SplitInOrder(ours: seq<string>, n: nat)
    requires n <= |ours| && forall i, j :: 0 <= i < j < |ours| ==> LexLeq(ours[j], ours[i])
    ensures forall a, b :: a in ours[..n] && b in ours[n..] ==> LexLeq(b, a)
  {
    hide LexLeq;
    var kept, gone := ours[..n], ours[n..];
    forall a, b | a in kept && b in gone ensures LexLeq(b, a) {
      var i :| 0 <= i < |kept| && kept[i] == a;
      var j :| 0 <= j < |gone| && gone[j] == b;
      assert ours[i] == a && ours[n + j] == b;
    }
  }

  /** Where the newest-first list of our names is cut. */
  lemma {:induction false} RetentionCuts(keys: seq<string>, keep: int)
    ensures var ours, n := NewestFirst(keys), |Kept(keys, keep)|;
            n <= |ours| && Kept(keys, keep) == ours[..n] && ToDelete(keys, keep) == ours[n..]
            && (n < |ours| ==> n == if keep > 0 then keep else 0) && (n <= keep || n == 0)
  {
    hide NewestFirst;
  }

  /**
   * Our names fall into the kept and the deleted ones, no kept name is older than a deleted one, as many as
   * allowed are kept, and no foreign name is ever deleted.
   */
  lemma {:induction false} RetentionSplits(keys: seq<string>, keep: int)
    ensures multiset(Kept(keys, keep)) + multiset(ToDelete(keys, keep)) == multiset(Filter(keys, IsOurs))
    ensures |Kept(keys, keep)| <= keep || Kept(keys, keep) == []
    ensures ToDelete(keys, keep) != [] ==> |Kept(keys, keep)| == if keep > 0 then keep else 0
    ensures forall a, b :: a in Kept(keys, keep) && b in ToDelete(keys, keep) ==> LexLeq(b, a)
    ensures forall k :: k in ToDelete(keys, keep) || k in Kept(keys, keep) ==> k in keys && IsOurs(k)
  {
    hide *;
    NewestFirstIsSorted(keys);
    RetentionCuts(keys, keep);
    var ours, n := NewestFirst(keys), |Kept(keys, keep)|;
    SplitInOrder(ours, n);
    assert ours == ours[..n] + ours[n..];
    assert forall k :: k in ours[n..] || k in ours[..n] ==> k in ours;
  }

  /** What is deleted is named from the newest to the oldest. */
  lemma {:induction false} DeletedNewestFirst(keys: seq<string>, keep: int, i: nat, j: nat)
    requires i < j < |ToDelete(keys, keep)|
    ensures LexLeq(ToDelete(keys, keep)[j], ToDelete(keys, keep)[i])
  {
    hide *;
    NewestFirstIsSorted(keys);
    RetentionCuts(keys, keep);
    var ours, n := NewestFirst(keys), |Kept(keys, keep)|;
    assert ours[n..][i] == ours[n + i] && ours[n..][j] == ours[n + j];
  }

  /** In time: of the backups listed, no deleted one is newer than a kept one. */
  lemma {:induction false} KeepsTheNewest(keys: seq<string>, keep: int, a: Instant, b: Instant)
    requires IsInstant(a) && IsInstant(b)
    ensures Key(a) in Kept(keys, keep) && Key(b) in ToDelete(keys, keep) ==> b == a || Before(b, a)
  {
    hide Key, LexLess, IsOurs, Kept, ToDelete, IsInstant, Before, Filter;
    RetentionSplits(keys, keep);
    if Key(a) in Kept(keys, keep) && Key(b) in ToDelete(keys, keep) {
      NamesAreInTimeOrder(b, a);
    }
  }

  /** How many of our names in a listing are newer than `k`. */
  ghost function Newer(stored: set<string>, k: string): set<string> {
    set j | j in stored && IsOurs(j) && LexLess(k, j)
  }

  lemma {:induction false} CardinalityOfDistinct(xs: seq<string>)
    requires Distinct(xs)
    ensures |set x | x in xs| == |xs|
    decreases |xs|
  {
    if xs != [] {
      var n := |xs| - 1;
      CardinalityOfDistinct(xs[..n]);
      assert xs == xs[..n] + [xs[n]];
      assert (set x | x in xs) == (set x | x in xs[..n]) + {xs[n]};
    }
  }

  /** How many objects the job lists at most. */
  const MAX_KEYS := 1000

  ghost function InFolder(stored: set<string>): set<string> {
    set k | k in stored && FOLDER <= k
  }

  ghost function Listed(listing: seq<string>): set<string> {
    set k | k in listing
  }

  /** A listing names objects of the folder, each once, and all of them if it can. */
  ghost predicate Lists(listing: seq<string>, stored: set<string>) {
    Distinct(listing) && Listed(listing) <= InFolder(stored) && |listing| == Min(|InFolder(stored)|, MAX_KEYS)
  }

  /** A listing with room for every object of the folder leaves out none of ours. */
  lemma {:induction false} CompleteListing(listing: seq<string>, stored: set<string>)
    requires Lists(listing, stored) && |InFolder(stored)| <= MAX_KEYS
    ensures forall k :: k in stored && IsOurs(k) ==> k in Listed(listing)
  {
    CardinalityOfDistinct(listing);
    SubsetSize(Listed(listing), InFolder(stored));
    forall k | k in stored && IsOurs(k) ensures k in Listed(listing) {
      assert k[..19][..14] == FOLDER;
      assert k in InFolder(stored);
    }
  }

  lemma {:induction false} SubsetSize(a: set<string>, b: set<string>)
    requires a <= b
    ensures |a| <= |b|
    ensures |a| == |b| ==> a == b
  {
    assert b == a + (b - a);
    assert |b - a| == 0 ==> b - a == {};
  }

  lemma {:induction false} FilterCounts(xs: seq<string>, p: string -> bool, x: string)
    ensures multiset(Filter(xs, p))[x] <= multiset(xs)[x]
    decreases |xs|
  {
    if xs != [] {
      FilterCounts(xs[1..], p, x);
      assert xs == [xs[0]] + xs[1..];
    }
  }

  lemma {:induction false} OursAreDistinct(listing: seq<string>)
    requires Distinct(listing)
    ensures Distinct(NewestFirst(listing))
  {
    hide *;
    hide Filter;
    NewestFirstIsSorted(listing);
    forall x ensures multiset(NewestFirst(listing))[x] <= 1 {
      FilterCounts(listing, IsOurs, x);
      AtMostOnce(listing, x);
    }
    DistinctByCount(NewestFirst(listing));
  }

  /** A listed name is deleted exactly if it is ours and at least `keep` of ours in the listing are newer. */
  lemma {:induction false} DeletedExactlyWhen(listing: seq<string>, keep: int, k: string)
    requires Distinct(listing)
    ensures k in ToDelete(listing, keep) <==> k in listing && IsOurs(k) && |Newer(Listed(listing), k)| >= keep
  {
    hide *;
    var ours, n := NewestFirst(listing), |Kept(listing, keep)|;
    NewestFirstIsSorted(listing);
    OursAreDistinct(listing);
    RetentionCuts(listing, keep);
    ListedUnfold(listing);
    if k in ours {
      var p :| 0 <= p < |ours| && ours[p] == k;
      NewerIsPrefix(ours, Listed(listing), p);
      if n <= p {
        assert ours[n..][p - n] == k;
      } else {
        forall i | 0 <= i < |ours[n..]| ensures ours[n..][i] != k {
          assert ours[n..][i] == ours[n + i];
          DistinctUnfold(ours, p, n + i);
        }
      }
    } else {
      assert forall x :: x in ours[n..] ==> x in ours;
    }
  }

  lemma {:induction false} ListedUnfold(listing: seq<string>)
    ensures forall k :: k in Listed(listing) <==> k in listing
  {
  }

  lemma {:induction false} DistinctUnfold(xs: seq<string>, i: nat, j: nat)
    requires Distinct(xs) && i < j < |xs|
    ensures xs[i] != xs[j]
  {
  }

  lemma {:induction false} NewerIsPrefix(ours: seq<string>, stored: set<string>, p: nat)
    requires p < |ours| && Distinct(ours)
    requires forall k :: k in ours <==> k in stored && IsOurs(k)
    requires forall i, j :: 0 <= i < j < |ours| ==> LexLeq(ours[j], ours[i])
    ensures |Newer(stored, ours[p])| == p
  {
    hide LexLess, IsOurs;
    var front := ours[..p];
    forall k ensures k in Newer(stored, ours[p]) <==> k in front {
      if k in ours {
        var q :| 0 <= q < |ours| && ours[q] == k;
        LexTotal(ours[p], ours[q]);
        if q < p {
          assert front[q] == k;
        } else {
          assert forall i :: 0 <= i < p ==> ours[i] != ours[q];
        }
      }
    }
    assert Newer(stored, ours[p]) == set x | x in front;
    CardinalityOfDistinct(front);
  }

  // ---------------------------------------------------------------- runs of the backup job

  /**
   * One run of the job: upload the backup of instant `t`, list the folder in some order, as far as a listing goes,
   * and try to delete what retention names. A failed deletion is ignored, so any part of it may remain.
   */
  ghost predicate BackedUp(before: set<string>, after: set<string>, t: Instant, keep: int) {
    exists listing :: Lists(listing, before + {Key(t)}) && Pruned(listing, before + {Key(t)}, after, keep)
  }

  ghost predicate Pruned(listing: seq<string>, stored: set<string>, after: set<string>, keep: int) {
    after <= stored && forall k :: k in stored && k !in after ==> k in ToDelete(listing, keep)
  }

  /** The same with every deletion done. */
  ghost predicate BackedUpCleanly(before: set<string>, after: set<string>, t: Instant, keep: int) {
    exists listing :: Lists(listing, before + {Key(t)})
                      && forall k :: k in after <==> k in before + {Key(t)} && k !in ToDelete(listing, keep)
  }

  ghost predicate Scheduled(ts: seq<Instant>) {
    && (forall i :: 0 <= i < |ts| ==> IsInstant(ts[i]) && 1000 <= ts[i].year <= 9999)
    && forall i, j :: 0 <= i < j < |ts| ==> Before(ts[i], ts[j])
  }

  lemma {:induction false} ScheduledKeys(ts: seq<Instant>)
    requires Scheduled(ts)
    ensures forall i :: 0 <= i < |ts| ==> IsOurs(Key(ts[i]))
    ensures forall i, j :: 0 <= i < j < |ts| ==> LexLess(Key(ts[i]), Key(ts[j]))
  {
    hide Key, IsOurs, LexLess, Before;
    forall i | 0 <= i < |ts| ensures IsOurs(Key(ts[i])) {
      OursExactlyInFourDigitYears(ts[i]);
    }
    forall i, j | 0 <= i < j < |ts| ensures LexLess(Key(ts[i]), Key(ts[j])) {
      NamesAreInTimeOrder(ts[i], ts[j]);
    }
  }

  /** `stores[i]` is the object store before the backup of instant `ts[i]`. */
  ghost predicate Run(stores: seq<set<string>>, ts: seq<Instant>, keep: int) {
    && |stores| == |ts| + 1 && Scheduled(ts)
    && (forall i :: 0 <= i < |ts| ==> BackedUp(stores[i], stores[i + 1], ts[i], keep))
    && forall k, i :: k in stores[0] && IsOurs(k) && 0 <= i < |ts| ==> LexLess(k, Key(ts[i]))
  }

  ghost function Window(ts: seq<Instant>, from: nat): set<string> {
    set i | from <= i < |ts| :: Key(ts[i])
  }

  lemma {:induction false} WindowSize(ts: seq<Instant>, from: nat)
    requires Scheduled(ts) && from <= |ts|
    ensures |Window(ts, from)| == |ts| - from
    decreases |ts| - from
  {
    hide Key, IsOurs, LexLess, Before;
    ScheduledKeys(ts);
    if from < |ts| {
      WindowSize(ts, from + 1);
      assert Window(ts, from) == Window(ts, from + 1) + {Key(ts[from])};
      forall i | from < i < |ts| ensures Key(ts[i]) != Key(ts[from]) {
        LexTotal(Key(ts[from]), Key(ts[i]));
      }
    }
  }

  /** Retention deletes from the store only what is ours and has `keep` newer ones of ours beside it. */
  lemma {:induction false} DeletedIsOld(listing: seq<string>, stored: set<string>, keep: int, k: string)
    requires Lists(listing, stored) && k in ToDelete(listing, keep)
    ensures k in stored && IsOurs(k) && |Newer(stored, k)| >= keep
  {
    hide IsOurs, LexLess, ToDelete;
    DeletedExactlyWhen(listing, keep, k);
    var newer, all := Newer(Listed(listing), k), Newer(stored, k);
    assert forall j :: j in newer ==> j in Listed(listing) && j in InFolder(stored) && j in all;
    SubsetSize(newer, all);
    assert k in Listed(listing) && k in InFolder(stored);
  }

  lemma {:induction false} OursComeFromTheRun(stores: seq<set<string>>, ts: seq<Instant>, keep: int, n: nat, k: string)
    requires Run(stores, ts, keep) && n <= |ts| && k in stores[n] && IsOurs(k)
    ensures k in stores[0] || exists i :: 0 <= i < n && k == Key(ts[i])
    decreases n
  {
    hide Key, IsOurs, LexLess, ToDelete;
    if n > 0 {
      assert BackedUp(stores[n - 1], stores[n - 1 + 1], ts[n - 1], keep);
      if k != Key(ts[n - 1]) {
        OursComeFromTheRun(stores, ts, keep, n - 1, k);
      }
    }
  }

  /** What is newer than a backup of the run is a later backup of the run. */
  lemma {:induction false} NewerIsLater(stores: seq<set<string>>, ts: seq<Instant>, keep: int, n: nat, i: nat)
    requires Run(stores, ts, keep) && i <= n < |ts|
    ensures |Newer(stores[n] + {Key(ts[n])}, Key(ts[i]))| <= n - i
  {
    hide Key, IsOurs, LexLess, BackedUp, Before;
    ScheduledKeys(ts);
    assert Scheduled(ts[..n + 1]);
    var newer, later := Newer(stores[n] + {Key(ts[n])}, Key(ts[i])), Window(ts[..n + 1], i + 1);
    forall k | k in newer ensures k in later {
      if k != Key(ts[n]) {
        OursComeFromTheRun(stores, ts, keep, n, k);
        LexTotal(k, Key(ts[i]));
        var j :| 0 <= j < n && k == Key(ts[j]);
        LexTotal(Key(ts[j]), Key(ts[i]));
        assert ts[..n + 1][j] == ts[j];
      } else {
        LexTotal(k, Key(ts[i]));
        assert ts[..n + 1][n] == ts[n];
      }
    }
    WindowSize(ts[..n + 1], i + 1);
    SubsetSize(newer, later);
  }

  /** The newest `keep` backups of a run are always in the store, whichever deletions fail. */
  lemma {:induction false} NewestSurvive(stores: seq<set<string>>, ts: seq<Instant>, keep: int, n: nat, i: nat)
    requires Run(stores, ts, keep) && i < n <= |ts| && n - i <= keep
    ensures Key(ts[i]) in stores[n]
    decreases n
  {
    hide Key, IsOurs, LexLess, ToDelete, Lists, Newer, Before;
    ScheduledKeys(ts);
    if i < n - 1 {
      NewestSurvive(stores, ts, keep, n - 1, i);
    }
    var stored := stores[n - 1] + {Key(ts[n - 1])};
    assert BackedUp(stores[n - 1], stores[n - 1 + 1], ts[n - 1], keep);
    var listing :| Lists(listing, stored) && Pruned(listing, stored, stores[n], keep);
    NewerIsLater(stores, ts, keep, n - 1, i);
    if Key(ts[i]) in ToDelete(listing, keep) {
      DeletedIsOld(listing, stored, keep, Key(ts[i]));
    }
  }

  /** No run of the job touches an object that is not one of ours. */
  lemma {:induction false} ForeignStays(stores: seq<set<string>>, ts: seq<Instant>, keep: int, n: nat, k: string)
    requires Run(stores, ts, keep) && n <= |ts| && !IsOurs(k)
    ensures k in stores[n] <==> k in stores[0]
    decreases n
  {
    hide Key, IsOurs, LexLess, ToDelete, Lists, Newer, Before;
    ScheduledKeys(ts);
    if n > 0 {
      ForeignStays(stores, ts, keep, n - 1, k);
      var stored := stores[n - 1] + {Key(ts[n - 1])};
      assert BackedUp(stores[n - 1], stores[n - 1 + 1], ts[n - 1], keep);
      var listing :| Lists(listing, stored) && Pruned(listing, stored, stores[n], keep);
      if k in ToDelete(listing, keep) {
        DeletedIsOld(listing, stored, keep, k);
      }
    }
  }

  /**
   * After a run whose last deletions succeed, our objects are exactly the newest `keep` backups, even where
   * earlier deletions failed or older backups were there before, if the folder held no more objects than one
   * listing names.
   */
  lemma {:induction false} ExactlyTheNewestRemain(stores: seq<set<string>>, ts: seq<Instant>, keep: int, k: string)
    ensures var n := |ts|;
            Run(stores, ts, keep) && n > 0 && 0 <= keep <= n
            && BackedUpCleanly(stores[n - 1], stores[n], ts[n - 1], keep)
            && |InFolder(stores[n - 1] + {Key(ts[n - 1])})| <= MAX_KEYS ==>
              (k in stores[n] && IsOurs(k) <==> exists i :: n - keep <= i < n && k == Key(ts[i]))
  {
    hide Key, IsOurs, LexLess, ToDelete, Lists, BackedUp, Before, BackedUpCleanly, Run;
    var n := |ts|;
    if Run(stores, ts, keep) && n > 0 && 0 <= keep <= n {
      RunShape(stores, ts, keep);
      if i :| n - keep <= i < n && k == Key(ts[i]) {
        NewestSurvive(stores, ts, keep, n, i);
        OursByDate(stores, ts, keep, i);
      } else if BackedUpCleanly(stores[n - 1], stores[n], ts[n - 1], keep) && IsOurs(k)
                && |InFolder(stores[n - 1] + {Key(ts[n - 1])})| <= MAX_KEYS {
        OlderIsGone(stores, ts, keep, k);
      }
    }
  }

  lemma {:induction false} RunShape(stores: seq<set<string>>, ts: seq<Instant>, keep: int)
    requires Run(stores, ts, keep)
    ensures |stores| == |ts| + 1
  {
  }

  lemma {:induction false} OursByDate(stores: seq<set<string>>, ts: seq<Instant>, keep: int, i: nat)
    requires Run(stores, ts, keep) && i < |ts|
    ensures IsOurs(Key(ts[i]))
  {
    hide Key, IsOurs, LexLess, Before;
    ScheduledKeys(ts);
  }

  /** A backup that is none of the newest `keep` has `keep` newer ones beside it, so it is deleted. */
  lemma {:induction false} OlderIsGone(stores: seq<set<string>>, ts: seq<Instant>, keep: int, k: string)
    requires Run(stores, ts, keep) && ts != [] && 0 <= keep <= |ts| && IsOurs(k)
    requires BackedUpCleanly(stores[|ts| - 1], stores[|ts|], ts[|ts| - 1], keep)
    requires |InFolder(stores[|ts| - 1] + {Key(ts[|ts| - 1])})| <= MAX_KEYS
    requires forall i :: |ts| - keep <= i < |ts| ==> k != Key(ts[i])
    ensures k !in stores[|ts|]
  {
    hide Key, IsOurs, LexLess, ToDelete, BackedUp, Before, InFolder;
    ScheduledKeys(ts);
    var n := |ts|;
    if k in stores[n] {
      var stored := stores[n - 1] + {Key(ts[n - 1])};
      var listing :| Lists(listing, stored)
                     && forall x :: x in stores[n] <==> x in stored && x !in ToDelete(listing, keep);
      CompleteListing(listing, stored);
      DeletedExactlyWhen(listing, keep, k);
      OlderThanTheWindow(stores, ts, keep, k);
      forall x | x in Window(ts, n - keep) ensures x in Newer(Listed(listing), k) {
        var j :| n - keep <= j < n && x == Key(ts[j]);
        NewestSurvive(stores, ts, keep, n, j);
      }
      WindowSize(ts, n - keep);
      SubsetSize(Window(ts, n - keep), Newer(Listed(listing), k));
      assert false;
    }
  }

  lemma {:induction false} OlderThanTheWindow(stores: seq<set<string>>, ts: seq<Instant>, keep: int, k: string)
    requires Run(stores, ts, keep) && 0 <= keep <= |ts| && k in stores[|ts|] && IsOurs(k)
    requires forall i :: |ts| - keep <= i < |ts| ==> k != Key(ts[i])
    ensures forall i :: |ts| - keep <= i < |ts| ==> LexLess(k, Key(ts[i]))
  {
    hide Key, IsOurs, LexLess, BackedUp, Before;
    ScheduledKeys(ts);
    OursComeFromTheRun(stores, ts, keep, |ts|, k);
  }
}
