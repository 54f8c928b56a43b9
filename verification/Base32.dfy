/**
 * Base32 as in apps/api/src/lib/totp.ts: a bit buffer in a 32-bit integer that wraps around on every
 * shift. The specification is section 6 of RFC 4648 read as arithmetic, without padding.
 */
module Base32 {
  import opened Wrappers
  import opened Text
  import opened Radix

  const B32 := "ABCDEFGHIJKLMNOPQRSTUVWXYZ234567"

  datatype Base32Error = InvalidBase32

  // ---------------------------------------------------------------- 32-bit shifts

  const WORD := 0x1_0000_0000

  /** 2 to the power of a shift distance the loops use. */
  function Two(k: nat): (r: nat)
    requires k <= 12
    ensures r > 0
  {
    if k == 0 then 1 else if k == 1 then 2 else if k == 2 then 4 else if k == 3 then 8
    else if k == 4 then 16 else if k == 5 then 32 else if k == 6 then 64 else if k == 7 then 128
    else if k == 8 then 256 else if k == 9 then 512 else if k == 10 then 1024 else if k == 11 then 2048 else 4096
  }

  /** `v << k` on the 32-bit pattern of `v`. */
  function Shl(v: nat, k: nat): (r: nat)
    requires k <= 12
    ensures r < WORD
  {
    MulNonnegative(v, Two(k));
    (v * Two(k)) % WORD
  }

  /** `v >>> k` on the 32-bit pattern of `v`. */
  function Ushr(v: nat, k: nat): nat
    requires k <= 12
  {
    v / Two(k)
  }

  lemma {:induction false} TwoIsPow(k: nat)
    requires k <= 12
    ensures Two(k) == Pow(2, k)
  {
    if k > 0 {
      TwoIsPow(k - 1);
    }
  }

  lemma {:induction false} TwoAdds(j: nat, k: nat)
    requires j + k <= 12
    ensures Two(j + k) == Two(j) * Two(k)
  {
    TwoIsPow(j);
    TwoIsPow(k);
    TwoIsPow(j + k);
    PowAdd(2, j, k);
  }

  lemma {:induction false} TwoValues()
    ensures Two(0) == 1 && Two(5) == 32 && Two(8) == 256
  {
  }

  lemma {:induction false} Regroup(acc: nat, w: nat, low: nat, d: nat)
    ensures acc * (w * low) + d * low == (acc * w + d) * low
  {
    assert acc * (w * low) == acc * w * low;
  }

  lemma {:induction false} DivMod(x: nat, m: nat)
    requires m > 0
    ensures x == x / m * m + x % m && x % m < m
  {
  }

  /** Wrapping at a multiple of `m` does not touch the remainder by `m`. */
  lemma {:induction false} WrapKeepsLow(x: nat, m: nat, wrap: nat, k: nat)
    requires m > 0 && wrap > 0 && wrap == k * m
    ensures x % wrap % m == x % m
  {
    var q, r := x / wrap, x % wrap;
    MulNonnegative(q, k);
    var whole: nat := q * k + r / m;
    assert x == whole * m + r % m by {
      DivMod(x, wrap);
      DivMod(r, m);
      Regroup(q, k, m, r / m);
    }
    DivModUnique(whole, m, r % m);
  }

  lemma {:induction false} WordIsMultiple(j: nat) returns (k: nat)
    requires j <= 12
    ensures k > 0 && WORD == k * Two(j)
  {
    TwoIsPow(8);
    PowAdd(2, 8, 8);
    PowAdd(2, 16, 16);
    assert Pow(2, 32) == WORD;
    k := Pow(2, 32 - j);
    TwoIsPow(j);
    PowAdd(2, j, 32 - j);
  }

  lemma {:induction false} ShiftedIsMultiple(value: nat, k: nat) returns (q: nat)
    requires k <= 12
    ensures Shl(value, k) == q * Two(k) && q * Two(k) + Two(k) <= WORD
  {
    hide Two;
    var c := WordIsMultiple(k);
    var y := Shl(value, k);
    WrapKeepsLow(value * Two(k), Two(k), WORD, c);
    DivModUnique(value, Two(k), 0);
    q := y / Two(k);
    DivMod(y, Two(k));
    if c < q {
      MulLess(c, q, Two(k));
    } else if q < c {
      MulLess(q, c, Two(k));
    }
  }

  /** Or-ing after a wrapping shift is wrapping after an exact shift. */
  lemma {:induction false} PushIsWrapped(value: nat, k: nat, x: nat)
    requires k <= 12 && x < Two(k)
    ensures BitOr(Shl(value, k), x) == (value * Two(k) + x) % WORD
  {
    hide Two, BitOr, Pow;
    var q := ShiftedIsMultiple(value, k);
    TwoIsPow(k);
    OrIsSum(q, k, x);
    var whole := value * Two(k);
    DivMod(whole, WORD);
    DivModUnique(whole / WORD, WORD, q * Two(k) + x);
  }

  /** Shifting bits in keeps the pending ones, whatever the wrap-around has cut off above them. */
  lemma {:induction false} PushKeepsPending(value: nat, bits: nat, k: nat, x: nat)
    requires bits + k <= 12 && x < Two(k)
    ensures var v := BitOr(Shl(value, k), x);
            v < WORD && v % Two(bits + k) == (value % Two(bits)) * Two(k) + x
  {
    hide Two, BitOr, Shl;
    PushIsWrapped(value, k, x);
    var c := WordIsMultiple(bits + k);
    MulNonnegative(value, Two(k));
    var whole: nat := value * Two(k) + x;
    WrapKeepsLow(whole, Two(bits + k), WORD, c);
    TwoAdds(bits, k);
    LowOfPushed(value, Two(bits), Two(k), x);
  }

  lemma {:induction false} LowOfPushed(value: nat, hi: nat, lo: nat, x: nat)
    requires hi > 0 && x < lo && hi * lo > 0
    ensures (value * lo + x) % (hi * lo) == (value % hi) * lo + x
  {
    MulNonnegative(value, lo);
    SplitRemainder(value * lo + x, hi, lo);
    DivModUnique(value, lo, x);
  }

  /** The top `width` of the pending bits, and what stays pending. */
  lemma {:induction false} TakeTop(value: nat, bits: nat, width: nat)
    requires width <= bits <= 12
    ensures value % Two(bits)
         == (Ushr(value, bits - width) % Two(width)) * Two(bits - width) + value % Two(bits - width)
  {
    TwoAdds(width, bits - width);
    SplitRemainder(value, Two(width), Two(bits - width));
  }

  lemma {:induction false} SplitRemainder(value: nat, hi: nat, lo: nat)
    requires hi > 0 && lo > 0
    ensures value % (hi * lo) == (value / lo % hi) * lo + value % lo
  {
    var q, r := value / lo, value % lo;
    var rest := (q % hi) * lo + r;
    DivMod(value, lo);
    DivMod(q, hi);
    MulLess(q % hi, hi, lo);
    Regroup(q / hi, hi, lo, q % hi);
    DivModUnique(q / hi, hi * lo, rest);
  }

  lemma {:induction false} LastSymbol(value: nat, bits: nat)
    requires 0 < bits < 5
    ensures Shl(value, 5 - bits) % 32 == (value % Two(bits)) * Two(5 - bits)
  {
    hide BitOr;
    PushKeepsPending(value, bits, 5 - bits, 0);
    OrZero(Shl(value, 5 - bits));
  }

  // ---------------------------------------------------------------- symbols

  function Symbol(d: nat): char
    requires d < 32
  {
    B32[d]
  }

  /** `B32.indexOf(c)`, with 32 for "not found". */
  function SymbolIndex(c: char): (d: nat)
    ensures d <= 32
  {
    assert |B32| == 32;
    IndexOfChar(B32, c)
  }

  function Symbols(ds: seq<nat>): (s: string)
    requires AllBelow(32, ds)
    ensures |s| == |ds|
  {
    seq(|ds|, i requires 0 <= i < |ds| => Symbol(ds[i]))
  }

  lemma {:induction false} SymbolsAppend(ds: seq<nat>, d: nat)
    requires AllBelow(32, ds) && d < 32
    ensures AllBelow(32, ds + [d]) && Symbols(ds + [d]) == Symbols(ds) + [Symbol(d)]
  {
    hide SymbolIndex, Symbol;
  }

  predicate IsSymbol(c: char) {
    'A' <= c <= 'Z' || '2' <= c <= '7'
  }

  lemma {:induction false} SymbolByRange(d: nat)
    requires d < 32
    ensures Symbol(d) == if d < 26 then 'A' + d as char else '2' + (d - 26) as char
  {
  }

  lemma {:induction false} SymbolIsFound(d: nat)
    requires d < 32
    ensures SymbolIndex(Symbol(d)) == d && IsSymbol(Symbol(d))
  {
    SymbolByRange(d);
    var i := IndexOfChar(B32, Symbol(d));
    assert B32[d] in B32;
    SymbolByRange(i);
  }

  // ---------------------------------------------------------------- the specification

  /** Symbols needed for `n` bytes: the least number holding all bits. */
  function EncodedLength(n: nat): nat {
    (8 * n + 4) / 5
  }

  /** The zero bits that fill the last symbol. */
  function PaddingBits(n: nat): (r: nat)
    ensures r < 5
  {
    5 * EncodedLength(n) - 8 * n
  }

  /** The bits of `buf`, padded with zeros on the right to whole symbols. */
  function Encode(buf: seq<byte>): (s: string)
    ensures |s| == EncodedLength(|buf|)
  {
    MulNonnegative(Value(256, buf), Two(PaddingBits(|buf|)));
    Symbols(Digits(32, Value(256, buf) * Two(PaddingBits(|buf|)), EncodedLength(|buf|)))
  }

  /**
   * The letters that upper-case to symbols only, single or not. All others outside ASCII upper-case to something
   * outside ASCII, which is no symbol either, and stand for themselves here.
   */
  function UpperOf(c: char): (r: string)
    ensures r != ""
  {
    if 'a' <= c <= 'z' then ['A' + (c - 'a')]
    else if c == '\U{00DF}' then "SS"
    else if c == '\U{0131}' then "I"
    else if c == '\U{017F}' then "S"
    else if c == '\U{FB00}' then "FF"
    else if c == '\U{FB01}' then "FI"
    else if c == '\U{FB02}' then "FL"
    else if c == '\U{FB03}' then "FFI"
    else if c == '\U{FB04}' then "FFL"
    else if c == '\U{FB05}' || c == '\U{FB06}' then "ST"
    else [c]
  }

  function ToUpper(s: string): string {
    if s == "" then "" else UpperOf(s[0]) + ToUpper(s[1..])
  }

  lemma {:induction false} UpperAppends(s: string, t: string)
    ensures ToUpper(s + t) == ToUpper(s) + ToUpper(t)
    decreases |s|
  {
    hide UpperOf;
    if s == "" {
      assert s + t == t;
    } else {
      UpperAppends(s[1..], t);
      assert (s + t)[1..] == s[1..] + t;
    }
  }

  lemma {:induction false} UpperKeeps(s: string)
    requires forall i :: 0 <= i < |s| ==> UpperOf(s[i]) == [s[i]]
    ensures ToUpper(s) == s
    decreases |s|
  {
    hide UpperOf;
    if s != "" {
      UpperKeeps(s[1..]);
      assert s == [s[0]] + s[1..];
    }
  }

  function StripPadding(s: string): (r: string)
    ensures r <= s && (r != [] ==> r[|r| - 1] != '=')
  {
    if s != [] && s[|s| - 1] == '=' then StripPadding(s[..|s| - 1]) else s
  }

  ghost predicate AllSymbols(s: string) {
    forall i :: 0 <= i < |s| ==> SymbolIndex(s[i]) < 32
  }

  function SymbolValues(s: string): (ds: seq<nat>)
    requires AllSymbols(s)
    ensures |ds| == |s| && AllBelow(32, ds)
  {
    seq(|s|, i requires 0 <= i < |s| => SymbolIndex(s[i]))
  }

  lemma {:induction false} SymbolValuesAppend(s: string, c: char)
    requires AllSymbols(s) && SymbolIndex(c) < 32
    ensures AllSymbols(s + [c]) && SymbolValues(s + [c]) == SymbolValues(s) + [SymbolIndex(c)]
  {
    hide SymbolIndex, Symbol;
  }

  /** The whole bytes among the bits of the symbols; up to seven bits at the end are dropped. */
  function DecodedBytes(s: string): seq<byte>
    requires AllSymbols(s)
  {
    Digits(256, Value(32, SymbolValues(s)) / Two(5 * |s| % 8), 5 * |s| / 8)
  }

  ghost function Decode(str: string): Result<seq<byte>, Base32Error> {
    var s := StripPadding(ToUpper(str));
    if AllSymbols(s) then Ok(DecodedBytes(s)) else Err(InvalidBase32)
  }

  // ---------------------------------------------------------------- the loops

  /** `total` is what has come in: the digits written so far followed by the low `bits` bits of `value`. */
  ghost predicate Buffered(base: nat, ds: seq<nat>, value: nat, bits: nat, total: nat) {
    bits <= 12 && total == Value(base, ds) * Two(bits) + value % Two(bits)
  }

  /** Moving the top pending bits to the output keeps the total. */
  lemma {:induction false} EmitStep(ds: seq<nat>, value: nat, bits: nat, width: nat, total: nat)
    requires width <= bits <= 12 && Buffered(Two(width), ds, value, bits, total)
    ensures Buffered(Two(width), ds + [Ushr(value, bits - width) % Two(width)], value, bits - width, total)
  {
    hide Two;
    var d := Ushr(value, bits - width) % Two(width);
    TakeTop(value, bits, width);
    TwoAdds(width, bits - width);
    Regroup(Value(Two(width), ds), Two(width), Two(bits - width), d);
    ValueAppend(Two(width), ds, d);
  }

  /** Shifting bits in multiplies the total and adds them. */
  lemma {:induction false} AcceptStep(base: nat, ds: seq<nat>, value: nat, bits: nat, width: nat, x: nat, total: nat)
    requires bits + width <= 12 && x < Two(width) && Buffered(base, ds, value, bits, total)
    ensures Buffered(base, ds, BitOr(Shl(value, width), x), bits + width, total * Two(width) + x)
    ensures BitOr(Shl(value, width), x) < WORD
  {
    hide Two;
    PushKeepsPending(value, bits, width, x);
    TwoAdds(bits, width);
    Regroup(Value(base, ds), Two(bits), Two(width), value % Two(bits));
  }

  /** The padded last symbol of the encoder: the bits left over, shifted up to a whole symbol. */
  lemma {:induction false} LastStep(ds: seq<nat>, value: nat, bits: nat, total: nat)
    requires 0 < bits < 5 && Buffered(32, ds, value, bits, total)
    ensures Value(32, ds + [Shl(value, 5 - bits) % 32]) == total * Two(5 - bits)
  {
    hide Two;
    TwoValues();
    LastSymbol(value, bits);
    TwoAdds(bits, 5 - bits);
    Regroup(Value(32, ds), Two(bits), Two(5 - bits), value % Two(bits));
    ValueAppend(32, ds, Shl(value, 5 - bits) % 32);
  }

  lemma {:induction false} EncodeIs(buf: seq<byte>, ds: seq<nat>)
    requires AllBelow(32, ds) && 0 <= 5 * |ds| - 8 * |buf| < 5
    requires Value(32, ds) == Value(256, buf) * Two(5 * |ds| - 8 * |buf|)
    ensures Encode(buf) == Symbols(ds)
  {
    hide SymbolIndex, Symbol;
    assert |ds| == EncodedLength(|buf|);
    DigitsOfValue(32, ds);
  }

  lemma {:induction false} NothingLeft(ds: seq<nat>, value: nat, total: nat)
    requires Buffered(32, ds, value, 0, total)
    ensures Value(32, ds) == total * Two(0)
  {
  }

  lemma {:induction false} DecodeIs(s: string, bytes: seq<byte>, value: nat)
    requires AllSymbols(s) && |bytes| == 5 * |s| / 8
    requires Buffered(256, bytes, value, 5 * |s| % 8, Value(32, SymbolValues(s)))
    ensures DecodedBytes(s) == bytes
  {
    hide Two, SymbolIndex, Symbol;
    var bits := 5 * |s| % 8;
    DivModUnique(Value(256, bytes), Two(bits), value % Two(bits));
    DigitsOfValue(256, bytes);
  }

  method Base32Encode(buf: seq<byte>) returns (out: string)
    ensures out == Encode(buf)
  {
    hide Two, Value, Shl, Ushr, BitOr, Encode, Buffered, Symbols, Symbol, EncodedLength, AllBelow;
    TwoValues();
    var bits, value := 0, 0;
    out := "";
    ghost var ds: seq<nat> := [];
    StartsEmpty(32);
    for i := 0 to |buf|
      invariant 0 <= bits < 5
      invariant 5 * |ds| + bits == 8 * i
      invariant AllBelow(32, ds) && out == Symbols(ds)
      invariant Buffered(32, ds, value, bits, Value(256, buf[..i]))
    {
      AcceptStep(32, ds, value, bits, 8, buf[i], Value(256, buf[..i]));
      ValueAppend(256, buf[..i], buf[i]);
      assert buf[..i] + [buf[i]] == buf[..i + 1];
      value := BitOr(Shl(value, 8), buf[i]);
      bits := bits + 8;
      while bits >= 5
        invariant 0 <= bits <= 12
        invariant 5 * |ds| + bits == 8 * (i + 1)
        invariant AllBelow(32, ds) && out == Symbols(ds)
        invariant Buffered(32, ds, value, bits, Value(256, buf[..i + 1]))
      {
        EmitStep(ds, value, bits, 5, Value(256, buf[..i + 1]));
        var d := Ushr(value, bits - 5) % 32;
        SymbolsAppend(ds, d);
        out := out + [Symbol(d)];
        ds := ds + [d];
        bits := bits - 5;
      }
    }
    assert buf[..|buf|] == buf;
    if bits > 0 {
      LastStep(ds, value, bits, Value(256, buf));
      var d := Shl(value, 5 - bits) % 32;
      SymbolsAppend(ds, d);
      out := out + [Symbol(d)];
      ds := ds + [d];
    } else {
      NothingLeft(ds, value, Value(256, buf));
    }
    EncodeIs(buf, ds);
  }

  lemma {:induction false} StartsEmpty(base: nat)
    ensures Value(256, []) == 0 && Value(32, []) == 0 && Buffered(base, [], 0, 0, 0)
    ensures AllBelow(base, []) && Symbols([]) == ""
  {
  }

  lemma {:induction false} NotAllSymbols(s: string, i: nat)
    requires i < |s| && SymbolIndex(s[i]) == 32
    ensures !AllSymbols(s)
  {
    hide SymbolIndex, Symbol;
  }

  lemma {:induction false} NoSymbols()
    ensures AllSymbols("") && SymbolValues("") == []
  {
  }

  method Base32Decode(str: string) returns (r: Result<seq<byte>, Base32Error>)
    ensures r == Decode(str)
  {
    hide Two, Value, Shl, Ushr, BitOr, DecodedBytes, Buffered, SymbolValues, AllSymbols;
    hide StripPadding, ToUpper, SymbolIndex;
    TwoValues();
    var s := StripPadding(ToUpper(str));
    var bits, value := 0, 0;
    var bytes: seq<byte> := [];
    StartsEmpty(256);
    NoSymbols();
    for i := 0 to |s|
      invariant AllSymbols(s[..i])
      invariant 0 <= bits < 8
      invariant 8 * |bytes| + bits == 5 * i
      invariant Buffered(256, bytes, value, bits, Value(32, SymbolValues(s[..i])))
    {
      var idx := SymbolIndex(s[i]);
      if idx == 32 {
        NotAllSymbols(s, i);
        return Err(InvalidBase32);
      }
      assert s[..i + 1] == s[..i] + [s[i]];
      SymbolValuesAppend(s[..i], s[i]);
      ValueAppend(32, SymbolValues(s[..i]), idx);
      AcceptStep(256, bytes, value, bits, 5, idx, Value(32, SymbolValues(s[..i])));
      value := BitOr(Shl(value, 5), idx);
      bits := bits + 5;
      if bits >= 8 {
        EmitStep(bytes, value, bits, 8, Value(32, SymbolValues(s[..i + 1])));
        var b := Ushr(value, bits - 8) % 256;
        bytes := bytes + [b];
        bits := bits - 8;
      }
    }
    assert s[..|s|] == s;
    DecodeIs(s, bytes, value);
    r := Ok(bytes);
  }

  // ---------------------------------------------------------------- round trip

  lemma {:induction false} Pow32(m: nat)
    ensures Pow(32, m) == Pow(2, 5 * m)
  {
    if m > 0 {
      Pow32(m - 1);
      TwoIsPow(5);
      PowAdd(2, 5 * (m - 1), 5);
    }
  }

  lemma {:induction false} Pow256(n: nat)
    ensures Pow(256, n) == Pow(2, 8 * n)
  {
    if n > 0 {
      Pow256(n - 1);
      TwoIsPow(8);
      PowAdd(2, 8 * (n - 1), 8);
    }
  }

  lemma {:induction false} SymbolsReadBack(ds: seq<nat>)
    requires AllBelow(32, ds)
    ensures AllSymbols(Symbols(ds)) && SymbolValues(Symbols(ds)) == ds
    ensures forall i :: 0 <= i < |ds| ==> IsSymbol(Symbols(ds)[i])
  {
    hide SymbolIndex, Symbol;
    forall i | 0 <= i < |ds|
      ensures SymbolIndex(Symbols(ds)[i]) == ds[i] && IsSymbol(Symbols(ds)[i])
    {
      SymbolIsFound(ds[i]);
    }
  }

  lemma {:induction false} StripsAll(s: string, pad: string)
    requires forall i :: 0 <= i < |pad| ==> pad[i] == '='
    requires s == [] || s[|s| - 1] != '='
    ensures StripPadding(s + pad) == s
    decreases |pad|
  {
    if pad == [] {
      assert s + pad == s;
    } else {
      assert (s + pad)[..|s + pad| - 1] == s + pad[..|pad| - 1];
      StripsAll(s, pad[..|pad| - 1]);
    }
  }

  /** Decoding undoes encoding for every byte sequence, also in lower case and with any `=` padding. */
  lemma {:induction false} DecodeUndoesEncode(buf: seq<byte>, written: string, pad: string)
    requires ToUpper(written) == Encode(buf)
    requires forall i :: 0 <= i < |pad| ==> pad[i] == '='
    ensures Decode(written + pad) == Ok(buf)
  {
    hide Two, Value, DecodedBytes, Encode, SymbolValues, SymbolIndex, Symbol, PaddingBits, EncodedLength;
    EncodeHolds(buf);
    EncodeHasNoPadding(buf);
    LengthsFit(|buf|);
    UpperAppends(written, pad);
    UpperKeeps(pad);
    StripsAll(Encode(buf), pad);
    DecodedBytesAre(Encode(buf), buf, PaddingBits(|buf|));
  }

  lemma {:induction false} SymbolsExactly(c: char)
    ensures SymbolIndex(c) < 32 <==> IsSymbol(c)
  {
    if SymbolIndex(c) < 32 {
      SymbolIsFound(SymbolIndex(c));
      assert Symbol(SymbolIndex(c)) == c;
    }
    if IsSymbol(c) {
      var d: nat := if c >= 'A' then (c - 'A') as nat else 26 + (c - '2') as nat;
      SymbolByRange(d);
      SymbolIsFound(d);
    }
  }

  /** A character that the decoder takes for one or more symbols. */
  predicate IsAccepted(c: char) {
    forall i :: 0 <= i < |UpperOf(c)| ==> IsSymbol(UpperOf(c)[i])
  }

  lemma {:induction false} UpperIsSymbols(s: string)
    ensures AllSymbols(ToUpper(s)) <==> forall i :: 0 <= i < |s| ==> IsAccepted(s[i])
    ensures s != "" && s[|s| - 1] != '=' ==> ToUpper(s) != "" && ToUpper(s)[|ToUpper(s)| - 1] != '='
    decreases |s|
  {
    hide AllSymbols, IsAccepted, ToUpper;
    var n := |s| - 1;
    if s == "" {
      UpperOfNone();
    } else {
      UpperAppends(s[..n], [s[n]]);
      UpperOfOne(s[n]);
      assert s == s[..n] + [s[n]];
      UpperIsSymbols(s[..n]);
      AcceptedSymbols(s[n]);
      SymbolsJoin(ToUpper(s[..n]), UpperOf(s[n]));
    }
  }

  lemma {:induction false} UpperOfNone()
    ensures ToUpper("") == "" && AllSymbols(ToUpper(""))
  {
  }

  lemma {:induction false} UpperOfOne(c: char)
    ensures ToUpper([c]) == UpperOf(c)
  {
    hide UpperOf;
    assert [c][1..] == "" && ToUpper("") == "";
  }

  lemma {:induction false} SymbolsJoin(a: string, b: string)
    ensures AllSymbols(a + b) <==> AllSymbols(a) && AllSymbols(b)
  {
    hide SymbolIndex;
    assert forall i :: 0 <= i < |a| ==> (a + b)[i] == a[i];
    forall i | 0 <= i < |b| ensures (a + b)[|a| + i] == b[i] {
    }
    assert forall i :: |a| <= i < |a + b| ==> (a + b)[i] == b[i - |a|];
  }

  lemma {:induction false} AcceptedSymbols(c: char)
    ensures IsAccepted(c) <==> AllSymbols(UpperOf(c))
    ensures c != '=' ==> UpperOf(c)[|UpperOf(c)| - 1] != '='
  {
    hide SymbolIndex;
    forall i | 0 <= i < |UpperOf(c)| ensures SymbolIndex(UpperOf(c)[i]) < 32 <==> IsSymbol(UpperOf(c)[i]) {
      SymbolsExactly(UpperOf(c)[i]);
    }
  }

  /** The decoder accepts a string if and only if all its characters before the padding upper-case to symbols. */
  lemma {:induction false} AcceptsExactly(s: string, pad: string)
    requires s == "" || s[|s| - 1] != '='
    requires forall i :: 0 <= i < |pad| ==> pad[i] == '='
    ensures Decode(s + pad).Ok? <==> forall i :: 0 <= i < |s| ==> IsAccepted(s[i])
  {
    hide DecodedBytes, SymbolIndex, IsAccepted, AllSymbols;
    UpperAppends(s, pad);
    UpperKeeps(pad);
    UpperIsSymbols(s);
    StripsAll(ToUpper(s), pad);
  }

  /** The symbols hold the bits of the bytes followed by the padding bits. */
  lemma {:induction false} EncodeHolds(buf: seq<byte>)
    ensures var s := Encode(buf);
            && AllSymbols(s)
            && Value(32, SymbolValues(s)) == Value(256, buf) * Two(PaddingBits(|buf|))
  {
    hide Two, Value, Digits, Pow, Symbols, SymbolValues, AllSymbols, SymbolIndex, Symbol, PaddingBits, EncodedLength;
    MulNonnegative(Value(256, buf), Two(PaddingBits(|buf|)));
    var m, total := EncodedLength(|buf|), Value(256, buf) * Two(PaddingBits(|buf|));
    SymbolsReadBack(Digits(32, total, m));
    ShiftedFits(buf);
    ValueOfDigits(32, total, m);
  }

  lemma {:induction false} EncodeHasNoPadding(buf: seq<byte>)
    ensures forall i :: 0 <= i < |Encode(buf)| ==> IsSymbol(Encode(buf)[i])
    ensures ToUpper(Encode(buf)) == Encode(buf)
  {
    hide SymbolIndex, Symbol;
    MulNonnegative(Value(256, buf), Two(PaddingBits(|buf|)));
    SymbolsReadBack(Digits(32, Value(256, buf) * Two(PaddingBits(|buf|)), EncodedLength(|buf|)));
    UpperKeeps(Encode(buf));
  }

  lemma {:induction false} LengthsFit(n: nat)
    ensures var m := EncodedLength(n);
            5 * m - 8 * n == PaddingBits(n) && 5 * m % 8 == PaddingBits(n) && 5 * m / 8 == n
  {
  }

  lemma {:induction false} DecodedBytesAre(s: string, buf: seq<byte>, extra: nat)
    requires AllSymbols(s) && 5 * |s| % 8 == extra && 5 * |s| / 8 == |buf|
    requires Value(32, SymbolValues(s)) == Value(256, buf) * Two(extra)
    ensures DecodedBytes(s) == buf
  {
    hide Two, Value, SymbolIndex, Symbol;
    DivModUnique(Value(256, buf), Two(extra), 0);
    DigitsOfValue(256, buf);
  }

  lemma {:induction false} ShiftedFits(buf: seq<byte>)
    ensures Value(256, buf) * Two(PaddingBits(|buf|)) < Pow(32, EncodedLength(|buf|))
  {
    hide Two;
    var n, m, extra := |buf|, EncodedLength(|buf|), PaddingBits(|buf|);
    ValueBound(256, buf);
    Pow256(n);
    Pow32(m);
    TwoIsPow(extra);
    PowAdd(2, 8 * n, extra);
    MulLess(Value(256, buf), Pow(2, 8 * n), Two(extra));
  }

  /**
   * Any text of symbols decodes to the whole bytes of its bits: as many as fit, and the bits that are left over at the
   * end, at most seven, do not matter.
   */
  lemma {:induction false} DecodesTheBits(s: string)
    requires forall i :: 0 <= i < |s| ==> IsSymbol(s[i])
    ensures Decode(s).Ok? && AllSymbols(s)
    ensures var bytes := Decode(s).value;
            |bytes| == 5 * |s| / 8 && Value(256, bytes) == Value(32, SymbolValues(s)) / Pow(2, 5 * |s| % 8)
  {
    hide SymbolIndex, Two, Value, Pow, DecodedBytes, SymbolValues;
    forall i | 0 <= i < |s| ensures SymbolIndex(s[i]) < 32 && UpperOf(s[i]) == [s[i]] && s[i] != '=' {
      SymbolsExactly(s[i]);
    }
    UpperKeeps(s);
    StripsAll(s, "");
    assert s + "" == s;
    BytesHoldTheBits(s);
  }

  lemma {:induction false} BytesHoldTheBits(s: string)
    requires AllSymbols(s)
    ensures var n, e := 5 * |s| / 8, 5 * |s| % 8;
            && |DecodedBytes(s)| == n
            && Value(256, DecodedBytes(s)) == Value(32, SymbolValues(s)) / Pow(2, e)
  {
    hide SymbolIndex, Two, Value, Pow, Digits, SymbolValues;
    var n, e, v := 5 * |s| / 8, 5 * |s| % 8, Value(32, SymbolValues(s));
    ValueBound(32, SymbolValues(s));
    Pow32(|s|);
    Pow256(n);
    PowAdd(2, 8 * n, e);
    TwoIsPow(e);
    QuotientFits(v, Two(e), Pow(2, 8 * n));
    ValueOfDigits(256, v / Two(e), n);
  }

  /** The plain round trip, and the output length the standard prescribes. */
  lemma {:induction false} RoundTrip(buf: seq<byte>)
    ensures Decode(Encode(buf)) == Ok(buf)
    ensures 5 * |Encode(buf)| - 5 < 8 * |buf| <= 5 * |Encode(buf)|
  {
    hide SymbolIndex, Symbol, Encode, Decode, ToUpper;
    EncodeHasNoPadding(buf);
    LengthsFit(|buf|);
    DecodeUndoesEncode(buf, Encode(buf), "");
    assert Encode(buf) + "" == Encode(buf);
  }
}
