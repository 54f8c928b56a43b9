/**
 * Time-based one-time passwords (apps/api/src/lib/totp.ts; RFC 6238 over RFC 4226). HMAC-SHA1 is a
 * parameter: any function from key and message to 20 bytes.
 */
module Totp {
  import opened Wrappers
  import opened Radix
  import Base32

  datatype TotpError = CounterOutOfRange | InvalidSecret

  const STEP_MS := 30_000
  const COUNTER_LIMIT := 0x1_0000_0000_0000_0000

  type Hmac = (seq<byte>, seq<byte>) -> seq<byte>

  ghost predicate Sha1Sized(hmac: Hmac) {
    forall key, message :: |hmac(key, message)| == 20
  }

  function CounterAt(timeMs: int): int {
    timeMs / STEP_MS
  }

  /** `writeBigUInt64BE`: refuses what does not fit eight bytes. */
  function CounterBytes(counter: int): Result<seq<byte>, TotpError> {
    if 0 <= counter < COUNTER_LIMIT then Ok(Digits(256, counter, 8)) else Err(CounterOutOfRange)
  }

  /** The 31-bit number the code is made of. */
  function Truncate(mac: seq<byte>): nat
    requires |mac| == 20
  {
    var o := mac[|mac| - 1] % 16;
    var a: nat, b: nat, c: nat, d: nat := mac[o], mac[o + 1], mac[o + 2], mac[o + 3];
    BitOr(BitOr(BitOr((a % 128) * 0x100_0000, b * 0x1_0000), c * 0x100), d)
  }

  ghost function TotpAt(hmac: Hmac, secret: string, timeMs: int, digits: nat): Result<string, TotpError>
    requires Sha1Sized(hmac)
  {
    var counter := CounterBytes(CounterAt(timeMs));
    if counter.Err? then Err(counter.error)
    else
      var key := Base32.Decode(secret);
      if key.Err? then Err(InvalidSecret)
      else Ok(PadStart(Decimal(Truncate(hmac(key.value, counter.value)) % Pow(10, digits)), digits, '0'))
  }

  predicate SixDigits(code: string) {
    |code| == 6 && forall i :: 0 <= i < 6 ==> IsDigit(code[i])
  }

  /** One round of the search for a step that gives `code`: a step that throws ends it. */
  function OrElse(expected: Result<string, TotpError>, code: string, rest: Result<bool, TotpError>)
    : Result<bool, TotpError>
  {
    if expected.Err? then Err(expected.error) else if expected.value == code then Ok(true) else rest
  }

  ghost function VerifyTotp(hmac: Hmac, secret: string, code: string, nowMs: int): Result<bool, TotpError>
    requires Sha1Sized(hmac)
  {
    if !SixDigits(code) then Ok(false)
    else
      OrElse(TotpAt(hmac, secret, nowMs - STEP_MS, 6), code,
             OrElse(TotpAt(hmac, secret, nowMs, 6), code,
                    OrElse(TotpAt(hmac, secret, nowMs + STEP_MS, 6), code, Ok(false))))
  }

  // ---------------------------------------------------------------- truncation

  lemma {:induction false} ShiftPowers()
    ensures Pow(2, 8) == 0x100 && Pow(2, 16) == 0x1_0000 && Pow(2, 24) == 0x100_0000
  {
    assert Pow(2, 4) == 16;
    PowAdd(2, 4, 4);
    PowAdd(2, 8, 8);
    PowAdd(2, 8, 16);
  }

  /** Section 5.3 of RFC 4226: the last 31 bits of the four bytes at the offset the last byte names. */
  lemma {:induction false} TruncateIsDynamic(mac: seq<byte>)
    requires |mac| == 20
    ensures var o := mac[19] % 16;
            o + 4 <= 19 && Truncate(mac) == Value(256, mac[o..o + 4]) % 0x8000_0000
    ensures Truncate(mac) < 0x8000_0000
  {
    hide BitOr, Pow;
    var o := mac[19] % 16;
    var a: nat, b: nat, c: nat, d: nat := mac[o] % 128, mac[o + 1], mac[o + 2], mac[o + 3];
    ShiftPowers();
    OrIsSum(a, 24, b * 0x1_0000);
    OrIsSum(a * 0x100 + b, 16, c * 0x100);
    OrIsSum((a * 0x100 + b) * 0x100 + c, 8, d);
    var sum := ((a * 0x100 + b) * 0x100 + c) * 0x100 + d;
    assert Truncate(mac) == sum;
    FourBytes(mac[o..o + 4]);
    var first: nat := mac[o];
    assert Value(256, mac[o..o + 4]) == (first / 128) * 0x8000_0000 + sum;
  }

  lemma {:induction false} FourBytes(s: seq<byte>)
    requires |s| == 4
    ensures var a: nat, b: nat, c: nat, d: nat := s[0], s[1], s[2], s[3];
            Value(256, s) == ((a * 256 + b) * 256 + c) * 256 + d
  {
    assert s == [s[0]] + [s[1]] + [s[2]] + [s[3]];
    ValueAppend(256, [], s[0]);
    ValueAppend(256, [s[0]], s[1]);
    ValueAppend(256, [s[0]] + [s[1]], s[2]);
    ValueAppend(256, [s[0]] + [s[1]] + [s[2]], s[3]);
    assert [] + [s[0]] == [s[0]];
  }

  /** The counter is written big-endian in eight bytes, so different steps sign different messages. */
  lemma {:induction false} CounterReadsBack(counter: int)
    ensures CounterBytes(counter).Ok? <==> 0 <= counter < COUNTER_LIMIT
    ensures CounterBytes(counter).Ok? ==>
              |CounterBytes(counter).value| == 8 && Value(256, CounterBytes(counter).value) == counter
  {
    hide Pow;
    if CounterBytes(counter).Ok? {
      ShiftPowers();
      Base32.Pow256(8);
      PowAdd(2, 16, 16);
      PowAdd(2, 32, 32);
      ValueOfDigits(256, counter, 8);
    }
  }

  /** Every code has exactly the asked number of digits, and reads as the truncated value modulo ten to that number. */
  lemma {:induction false} CodeHasItsDigits(hmac: Hmac, secret: string, timeMs: int, digits: nat)
    requires Sha1Sized(hmac) && digits > 0
    ensures var code := TotpAt(hmac, secret, timeMs, digits);
            code.Ok? ==>
              && |code.value| == digits
              && (forall i :: 0 <= i < digits ==> IsDigit(code.value[i]))
              && var mac := hmac(Base32.Decode(secret).value, CounterBytes(CounterAt(timeMs)).value);
              code.value == Fixed(Truncate(mac) % Pow(10, digits), digits)
  {
    var code := TotpAt(hmac, secret, timeMs, digits);
    if code.Ok? {
      var mac := hmac(Base32.Decode(secret).value, CounterBytes(CounterAt(timeMs)).value);
      PaddedIsFixed(Truncate(mac) % Pow(10, digits), digits);
    }
  }

  /**
   * The code of the `n`th step of 30 seconds signs the eight bytes of `n` with the decoded secret; it fails first for
   * a counter out of range, then for a secret that does not decode.
   */
  lemma {:induction false} CodeExactly(hmac: Hmac, secret: string, timeMs: int, digits: nat, n: int)
    requires Sha1Sized(hmac) && digits > 0 && 30000 * n <= timeMs < 30000 * (n + 1)
    ensures var code, key := TotpAt(hmac, secret, timeMs, digits), Base32.Decode(secret);
            if !(0 <= n < 0x1_0000_0000_0000_0000) then code == Err(CounterOutOfRange)
            else if key.Err? then code == Err(InvalidSecret)
            else exists message: seq<byte> ::
                   && |message| == 8 && Value(256, message) == n
                   && code == Ok(Fixed(Truncate(hmac(key.value, message)) % Pow(10, digits), digits))
  {
    hide Truncate, Fixed;
    assert CounterAt(timeMs) == n;
    CounterReadsBack(n);
    CodeHasItsDigits(hmac, secret, timeMs, digits);
    if 0 <= n < COUNTER_LIMIT && Base32.Decode(secret).Ok? {
      var message := CounterBytes(n).value;
      assert |message| == 8 && Value(256, message) == n;
    }
  }

  // ---------------------------------------------------------------- the acceptance window

  lemma {:induction false} SameCounterSameCode(hmac: Hmac, secret: string, s: int, t: int)
    requires Sha1Sized(hmac) && CounterAt(s) == CounterAt(t)
    ensures TotpAt(hmac, secret, s, 6) == TotpAt(hmac, secret, t, 6)
  {
  }

  /**
   * A code is accepted exactly if it is the code of some instant at most 30 seconds away; before the
   * epoch has lasted 30 seconds nothing is, since the first step asks for a negative counter.
   */
  lemma {:induction false} AcceptsExactlyTheWindow(hmac: Hmac, secret: string, code: string, nowMs: int)
    requires Sha1Sized(hmac)
    ensures VerifyTotp(hmac, secret, code, nowMs) == Ok(true) <==>
            nowMs >= 30000 && exists t :: -30000 <= t - nowMs <= 30000 && TotpAt(hmac, secret, t, 6) == Ok(code)
  {
    hide TotpAt;
    if nowMs < STEP_MS {
      EarlyThrows(hmac, secret, nowMs - STEP_MS);
    } else {
      forall t | -STEP_MS <= t - nowMs <= STEP_MS && TotpAt(hmac, secret, t, 6) == Ok(code)
        ensures VerifyTotp(hmac, secret, code, nowMs) == Ok(true)
      {
        NearCodesAreAccepted(hmac, secret, code, t, nowMs);
      }
      if VerifyTotp(hmac, secret, code, nowMs) == Ok(true) {
        var t := if TotpAt(hmac, secret, nowMs - STEP_MS, 6) == Ok(code) then nowMs - STEP_MS
                 else if TotpAt(hmac, secret, nowMs, 6) == Ok(code) then nowMs
                 else nowMs + STEP_MS;
        assert TotpAt(hmac, secret, t, 6) == Ok(code);
      }
    }
  }

  /**
   * All other answers: no match for what is not six digits; before the epoch is 30 seconds old, an error for
   * the rest.
   */
  lemma {:induction false} VerifyAnswers(hmac: Hmac, secret: string, code: string, nowMs: int)
    requires Sha1Sized(hmac)
    ensures var answer := VerifyTotp(hmac, secret, code, nowMs);
            var six := |code| == 6 && forall i :: 0 <= i < 6 ==> '0' <= code[i] <= '9';
            if !six then answer == Ok(false)
            else if nowMs < 30000 then answer == Err(CounterOutOfRange)
            else if nowMs < 30000 * 0x1_0000_0000_0000_0000 && Base32.Decode(secret).Err? then
              answer == Err(InvalidSecret)
            else nowMs + 30000 < 30000 * 0x1_0000_0000_0000_0000 ==> answer.Ok?
  {
    hide Truncate, Decimal, PadStart, Base32.Decode;
    if SixDigits(code) && nowMs < STEP_MS {
      EarlyThrows(hmac, secret, nowMs - STEP_MS);
    }
  }

  lemma {:induction false} CodeIsSixDigits(hmac: Hmac, secret: string, timeMs: int)
    requires Sha1Sized(hmac)
    ensures TotpAt(hmac, secret, timeMs, 6).Ok? ==> SixDigits(TotpAt(hmac, secret, timeMs, 6).value)
  {
    hide TotpAt;
    CodeHasItsDigits(hmac, secret, timeMs, 6);
  }

  lemma {:induction false} NeighbouringCounters(t: int, nowMs: int)
    requires -STEP_MS <= t - nowMs <= STEP_MS
    ensures CounterAt(nowMs) - 1 <= CounterAt(t) <= CounterAt(nowMs) + 1
    ensures CounterAt(nowMs - STEP_MS) == CounterAt(nowMs) - 1 && CounterAt(nowMs + STEP_MS) == CounterAt(nowMs) + 1
  {
  }

  /** Clock drift of up to 30 seconds either way is tolerated. */
  lemma {:induction false} NearCodesAreAccepted(hmac: Hmac, secret: string, code: string, t: int, nowMs: int)
    requires Sha1Sized(hmac)
    requires nowMs >= 30000 && -30000 <= t - nowMs <= 30000
    requires TotpAt(hmac, secret, t, 6) == Ok(code)
    ensures VerifyTotp(hmac, secret, code, nowMs) == Ok(true)
  {
    hide TotpAt, CounterAt;
    CodeIsSixDigits(hmac, secret, t);
    NeighbouringCounters(t, nowMs);
    EarlierIsOk(hmac, secret, nowMs - STEP_MS, t);
    if CounterAt(t) == CounterAt(nowMs) - 1 {
      SameCounterSameCode(hmac, secret, t, nowMs - STEP_MS);
    } else {
      EarlierIsOk(hmac, secret, nowMs, t);
      if CounterAt(t) == CounterAt(nowMs) {
        SameCounterSameCode(hmac, secret, t, nowMs);
      } else {
        SameCounterSameCode(hmac, secret, t, nowMs + STEP_MS);
      }
    }
  }

  lemma {:induction false} EarlyThrows(hmac: Hmac, secret: string, timeMs: int)
    requires Sha1Sized(hmac) && timeMs < 0
    ensures TotpAt(hmac, secret, timeMs, 6) == Err(CounterOutOfRange)
  {
  }

  lemma {:induction false} EarlierIsOk(hmac: Hmac, secret: string, s: int, t: int)
    requires Sha1Sized(hmac) && 0 <= s && CounterAt(s) <= CounterAt(t)
    requires TotpAt(hmac, secret, t, 6).Ok?
    ensures TotpAt(hmac, secret, s, 6).Ok?
  {
  }
}
