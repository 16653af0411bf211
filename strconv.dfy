/** Go's `strconv.Itoa` and `strconv.Atoi` on a 64-bit platform, as the login
    handler uses them for the session's `user_id` and the configuration uses
    them for the thresholds. Redis clients format integer keys the same way,
    so `Itoa` is also how a user id becomes a counter key. */
module Strconv {
  import opened Wrappers

  const MinInt64: int := -0x8000_0000_0000_0000
  const MaxInt64: int := 0x7fff_ffff_ffff_ffff

  predicate IsDigit(c: char)
  {
    '0' <= c <= '9'
  }

  predicate AllDigits(s: string)
  {
    forall i :: 0 <= i < |s| ==> IsDigit(s[i])
  }

  function DigitChar(d: nat): (c: char)
    requires d < 10
    ensures IsDigit(c) && c as int - '0' as int == d
  {
    ('0' as int + d) as char
  }

  /** Decimal digits of `n`, most significant first, without leading zeros. */
  function Digits(n: nat): (s: string)
    ensures |s| > 0 && AllDigits(s)
    ensures (s[0] == '0') <==> n == 0
    decreases n
  {
    if n < 10 then [DigitChar(n)] else Digits(n / 10) + [DigitChar(n % 10)]
  }

  /** The number a string of decimal digits denotes (leading zeros allowed). */
  function DigitsValue(s: string): nat
    requires AllDigits(s)
  {
    if |s| == 0 then 0
    else DigitsValue(s[..|s| - 1]) * 10 + (s[|s| - 1] as int - '0' as int)
  }

  /** `strconv.Itoa`: a minus sign for a negative number, then the digits of
      its magnitude without leading zeros. */
  function Itoa(n: int): (s: string)
    ensures |s| > 0
    ensures n >= 0 ==> AllDigits(s) && (s[0] == '0' ==> s == "0")
    ensures n < 0 ==> |s| > 1 && s[0] == '-' && AllDigits(s[1..]) && s[1] != '0'
  {
    if n < 0 then "-" + Digits(-n) else Digits(n)
  }

  datatype NumError = ErrSyntax | ErrRange

  const MaxUint64: int := 0xffff_ffff_ffff_ffff

  /** The digit loop of `strconv.ParseUint` in base 10 from position `i`, the
      digits before it having been read into `DigitsValue(s[..i])`: a
      non-digit is a syntax error, and a digit that takes the value read so
      far past 64 unsigned bits is a range error, whatever follows it. */
  function ScanUint(s: string, i: nat): (r: Result<nat, NumError>)
    requires i <= |s| && AllDigits(s[..i]) && DigitsValue(s[..i]) <= MaxUint64
    ensures r.Success? ==> AllDigits(s) && r.value == DigitsValue(s) <= MaxUint64
    decreases |s| - i
  {
    if i == |s| then
      assert s[..i] == s;
      Success(DigitsValue(s))
    else if !IsDigit(s[i]) then Failure(ErrSyntax)
    else
      assert s[..i + 1][..i] == s[..i];
      if DigitsValue(s[..i + 1]) > MaxUint64 then Failure(ErrRange)
      else ScanUint(s, i + 1)
  }

  /** `strconv.Atoi`: an optional sign followed by at least one decimal digit,
      read left to right as `ParseUint` does, whose signed value must then fit
      in 64 bits. */
  function Atoi(s: string): (r: Result<int, NumError>)
    ensures r.Success? ==> MinInt64 <= r.value <= MaxInt64
    ensures r.Success? ==> |s| > 0 &&
                           var body := if s[0] == '-' || s[0] == '+' then s[1..] else s;
                           |body| > 0 && AllDigits(body)
                           && r.value == if s[0] == '-' then -(DigitsValue(body) as int) else DigitsValue(body)
    ensures s == "" ==> r == Failure(ErrSyntax)
  {
    var signed := |s| > 0 && (s[0] == '-' || s[0] == '+');
    var body := if signed then s[1..] else s;
    if |body| == 0 then Failure(ErrSyntax)
    else
      assert body[..0] == [];
      match ScanUint(body, 0)
      case Failure(e) => Failure(e)
      case Success(u) =>
        var v: int := if signed && s[0] == '-' then -(u as int) else u;
        if v < MinInt64 || MaxInt64 < v then Failure(ErrRange) else Success(v)
  }

  /** A prefix of a digit string denotes no more than the whole string. */
  lemma {:induction false} DigitsValuePrefix(s: string, j: nat)
    requires AllDigits(s) && j <= |s|
    ensures AllDigits(s[..j]) && DigitsValue(s[..j]) <= DigitsValue(s)
    decreases |s|
  {
    if j < |s| {
      var p := s[..|s| - 1];
      assert p[..j] == s[..j];
      DigitsValuePrefix(p, j);
    } else {
      assert s[..j] == s;
    }
  }

  /** A digit string within 64 unsigned bits scans to its value. */
  lemma {:induction false} ScanUintDigits(s: string, i: nat)
    requires AllDigits(s) && DigitsValue(s) <= MaxUint64 && i <= |s|
    ensures AllDigits(s[..i]) && DigitsValue(s[..i]) <= MaxUint64
    ensures ScanUint(s, i) == Success(DigitsValue(s))
    decreases |s| - i
  {
    DigitsValuePrefix(s, i);
    if i < |s| {
      DigitsValuePrefix(s, i + 1);
      ScanUintDigits(s, i + 1);
    }
  }

  /** The scan stops with a syntax error at the first non-digit `j` from `i`
      on when the digits before `j` stay within 64 unsigned bits. */
  lemma {:induction false} ScanUintStopsAt(s: string, i: nat, j: nat)
    requires i <= j < |s| && !IsDigit(s[j]) && AllDigits(s[..j]) && DigitsValue(s[..j]) <= MaxUint64
    ensures AllDigits(s[..i]) && DigitsValue(s[..i]) <= MaxUint64
    ensures ScanUint(s, i) == Failure(ErrSyntax)
    decreases j - i
  {
    assert s[..j][..i] == s[..i];
    DigitsValuePrefix(s[..j], i);
    if i < j {
      assert s[..j][..i + 1] == s[..i + 1];
      DigitsValuePrefix(s[..j], i + 1);
      ScanUintStopsAt(s, i + 1, j);
    }
  }

  lemma {:induction false} DigitsValueOfDigits(n: nat)
    ensures DigitsValue(Digits(n)) == n
    decreases n
  {
    var s := Digits(n);
    if n >= 10 {
      DigitsValueOfDigits(n / 10);
      assert s[..|s| - 1] == Digits(n / 10);
    }
  }

  /** Formatting and parsing are inverse on every 64-bit integer. */
  lemma AtoiItoa(n: int)
    requires MinInt64 <= n <= MaxInt64
    ensures Atoi(Itoa(n)) == Success(n)
  {
    var s := Itoa(n);
    if n < 0 {
      var body := Digits(-n);
      DigitsValueOfDigits(-n);
      assert s[0] == '-' && s[1..] == body;
      ScanUintDigits(body, 0);
      assert ScanUint(body, 0) == Success(-n);
    } else {
      var body := Digits(n);
      DigitsValueOfDigits(n);
      assert IsDigit(s[0]) && s == body;
      ScanUintDigits(body, 0);
      assert ScanUint(body, 0) == Success(n);
    }
  }

  /** Distinct integers have distinct decimal forms, so distinct user ids are
      distinct counter keys. */
  lemma ItoaInjective(a: int, b: int)
    requires Itoa(a) == Itoa(b)
    ensures a == b
  {
    if a < 0 && b < 0 {
      assert Itoa(a)[1..] == Digits(-a);
      assert Itoa(b)[1..] == Digits(-b);
      DigitsValueOfDigits(-a);
      DigitsValueOfDigits(-b);
    } else if a >= 0 && b >= 0 {
      DigitsValueOfDigits(a);
      DigitsValueOfDigits(b);
    }
  }

  /** The scan stops with a range error at digit `j` when the digits up to it
      overflow 64 unsigned bits and the ones before it do not. */
  lemma {:induction false} ScanUintOverflowsAt(s: string, i: nat, j: nat)
    requires i <= j < |s| && AllDigits(s[..j + 1])
    requires DigitsValue(s[..j]) <= MaxUint64 < DigitsValue(s[..j + 1])
    ensures AllDigits(s[..i]) && DigitsValue(s[..i]) <= MaxUint64
    ensures ScanUint(s, i) == Failure(ErrRange)
    decreases j - i
  {
    assert s[..j + 1][..j] == s[..j];
    assert s[..j][..i] == s[..i];
    DigitsValuePrefix(s[..j], i);
    assert IsDigit(s[..j + 1][j]);
    if i < j {
      assert s[..j][..i + 1] == s[..i + 1];
      DigitsValuePrefix(s[..j], i + 1);
      ScanUintOverflowsAt(s, i + 1, j);
    }
  }

  function Pow10(k: nat): nat
  {
    if k == 0 then 1 else 10 * Pow10(k - 1)
  }

  /** `k` nines denote `10^k - 1`. */
  lemma {:induction false} NinesValue(s: string)
    requires forall i :: 0 <= i < |s| ==> s[i] == '9'
    ensures AllDigits(s) && DigitsValue(s) == Pow10(|s|) - 1
  {
    if |s| > 0 {
      NinesValue(s[..|s| - 1]);
    }
  }

  /** A character that is neither a digit nor a leading sign makes the whole
      string an error: a syntax error when the digits before it stay within
      64 unsigned bits, and a range error when they have already overflowed,
      because the scan reaches the overflowing digit first. */
  lemma AtoiRejectsNonDigit(s: string, i: nat)
    requires i < |s| && !IsDigit(s[i])
    requires i == 0 ==> s[0] != '-' && s[0] != '+'
    ensures Atoi(s).Failure?
  {
    var signed := |s| > 0 && (s[0] == '-' || s[0] == '+');
    var body := if signed then s[1..] else s;
    if signed {
      assert body[i - 1] == s[i];
    } else {
      assert body[i] == s[i];
    }
  }

  /** The first non-digit of an unsigned string is a syntax error when the
      digits before it fit in 64 unsigned bits. */
  lemma AtoiSyntaxError(s: string, i: nat)
    requires i < |s| && !IsDigit(s[i]) && AllDigits(s[..i]) && DigitsValue(s[..i]) <= MaxUint64
    requires i == 0 ==> s[0] != '-' && s[0] != '+'
    ensures Atoi(s) == Failure(ErrSyntax)
  {
    if i > 0 {
      assert s[0] == s[..i][0];
    }
    ScanUintStopsAt(s, 0, i);
  }

  /** An unsigned string whose digits overflow 64 unsigned bits at digit `j`
      is a range error, whatever comes after that digit. */
  lemma AtoiRangeError(s: string, j: nat)
    requires j < |s| && AllDigits(s[..j + 1])
    requires DigitsValue(s[..j]) <= MaxUint64 < DigitsValue(s[..j + 1])
    ensures Atoi(s) == Failure(ErrRange)
  {
    assert s[0] == s[..j + 1][0];
    ScanUintOverflowsAt(s, 0, j);
  }

  /** Twenty nines overflow 64 unsigned bits before the scan reaches the
      letter after them, so the error is a range error. */
  lemma AtoiRangeBeforeSyntax()
    ensures Atoi("99999999999999999999x") == Failure(ErrRange)
  {
    var s := "99999999999999999999x";
    var twenty := s[..20];
    assert forall i :: 0 <= i < |twenty| ==> twenty[i] == '9';
    assert twenty[..19] == s[..19];
    NinesValue(twenty);
    NinesValue(s[..19]);
    Pow10Bounds();
    AtoiRangeError(s, 19);
  }

  /** `10^19 - 1` fits in 64 unsigned bits and `10^20 - 1` does not. */
  lemma Pow10Bounds()
    ensures Pow10(19) - 1 <= MaxUint64 < Pow10(20) - 1
  {
    assert Pow10(10) == 10000000000;
    assert Pow10(19) == 10000000000000000000;
  }
}
