/** Go's `strconv.ParseInt(s, 10, 64)`, `strconv.Atoi` on a 64-bit platform,
    decimal formatting as done by `%d`, and the 64-bit wrap-around of Go's
    `int` arithmetic. */
module Strconv {

  const MaxInt64: int := 0x7FFF_FFFF_FFFF_FFFF
  const MinInt64: int := -0x8000_0000_0000_0000
  const MaxUint64: int := 0xFFFF_FFFF_FFFF_FFFF
  const TwoTo64: int := 0x1_0000_0000_0000_0000

  predicate IsInt64(x: int) {
    MinInt64 <= x <= MaxInt64
  }

  /** The int64 value Go computes for the mathematical result `x`: the one
      in range that is congruent to `x` modulo 2^64. */
  function Wrap64(x: int): (r: int)
    ensures IsInt64(r)
    ensures (x - r) % TwoTo64 == 0
    ensures IsInt64(x) ==> r == x
  {
    var q := (x - MinInt64) / TwoTo64;
    var r := (x - MinInt64) % TwoTo64 + MinInt64;
    assert x - r == q * TwoTo64;
    r
  }

  /** The wrapped value is the one in range congruent to `x`: when
      `x - k * 2^64` lies in int64 range, that is what Go computes. */
  lemma Wrap64Of(x: int, k: int)
    requires IsInt64(x - k * TwoTo64)
    ensures Wrap64(x) == x - k * TwoTo64
  {
    var a := x - k * TwoTo64 - MinInt64;
    assert x - MinInt64 == a + k * TwoTo64;
    ModOfMultiple(a, k, TwoTo64);
  }

  lemma ModOfMultiple(a: int, k: int, m: int)
    requires 0 <= a < m
    ensures (a + k * m) % m == a
  {
    var q := (a + k * m) / m;
    var r := (a + k * m) % m;
    assert a + k * m == q * m + r;
    var d := k - q;
    assert d * m == k * m - q * m;
    if d >= 1 {
      AtLeastOneTimes(d, m);
      assert false;
    } else if d <= -1 {
      AtLeastOneTimes(-d, m);
      assert false;
    }
  }

  lemma AtLeastOneTimes(d: int, m: int)
    requires d >= 1 && m > 0
    ensures d * m >= m
  {
    assert d * m == (d - 1) * m + m;
  }

  /** The error a NumError carries; Nil when there is none. */
  datatype NumError = Nil | ErrSyntax | ErrRange

  /** The (value, err) pair the parsing functions return. */
  datatype IntResult = IntResult(value: int, err: NumError)

  predicate IsDigit(c: char) {
    '0' <= c <= '9'
  }

  function DigitValue(c: char): nat
    requires IsDigit(c)
  {
    (c as int) - ('0' as int)
  }

  function DigitChar(d: nat): (c: char)
    requires d < 10
    ensures IsDigit(c) && DigitValue(c) == d
  {
    (d + '0' as int) as char
  }

  /** What ParseUint's digit loop ends with. */
  datatype UintScan = Digits(n: nat) | BadSyntax | OutOfRange

  /** ParseUint's loop for base 10 and 64 bits, from accumulated value `n`:
      a non-digit is a syntax error, and a value past 2^64-1 is a range
      error reported at once, before the rest of the input is looked at. */
  function ScanDecimal(s: string, n: nat): (r: UintScan)
    requires n <= MaxUint64
    ensures r.Digits? ==> n <= r.n <= MaxUint64
    decreases |s|
  {
    if s == [] then Digits(n)
    else if !IsDigit(s[0]) then BadSyntax
    else if n * 10 + DigitValue(s[0]) > MaxUint64 then OutOfRange
    else ScanDecimal(s[1..], n * 10 + DigitValue(s[0]))
  }

  /** strconv.ParseUint(s, 10, 64): the empty string is a syntax error. */
  function ParseUint(s: string): UintScan {
    if s == [] then BadSyntax else ScanDecimal(s, 0)
  }

  /** strconv.ParseInt(s, 10, 64): an optional sign, then decimal digits.
      A syntax error gives 0; a value outside int64 gives the nearest bound
      together with ErrRange. */
  function ParseInt(s: string): (r: IntResult)
    ensures IsInt64(r.value)
    ensures r.err == ErrSyntax ==> r.value == 0
    ensures r.err == ErrRange ==> r.value == MaxInt64 || r.value == MinInt64
  {
    if s == [] then IntResult(0, ErrSyntax)
    else
      var neg := s[0] == '-';
      var digits := if s[0] == '+' || s[0] == '-' then s[1..] else s;
      match ParseUint(digits)
      case BadSyntax => IntResult(0, ErrSyntax)
      case OutOfRange => if neg then IntResult(MinInt64, ErrRange) else IntResult(MaxInt64, ErrRange)
      case Digits(n) =>
        if !neg && n > MaxInt64 then IntResult(MaxInt64, ErrRange)
        else if neg && n > -MinInt64 then IntResult(MinInt64, ErrRange)
        else IntResult(if neg then 0 - (n as int) else n, Nil)
  }

  /** strconv.Atoi on a 64-bit platform. Its fast path for inputs shorter
      than 19 bytes returns what ParseInt(s, 10, 64) returns (no such input
      can overflow), and longer inputs go through ParseInt itself. */
  function Atoi(s: string): IntResult {
    ParseInt(s)
  }

  /** The decimal digits of `n`, most significant first, without leading
      zeros. */
  function Decimal(n: nat): (s: string)
    ensures |s| >= 1 && IsDigit(s[0])
    ensures forall k :: 0 <= k < |s| ==> IsDigit(s[k])
  {
    if n < 10 then [DigitChar(n)] else Decimal(n / 10) + [DigitChar(n % 10)]
  }

  /** `%d` / strconv.FormatInt(n, 10). */
  function FormatInt(n: int): string {
    if n < 0 then "-" + Decimal(-n) else Decimal(n)
  }

  /** Scanning one more digit extends the scanned value by that digit. */
  lemma {:induction false} ScanDecimalAppend(t: string, c: char, acc: nat, m: nat)
    requires acc <= MaxUint64 && IsDigit(c)
    requires ScanDecimal(t, acc) == Digits(m)
    requires m * 10 + DigitValue(c) <= MaxUint64
    ensures ScanDecimal(t + [c], acc) == Digits(m * 10 + DigitValue(c))
    decreases |t|
  {
    if t == [] {
      assert t + [c] == [c];
      assert [c][1..] == [];
    } else {
      var next := acc * 10 + DigitValue(t[0]);
      assert (t + [c])[0] == t[0] && (t + [c])[1..] == t[1..] + [c];
      ScanDecimalAppend(t[1..], c, next, m);
    }
  }

  /** Scanning the decimal form of `n` gives back `n`. */
  lemma {:induction false} ScanDecimalOfDecimal(n: nat)
    requires n <= MaxUint64
    ensures ScanDecimal(Decimal(n), 0) == Digits(n)
    decreases n
  {
    if n >= 10 {
      ScanDecimalOfDecimal(n / 10);
      ScanDecimalAppend(Decimal(n / 10), DigitChar(n % 10), 0, n / 10);
    }
  }

  /** ParseInt reads back what FormatInt writes, for every int64. */
  lemma ParseFormatRoundTrip(n: int)
    requires IsInt64(n)
    ensures ParseInt(FormatInt(n)) == IntResult(n, Nil)
  {
    if n < 0 {
      ScanDecimalOfDecimal(-n);
      var s := FormatInt(n);
      assert s[1..] == Decimal(-n);
    } else {
      ScanDecimalOfDecimal(n);
    }
  }
}
