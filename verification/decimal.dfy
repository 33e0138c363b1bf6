/** Base-10 key text: the parsing `strconv.ParseInt(s, 10, 64)` and
    `strconv.ParseUint(s, 10, 64)` perform on a map key, and the digits
    `Stream.WriteInt64` / `WriteUint64` emit for one. Parsing follows the
    library's scan (a 64-bit accumulator with an early range cut-off); the
    predicates `DecimalDigits`, `SignedDecimal` and the value `DigitsValue`
    are the independent description it is proved against. */
module Decimal {
  import opened Wrappers
  import opened Widths

  predicate IsDigit(c: char) {
    '0' <= c <= '9'
  }

  function DigitValue(c: char): nat
    requires IsDigit(c)
  {
    c as int - '0' as int
  }

  function DigitChar(d: nat): char
    requires d < 10
  {
    ('0' as int + d) as char
  }

  predicate AllDigits(s: string) {
    forall i :: 0 <= i < |s| ==> IsDigit(s[i])
  }

  /** One or more base-10 digits (leading zeros allowed). */
  predicate DecimalDigits(s: string) {
    |s| > 0 && AllDigits(s)
  }

  /** The number a digit string denotes, most significant digit first. */
  function DigitsValue(s: string): nat
    requires AllDigits(s)
  {
    if |s| == 0 then 0 else DigitsValue(s[..|s| - 1]) * 10 + DigitValue(s[|s| - 1])
  }

  /** A leading `+` or `-`. */
  predicate HasSign(s: string) {
    |s| > 0 && (s[0] == '+' || s[0] == '-')
  }

  /** The text after an optional leading sign. */
  function Magnitude(s: string): string {
    if HasSign(s) then s[1..] else s
  }

  /** An optional sign followed by one or more base-10 digits. */
  predicate SignedDecimal(s: string) {
    DecimalDigits(Magnitude(s))
  }

  function SignedValue(s: string): int
    requires SignedDecimal(s)
  {
    var m: int := DigitsValue(Magnitude(s));
    if s[0] == '-' then -m else m
  }

  /** The ways `strconv` rejects a number. */
  datatype NumError = ErrSyntax | ErrRange

  const MaxUint64: nat := 0xFFFF_FFFF_FFFF_FFFF

  /** `maxUint64/10 + 1`: an accumulator at or above it overflows on the next digit. */
  const Cutoff: nat := MaxUint64 / 10 + 1

  /** The digit loop of `strconv.ParseUint` from position `i` with accumulator
      `n`: a non-digit is a syntax error, and the scan returns a range error as
      soon as the accumulator would leave `uint64`, before looking further. */
  function ScanDigits(s: string, i: nat, n: nat): Result<nat, NumError>
    requires i <= |s|
    decreases |s| - i
  {
    if i == |s| then Success(n)
    else if !IsDigit(s[i]) then Failure(ErrSyntax)
    else if n >= Cutoff then Failure(ErrRange)
    else
      var n1 := n * 10 + DigitValue(s[i]);
      if n1 > MaxUint64 then Failure(ErrRange)
      else ScanDigits(s, i + 1, n1)
  }

  /** A digit string's value bounds the value of each of its proper prefixes
      times ten. */
  lemma {:induction false} PrefixValueBound(s: string, j: nat)
    requires AllDigits(s) && j < |s|
    ensures AllDigits(s[..j])
    ensures DigitsValue(s[..j]) * 10 <= DigitsValue(s)
    decreases |s|
  {
    var p := s[..|s| - 1];
    assert AllDigits(p);
    if j < |s| - 1 {
      assert p[..j] == s[..j];
      PrefixValueBound(p, j);
      assert DigitsValue(s[..j]) * 10 <= DigitsValue(p);
      assert DigitsValue(p) <= DigitsValue(p) * 10;
    } else {
      assert s[..j] == p;
    }
  }

  /** Appending one digit multiplies the value by ten and adds the digit. */
  lemma ExtendDigits(s: string, i: nat)
    requires i < |s| && AllDigits(s[..i]) && IsDigit(s[i])
    ensures AllDigits(s[..i + 1])
    ensures DigitsValue(s[..i + 1]) == DigitsValue(s[..i]) * 10 + DigitValue(s[i])
  {
    assert s[..i + 1][..i] == s[..i];
  }

  /** The scan succeeds exactly on digit strings whose value fits `uint64`,
      and then returns that value. */
  lemma {:induction false} ScanDigitsCorrect(s: string, i: nat, n: nat)
    requires i <= |s| && AllDigits(s[..i]) && n == DigitsValue(s[..i]) && n <= MaxUint64
    ensures ScanDigits(s, i, n).Success? <==> AllDigits(s) && DigitsValue(s) <= MaxUint64
    ensures ScanDigits(s, i, n).Success? ==> ScanDigits(s, i, n).value == DigitsValue(s)
    ensures AllDigits(s) && DigitsValue(s) > MaxUint64 ==> ScanDigits(s, i, n) == Failure(ErrRange)
    decreases |s| - i
  {
    if i == |s| {
      assert s[..i] == s;
    } else if !IsDigit(s[i]) {
    } else {
      ExtendDigits(s, i);
      var n1 := n * 10 + DigitValue(s[i]);
      if n >= Cutoff || n1 > MaxUint64 {
        assert n1 > MaxUint64;
        if AllDigits(s) {
          if i + 1 < |s| {
            PrefixValueBound(s, i + 1);
          } else {
            assert s[..i + 1] == s;
          }
        }
      } else {
        ScanDigitsCorrect(s, i + 1, n1);
      }
    }
  }

  /** `strconv.ParseUint(s, 10, 64)`: no sign is accepted, only digits. */
  function ParseUint(s: string): (r: Result<nat, NumError>)
    ensures r.Success? <==> DecimalDigits(s) && DigitsValue(s) <= MaxUint64
    ensures r.Success? ==> r.value == DigitsValue(s) && IsUint64(r.value)
    ensures DecimalDigits(s) && DigitsValue(s) > MaxUint64 ==> r == Failure(ErrRange)
    ensures |s| == 0 ==> r == Failure(ErrSyntax)
  {
    if |s| == 0 then Failure(ErrSyntax)
    else
      assert s[..0] == [];
      ScanDigitsCorrect(s, 0, 0);
      ScanDigits(s, 0, 0)
  }

  /** `strconv.ParseInt(s, 10, 64)`: an optional sign, then the unsigned scan
      of the rest, then the `int64` cut-off `2^63` applied to the magnitude
      (one more is allowed for a negative number). A range error of the
      unsigned scan stays a range error. */
  function ParseInt(s: string): (r: Result<int, NumError>)
    ensures r.Success? <==> SignedDecimal(s) && IsInt64(SignedValue(s))
    ensures r.Success? ==> r.value == SignedValue(s)
    ensures |s| == 0 ==> r == Failure(ErrSyntax)
  {
    if |s| == 0 then Failure(ErrSyntax)
    else
      var neg := s[0] == '-';
      match ParseUint(Magnitude(s))
      case Failure(ErrSyntax) => Failure(ErrSyntax)
      case Failure(ErrRange) => Failure(ErrRange)
      case Success(un) =>
        if !neg && un >= 0x8000_0000_0000_0000 then Failure(ErrRange)
        else if neg && un > 0x8000_0000_0000_0000 then Failure(ErrRange)
        else Success(if neg then -(un as int) else un as int)
  }

  /** The decimal digits of `n`, most significant first, without leading
      zeros: what `WriteUint64` writes. */
  function FormatNat(n: nat): (s: string)
    ensures DecimalDigits(s)
    ensures s[0] != '0' || n == 0
  {
    if n < 10 then [DigitChar(n)] else FormatNat(n / 10) + [DigitChar(n % 10)]
  }

  /** `-` before the digits of a negative number: what `WriteInt64` writes. */
  function FormatInt(i: int): (s: string)
    ensures |s| > 0 && (s[0] == '-' <==> i < 0)
  {
    if i < 0 then "-" + FormatNat(-i) else FormatNat(i)
  }

  /** Formatting then reading back the digits yields the number. */
  lemma {:induction false} FormatNatValue(n: nat)
    ensures DigitsValue(FormatNat(n)) == n
  {
    var s := FormatNat(n);
    if n >= 10 {
      FormatNatValue(n / 10);
      assert s[..|s| - 1] == FormatNat(n / 10);
    }
  }

  /** An unsigned key written by the encoder parses back to itself. */
  lemma FormatNatParses(n: nat)
    requires IsUint64(n)
    ensures ParseUint(FormatNat(n)) == Success(n)
  {
    FormatNatValue(n);
  }

  /** A signed key written by the encoder parses back to itself. */
  lemma FormatIntParses(i: int)
    requires IsInt64(i)
    ensures ParseInt(FormatInt(i)) == Success(i)
  {
    var s := FormatInt(i);
    if i < 0 {
      assert Magnitude(s) == FormatNat(-i);
      FormatNatValue(-i);
    } else {
      assert Magnitude(s) == FormatNat(i);
      FormatNatValue(i);
    }
  }
}
