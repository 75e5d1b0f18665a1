/**
 * The base-10 integer parsers of Go's strconv package that the inventory
 * code uses: ParseInt(s, 10, bitSize) (through ParseUint) and Atoi, the
 * latter on a 64-bit platform, where Go's `int` has 64 bits.
 *
 * Both are specified against one reference definition: a decimal numeral
 * is an optional '+' or '-' followed by one or more digits, and it parses
 * exactly when its value fits the signed range of the bit size.
 */
module Decimal {
  import opened Results

  /** strconv.ErrSyntax and strconv.ErrRange. */
  datatype NumErrorKind = ErrSyntax | ErrRange

  /** strconv.NumError: the text that failed to parse and why. */
  datatype NumError = NumError(num: string, err: NumErrorKind)

  /** The bit sizes the inventory code parses with: 32 for the NUMA node, 64 (Go's int) in Atoi. */
  type BitSize = b: nat | b == 32 || b == 64 witness 64

  /** 1<<bitSize - 1: the largest unsigned value of the bit size. */
  function MaxUint(bitSize: BitSize): nat {
    if bitSize == 32 then 0xFFFF_FFFF else 0xFFFF_FFFF_FFFF_FFFF
  }

  /** 1<<(bitSize-1): one more than the largest signed value, the magnitude of the smallest. */
  function SignCutoff(bitSize: BitSize): nat {
    if bitSize == 32 then 0x8000_0000 else 0x8000_0000_0000_0000
  }

  /** maxUint64/10 + 1: from here on, multiplying by ten overflows 64 bits. */
  const MulCutoff: nat := 0xFFFF_FFFF_FFFF_FFFF / 10 + 1

  predicate IsDigit(c: char) {
    '0' <= c <= '9'
  }

  predicate AllDigits(s: string) {
    forall i :: 0 <= i < |s| ==> IsDigit(s[i])
  }

  function DigitValue(c: char): nat
    requires IsDigit(c)
  {
    c as int - '0' as int
  }

  // ---------------------------------------------------------------------
  // The reference definition.
  // ---------------------------------------------------------------------

  /** The number the digits `ds` denote, most significant first. */
  function Value(ds: string): nat
    requires AllDigits(ds)
  {
    if ds == [] then 0 else Value(ds[..|ds| - 1]) * 10 + DigitValue(ds[|ds| - 1])
  }

  function Pow10(n: nat): nat {
    if n == 0 then 1 else 10 * Pow10(n - 1)
  }

  /** The digits of `s` after an optional sign. */
  function Magnitude(s: string): string {
    if |s| > 0 && (s[0] == '+' || s[0] == '-') then s[1..] else s
  }

  predicate IsNegative(s: string) {
    |s| > 0 && s[0] == '-'
  }

  /** `s` is a base-10 numeral: an optional sign and at least one digit, nothing else. */
  predicate IsDecimal(s: string) {
    |Magnitude(s)| > 0 && AllDigits(Magnitude(s))
  }

  function DecimalValue(s: string): int
    requires IsDecimal(s)
  {
    var v: int := Value(Magnitude(s));
    if IsNegative(s) then -v else v
  }

  /** `v` is a signed integer of `bitSize` bits. */
  predicate InRange(v: int, bitSize: BitSize) {
    -(SignCutoff(bitSize) as int) <= v < SignCutoff(bitSize)
  }

  /** The longest prefix of `s` made of digits. */
  function LeadingDigits(s: string): (r: string)
    ensures r <= s && AllDigits(r)
    ensures r == s || !IsDigit(s[|r|])
  {
    if s == [] || !IsDigit(s[0]) then "" else [s[0]] + LeadingDigits(s[1..])
  }

  // ---------------------------------------------------------------------
  // Go's algorithms.
  // ---------------------------------------------------------------------

  /**
   * The digit loop of ParseUint in base 10, from the value `n` read so far:
   * a character that is not a digit is a syntax error, a value that no
   * longer fits `maxVal` (or whose next multiplication by ten would
   * overflow 64 bits) a range error; the first of the two to happen wins.
   */
  function ScanUint(s: string, n: nat, maxVal: nat): Result<nat, NumErrorKind> {
    if s == [] then Ok(n)
    else if !IsDigit(s[0]) then Err(ErrSyntax)
    else if n >= MulCutoff then Err(ErrRange)
    else
      var n1 := n * 10 + DigitValue(s[0]);
      if n1 > maxVal then Err(ErrRange)
      else ScanUint(s[1..], n1, maxVal)
  }

  /** strconv.ParseUint(s, 10, bitSize), with the error kind it reports. */
  function ParseUint(s: string, bitSize: BitSize): Result<nat, NumErrorKind> {
    if s == "" then Err(ErrSyntax) else ScanUint(s, 0, MaxUint(bitSize))
  }

  /** strconv.ParseInt(s, 10, bitSize). */
  function ParseInt(s: string, bitSize: BitSize): Result<int, NumError> {
    if s == "" then Err(NumError(s, ErrSyntax))
    else
      var neg := s[0] == '-';
      var u := if s[0] == '+' || s[0] == '-' then s[1..] else s;
      match ParseUint(u, bitSize)
      case Err(ErrSyntax) => Err(NumError(s, ErrSyntax))
      // ParseUint then reports MaxUint(bitSize), which is past the signed cutoff.
      case Err(ErrRange) => Err(NumError(s, ErrRange))
      case Ok(un) =>
        if !neg && un >= SignCutoff(bitSize) then Err(NumError(s, ErrRange))
        else if neg && un > SignCutoff(bitSize) then Err(NumError(s, ErrRange))
        else Ok(if neg then -(un as int) else un)
  }

  /** The digit loop of Atoi's fast path, from the value `n` read so far; None on a non-digit. */
  function AtoiDigits(s: string, n: nat): Option<nat> {
    if s == [] then Some(n)
    else if !IsDigit(s[0]) then None
    else AtoiDigits(s[1..], n * 10 + DigitValue(s[0]))
  }

  /**
   * strconv.Atoi with a 64-bit int: strings of 1 to 18 characters take a
   * fast path that cannot overflow; all others go through ParseInt(s, 10, 0).
   */
  function Atoi(s: string): Result<int, NumError> {
    if 0 < |s| < 19 then
      var u := if s[0] == '-' || s[0] == '+' then s[1..] else s;
      if |u| < 1 then Err(NumError(s, ErrSyntax))
      else
        match AtoiDigits(u, 0)
        case None => Err(NumError(s, ErrSyntax))
        case Some(n) => Ok(if s[0] == '-' then -(n as int) else n)
    else ParseInt(s, 64)
  }

  // ---------------------------------------------------------------------
  // Both parsers agree with the reference definition.
  // ---------------------------------------------------------------------

  /** The number the digits `ds` denote when read after the value `n`: the digit loops' accumulator. */
  function ValueFrom(n: nat, ds: string): nat
    requires AllDigits(ds)
    decreases |ds|
  {
    if ds == [] then n else ValueFrom(n * 10 + DigitValue(ds[0]), ds[1..])
  }

  lemma ValueAppend(ds: string, c: char)
    requires AllDigits(ds) && IsDigit(c)
    ensures AllDigits(ds + [c]) && Value(ds + [c]) == Value(ds) * 10 + DigitValue(c)
  {
    assert (ds + [c])[..|ds|] == ds;
  }

  /** Reading the digits `b` after the numeral `a` gives the value of `a + b`. */
  lemma {:induction false} ValueFromValue(a: string, b: string)
    requires AllDigits(a) && AllDigits(b)
    ensures AllDigits(a + b) && ValueFrom(Value(a), b) == Value(a + b)
    decreases |b|
  {
    if b == [] {
      assert a + b == a;
    } else {
      ValueAppend(a, b[0]);
      assert (a + [b[0]]) + b[1..] == a + b;
      ValueFromValue(a + [b[0]], b[1..]);
    }
  }

  lemma ValueIsValueFrom(ds: string)
    requires AllDigits(ds)
    ensures ValueFrom(0, ds) == Value(ds)
  {
    ValueFromValue("", ds);
    assert "" + ds == ds;
  }

  /** Reading more digits never makes the value smaller. */
  lemma {:induction false} ValueFromGrows(n: nat, ds: string)
    requires AllDigits(ds)
    ensures ValueFrom(n, ds) >= n
    decreases |ds|
  {
    if ds != [] {
      ValueFromGrows(n * 10 + DigitValue(ds[0]), ds[1..]);
    }
  }

  /** A numeral of n digits is below 10^n. */
  lemma {:induction false} ValueBound(ds: string)
    requires AllDigits(ds)
    ensures Value(ds) < Pow10(|ds|)
    decreases |ds|
  {
    if ds != [] {
      ValueBound(ds[..|ds| - 1]);
    }
  }

  lemma {:induction false} Pow10Monotone(m: nat, n: nat)
    requires m <= n
    ensures Pow10(m) <= Pow10(n)
    decreases n
  {
    if m < n {
      Pow10Monotone(m, n - 1);
    }
  }

  lemma Pow10Of18()
    ensures Pow10(18) == 1_000_000_000_000_000_000
  {
    assert Pow10(6) == 1_000_000;
    assert Pow10(12) == 1_000_000_000_000;
  }

  /** What ParseUint's digit loop is to return from the value `n` on the rest `rest`. */
  predicate ScanUintMeets(n: nat, rest: string, maxVal: nat, r: Result<nat, NumErrorKind>) {
    if AllDigits(rest) then
      r == if ValueFrom(n, rest) <= maxVal then Ok(ValueFrom(n, rest)) else Err(ErrRange)
    else
      r == if ValueFrom(n, LeadingDigits(rest)) <= maxVal then Err(ErrSyntax) else Err(ErrRange)
  }

  /**
   * ParseUint's digit loop, from the value `n`, on the rest `rest`: the
   * value of all digits when it fits, a range error when the leading
   * digits already overflow, a syntax error otherwise.
   */
  lemma {:induction false} ScanUintCorrect(n: nat, rest: string, maxVal: nat)
    requires n <= maxVal <= MaxUint(64)
    ensures ScanUintMeets(n, rest, maxVal, ScanUint(rest, n, maxVal))
    decreases |rest|
  {
    if rest != [] && IsDigit(rest[0]) {
      var n1 := n * 10 + DigitValue(rest[0]);
      var lead := LeadingDigits(rest[1..]);
      assert LeadingDigits(rest) == [rest[0]] + lead;
      assert ([rest[0]] + lead)[1..] == lead;
      assert ValueFrom(n, LeadingDigits(rest)) == ValueFrom(n1, lead);
      assert AllDigits(rest) <==> AllDigits(rest[1..]);
      if n >= MulCutoff || n1 > maxVal {
        ValueFromGrows(n1, lead);
        if AllDigits(rest[1..]) {
          ValueFromGrows(n1, rest[1..]);
        }
      } else {
        ScanUintCorrect(n1, rest[1..], maxVal);
      }
    }
  }

  /** ParseUint returns the value of a numeral without sign that fits, and otherwise says why not. */
  lemma ParseUintCorrect(u: string, bitSize: BitSize)
    ensures u == "" ==> ParseUint(u, bitSize) == Err(ErrSyntax)
    ensures u != "" && AllDigits(u) ==>
              ParseUint(u, bitSize) ==
                (if Value(u) <= MaxUint(bitSize) then Ok(Value(u)) else Err(ErrRange))
    ensures !AllDigits(u) ==>
              ParseUint(u, bitSize) ==
                (if Value(LeadingDigits(u)) <= MaxUint(bitSize) then Err(ErrSyntax) else Err(ErrRange))
  {
    if u != "" {
      ScanUintCorrect(0, u, MaxUint(bitSize));
      ValueIsValueFrom(LeadingDigits(u));
      if AllDigits(u) {
        ValueIsValueFrom(u);
      }
    }
  }

  /** ParseInt accepts exactly the numerals whose value fits `bitSize` bits, and returns that value. */
  lemma ParseIntCorrect(s: string, bitSize: BitSize)
    ensures ParseInt(s, bitSize).Ok? <==> IsDecimal(s) && InRange(DecimalValue(s), bitSize)
    ensures ParseInt(s, bitSize).Ok? ==> ParseInt(s, bitSize).value == DecimalValue(s)
    ensures ParseInt(s, bitSize).Err? ==> ParseInt(s, bitSize).error.num == s
    ensures IsDecimal(s) && !InRange(DecimalValue(s), bitSize) ==>
              ParseInt(s, bitSize) == Err(NumError(s, ErrRange))
    ensures s == "" ==> ParseInt(s, bitSize) == Err(NumError(s, ErrSyntax))
    ensures !IsDecimal(s) && s != "" && Value(LeadingDigits(Magnitude(s))) <= MaxUint(bitSize) ==>
              ParseInt(s, bitSize) == Err(NumError(s, ErrSyntax))
    ensures !IsDecimal(s) && Value(LeadingDigits(Magnitude(s))) > MaxUint(bitSize) ==>
              ParseInt(s, bitSize) == Err(NumError(s, ErrRange))
  {
    if s != "" {
      var u := Magnitude(s);
      ParseUintCorrect(u, bitSize);
      if u != "" && AllDigits(u) {
        var v := Value(u);
        assert IsDecimal(s);
        assert DecimalValue(s) == if IsNegative(s) then -(v as int) else v;
        if v > MaxUint(bitSize) {
          assert ParseUint(u, bitSize) == Err(ErrRange);
          assert !InRange(DecimalValue(s), bitSize);
        } else {
          assert ParseUint(u, bitSize) == Ok(v);
        }
      } else {
        assert !IsDecimal(s);
      }
    }
  }

  /** Atoi's fast-path digit loop, from the value `n`: the value of all digits, or None. */
  lemma {:induction false} AtoiDigitsCorrect(n: nat, rest: string)
    ensures AtoiDigits(rest, n) == if AllDigits(rest) then Some(ValueFrom(n, rest)) else None
    decreases |rest|
  {
    if rest != [] && IsDigit(rest[0]) {
      assert AllDigits(rest) <==> AllDigits(rest[1..]);
      AtoiDigitsCorrect(n * 10 + DigitValue(rest[0]), rest[1..]);
    }
  }

  /** A numeral of at most 18 digits is below 10^18, so it fits 64 bits with room to spare. */
  lemma ShortValueFits(ds: string)
    requires AllDigits(ds) && |ds| <= 18
    ensures Value(ds) < 1_000_000_000_000_000_000
  {
    ValueBound(ds);
    Pow10Monotone(|ds|, 18);
    Pow10Of18();
  }

  /** Atoi's fast path computes what ParseInt(s, 10, 64) computes: Atoi is ParseInt at Go's int size. */
  lemma AtoiIsParseInt(s: string)
    ensures Atoi(s) == ParseInt(s, 64)
  {
    if 0 < |s| < 19 {
      var u := Magnitude(s);
      ParseUintCorrect(u, 64);
      if |u| >= 1 {
        AtoiDigitsCorrect(0, u);
        if AllDigits(u) {
          ShortValueFits(u);
          ValueIsValueFrom(u);
          assert AtoiDigits(u, 0) == Some(Value(u));
          assert ParseUint(u, 64) == Ok(Value(u));
        } else {
          ShortValueFits(LeadingDigits(u));
          assert AtoiDigits(u, 0) == None;
          assert ParseUint(u, 64) == Err(ErrSyntax);
        }
      }
    }
  }

  /** Atoi accepts exactly the numerals whose value fits a 64-bit int, and returns that value. */
  lemma AtoiCorrect(s: string)
    ensures Atoi(s).Ok? <==> IsDecimal(s) && InRange(DecimalValue(s), 64)
    ensures Atoi(s).Ok? ==> Atoi(s).value == DecimalValue(s)
  {
    AtoiIsParseInt(s);
    ParseIntCorrect(s, 64);
  }
}
