/** Go's `strconv.ParseInt(s, 10, 64)` and `strconv.Atoi` (64-bit `int`), the
    parsers behind every numeric form field and the port argument. */
module Strconv {
  import opened Text

  const MaxUint64: int := 0xFFFF_FFFF_FFFF_FFFF
  const MaxInt64: int := 0x7FFF_FFFF_FFFF_FFFF
  const MinInt64: int := -0x8000_0000_0000_0000

  /** The value and error a Go parser returns. A range error carries the
      clamped value Go returns beside it; a syntax error comes with 0. */
  datatype NumResult = Ok(value: int) | SyntaxError | RangeError(clamped: int)

  /** The digit loop of `ParseUint`: a non-digit is a syntax error, and the
      first digit that makes the accumulator exceed 2^64-1 stops the loop with a
      range error, whatever follows it. */
  function ParseDigits(s: string, acc: nat): NumResult
  {
    if s == [] then Ok(acc)
    else if !IsDigit(s[0]) then SyntaxError
    else if acc * 10 + DigitValue(s[0]) > MaxUint64 then RangeError(MaxUint64)
    else ParseDigits(s[1..], acc * 10 + DigitValue(s[0]))
  }

  /** `strconv.ParseInt(s, 10, 64)`: an optional sign, then at least one digit. */
  function ParseInt(s: string): NumResult
  {
    if s == "" then SyntaxError
    else
      var neg := s[0] == '-';
      var body := if s[0] == '+' || s[0] == '-' then s[1..] else s;
      if body == "" then SyntaxError
      else
        match ParseDigits(body, 0)
        case SyntaxError => SyntaxError
        case RangeError(_) => RangeError(if neg then MinInt64 else MaxInt64)
        case Ok(u) =>
          if !neg && u > MaxInt64 then RangeError(MaxInt64)
          else if neg && u > -MinInt64 then RangeError(MinInt64)
          else Ok(if neg then -u else u)
  }

  /** The `int` that `strconv.Atoi(s)` returns, whether or not it also returns an
      error: the parsed value, 0 after a syntax error, the clamped bound after a
      range error. Callers that discard or only report the error use this. */
  function AtoiValue(s: string): int
  {
    match ParseInt(s)
    case Ok(v) => v
    case SyntaxError => 0
    case RangeError(c) => c
  }

  /** `strconv.FormatInt(n, 10)` (and `strconv.Itoa`). */
  function FormatInt(n: int): string
  {
    if n < 0 then "-" + PadDecimal(-n, 1) else PadDecimal(n, 1)
  }

  lemma {:induction false} DecimalValueGrows(s: string, acc: nat)
    requires forall i :: 0 <= i < |s| ==> IsDigit(s[i])
    ensures DecimalValue(s, acc) >= acc
  {
    if s != [] {
      DecimalValueGrows(s[1..], acc * 10 + DigitValue(s[0]));
    }
  }

  /** A digit string whose value fits in 64 bits parses to that value. */
  lemma {:induction false} ParseDigitsValue(s: string, acc: nat)
    requires forall i :: 0 <= i < |s| ==> IsDigit(s[i])
    requires DecimalValue(s, acc) <= MaxUint64
    ensures ParseDigits(s, acc) == Ok(DecimalValue(s, acc))
  {
    if s != [] {
      var next := acc * 10 + DigitValue(s[0]);
      DecimalValueGrows(s[1..], next);
      ParseDigitsValue(s[1..], next);
    }
  }

  lemma {:induction false} ParseDigitsOk(s: string, acc: nat, v: int)
    requires ParseDigits(s, acc) == Ok(v)
    ensures forall i :: 0 <= i < |s| ==> IsDigit(s[i])
    ensures acc <= v && (v <= MaxUint64 || (s == [] && v == acc))
    ensures v == DecimalValue(s, acc)
  {
    if s != [] {
      ParseDigitsOk(s[1..], acc * 10 + DigitValue(s[0]), v);
    }
  }

  /** What a successful parse looks like: a non-empty run of digits after an
      optional sign, read as the signed decimal value of those digits, inside
      the 64-bit range. */
  lemma ParseIntOk(s: string, v: int)
    requires ParseInt(s) == Ok(v)
    ensures s != ""
    ensures var body := if s[0] == '+' || s[0] == '-' then s[1..] else s;
            body != "" && (forall i :: 0 <= i < |body| ==> IsDigit(body[i])) &&
            v == (if s[0] == '-' then -(DecimalValue(body, 0) as int) else DecimalValue(body, 0))
    ensures MinInt64 <= v <= MaxInt64
  {
    var body := if s[0] == '+' || s[0] == '-' then s[1..] else s;
    ParseDigitsOk(body, 0, ParseDigits(body, 0).value);
  }

  /** Every 64-bit integer survives formatting and parsing unchanged. */
  lemma ParseFormatRoundTrip(n: int)
    requires MinInt64 <= n <= MaxInt64
    ensures ParseInt(FormatInt(n)) == Ok(n)
  {
    var m := if n < 0 then -n else n;
    var digits := PadDecimal(m, 1);
    PadDecimalValue(m, 1);
    ParseDigitsValue(digits, 0);
    if n < 0 {
      assert FormatInt(n)[1..] == digits;
    }
  }
}
