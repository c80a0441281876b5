/** String helpers the application borrows from Go's standard library:
    `strings.ToLower`, `strings.Contains` and the zero-padded decimal fields
    that `time.Format` and `strconv` write. */
module Text {

  /** ASCII lower-casing of one character; every other character is kept. */
  function LowerChar(c: char): char
  {
    if 'A' <= c <= 'Z' then (c as int + 32) as char else c
  }

  /** `strings.ToLower`, restricted to the ASCII letters. */
  function Lower(s: string): string
  {
    seq(|s|, i requires 0 <= i < |s| => LowerChar(s[i]))
  }

  /** Lower-casing is idempotent, so comparing lowered strings is insensitive
      to the case of either side. */
  lemma LowerIdempotent(s: string)
    ensures Lower(Lower(s)) == Lower(s)
  {
  }

  /** `sub` occurs in `s` starting at position `i`. */
  predicate OccursAt(s: string, sub: string, i: int)
  {
    0 <= i && i + |sub| <= |s| && s[i..i + |sub|] == sub
  }

  /** `strings.Contains`: whether `sub` is a substring of `s`, searched from the
      front; the empty string is contained in every string. */
  predicate Contains(s: string, sub: string)
    decreases |s|
  {
    (|sub| <= |s| && s[..|sub|] == sub) || (|s| > 0 && Contains(s[1..], sub))
  }

  /** The search agrees with the textbook definition of a substring. */
  lemma {:induction false} ContainsIffOccurs(s: string, sub: string)
    ensures Contains(s, sub) <==> exists i :: OccursAt(s, sub, i)
  {
    if |sub| <= |s| && s[..|sub|] == sub {
      assert OccursAt(s, sub, 0);
    } else if |s| == 0 {
    } else {
      ContainsIffOccurs(s[1..], sub);
      if Contains(s[1..], sub) {
        var j :| OccursAt(s[1..], sub, j);
        assert s[j + 1..j + 1 + |sub|] == s[1..][j..j + |sub|];
        assert OccursAt(s, sub, j + 1);
      }
      if exists i :: OccursAt(s, sub, i) {
        var i :| OccursAt(s, sub, i);
        if i != 0 {
          assert s[1..][i - 1..i - 1 + |sub|] == s[i..i + |sub|];
          assert OccursAt(s[1..], sub, i - 1);
        }
      }
    }
  }

  predicate IsDigit(c: char)
  {
    '0' <= c <= '9'
  }

  /** The ASCII digit of `d`. */
  function DigitChar(d: nat): char
    requires d < 10
  {
    ('0' as int + d) as char
  }

  /** The value of an ASCII digit. */
  function DigitValue(c: char): nat
    requires IsDigit(c)
  {
    c as int - '0' as int
  }

  function Pow10(n: nat): nat
  {
    if n == 0 then 1 else 10 * Pow10(n - 1)
  }

  /** The decimal digits of `n`, padded on the left with zeros to at least
      `width` digits (at least one digit is always written). */
  function PadDecimal(n: nat, width: nat): (r: string)
    ensures |r| >= 1 && forall i :: 0 <= i < |r| ==> IsDigit(r[i])
    decreases n + width
  {
    if n < 10 && width <= 1 then [DigitChar(n)]
    else PadDecimal(n / 10, if width == 0 then 0 else width - 1) + [DigitChar(n % 10)]
  }

  /** A number below 10^width is written in exactly `width` digits. */
  lemma {:induction false} PadDecimalLength(n: nat, width: nat)
    requires 1 <= width && n < Pow10(width)
    ensures |PadDecimal(n, width)| == width
    decreases width
  {
    if !(n < 10 && width <= 1) {
      PadDecimalLength(n / 10, width - 1);
    }
  }

  /** Reading the digits back from left to right, starting from `acc`. */
  function DecimalValue(s: string, acc: nat): nat
    requires forall i :: 0 <= i < |s| ==> IsDigit(s[i])
  {
    if s == [] then acc else DecimalValue(s[1..], acc * 10 + DigitValue(s[0]))
  }

  lemma {:induction false} DecimalValueAppend(s: string, c: char, acc: nat)
    requires forall i :: 0 <= i < |s| ==> IsDigit(s[i])
    requires IsDigit(c)
    ensures forall i :: 0 <= i < |s + [c]| ==> IsDigit((s + [c])[i])
    ensures DecimalValue(s + [c], acc) == DecimalValue(s, acc) * 10 + DigitValue(c)
  {
    if s != [] {
      assert (s + [c])[1..] == s[1..] + [c];
      DecimalValueAppend(s[1..], c, acc * 10 + DigitValue(s[0]));
    }
  }

  /** The padded digits read back as the number written: the decimal writing
      is inverted by reading. */
  lemma {:induction false} PadDecimalValue(n: nat, width: nat)
    ensures DecimalValue(PadDecimal(n, width), 0) == n
    decreases n + width
  {
    if !(n < 10 && width <= 1) {
      PadDecimalValue(n / 10, if width == 0 then 0 else width - 1);
      DecimalValueAppend(PadDecimal(n / 10, if width == 0 then 0 else width - 1), DigitChar(n % 10), 0);
    }
  }

  /** Distinct numbers are written differently, whatever the width. */
  lemma PadDecimalInjective(a: nat, b: nat, width: nat)
    requires PadDecimal(a, width) == PadDecimal(b, width)
    ensures a == b
  {
    PadDecimalValue(a, width);
    PadDecimalValue(b, width);
  }
}
