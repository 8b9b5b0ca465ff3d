/**
 Decimal rendering of clock fields, as the generator does it with
 `String(n).padStart(2, '0')`, and the matching parse back to a number.
 */
module Digits {
  import opened Results

  predicate IsDigit(c: char) {
    '0' <= c <= '9'
  }

  predicate AllDigits(s: string) {
    forall k :: 0 <= k < |s| ==> IsDigit(s[k])
  }

  function DigitChar(d: nat): char
    requires d < 10
  {
    ('0' as int + d) as char
  }

  function DigitValue(c: char): nat
    requires IsDigit(c)
  {
    c as int - '0' as int
  }

  /** `String(n)` for a non-negative integer: base ten, no leading zeros. */
  function Decimal(n: nat): (s: string)
    ensures 1 <= |s|
    ensures AllDigits(s)
    ensures s[0] == '0' ==> n == 0
    ensures n < 10 ==> |s| == 1
    ensures n < 100 <==> |s| <= 2
    ensures s[|s| - 1] == DigitChar(n % 10)
    decreases n
  {
    if n < 10 then [DigitChar(n)] else Decimal(n / 10) + [DigitChar(n % 10)]
  }

  /** Reads a string of digits as a base-ten number; leading zeros are allowed. */
  ghost function Value(s: string): nat
    requires AllDigits(s)
  {
    if |s| == 0 then 0 else Value(s[..|s| - 1]) * 10 + DigitValue(s[|s| - 1])
  }

  /** `s.padStart(2, '0')`: left-fill with zeros up to width two, never truncate. */
  function PadStart2(s: string): (r: string)
    ensures |s| >= 2 ==> r == s
    ensures |s| < 2 ==> |r| == 2
    ensures |r| >= |s| && r[|r| - |s|..] == s
    ensures forall k :: 0 <= k < |r| - |s| ==> r[k] == '0'
  {
    if |s| >= 2 then s else seq(2 - |s|, _ => '0') + s
  }

  /** One displayed clock field: `String(n).padStart(2, '0')`. It is digits only, at
      least two wide, exactly two below 100, and ends in the last digit of `n`. */
  function Pad2(n: nat): (r: string)
    ensures AllDigits(r)
    ensures |r| >= 2
    ensures n < 100 <==> |r| == 2
    ensures r[|r| - 1] == DigitChar(n % 10)
  {
    PadStart2(Decimal(n))
  }

  /** Parses one displayed field back to its number; `None` for text that is not all digits. */
  ghost function ParseField(p: string): Option<nat> {
    if |p| > 0 && AllDigits(p) then Some(Value(p)) else None
  }

  lemma {:induction false} ValueOfDecimal(n: nat)
    ensures Value(Decimal(n)) == n
    decreases n
  {
    if n >= 10 {
      var s := Decimal(n);
      assert s[..|s| - 1] == Decimal(n / 10);
      ValueOfDecimal(n / 10);
    }
  }

  /** A zero-padded field is all digits, has no separator, and parses back to its number;
      below 100 it is exactly two characters wide. */
  lemma Pad2RoundTrip(n: nat)
    ensures AllDigits(Pad2(n))
    ensures n < 100 <==> |Pad2(n)| == 2
    ensures ParseField(Pad2(n)) == Some(n)
  {
    var d := Decimal(n);
    ValueOfDecimal(n);
    if |d| < 2 {
      var r := Pad2(n);
      assert r == ['0'] + d;
      assert r[..1] == ['0'];
      assert Value(r[..1]) == 0 by {
        assert r[..1][..0] == [];
      }
      assert d[..0] == [];
      assert Value(r) == Value(d);
    }
  }
}
