/**
 * Room codes: `generateUniqueCode` in index.js draws a number in
 * 100000..999999 and returns its decimal string. The random draw is a
 * parameter here; the decimal rendering (`Number.prototype.toString` on a
 * non-negative integer) and its inverse are written out so that the shape of
 * a code can be proved, not assumed.
 */
module RoomCodes {

  /** Smallest code value, and the number of distinct codes. */
  const CodeBase: nat := 100000
  const CodeSpan: nat := 900000

  predicate IsDigit(c: char) {
    '0' <= c <= '9'
  }

  predicate AllDigits(s: string) {
    forall i :: 0 <= i < |s| ==> IsDigit(s[i])
  }

  /** A room code: six decimal digits without a leading zero. */
  predicate IsRoomCode(s: string) {
    |s| == 6 && AllDigits(s) && s[0] != '0'
  }

  function DigitChar(d: nat): (c: char)
    requires d < 10
    ensures IsDigit(c)
  {
    ('0' as int + d) as char
  }

  function DigitValue(c: char): (d: nat)
    requires IsDigit(c)
    ensures d < 10 && DigitChar(d) == c
  {
    c as int - '0' as int
  }

  function Pow10(k: nat): (p: nat)
    ensures p >= 1
  {
    if k == 0 then 1 else 10 * Pow10(k - 1)
  }

  /** The decimal string of `n`, most significant digit first, no leading zero. */
  function Decimal(n: nat): (s: string)
    ensures |s| >= 1 && AllDigits(s)
    ensures s[0] == '0' <==> n == 0
    decreases n
  {
    if n < 10 then [DigitChar(n)] else Decimal(n / 10) + [DigitChar(n % 10)]
  }

  /** The number a string of decimal digits denotes. */
  function Value(s: string): (v: nat)
    requires AllDigits(s)
    ensures v < Pow10(|s|)
    decreases |s|
  {
    if s == [] then 0 else Value(s[..|s| - 1]) * 10 + DigitValue(s[|s| - 1])
  }

  /** Reading back a rendered number gives the number. */
  lemma {:induction false} ValueOfDecimal(n: nat)
    ensures Value(Decimal(n)) == n
    decreases n
  {
    var s := Decimal(n);
    if n < 10 {
      assert s[..0] == [];
    } else {
      ValueOfDecimal(n / 10);
      assert s[..|s| - 1] == Decimal(n / 10);
    }
  }

  /** A number of `k` digits renders as exactly `k` characters. */
  lemma {:induction false} DecimalLength(n: nat, k: nat)
    requires 1 <= k && Pow10(k - 1) <= n < Pow10(k)
    ensures |Decimal(n)| == k
    decreases k
  {
    if k > 1 {
      assert Pow10(k - 1) == 10 * Pow10(k - 2);
      DecimalLength(n / 10, k - 1);
    }
  }

  /** A digit string with a non-zero leading digit has exactly `|s|` digits' worth of value. */
  lemma {:induction false} ValueLeadingDigit(s: string)
    requires |s| >= 1 && AllDigits(s) && s[0] != '0'
    ensures Value(s) >= Pow10(|s| - 1)
    decreases |s|
  {
    var p := s[..|s| - 1];
    if |s| > 1 {
      assert p[0] == s[0];
      ValueLeadingDigit(p);
    } else {
      assert p == [];
    }
  }

  /** Rendering the value of a canonical digit string gives the string back. */
  lemma {:induction false} DecimalOfValue(s: string)
    requires |s| >= 1 && AllDigits(s)
    requires |s| == 1 || s[0] != '0'
    ensures Decimal(Value(s)) == s
    decreases |s|
  {
    var p := s[..|s| - 1];
    if |s| == 1 {
      assert p == [];
      assert s == [s[0]];
    } else {
      assert p[0] == s[0];
      ValueLeadingDigit(p);
      DecimalOfValue(p);
      assert s == p + [s[|s| - 1]];
    }
  }

  /**
   * generateUniqueCode: the draw `r` is the value of the drawn code minus
   * 100000; the code is the decimal string of 100000 + r.
   */
  function GenerateUniqueCode(r: int): (code: string)
    requires 0 <= r < CodeSpan
    ensures IsRoomCode(code)
    ensures Value(code) == CodeBase + r
  {
    assert Pow10(5) == CodeBase && Pow10(6) == CodeBase + CodeSpan;
    DecimalLength(CodeBase + r, 6);
    ValueOfDecimal(CodeBase + r);
    Decimal(CodeBase + r)
  }

  /** Every room code is produced by exactly the draw its value names. */
  lemma EveryRoomCodeGenerated(s: string)
    requires IsRoomCode(s)
    ensures CodeBase <= Value(s) < CodeBase + CodeSpan
    ensures GenerateUniqueCode(Value(s) - CodeBase) == s
  {
    ValueLeadingDigit(s);
    assert Pow10(5) == CodeBase && Pow10(6) == CodeBase + CodeSpan;
    DecimalOfValue(s);
  }
}
