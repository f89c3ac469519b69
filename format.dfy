/** Decimal formatting of integers, as `Print::print(int)`, `sprintf("%d")`
    and `sprintf("%02d")` produce it, with the facts that tie it to `toInt`. */
module Format {
  import opened Machine
  import opened ArduinoString

  function DigitChar(d: nat): (c: char)
    requires d < 10
    ensures IsDigit(c) && DigitValue(c) == d
  {
    ('0' as int + d) as char
  }

  /** The decimal digits of `n`, most significant first, without leading zeros. */
  function NatDigits(n: nat): (r: string)
    ensures |r| > 0 && AllDigits(r)
    ensures DigitsValue(r) == n
    ensures n > 0 ==> r[0] != '0'
    decreases n
  {
    if n < 10 then [DigitChar(n)]
    else
      var front := NatDigits(n / 10);
      var r := front + [DigitChar(n % 10)];
      assert r[..|r| - 1] == front;
      r
  }

  /** `print(n)` and `sprintf("%d", n)`: a minus sign for a negative number,
      then the digits of its magnitude, with no leading zero. */
  function Decimal(n: int): (r: string)
    ensures |r| > 0
    ensures forall i :: 0 <= i < |r| ==> IsDigit(r[i]) || (i == 0 && r[i] == '-' && n < 0)
    ensures n >= 0 ==> AllDigits(r) && DigitsValue(r) == n
    ensures n < 0 ==> r[0] == '-' && AllDigits(r[1..]) && DigitsValue(r[1..]) == -n
    ensures n == 0 ==> r == "0"
    ensures n != 0 ==> |r| > (if n < 0 then 1 else 0) && r[if n < 0 then 1 else 0] != '0'
  {
    if n < 0 then
      var r := "-" + NatDigits(-n);
      assert r[1..] == NatDigits(-n);
      r
    else NatDigits(n)
  }

  /** `sprintf("%02d", n)`: at least two characters, zero-padded on the left. */
  function Pad2(n: int): (r: string)
    ensures 0 <= n < 100 ==> |r| == 2 && AllDigits(r) && DigitsValue(r) == n
    ensures n >= 10 || n < 0 ==> r == Decimal(n)
  {
    if 0 <= n < 10 then
      var r := "0" + Decimal(n);
      assert r[..1] == "0" && r[..1][..0] == [];
      r
    else
      assert 10 <= n < 100 ==> NatDigits(n) == NatDigits(n / 10) + [DigitChar(n % 10)];
      Decimal(n)
  }

  function Pow10(k: nat): (p: nat)
    ensures p >= 1
  {
    if k == 0 then 1 else 10 * Pow10(k - 1)
  }

  /** `n` has at most `k` digits exactly when it is below 10^k. */
  lemma {:induction false} NatDigitsFit(n: nat, k: nat)
    requires k >= 1
    ensures |NatDigits(n)| <= k <==> n < Pow10(k)
    decreases n
  {
    if n >= 10 {
      if k == 1 {
        assert |NatDigits(n)| == |NatDigits(n / 10)| + 1;
      } else {
        NatDigitsFit(n / 10, k - 1);
        assert |NatDigits(n)| == |NatDigits(n / 10)| + 1;
      }
    }
  }

  /** Every 32-bit `int` prints in at most 11 characters (a sign and ten digits). */
  lemma DecimalInt32Length(n: Int32)
    ensures |Decimal(n)| <= 11
  {
    assert Pow10(10) == 10_000_000_000;
    if n < 0 {
      NatDigitsFit(-(n as int), 10);
    } else {
      NatDigitsFit(n, 10);
    }
  }

  /** `toInt` reads back what `print` wrote: for every 32-bit `n`, the text
      of `n` followed by anything that does not start with a digit converts
      to `n`. */
  lemma ToIntDecimal(n: Int32, rest: string)
    requires rest == [] || !IsDigit(rest[0])
    ensures ToInt(Decimal(n) + rest) == n
  {
    var s := Decimal(n) + rest;
    assert s[0] == Decimal(n)[0];
    assert SkipSpace(s) == s;
    if n >= 0 {
      assert Significand(s) == s;
      LeadingDigitsOfRun(Decimal(n), rest);
    } else {
      var digits := NatDigits(-(n as int));
      assert s == "-" + (digits + rest) by {
        assert Decimal(n) == "-" + digits;
      }
      assert s[1..] == digits + rest;
      assert Significand(s) == digits + rest;
      LeadingDigitsOfRun(digits, rest);
    }
  }
}
