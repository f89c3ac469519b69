/** The members of the Arduino `String` class that the request decoder uses
    (`startsWith`, `indexOf`, `substring`, `toInt`), with the behaviour of the
    Arduino core and of the C library underneath (`strchr`, `strstr`, `atol`). */
module ArduinoString {
  import opened Machine

  /** `s.startsWith(prefix)`. */
  predicate StartsWith(s: string, prefix: string) {
    |prefix| <= |s| && s[..|prefix|] == prefix
  }

  /** `pat` occurs in `s` at position `k`. */
  predicate MatchAt(s: string, pat: string, k: nat) {
    k + |pat| <= |s| && s[k..k + |pat|] == pat
  }

  /** `pat` occurs somewhere in `s`. */
  predicate Occurs(s: string, pat: string) {
    exists k :: 0 <= k <= |s| && MatchAt(s, pat, k)
  }

  /** `s.indexOf(c, from)`: -1 when `from` is at or past the end, otherwise the
      position `strchr` finds, the first `c` at or after `from`. */
  function IndexOfChar(s: string, c: char, from: nat): (r: int)
    ensures r == -1 || (from <= r < |s| && s[r] == c)
    ensures r >= 0 ==> forall k :: from <= k < r ==> s[k] != c
    ensures r == -1 <==> forall k :: from <= k < |s| ==> s[k] != c
    decreases |s| - from
  {
    if from >= |s| then -1
    else if s[from] == c then from
    else IndexOfChar(s, c, from + 1)
  }

  /** The scan `strstr` performs: the first position at or after `i` where
      `pat` occurs, or -1. */
  function FindFrom(s: string, pat: string, i: nat): (r: int)
    ensures r == -1 || (i <= r && MatchAt(s, pat, r))
    ensures r >= 0 ==> forall k :: i <= k < r ==> !MatchAt(s, pat, k)
    ensures r == -1 ==> forall k :: i <= k ==> !MatchAt(s, pat, k)
    decreases |s| - i
  {
    if i + |pat| > |s| then -1
    else if s[i..i + |pat|] == pat then i
    else FindFrom(s, pat, i + 1)
  }

  /** `s.indexOf(pat, from)`: -1 when `from` is at or past the end of `s`
      (checked before `strstr` is called), otherwise the first occurrence of
      `pat` at or after `from`, or -1 when there is none. */
  function IndexOf(s: string, pat: string, from: nat): (r: int)
    ensures r == -1 || (from <= r && MatchAt(s, pat, r))
    ensures r >= 0 ==> forall k :: from <= k < r ==> !MatchAt(s, pat, k)
    ensures r == -1 <==> (from >= |s| || forall k :: from <= k ==> !MatchAt(s, pat, k))
  {
    if from >= |s| then -1 else FindFrom(s, pat, from)
  }

  function Min(a: int, b: int): int { if a <= b then a else b }

  /** `s.substring(left, right)`: the bounds are swapped when `left > right`,
      the result is empty when the lower bound is at or past the end, and the
      upper bound is clamped to the length. */
  function Substring(s: string, left: nat, right: nat): (r: string)
    ensures left <= right ==> r == s[Min(left, |s|)..Min(right, |s|)]
    ensures right < left ==> r == s[Min(right, |s|)..Min(left, |s|)]
  {
    var lo := if left > right then right else left;
    var hi := if left > right then left else right;
    if lo >= |s| then [] else s[lo..if hi > |s| then |s| else hi]
  }

  /** C `isspace` in the C locale: space, tab, newline, vertical tab, form
      feed, carriage return. */
  predicate IsSpace(c: char) {
    c == ' ' || '\t' <= c <= '\r'
  }

  predicate IsDigit(c: char) {
    '0' <= c <= '9'
  }

  predicate AllDigits(d: string) {
    forall i :: 0 <= i < |d| ==> IsDigit(d[i])
  }

  function DigitValue(c: char): nat
    requires IsDigit(c)
  {
    (c as int) - ('0' as int)
  }

  /** The number a run of decimal digits denotes. */
  function DigitsValue(d: string): nat
    requires AllDigits(d)
    decreases |d|
  {
    if d == [] then 0 else DigitsValue(d[..|d| - 1]) * 10 + DigitValue(d[|d| - 1])
  }

  /** What remains after the leading white space `strtol` skips. */
  function SkipSpace(s: string): (r: string)
    ensures |r| <= |s| && r == s[|s| - |r|..]
    ensures forall i :: 0 <= i < |s| - |r| ==> IsSpace(s[i])
    ensures r == [] || !IsSpace(r[0])
    decreases |s|
  {
    if |s| > 0 && IsSpace(s[0]) then SkipSpace(s[1..]) else s
  }

  /** What remains after an optional sign. */
  function StripSign(t: string): (r: string)
    ensures |r| <= |t| && r == t[|t| - |r|..]
  {
    if |t| > 0 && (t[0] == '-' || t[0] == '+') then t[1..] else t
  }

  /** The part of `s` whose leading digits `strtol` converts. */
  function Significand(s: string): (r: string)
    ensures |r| <= |s| && r == s[|s| - |r|..]
  {
    StripSign(SkipSpace(s))
  }

  /** After the white space, `s` carries a minus sign. */
  predicate IsNegative(s: string) {
    var t := SkipSpace(s);
    |t| > 0 && t[0] == '-'
  }

  /** The longest prefix of `s` made of decimal digits. */
  function LeadingDigits(s: string): (r: string)
    ensures |r| <= |s| && r == s[..|r|]
    ensures AllDigits(r)
    ensures |r| < |s| ==> !IsDigit(s[|r|])
    decreases |s|
  {
    if |s| > 0 && IsDigit(s[0]) then [s[0]] + LeadingDigits(s[1..]) else []
  }

  /** Clamping to the `long` range, as `strtol` does on overflow. */
  function Saturate(x: int): (r: Int32)
    ensures Int32Min <= x <= Int32Max ==> r == x
    ensures x > Int32Max ==> r == Int32Max
    ensures x < Int32Min ==> r == Int32Min
  {
    if x > Int32Max then Int32Max else if x < Int32Min then Int32Min else x
  }

  /** `s` holds a number in `strtol`'s sense: after white space and an
      optional sign comes a decimal digit. */
  predicate StartsNumeric(s: string) {
    var u := Significand(s);
    |u| > 0 && IsDigit(u[0])
  }

  /** `s.toInt()`, that is `atol(s)` = `strtol(s, NULL, 10)`: skip white
      space, read an optional sign and the decimal digits after it, and
      saturate at the `long` bounds. Text without such digits gives 0;
      the conversion never reports an error. */
  function ToInt(s: string): (r: Int32)
    ensures !StartsNumeric(s) ==> r == 0
    ensures (forall i :: 0 <= i < |s| ==> !IsDigit(s[i])) ==> r == 0
    ensures r < 0 ==> IsNegative(s)
  {
    var mag: int := DigitsValue(LeadingDigits(Significand(s)));
    Saturate(if IsNegative(s) then -mag else mag)
  }

  /** A run of digits followed by a non-digit is exactly what `LeadingDigits` keeps. */
  lemma {:induction false} LeadingDigitsOfRun(d: string, rest: string)
    requires AllDigits(d)
    requires rest == [] || !IsDigit(rest[0])
    ensures LeadingDigits(d + rest) == d
    decreases |d|
  {
    if d == [] {
      assert d + rest == rest;
    } else {
      assert (d + rest)[1..] == d[1..] + rest;
      LeadingDigitsOfRun(d[1..], rest);
    }
  }

  /** A run of white space followed by anything that does not start with
      white space is exactly what `strtol` skips. */
  lemma {:induction false} SkipSpaceRun(w: string, t: string)
    requires forall i :: 0 <= i < |w| ==> IsSpace(w[i])
    requires t == [] || !IsSpace(t[0])
    ensures SkipSpace(w + t) == t
    decreases |w|
  {
    if w == [] {
      assert w + t == t;
    } else {
      assert (w + t)[1..] == w[1..] + t;
      SkipSpaceRun(w[1..], t);
    }
  }

  /** An optional sign as `strtol` accepts it: nothing, `+` or `-`. */
  predicate IsSign(sign: string) {
    |sign| <= 1 && (|sign| == 1 ==> sign[0] == '-' || sign[0] == '+')
  }

  /** `strtol` drops a sign in front of a digit, and the number is
      negative exactly for a minus sign. */
  lemma StripSignBeforeDigit(sign: string, u: string)
    requires IsSign(sign)
    requires |u| > 0 && IsDigit(u[0])
    ensures var t := sign + u;
      && |t| > 0 && !IsSpace(t[0])
      && StripSign(t) == u
      && (t[0] == '-' <==> sign == "-")
  {
    var t := sign + u;
    if |sign| == 0 {
      assert t == u;
    } else {
      assert t[0] == sign[0] && t[1..] == u;
    }
  }

  /** After white space and an optional sign, `strtol` reads the digit run
      that follows, and the number is negative exactly for a minus sign. */
  lemma SignificandOfSignedRun(w: string, sign: string, u: string)
    requires forall i :: 0 <= i < |w| ==> IsSpace(w[i])
    requires IsSign(sign)
    requires |u| > 0 && IsDigit(u[0])
    ensures Significand(w + (sign + u)) == u
    ensures IsNegative(w + (sign + u)) <==> sign == "-"
  {
    StripSignBeforeDigit(sign, u);
    SkipSpaceRun(w, sign + u);
  }

  /** `toInt` of white space, an optional sign, a run of digits `d` of value
      `m` and then anything that does not start with a digit: `m`, negated
      after a minus sign, saturated at the `long` bounds. Leading zeros and
      a `+` sign make no difference. */
  lemma ToIntSignedRun(w: string, sign: string, d: string, rest: string, m: nat)
    requires forall i :: 0 <= i < |w| ==> IsSpace(w[i])
    requires IsSign(sign)
    requires |d| > 0 && AllDigits(d) && m == DigitsValue(d)
    requires rest == [] || !IsDigit(rest[0])
    ensures ToInt(w + sign + d + rest) == Saturate(if sign == "-" then -(m as int) else m)
  {
    var s := w + sign + d + rest;
    var u := d + rest;
    Regroup(w, sign, d, rest);
    assert u[0] == d[0];
    SignificandOfSignedRun(w, sign, u);
    LeadingDigitsOfRun(d, rest);
    ToIntOfParts(s, m, sign == "-");
  }

  /** `toInt` in terms of the value of the digits `strtol` reads and the
      sign before them. */
  lemma ToIntOfParts(s: string, m: nat, negative: bool)
    requires DigitsValue(LeadingDigits(Significand(s))) == m
    requires IsNegative(s) <==> negative
    ensures ToInt(s) == Saturate(if negative then -(m as int) else m)
  {
  }

  /** Regrouping a concatenation of four parts to the right. */
  lemma Regroup(a: string, b: string, c: string, e: string)
    ensures a + b + c + e == a + (b + (c + e))
  {
    assert a + b + c == a + (b + c);
    assert (a + (b + c)) + e == a + ((b + c) + e);
    assert (b + c) + e == b + (c + e);
  }

  /** White space, a `+` and leading zeros are skipped: `" +007x"`
      converts to 7. */
  lemma ToIntSkipsSignAndZeros()
    ensures ToInt(" +007x") == 7
  {
    assert DigitsValue("007") == 7 by {
      assert "007"[..2] == "00" && "00"[..1] == "0" && "0"[..0] == [];
    }
    assert " " + "+" + "007" + "x" == " +007x";
    ToIntSignedRun(" ", "+", "007", "x", 7);
  }

  /** A value past the `long` range saturates: `"3000000000"` converts to
      the largest 32-bit value. */
  lemma ToIntSaturatesHigh()
    ensures ToInt("3000000000") == Int32Max
  {
    ThreeBillionDigits();
    assert [] + [] + "3000000000" + [] == "3000000000";
    ToIntSignedRun([], [], "3000000000", [], 3000000000);
  }

  /** The value of the digit text `3000000000`, one digit at a time. */
  lemma ThreeBillionDigits()
    ensures AllDigits("3000000000") && DigitsValue("3000000000") == 3000000000
  {
    assert "3"[..0] == [];
    assert "30"[..1] == "3";
    assert DigitsValue("30") == 30;
    assert "300"[..2] == "30";
    assert DigitsValue("300") == 300;
    assert "3000"[..3] == "300";
    assert DigitsValue("3000") == 3000;
    assert "30000"[..4] == "3000";
    assert DigitsValue("30000") == 30000;
    assert "300000"[..5] == "30000";
    assert DigitsValue("300000") == 300000;
    assert "3000000"[..6] == "300000";
    assert DigitsValue("3000000") == 3000000;
    assert "30000000"[..7] == "3000000";
    assert DigitsValue("30000000") == 30000000;
    assert "300000000"[..8] == "30000000";
    assert DigitsValue("300000000") == 300000000;
    assert "3000000000"[..9] == "300000000";
    assert DigitsValue("3000000000") == 3000000000;
  }
}
