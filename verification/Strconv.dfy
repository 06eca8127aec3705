/** Go's decimal printing (`%d`, `%05d`) and `strconv.Atoi` on 64-bit ints. */
module Strconv {

  const MAX_INT: int := 0x7FFF_FFFF_FFFF_FFFF

  predicate IsDigit(c: char) {
    '0' <= c <= '9'
  }

  ghost predicate AllDigits(s: string) {
    forall i :: 0 <= i < |s| ==> IsDigit(s[i])
  }

  function DigitChar(d: nat): (c: char)
    requires d < 10
    ensures IsDigit(c) && c as int == '0' as int + d
  {
    ('0' as int + d) as char
  }

  /** `%d` of a non-negative number. */
  function Format(n: nat): (s: string)
    ensures |s| >= 1 && AllDigits(s)
  {
    if n < 10 then [DigitChar(n)] else Format(n / 10) + [DigitChar(n % 10)]
  }

  /** `%0<width>d` of a non-negative number: never truncated, only padded. */
  function FormatPadded(n: nat, width: nat): (s: string)
    ensures |s| >= 1 && AllDigits(s)
  {
    var s := Format(n);
    if |s| >= width then s else seq(width - |s|, _ => '0') + s
  }

  /** The number a digit string denotes. */
  function Value(s: string): nat
    requires AllDigits(s)
  {
    if s == "" then 0 else 10 * Value(s[..|s| - 1]) + (s[|s| - 1] as int - '0' as int)
  }

  /** True when every character is a decimal digit. */
  predicate Numeric(s: string)
    ensures Numeric(s) <==> AllDigits(s)
  {
    s == "" || (IsDigit(s[|s| - 1]) && Numeric(s[..|s| - 1]))
  }

  /** `strconv.Atoi`: value and whether it succeeded. A syntax error yields 0 and a value
      outside 64 bits yields the nearest bound, both with ok false. */
  function Atoi(s: string): (int, bool) {
    var negative := |s| > 0 && s[0] == '-';
    var digits := if negative || (|s| > 0 && s[0] == '+') then s[1..] else s;
    if digits == "" || !Numeric(digits) then (0, false)
    else
      var v: int := Value(digits);
      if negative then
        if v > MAX_INT + 1 then (-MAX_INT - 1, false) else (-v, true)
      else
        if v > MAX_INT then (MAX_INT, false) else (v, true)
  }

  lemma {:induction false} ValueOfFormat(n: nat)
    ensures Value(Format(n)) == n
  {
    if n >= 10 {
      var s := Format(n);
      assert s[..|s| - 1] == Format(n / 10);
      ValueOfFormat(n / 10);
    }
  }

  lemma {:induction false} LeadingZeros(k: nat, s: string)
    requires AllDigits(s)
    ensures AllDigits(seq(k, _ => '0') + s)
    ensures Value(seq(k, _ => '0') + s) == Value(s)
    decreases |s|, k
  {
    var t := seq(k, _ => '0') + s;
    if s != "" {
      assert t[..|t| - 1] == seq(k, _ => '0') + s[..|s| - 1];
      LeadingZeros(k, s[..|s| - 1]);
    } else if k > 0 {
      assert t[..|t| - 1] == seq(k - 1, _ => '0') + s;
      LeadingZeros(k - 1, s);
    }
  }

  lemma ValueOfPadded(n: nat, width: nat)
    ensures Value(FormatPadded(n, width)) == n
  {
    ValueOfFormat(n);
    var s := Format(n);
    if |s| < width {
      LeadingZeros(width - |s|, s);
    }
  }

  /** Printing then parsing is the identity on every non-negative Go int, padded or not. */
  lemma AtoiOfFormat(n: nat, width: nat)
    requires n <= MAX_INT
    ensures Atoi(Format(n)) == (n, true)
    ensures Atoi(FormatPadded(n, width)) == (n, true)
  {
    ValueOfFormat(n);
    ValueOfPadded(n, width);
  }

  lemma FormatInjective(a: nat, b: nat)
    requires Format(a) == Format(b)
    ensures a == b
  {
    ValueOfFormat(a);
    ValueOfFormat(b);
  }

  /** One more decimal place. */
  lemma AppendDigit(n: nat, d: nat)
    requires d < 10
    ensures Format(10 * n + d) == (if n == 0 then "" else Format(n)) + [DigitChar(d)]
  {
    assert n > 0 ==> (10 * n + d) / 10 == n && (10 * n + d) % 10 == d;
  }

  /** No leading zero but in zero itself. */
  lemma {:induction false} NoLeadingZero(n: nat)
    ensures n > 0 ==> Format(n)[0] != '0'
    ensures n == 0 ==> Format(n) == "0"
  {
    if n >= 10 {
      NoLeadingZero(n / 10);
    }
  }

  /** Padding reaches the width, with zeros in front only, and never cuts. */
  lemma PaddedWidth(n: nat, width: nat)
    ensures |FormatPadded(n, width)| == if |Format(n)| >= width then |Format(n)| else width
    ensures FormatPadded(n, width)[|FormatPadded(n, width)| - |Format(n)|..] == Format(n)
    ensures forall i :: 0 <= i < |FormatPadded(n, width)| - |Format(n)| ==> FormatPadded(n, width)[i] == '0'
  {
    hide Format;
  }

  /** A minus sign negates, down to the smallest 64-bit int. */
  lemma AtoiOfNegative(n: nat)
    ensures Atoi("-" + Format(n)).0 == -(if n <= MAX_INT + 1 then n as int else MAX_INT + 1)
    ensures Atoi("-" + Format(n)).1 <==> n <= MAX_INT + 1
  {
    ValueOfFormat(n);
    assert ("-" + Format(n))[1..] == Format(n);
  }
}
