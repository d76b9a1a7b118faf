/** strconv.Atoi and strconv.AppendInt in base ten, on a 64-bit platform. */
module Strconv {
  import opened Wrappers

  const MAX_INT: int := 0x7FFF_FFFF_FFFF_FFFF

  predicate IsDigit(c: char) {
    '0' <= c <= '9'
  }

  predicate AllDigits(s: string) {
    forall i :: 0 <= i < |s| ==> IsDigit(s[i])
  }

  function Digit(c: char): nat
    requires IsDigit(c)
  {
    c as int - '0' as int
  }

  /** The number a string of digits spells. */
  function Number(s: string): nat
    requires AllDigits(s)
  {
    if s == "" then 0 else 10 * Number(s[..|s| - 1]) + Digit(s[|s| - 1])
  }

  /** strconv.Atoi: an optional sign and digits, within the range of int. */
  function Atoi(s: string): Option<int> {
    var signed := s != "" && (s[0] == '+' || s[0] == '-');
    var digits := if signed then s[1..] else s;
    if digits == "" || !AllDigits(digits) then None
    else
      var n: int := if signed && s[0] == '-' then 0 - Number(digits) else Number(digits);
      if -MAX_INT - 1 <= n <= MAX_INT then Some(n) else None
  }

  function DigitChar(d: nat): (c: char)
    requires d < 10
    ensures IsDigit(c) && Digit(c) == d
  {
    ('0' as int + d) as char
  }

  /** strconv.AppendInt of a non-negative number: no leading zeros. */
  function Itoa(n: nat): (s: string)
    ensures s != "" && AllDigits(s)
    ensures |s| > 1 ==> s[0] != '0'
    decreases n
  {
    if n < 10 then [DigitChar(n)] else Itoa(n / 10) + [DigitChar(n % 10)]
  }

  lemma {:induction false} NumberOfItoa(n: nat)
    ensures Number(Itoa(n)) == n
  {
    var s := Itoa(n);
    if n < 10 {
      assert s[..0] == "";
    } else {
      NumberOfItoa(n / 10);
      assert s[..|s| - 1] == Itoa(n / 10);
    }
  }

  /** Decimal without leading zeros is canonical. */
  lemma {:induction false} ItoaOfNumber(s: string)
    requires s != "" && AllDigits(s) && (|s| > 1 ==> s[0] != '0')
    ensures Itoa(Number(s)) == s
  {
    var front, d := s[..|s| - 1], Digit(s[|s| - 1]);
    assert s == front + [s[|s| - 1]];
    if front == "" {
      assert Number(front) == 0;
    } else {
      ItoaOfNumber(front);
      NumberIsPositive(front);
      assert Number(s) / 10 == Number(front) && Number(s) % 10 == d;
    }
  }

  lemma {:induction false} NumberIsPositive(s: string)
    requires s != "" && AllDigits(s) && s[0] != '0'
    ensures Number(s) > 0
  {
    if |s| > 1 {
      NumberIsPositive(s[..|s| - 1]);
    } else {
      assert Digit(s[0]) > 0;
    }
  }

  /** The last digit counts ones, and what stands before it tens. */
  lemma NumberIsDecimal(s: string, c: char)
    requires AllDigits(s) && '0' <= c <= '9'
    ensures Number(s + [c]) == 10 * Number(s) + (c as int - 48) && Number("") == 0
  {
    assert (s + [c])[..|s|] == s;
  }

  /** Atoi takes numerals with or without a sign, as far as they fit into 64 bits. */
  lemma AtoiOfNumeral(n: nat)
    ensures Atoi(Itoa(n)) == Atoi("+" + Itoa(n)) == if n <= 0x7FFF_FFFF_FFFF_FFFF then Some(n) else None
    ensures Atoi("-" + Itoa(n)) == if n <= 0x8000_0000_0000_0000 then Some(0 - n) else None
  {
    var d := Itoa(n);
    NumberOfItoa(n);
    assert d != "" && AllDigits(d) && Number(d) == n;
    AtoiOfDigits(d);
  }

  lemma AtoiOfDigits(d: string)
    requires d != "" && AllDigits(d)
    ensures Atoi(d) == Atoi("+" + d) == if Number(d) <= 0x7FFF_FFFF_FFFF_FFFF then Some(Number(d)) else None
    ensures Atoi("-" + d) == if Number(d) <= 0x8000_0000_0000_0000 then Some(0 - Number(d)) else None
  {
    assert IsDigit(d[0]);
    assert ("-" + d)[1..] == d && ("+" + d)[1..] == d;
  }

  lemma AtoiNeedsDigits(s: string, i: nat)
    requires i < |s| && !('0' <= s[i] <= '9') && (i > 0 || (s[0] != '+' && s[0] != '-'))
    ensures Atoi(s) == None && Atoi("") == Atoi("-") == Atoi("+") == None
  {
    if s[0] == '+' || s[0] == '-' {
      assert s[1..][i - 1] == s[i];
    }
  }
}
