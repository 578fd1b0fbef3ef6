/** Decimal text of integers: `strconv.Itoa`, `strconv.Atoi` and conversion to int32. */
module Decimals {
  import opened Basics

  predicate IsDigit(c: char) { '0' <= c <= '9' }

  function DigitOf(d: nat): char
    requires d < 10
  {
    (d + '0' as nat) as char
  }

  function ValueOf(c: char): nat
    requires IsDigit(c)
  {
    c as nat - '0' as nat
  }

  function FormatNat(n: nat): string {
    if n < 10 then [DigitOf(n)] else FormatNat(n / 10) + [DigitOf(n % 10)]
  }

  function Itoa(i: int): string {
    if i < 0 then "-" + FormatNat(-i) else FormatNat(i)
  }

  function ParseNat(s: string): Option<nat> {
    if s == "" || !IsDigit(s[|s| - 1]) then None
    else if |s| == 1 then Some(ValueOf(s[0]))
    else match ParseNat(s[..|s| - 1])
      case None => None
      case Some(n) => Some(10 * n + ValueOf(s[|s| - 1]))
  }

  const MAX_INT64 := 0x7fff_ffff_ffff_ffff

  /** An optional sign and decimal digits whose value fits in 64 bits. */
  function Atoi(s: string): Option<int> {
    var negative := s != "" && s[0] == '-';
    var digits := if s != "" && (s[0] == '-' || s[0] == '+') then s[1..] else s;
    match ParseNat(digits)
    case None => None
    case Some(n) =>
      var value := if negative then 0 - n else n as int;
      if -MAX_INT64 - 1 <= value <= MAX_INT64 then Some(value) else None
  }

  predicate FitsInt32(i: int) { -0x8000_0000 <= i < 0x8000_0000 }

  /** Go's conversion to int32 keeps the low 32 bits. */
  function Int32(i: int): (r: int)
    ensures FitsInt32(r)
    ensures FitsInt32(i) ==> r == i
    ensures (i - r) % 0x1_0000_0000 == 0
  {
    (i + 0x8000_0000) % 0x1_0000_0000 - 0x8000_0000
  }

  lemma {:induction false} ParseFormatNat(n: nat)
    ensures ParseNat(FormatNat(n)) == Some(n)
    ensures IsDigit(FormatNat(n)[0])
  {
    if n >= 10 {
      var s := FormatNat(n / 10);
      ParseFormatNat(n / 10);
      assert FormatNat(n)[..|FormatNat(n)| - 1] == s;
      assert FormatNat(n)[0] == s[0];
    }
  }

  /** Printing a 32-bit integer and reading it back gives it again. */
  lemma AtoiItoa(i: int)
    requires FitsInt32(i)
    ensures Atoi(Itoa(i)) == Some(i)
  {
    ParseFormatNat(if i < 0 then -i else i);
    if i < 0 {
      assert Itoa(i)[1..] == FormatNat(-i);
    }
  }

  lemma ItoaInjective(i: int, j: int)
    requires FitsInt32(i) && FitsInt32(j) && Itoa(i) == Itoa(j)
    ensures i == j
  {
    AtoiItoa(i);
    AtoiItoa(j);
  }

  /** Signs are read, and numbers beyond 64 bits are refused. */
  lemma AtoiOfDigits(s: string, n: nat)
    requires ParseNat(s) == Some(n) && s != "" && s[0] != '-' && s[0] != '+'
    ensures Atoi(s) == if n <= 0x7fff_ffff_ffff_ffff then Some(n as int) else None
    ensures Atoi("+" + s) == if n <= 0x7fff_ffff_ffff_ffff then Some(n as int) else None
    ensures Atoi("-" + s) == if n <= 0x8000_0000_0000_0000 then Some(0 - n) else None
  {
    assert ("+" + s)[1..] == s && ("-" + s)[1..] == s;
    hide ParseNat;
  }

  /** A text with anything but digits behind an optional sign is refused. */
  lemma {:induction false} OnlyDigitsParse(s: string)
    ensures ParseNat(s).Some? <==> s != "" && forall i :: 0 <= i < |s| ==> '0' <= s[i] <= '9'
  {
    if |s| > 1 {
      OnlyDigitsParse(s[..|s| - 1]);
    }
  }

  lemma AtoiRefuses(s: string)
    requires s != "" && Atoi(s).Some?
    ensures var digits := if s[0] == '-' || s[0] == '+' then s[1..] else s;
      digits != "" && forall i :: 0 <= i < |digits| ==> '0' <= digits[i] <= '9'
  {
    OnlyDigitsParse(if s[0] == '-' || s[0] == '+' then s[1..] else s);
  }
}
