/**
 * Decimal text of integers: the printers (Java's "%d" and Integer.toString, C's
 * "%lu" and "%u") and the readers (Integer.parseInt, atol) with their different
 * treatment of malformed text.
 */
module Decimal {
  import opened Wrappers

  const INT_MIN := -0x8000_0000
  const INT_MAX := 0x7fff_ffff

  predicate IsDigit(c: char) {
    '0' <= c <= '9'
  }

  function Digit(d: nat): (c: char)
    requires d < 10
    ensures IsDigit(c) && DigitValue(c) == d
  {
    ('0' as int + d) as char
  }

  function DigitValue(c: char): (d: nat)
    requires IsDigit(c)
    ensures d < 10
  {
    c as int - '0' as int
  }

  predicate AllDigits(s: string) {
    forall i :: 0 <= i < |s| ==> IsDigit(s[i])
  }

  function PrintNat(n: nat): (s: string)
    ensures AllDigits(s) && |s| >= 1
  {
    if n < 10 then [Digit(n)] else PrintNat(n / 10) + [Digit(n % 10)]
  }

  function PrintInt(n: int): string {
    if n < 0 then "-" + PrintNat(-n) else PrintNat(n)
  }

  function ReadDigits(s: string): nat
    requires AllDigits(s)
  {
    if s == [] then 0 else 10 * ReadDigits(s[..|s| - 1]) + DigitValue(s[|s| - 1])
  }

  // Integer.parseInt: None stands for NumberFormatException.
  function ParseInt(s: string): Option<int> {
    var negative := s != [] && s[0] == '-';
    var digits := if s != [] && (s[0] == '-' || s[0] == '+') then s[1..] else s;
    if digits == [] || !AllDigits(digits) then None
    else
      var m: int := ReadDigits(digits);
      var v := if negative then -m else m;
      if INT_MIN <= v <= INT_MAX then Some(v) else None
  }

  // The number of leading digits.
  function DigitPrefix(s: string): (k: nat)
    ensures k <= |s| && AllDigits(s[..k]) && (k < |s| ==> !IsDigit(s[k]))
  {
    if s == [] || !IsDigit(s[0]) then 0
    else
      var k := 1 + DigitPrefix(s[1..]);
      assert s[..k] == [s[0]] + s[1..][..k - 1];
      k
  }

  // atol for text without leading blanks: the leading digits, 0 if there are none.
  function Atol(s: string): int {
    var negative := s != [] && s[0] == '-';
    var t := if s != [] && (s[0] == '-' || s[0] == '+') then s[1..] else s;
    var v: int := ReadDigits(t[..DigitPrefix(t)]);
    if negative then -v else v
  }

  lemma {:induction false} ReadPrinted(n: nat)
    ensures ReadDigits(PrintNat(n)) == n
  {
    if n >= 10 {
      ReadPrinted(n / 10);
      assert PrintNat(n)[..|PrintNat(n)| - 1] == PrintNat(n / 10);
    } else {
      assert PrintNat(n)[..0] == [];
    }
  }

  lemma PrintedFirst(n: int)
    ensures PrintInt(n) != []
    ensures n >= 0 ==> IsDigit(PrintInt(n)[0])
    ensures n < 0 ==> PrintInt(n)[0] == '-' && PrintInt(n)[1..] == PrintNat(-n)
    ensures forall i :: 0 <= i < |PrintInt(n)| ==> IsDigit(PrintInt(n)[i]) || PrintInt(n)[i] == '-'
  {
  }

  lemma ParsePrinted(n: int)
    requires INT_MIN <= n <= INT_MAX
    ensures ParseInt(PrintInt(n)) == Some(n)
  {
    PrintedFirst(n);
    ReadPrinted(if n < 0 then -n else n);
  }

  lemma {:induction false} DigitPrefixAll(s: string)
    requires AllDigits(s)
    ensures DigitPrefix(s) == |s|
  {
    if s != [] {
      DigitPrefixAll(s[1..]);
    }
  }

  lemma AtolPrinted(n: int)
    ensures Atol(PrintInt(n)) == n
  {
    PrintedFirst(n);
    var m := if n < 0 then -n else n;
    ReadPrinted(m);
    DigitPrefixAll(PrintNat(m));
    assert PrintNat(m)[..|PrintNat(m)|] == PrintNat(m);
  }

  // Ten digits hold any 32-bit number.
  lemma {:induction false} PrintedLength(n: nat, k: nat)
    requires k >= 1 && n < Ten(k)
    ensures |PrintNat(n)| <= k
  {
    if n >= 10 {
      assert Ten(1) == 10;
      PrintedLength(n / 10, k - 1);
    }
  }

  function Ten(k: nat): nat {
    if k == 0 then 1 else 10 * Ten(k - 1)
  }

  lemma IntTextIsShort(n: int)
    requires INT_MIN <= n <= INT_MAX
    ensures 1 <= |PrintInt(n)| <= 11
  {
    assert Ten(10) == 10_000_000_000 by {
      assert Ten(5) == 100_000;
      assert Ten(10) == 100_000 * Ten(5);
    }
    PrintedLength(if n < 0 then -n else n, 10);
  }

  // ----- what the digits of a text mean, read from the left

  // What the digits of s make of a number read so far.
  function ReadOn(read: nat, s: string): nat
    requires AllDigits(s)
    decreases |s|
  {
    if s == [] then read else ReadOn(10 * read + (s[0] as int - '0' as int), s[1..])
  }

  function Positional(s: string): nat
    requires AllDigits(s)
  {
    ReadOn(0, s)
  }

  lemma {:induction false} ReadOnLast(read: nat, s: string)
    requires AllDigits(s) && s != []
    ensures ReadOn(read, s) == 10 * ReadOn(read, s[..|s| - 1]) + (s[|s| - 1] as int - '0' as int)
    decreases |s|
  {
    var n := |s| - 1;
    if n > 0 {
      ReadOnLast(10 * read + (s[0] as int - '0' as int), s[1..]);
      assert s[1..][..n - 1] == s[..n][1..];
    } else {
      assert s[1..] == [] && s[..n] == [];
    }
  }

  lemma {:induction false} ReadsPositional(s: string)
    requires AllDigits(s)
    ensures ReadDigits(s) == Positional(s)
  {
    if s != [] {
      ReadsPositional(s[..|s| - 1]);
      ReadOnLast(0, s);
    }
  }

  // A number's text has no leading zero, and is the only such text of its value.
  lemma {:induction false} PrintNatIff(n: nat, s: string)
    ensures s == PrintNat(n) <==>
              AllDigits(s) && s != [] && (s[0] == '0' ==> s == "0") && Positional(s) == n
  {
    PrintedWhole(n);
    ReadPrinted(n);
    ReadsPositional(PrintNat(n));
    if AllDigits(s) && s != [] && (s[0] == '0' ==> s == "0") && Positional(s) == n {
      WholeIsPrinted(s);
    }
  }

  lemma {:induction false} PrintedWhole(n: nat)
    ensures PrintNat(n)[0] == '0' ==> PrintNat(n) == "0"
  {
    if n >= 10 {
      PrintedWhole(n / 10);
      assert PrintNat(n)[0] == PrintNat(n / 10)[0];
      ReadPrinted(n / 10);
      assert "0"[..0] == [];
    }
  }

  lemma {:induction false} WholeIsPrinted(s: string)
    requires AllDigits(s) && s != [] && (s[0] == '0' ==> s == "0")
    ensures PrintNat(Positional(s)) == s
  {
    var n := |s| - 1;
    assert s == s[..n] + [s[n]] && Digit(s[n] as int - '0' as int) == s[n];
    ReadOnLast(0, s);
    if n > 0 {
      WholeIsPrinted(s[..n]);
      ReadOnGrows(s[0] as int - '0' as int, s[..n][1..]);
    }
  }

  lemma {:induction false} ReadOnGrows(read: nat, s: string)
    requires AllDigits(s)
    ensures ReadOn(read, s) >= read
    decreases |s|
  {
    if s != [] {
      ReadOnGrows(10 * read + (s[0] as int - '0' as int), s[1..]);
    }
  }

  predicate IsSign(sign: string) {
    sign == "" || sign == "+" || sign == "-"
  }

  function Signed(sign: string, m: nat): int {
    var v: int := m;
    if sign == "-" then -v else v
  }

  // parseInt takes an optional sign and nothing but digits, at least one, and only
  // values of 32 bits.
  lemma ParseIntIff(s: string, v: int)
    ensures ParseInt(s) == Some(v) <==>
              && INT_MIN <= v <= INT_MAX
              && exists sign, digits ::
                   IsSign(sign) && digits != [] && AllDigits(digits) && s == sign + digits
                   && v == Signed(sign, Positional(digits))
  {
    hide ReadDigits, Positional;
    if ParseInt(s) == Some(v) {
      var sign := if s[0] == '-' || s[0] == '+' then s[..1] else "";
      var digits := s[|sign|..];
      assert s == sign + digits && IsSign(sign);
      ReadsPositional(digits);
    }
    forall sign, digits | IsSign(sign) && digits != [] && AllDigits(digits) && s == sign + digits
      ensures ParsedAs(s, Signed(sign, Positional(digits)))
    {
      ParseParts(sign, digits);
    }
  }

  predicate ParsedAs(s: string, v: int) {
    ParseInt(s) == if INT_MIN <= v <= INT_MAX then Some(v) else None
  }

  lemma ParseParts(sign: string, digits: string)
    requires IsSign(sign) && digits != [] && AllDigits(digits)
    ensures ParsedAs(sign + digits, Signed(sign, Positional(digits)))
  {
    hide ReadDigits, Positional;
    var s := sign + digits;
    assert s[|sign|..] == digits;
    assert sign == "" ==> IsDigit(s[0]) && s == digits;
    ReadsPositional(digits);
  }

  // atol takes an optional sign and the digits up to the first other character; what
  // follows does not matter, and no digits count as zero.
  lemma AtolIs(sign: string, digits: string, rest: string)
    requires IsSign(sign) && AllDigits(digits) && (rest != [] ==> !IsDigit(rest[0]))
    requires sign == "" && digits == [] && rest != [] ==> rest[0] != '-' && rest[0] != '+'
    ensures Atol(sign + digits + rest) == Signed(sign, Positional(digits))
  {
    hide ReadDigits, Positional, DigitPrefix;
    var s, t := sign + digits + rest, digits + rest;
    assert s[|sign|..] == t && t[..|digits|] == digits;
    assert sign == "" ==> s == t && (digits != [] ==> IsDigit(s[0]));
    DigitPrefixIs(digits, rest);
    ReadsPositional(digits);
  }

  lemma {:induction false} DigitPrefixIs(digits: string, rest: string)
    requires AllDigits(digits) && (rest != [] ==> !IsDigit(rest[0]))
    ensures DigitPrefix(digits + rest) == |digits|
  {
    if digits == [] {
      assert digits + rest == rest;
    } else {
      DigitPrefixIs(digits[1..], rest);
      assert (digits + rest)[1..] == digits[1..] + rest;
    }
  }
}
