/**
Decimal text of integers, as the stores key their rows and keep their counter
(internal/store/sqlite.go, internal/store/memory.go). Print writes what String does,
Parse reads what SetString accepts in base ten: an optional sign and at least one digit.
*/
module Decimal {
  import opened Wrappers

  function Digit(d: nat): (c: char)
    requires d < 10
    ensures '0' <= c <= '9'
    ensures DigitValue(c) == d
  {
    '0' + d as char
  }

  function DigitValue(c: char): (d: nat)
    requires '0' <= c <= '9'
    ensures d < 10
  {
    (c - '0') as nat
  }

  function PrintNat(n: nat): (s: string)
    ensures |s| > 0
  {
    if n < 10 then [Digit(n)] else PrintNat(n / 10) + [Digit(n % 10)]
  }

  function Print(n: int): string {
    if n < 0 then "-" + PrintNat(-n) else PrintNat(n)
  }

  function ParseDigits(s: string): Option<nat> {
    if s == [] then
      Some(0)
    else
      var last := s[|s| - 1];
      match ParseDigits(s[..|s| - 1])
      case None => None
      case Some(high) => if '0' <= last <= '9' then Some(10 * high + DigitValue(last)) else None
  }

  function Parse(s: string): Option<int> {
    var negative := s != [] && s[0] == '-';
    var digits := if s != [] && (s[0] == '-' || s[0] == '+') then s[1..] else s;
    if digits == [] then
      None
    else
      match ParseDigits(digits)
      case None => None
      case Some(n) =>
        var value: int := n;
        Some(if negative then -value else value)
  }

  lemma {:induction false} ParsePrintNat(n: nat)
    ensures ParseDigits(PrintNat(n)) == Some(n)
    ensures '0' <= PrintNat(n)[0] <= '9'
  {
    if n >= 10 {
      ParsePrintNat(n / 10);
      var s := PrintNat(n);
      assert s[..|s| - 1] == PrintNat(n / 10);
      assert s[0] == PrintNat(n / 10)[0];
    } else {
      assert PrintNat(n)[..0] == [];
    }
  }

  /** A printed integer parses back to itself. */
  lemma ParsePrint(n: int)
    ensures Parse(Print(n)) == Some(n)
  {
    ParsePrintNat(if n < 0 then -n else n);
    if n < 0 {
      assert Print(n)[1..] == PrintNat(-n);
    }
  }

  /** Two integers never share a text key. */
  lemma PrintIsInjective(a: int, b: int)
    ensures Print(a) == Print(b) <==> a == b
  {
    ParsePrint(a);
    ParsePrint(b);
  }
}
