/** Inode numbers as directory entries hold them: `format!("{}", n)` and `parse::<usize>()`. */
module Decimal {
  import opened Common

  function DigitChar(d: nat): (c: char)
    requires d < 10
    ensures '0' <= c <= '9' && DigitValue(c) == d
  {
    '0' + d as char
  }

  function DigitValue(c: char): (d: nat)
    requires '0' <= c <= '9'
    ensures d < 10
  {
    c as int - '0' as int
  }

  function Print(n: nat): (s: string)
    ensures s != [] && '0' <= s[0] <= '9'
    ensures Parse(s) == Some(n)
  {
    if n < 10 then [DigitChar(n)]
    else
      var s := Print(n / 10) + [DigitChar(n % 10)];
      assert s[..|s| - 1] == Print(n / 10);
      assert s[0] == Print(n / 10)[0];
      assert Digits(s[..|s| - 1]) == Some(n / 10);
      s
  }

  /** Digits after an optional plus sign. */
  function Parse(s: string): Option<nat> {
    if s == [] then None
    else if s[0] == '+' then Digits(s[1..])
    else Digits(s)
  }

  function Digits(s: string): Option<nat> {
    if s == [] || !('0' <= s[|s| - 1] <= '9') then None
    else if |s| == 1 then Some(DigitValue(s[0]))
    else
      match Digits(s[..|s| - 1])
      case None => None
      case Some(n) => Some(10 * n + DigitValue(s[|s| - 1]))
  }

  /** The digits are the decimal ones, the highest first. */
  lemma PrintsDecimal(n: nat, d: nat)
    requires d < 10
    ensures Print(d) == ["0123456789"[d]]
    ensures 0 < n ==> Print(10 * n + d) == Print(n) + ["0123456789"[d]]
  {
  }
}
