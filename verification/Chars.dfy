/** Characters and strings of C. */
module Chars {

  /** A C string holds no zero byte. */
  ghost predicate NulFree(s: string) { forall i :: 0 <= i < |s| ==> s[i] != '\0' }

  predicate IsHex(c: char) { '0' <= c <= '9' || 'a' <= c <= 'f' || 'A' <= c <= 'F' }

  function HexValue(c: char): nat
    requires IsHex(c)
  {
    if c <= '9' then c as int - '0' as int else if c <= 'F' then c as int - 'A' as int + 10
      else c as int - 'a' as int + 10
  }

  const DIGITS: string := "0123456789abcdef"
  const CAPITALS: string := "0123456789ABCDEF"

  /** The digits of base sixteen, in order, the letters in either case, and no other characters. */
  lemma HexTable(c: char)
    ensures forall i :: 0 <= i < 16 ==>
      IsHex(DIGITS[i]) && HexValue(DIGITS[i]) == i && IsHex(CAPITALS[i]) && HexValue(CAPITALS[i]) == i
    ensures IsHex(c) ==> HexValue(c) < 16 && (c == DIGITS[HexValue(c)] || c == CAPITALS[HexValue(c)])
  {
  }
}
