/** Bytes and hexadecimal digits, shared by the codecs. */
module Text {
  import opened Options

  /** One octet. */
  type Byte = n: int | 0 <= n < 256

  /** A hexadecimal digit; `ten` is the letter that stands for ten, in either case. */
  function HexDigit(n: nat, ten: char): (ch: char)
    requires n < 16 && (ten == 'a' || ten == 'A')
  {
    if n < 10 then '0' + n as char else ten + (n - 10) as char
  }

  function HexValue(ch: char): (n: Option<nat>)
    ensures n.Some? ==> n.value < 16
  {
    if '0' <= ch <= '9' then Some(ch as int - '0' as int)
    else if 'a' <= ch <= 'f' then Some(ch as int - 'a' as int + 10)
    else if 'A' <= ch <= 'F' then Some(ch as int - 'A' as int + 10)
    else None
  }

  lemma HexDigitHasValue(n: nat, ten: char)
    requires n < 16 && (ten == 'a' || ten == 'A')
    ensures HexValue(HexDigit(n, ten)) == Some(n)
    ensures '0' <= HexDigit(n, ten) <= '9' || ten <= HexDigit(n, ten) <= ten + 5 as char
    ensures HexDigit(n, ten) == (if ten == 'a' then "0123456789abcdef" else "0123456789ABCDEF")[n]
  {
  }
}
