/** Byte lengths of text under the UTF-8 encoding (RFC 3629), which is how
    Rust stores a `String`: `char::len_utf8` and `String::len`. */
module Utf8 {

  /** Number of bytes UTF-8 spends on the scalar value `c`: one for ASCII,
      two up to U+07FF, three up to U+FFFF, four above. */
  function LenUtf8(c: char): (n: nat)
    ensures 1 <= n <= 4
    ensures n == 1 <==> c as int < 0x80
    ensures n == 4 <==> c as int >= 0x1_0000
  {
    if c as int < 0x80 then 1
    else if c as int < 0x800 then 2
    else if c as int < 0x1_0000 then 3
    else 4
  }

  /** Byte length of the UTF-8 encoding of `s` (Rust's `String::len`): at
      least one byte and at most four per code point. */
  function Utf8Len(s: string): (n: nat)
    ensures |s| <= n <= 4 * |s|
  {
    if s == [] then 0 else LenUtf8(s[0]) + Utf8Len(s[1..])
  }

  /** The byte length of a concatenation is the sum of the byte lengths. */
  lemma {:induction false} Utf8LenAppend(a: string, b: string)
    ensures Utf8Len(a + b) == Utf8Len(a) + Utf8Len(b)
  {
    if a == [] {
      assert a + b == b;
    } else {
      assert (a + b)[1..] == a[1..] + b;
      Utf8LenAppend(a[1..], b);
    }
  }
}
