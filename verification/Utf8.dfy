/** UTF-8 lengths and encodings of Unicode scalar values, as section 3 of RFC 3629 lays them out. */
module Utf8 {

  newtype byte = x: int | 0 <= x < 256

  /** Rust's `char::len_utf8`. */
  function CharLen(c: char): (n: nat)
    ensures 1 <= n <= 4
  {
    var v := c as int;
    if v < 0x80 then 1 else if v < 0x800 then 2 else if v < 0x1_0000 then 3 else 4
  }

  /** Rust's `str::len`: the number of bytes, not of characters. */
  function Len(s: string): (n: nat)
    ensures |s| <= n <= 4 * |s|
  {
    if s == [] then 0 else Len(s[..|s| - 1]) + CharLen(s[|s| - 1])
  }

  lemma {:induction false} LenConcat(a: string, b: string)
    ensures Len(a + b) == Len(a) + Len(b)
  {
    if b == [] {
      assert a + b == a;
    } else {
      LenConcat(a, b[..|b| - 1]);
      assert (a + b)[..|a + b| - 1] == a + b[..|b| - 1];
    }
  }
}
