/** Bytes as the server handles them: the contents of its `char` buffer, read as unsigned octets. */
module Bytes {

  newtype byte = b: int | 0 <= b < 256

  /** The bytes of a string of 8-bit characters (any wider character becomes 0). */
  function AsciiBytes(s: string): (r: seq<byte>)
    ensures |r| == |s|
  {
    if s == [] then [] else [if s[0] as int < 256 then s[0] as int as byte else 0] + AsciiBytes(s[1..])
  }

  lemma {:induction false} AsciiBytesAppend(a: string, b: string)
    ensures AsciiBytes(a + b) == AsciiBytes(a) + AsciiBytes(b)
  {
    if a == [] {
      assert a + b == b;
    } else {
      AsciiBytesAppend(a[1..], b);
      assert (a + b)[1..] == a[1..] + b;
    }
  }
}
