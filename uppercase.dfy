/**
 * The transformer of the echo server: every lowercase ASCII letter becomes its uppercase
 * counterpart and every other byte is left alone (the C locale's islower/toupper).
 */
module Uppercase {

  import opened Bytes

  /** Distance from a lowercase ASCII letter to its uppercase counterpart. */
  const CASE_OFFSET: int := 'a' as int - 'A' as int

  /** The C locale's islower on one byte: exactly 'a'..'z'. */
  predicate IsLower(b: byte) {
    'a' as int <= b as int <= 'z' as int
  }

  predicate IsUpper(b: byte) {
    'A' as int <= b as int <= 'Z' as int
  }

  /** The C locale's toupper, applied only where islower holds, as the server does. */
  function ToUpper(b: byte): byte {
    if IsLower(b) then b - CASE_OFFSET as byte else b
  }

  /** The specification of the in-place loop: the whole sequence, byte by byte. */
  function ToUpperAscii(s: seq<byte>): seq<byte> {
    if s == [] then [] else [ToUpper(s[0])] + ToUpperAscii(s[1..])
  }

  /** The two alphabets, as a reference definition of the letter mapping. */
  const LOWERCASE: string := "abcdefghijklmnopqrstuvwxyz"
  const UPPERCASE: string := "ABCDEFGHIJKLMNOPQRSTUVWXYZ"

  /**
   * ToUpper agrees with the alphabet table: the k-th lowercase letter becomes the k-th
   * uppercase letter, and any byte that is not a lowercase letter is returned unchanged.
   */
  lemma ToUpperMatchesAlphabet(b: byte)
    ensures forall k :: 0 <= k < |LOWERCASE| && b as int == LOWERCASE[k] as int ==>
              ToUpper(b) as int == UPPERCASE[k] as int
    ensures (forall k :: 0 <= k < |LOWERCASE| ==> b as int != LOWERCASE[k] as int) ==> ToUpper(b) == b
  {
    assert |LOWERCASE| == |UPPERCASE| == 26;
    forall k | 0 <= k < |LOWERCASE|
      ensures LOWERCASE[k] as int == 'a' as int + k && UPPERCASE[k] as int == 'A' as int + k
    {
    }
    if IsLower(b) {
      var k := b as int - 'a' as int;
      assert b as int == LOWERCASE[k] as int;
    }
  }

  /** The transform is a byte-by-byte map that preserves length. */
  lemma {:induction false} ToUpperAsciiAt(s: seq<byte>)
    ensures |ToUpperAscii(s)| == |s|
    ensures forall i :: 0 <= i < |s| ==> ToUpperAscii(s)[i] == ToUpper(s[i])
  {
    if s != [] {
      ToUpperAsciiAt(s[1..]);
    }
  }

  /** Lowercase letters become uppercase letters; nothing else changes. */
  lemma {:induction false} ToUpperAsciiCharacterized(s: seq<byte>)
    ensures |ToUpperAscii(s)| == |s|
    ensures forall i :: 0 <= i < |s| && IsLower(s[i]) ==>
              IsUpper(ToUpperAscii(s)[i]) && ToUpperAscii(s)[i] as int == s[i] as int - CASE_OFFSET
    ensures forall i :: 0 <= i < |s| && !IsLower(s[i]) ==> ToUpperAscii(s)[i] == s[i]
  {
    ToUpperAsciiAt(s);
  }

  /** No lowercase letter survives the transform. */
  lemma {:induction false} ToUpperAsciiHasNoLower(s: seq<byte>)
    ensures forall i :: 0 <= i < |ToUpperAscii(s)| ==> !IsLower(ToUpperAscii(s)[i])
  {
    ToUpperAsciiAt(s);
  }

  /** Transforming the output again changes nothing. */
  lemma {:induction false} ToUpperAsciiIdempotent(s: seq<byte>)
    ensures ToUpperAscii(ToUpperAscii(s)) == ToUpperAscii(s)
  {
    if s != [] {
      ToUpperAsciiIdempotent(s[1..]);
      assert ToUpperAscii(s)[1..] == ToUpperAscii(s[1..]);
    }
  }

  /** The transform works on each read independently: splitting the input splits the output. */
  lemma {:induction false} ToUpperAsciiAppend(a: seq<byte>, b: seq<byte>)
    ensures ToUpperAscii(a + b) == ToUpperAscii(a) + ToUpperAscii(b)
  {
    if a == [] {
      assert a + b == b;
    } else {
      ToUpperAsciiAppend(a[1..], b);
      assert (a + b)[1..] == a[1..] + b;
    }
  }

  /**
   * The loop of client_handler that uppercases the first `n` bytes of the buffer in place;
   * the rest of the buffer is not touched.
   */
  method UppercaseInPlace(buffer: array<byte>, n: int)
    requires 0 <= n <= buffer.Length
    modifies buffer
    ensures buffer[..n] == ToUpperAscii(old(buffer[..n]))
    ensures buffer[n..] == old(buffer[n..])
  {
    for i := 0 to n
      invariant forall k :: 0 <= k < i ==> buffer[k] == ToUpper(old(buffer[k]))
      invariant forall k :: i <= k < buffer.Length ==> buffer[k] == old(buffer[k])
    {
      if IsLower(buffer[i]) {
        buffer[i] := ToUpper(buffer[i]);
      }
    }
    ToUpperAsciiAt(old(buffer[..n]));
  }
}
