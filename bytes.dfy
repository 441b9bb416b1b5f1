/** Bytes as JavaScript holds them in a `Uint8Array`, and the "binary string"
    (latin1) view in which each character stands for one byte. */
module Bytes {

  newtype byte = x: int | 0 <= x < 256

  /** The latin1 string whose i-th character has code `b[i]`: what
      `String.fromCharCode(...bytes)` and `Buffer.toString("latin1")` give. */
  function Latin1(b: seq<byte>): (s: string)
    ensures |s| == |b|
  {
    seq(|b|, i requires 0 <= i < |b| => (b[i] as int) as char)
  }

  /** The value a `Uint8Array` element takes when a number is stored into it
      (ECMAScript ToUint8: reduction modulo 2^8). */
  function ToUint8(n: int): (r: byte)
    ensures (r as int - n) % 256 == 0
  {
    (n % 256) as byte
  }

  /** Reading a latin1 string back character by character and storing each
      code into a byte array gives the original bytes. */
  lemma Latin1Codes(b: seq<byte>)
    ensures forall i | 0 <= i < |b| :: ToUint8(Latin1(b)[i] as int) == b[i]
  {
  }
}
