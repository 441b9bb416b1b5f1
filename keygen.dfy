/** Random key and IV generation (src/utils/keyGenerator.ts). The secure
    random source (`window.crypto.getRandomValues` in a browser,
    `crypto.randomBytes` on a server) is not modelled: each generator takes
    the bytes that source would have produced as `entropy`, and the flag
    `webCrypto` says which of the two code paths runs. */
module KeyGenerator {
  import opened Bytes

  /** Default arguments of `randomKey` and `randomIVHex`, and the fixed size
      of the legacy `randomIV`. */
  const DefaultKeyLength: nat := 32
  const DefaultIVBytes: nat := 16
  const LegacyIVBytes: nat := 16

  predicate IsLowerHexDigit(c: char) {
    '0' <= c <= '9' || 'a' <= c <= 'f'
  }

  /** The lowercase hexadecimal digit for a nibble. */
  function HexDigit(n: nat): (c: char)
    requires n < 16
    ensures IsLowerHexDigit(c)
  {
    if n < 10 then ('0' as int + n) as char else ('a' as int + n - 10) as char
  }

  /** `Number.prototype.toString(16)` on a byte: lowercase, no leading zero. */
  function ByteToRadix16(b: byte): string {
    var n := b as int;
    if n < 16 then [HexDigit(n)] else [HexDigit(n / 16), HexDigit(n % 16)]
  }

  /** `String.prototype.padStart(target, fill)` with a one-character filler. */
  function PadStart(s: string, target: nat, fill: char): string {
    if |s| >= target then s else seq(target - |s|, _ => fill) + s
  }

  /** `Array.prototype.join("")` on strings. */
  function Join(parts: seq<string>): string {
    if parts == [] then "" else parts[0] + Join(parts[1..])
  }

  /** `String.prototype.slice(begin, end)` for non-negative arguments:
      both bounds are clamped to the length. */
  function Slice(s: string, begin: nat, end: nat): string {
    var b := if begin < |s| then begin else |s|;
    var e := if end < |s| then end else |s|;
    if b < e then s[b..e] else ""
  }

  /** The browser path's per-byte strings: `b.toString(16).padStart(2, "0")`. */
  function PaddedBytes(arr: seq<byte>): seq<string> {
    seq(|arr|, i requires 0 <= i < |arr| => PadStart(ByteToRadix16(arr[i]), 2, '0'))
  }

  /** The browser path's hex rendering,
      `Array.from(arr).map(b => b.toString(16).padStart(2, "0")).join("")`,
      which produces the same string as `toString("hex")`. */
  function BrowserHex(arr: seq<byte>): (hex: string)
    ensures hex == HexEncode(arr)
  {
    JoinedPaddedBytes(arr);
    Join(PaddedBytes(arr))
  }

  /** Hex encoding, two lowercase digits per byte, high nibble first: what
      Node's `Buffer.toString("hex")` yields, and the reference both code
      paths are proved against. */
  function HexEncode(bytes: seq<byte>): (hex: string)
    ensures |hex| == 2 * |bytes|
  {
    if bytes == [] then ""
    else [HexDigit(bytes[0] as int / 16), HexDigit(bytes[0] as int % 16)] + HexEncode(bytes[1..])
  }

  /** `padStart(2, "0")` turns every `toString(16)` of a byte into exactly
      its two nibbles. */
  lemma PaddedByteIsTwoNibbles(b: byte)
    ensures PadStart(ByteToRadix16(b), 2, '0') == [HexDigit(b as int / 16), HexDigit(b as int % 16)]
  {
  }

  /** Joining the padded per-byte strings gives the hex encoding. */
  lemma {:induction false} JoinedPaddedBytes(arr: seq<byte>)
    ensures Join(PaddedBytes(arr)) == HexEncode(arr)
  {
    if arr != [] {
      assert PaddedBytes(arr)[1..] == PaddedBytes(arr[1..]);
      PaddedByteIsTwoNibbles(arr[0]);
      JoinedPaddedBytes(arr[1..]);
    }
  }

  /** Each byte becomes exactly two hex digits: n bytes give 2n characters,
      and characters 2i and 2i+1 are the high and low nibble of byte i. */
  lemma {:induction false} HexEncodeAt(bytes: seq<byte>)
    ensures forall i | 0 <= i < |bytes| ::
      HexEncode(bytes)[2 * i] == HexDigit(bytes[i] as int / 16) &&
      HexEncode(bytes)[2 * i + 1] == HexDigit(bytes[i] as int % 16)
  {
    if bytes != [] {
      HexEncodeAt(bytes[1..]);
      forall i | 0 <= i < |bytes|
        ensures HexEncode(bytes)[2 * i] == HexDigit(bytes[i] as int / 16)
        ensures HexEncode(bytes)[2 * i + 1] == HexDigit(bytes[i] as int % 16)
      {
        if i > 0 {
          assert HexEncode(bytes)[2 * i] == HexEncode(bytes[1..])[2 * (i - 1)];
          assert HexEncode(bytes)[2 * i + 1] == HexEncode(bytes[1..])[2 * (i - 1) + 1];
        }
      }
    }
  }

  /** The character at position i of a hex encoding, in terms of the byte i/2. */
  function NibbleAt(bytes: seq<byte>, i: nat): char
    requires i < 2 * |bytes|
  {
    if i % 2 == 0 then HexDigit(bytes[i / 2] as int / 16) else HexDigit(bytes[i / 2] as int % 16)
  }

  lemma HexEncodeNibbles(bytes: seq<byte>)
    ensures forall i | 0 <= i < 2 * |bytes| :: HexEncode(bytes)[i] == NibbleAt(bytes, i)
  {
    HexEncodeAt(bytes);
    forall i | 0 <= i < 2 * |bytes| ensures HexEncode(bytes)[i] == NibbleAt(bytes, i) {
      if i % 2 == 0 {
        assert i == 2 * (i / 2);
      } else {
        assert i == 2 * (i / 2) + 1;
      }
    }
  }

  /** `randomKey(length)`: ceil(length/2) random bytes, hex-encoded, sliced
      to `length` characters. The result is exactly `length` lowercase hex
      digits, the `length`-character prefix of the hex encoding of the drawn
      bytes (for odd `length` the last byte's low nibble is dropped). */
  function RandomKey(webCrypto: bool, entropy: seq<byte>, length: nat := DefaultKeyLength): (key: string)
    requires |entropy| == (length + 1) / 2
    ensures |key| == length
    ensures forall i | 0 <= i < |key| :: IsLowerHexDigit(key[i])
    ensures forall i | 0 <= i < |key| :: key[i] == NibbleAt(entropy, i)
    ensures key == HexEncode(entropy)[..length]
  {
    HexEncodeNibbles(entropy);
    if webCrypto then
      Slice(BrowserHex(entropy), 0, length)
    else
      Slice(HexEncode(entropy), 0, length)
  }

  /** For an odd length, the key lacks exactly the low nibble of the last
      drawn byte. */
  lemma OddKeyDropsLastNibble(webCrypto: bool, entropy: seq<byte>, length: nat)
    requires |entropy| == (length + 1) / 2
    requires length % 2 == 1
    ensures RandomKey(webCrypto, entropy, length) + [HexDigit(entropy[|entropy| - 1] as int % 16)]
            == HexEncode(entropy)
  {
    var key := RandomKey(webCrypto, entropy, length);
    HexEncodeNibbles(entropy);
    assert length == 2 * |entropy| - 1;
    assert NibbleAt(entropy, length) == HexDigit(entropy[|entropy| - 1] as int % 16);
    assert HexEncode(entropy) == HexEncode(entropy)[..length] + [HexEncode(entropy)[length]];
  }

  /** Legacy `randomIV()`: 16 random bytes as a latin1 string, one character
      per byte. The `slice(0, 16)` of the server path changes nothing. */
  function RandomIV(webCrypto: bool, entropy: seq<byte>): (iv: string)
    requires |entropy| == LegacyIVBytes
    ensures |iv| == 16
    ensures forall i | 0 <= i < |iv| :: iv[i] as int < 256 && iv[i] as int == entropy[i] as int
  {
    if webCrypto then Latin1(entropy) else Slice(Latin1(entropy), 0, 16)
  }

  /** `randomIVHex(bytes)`: `bytes` random bytes hex-encoded, sliced to
      2*bytes characters, a slice that never shortens the string. */
  function RandomIVHex(webCrypto: bool, entropy: seq<byte>, bytes: nat := DefaultIVBytes): (iv: string)
    requires |entropy| == bytes
    ensures |iv| == 2 * bytes
    ensures iv == HexEncode(entropy)
    ensures forall i | 0 <= i < |iv| :: IsLowerHexDigit(iv[i]) && iv[i] == NibbleAt(entropy, i)
  {
    var hexLen := bytes * 2;
    HexEncodeNibbles(entropy);
    if webCrypto then
      Slice(BrowserHex(entropy), 0, hexLen)
    else
      Slice(HexEncode(entropy), 0, hexLen)
  }

  /** With their default arguments, `randomKey()` and `randomIVHex()` both
      give 32 hex characters. */
  lemma DefaultSizes(webCrypto: bool, entropy: seq<byte>)
    requires |entropy| == 16
    ensures |RandomKey(webCrypto, entropy)| == 32
    ensures |RandomIVHex(webCrypto, entropy)| == 32
  {
  }
}
