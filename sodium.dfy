/** The base64 codec and the sealed-box wrappers of src/hybrid/sodium.ts.
    The libsodium primitives, `TextEncoder`/`TextDecoder` and Node's
    base64 decoder are not modelled; they are passed in as functions, and
    the round trips they are trusted to satisfy are the ghost predicates
    below. */
module Sodium {
  import opened Bytes
  import opened Options
  import opened Base64

  /** The execution environment `typeof window` distinguishes. On a server,
      `Buffer.from(text, "base64")` is the given decoding function. */
  datatype Env = Browser | Server(bufferFromBase64: string -> seq<byte>)

  /** What the server decoder is trusted to do: recover the bytes of every
      canonical (RFC 4648, section 4) encoding. */
  ghost predicate DecoderInvertsEncoding(env: Env) {
    env.Server? ==> forall b :: env.bufferFromBase64(Encode(b)) == b
  }

  /** The browser path's first loop: a binary string of length
      `buf.length` whose i-th character has code `buf[i]`. */
  method BinaryFromBytes(buf: array<byte>) returns (binary: string)
    ensures |binary| == buf.Length
    ensures forall i | 0 <= i < buf.Length :: binary[i] as int == buf[i] as int
  {
    binary := "";
    var i := 0;
    while i < buf.Length
      invariant 0 <= i <= buf.Length
      invariant |binary| == i
      invariant forall k | 0 <= k < i :: binary[k] as int == buf[k] as int
    {
      binary := binary + [(buf[i] as int) as char];
      i := i + 1;
    }
  }

  /** `toBase64`: both environments produce the RFC 4648 encoding of the
      buffer. In a browser, `btoa` cannot throw, because every character of
      the binary string is below U+0100. */
  method ToBase64(env: Env, buf: array<byte>) returns (text: string)
    ensures text == Encode(buf[..])
  {
    if env.Browser? {
      var binary := BinaryFromBytes(buf);
      assert binary == Latin1(buf[..]);
      AtobBtoa(buf[..]);
      var encoded := Btoa(binary);
      text := encoded.value;
    } else {
      text := Encode(buf[..]);
    }
  }

  /** The browser path's second loop: a fresh byte array of the binary
      string's length, element i being `binary.charCodeAt(i)` as a
      `Uint8Array` stores it. */
  method BytesFromBinary(binary: string) returns (bytes: array<byte>)
    ensures fresh(bytes)
    ensures bytes.Length == |binary|
    ensures forall i | 0 <= i < |binary| :: bytes[i] == ToUint8(binary[i] as int)
  {
    var len := |binary|;
    bytes := new byte[len];
    var i := 0;
    while i < len
      invariant 0 <= i <= len
      invariant forall k | 0 <= k < i :: bytes[k] == ToUint8(binary[k] as int)
    {
      bytes[i] := ToUint8(binary[i] as int);
      i := i + 1;
    }
  }

  /** The bytes `fromBase64` yields, `None` where it throws: the browser
      decodes with `atob` (which fails on malformed text), the server with
      its `Buffer` decoder (which does not fail). */
  function DecodeBase64(env: Env, text: string): (r: Option<seq<byte>>)
    ensures env.Server? ==> r.Some?
    ensures env.Browser? ==> (r.Some? <==> Atob(text).Some?)
    ensures env.Browser? && r.Some? ==> |r.value| <= |text|
  {
    match env
    case Browser => ForgivingDecode(text)
    case Server(decode) => Some(decode(text))
  }

  method FromBase64(env: Env, text: string) returns (r: Option<array<byte>>)
    ensures r.None? <==> DecodeBase64(env, text).None?
    ensures r.Some? ==> fresh(r.value) && r.value[..] == DecodeBase64(env, text).value
  {
    if env.Browser? {
      var binary := Atob(text);
      if binary.None? {
        return None;
      }
      var bytes := BytesFromBinary(binary.value);
      Latin1Codes(ForgivingDecode(text).value);
      r := Some(bytes);
    } else {
      var bytes := new byte[|env.bufferFromBase64(text)|](i requires 0 <= i < |env.bufferFromBase64(text)| =>
        env.bufferFromBase64(text)[i]);
      r := Some(bytes);
    }
  }

  /** Both environments read back what `toBase64` wrote: for every byte
      sequence, decoding its encoding gives it back. */
  lemma CodecRoundTrip(env: Env, b: seq<byte>)
    requires DecoderInvertsEncoding(env)
    ensures DecodeBase64(env, Encode(b)) == Some(b)
  {
    if env.Browser? {
      DecodeEncode(b);
    }
  }

  /** The libsodium calls used here: `crypto_box_seal(message, publicKey)`
      and `crypto_box_seal_open(cipher, publicKey, privateKey)`, `None`
      where they throw. */
  datatype SealedBox = SealedBox(
    seal: (seq<byte>, seq<byte>) -> Option<seq<byte>>,
    sealOpen: (seq<byte>, seq<byte>, seq<byte>) -> Option<seq<byte>>)

  /** `new TextEncoder().encode` and `new TextDecoder().decode` (UTF-8). */
  datatype TextCodec = TextCodec(encode: string -> seq<byte>, decode: seq<byte> -> string)

  /** Opening undoes sealing for the key pair (publicKey, privateKey). */
  ghost predicate OpensSealed(box: SealedBox, publicKey: seq<byte>, privateKey: seq<byte>) {
    forall m :: box.seal(m, publicKey).Some? ==> box.sealOpen(box.seal(m, publicKey).value, publicKey, privateKey) == Some(m)
  }

  /** UTF-8 decoding undoes UTF-8 encoding. */
  ghost predicate TextRoundTrips(text: TextCodec) {
    forall s :: text.decode(text.encode(s)) == s
  }

  datatype KeyPairText = KeyPairText(publicKey: string, privateKey: string)

  /** `generateSodiumKeyPair`, given the raw key pair `crypto_box_keypair`
      returned: both keys base64-encoded, as text of RFC 4648 length that
      the browser decoder reads back to the raw keys. The source encodes
      with `toBase64`, written here as `Encode` because `ToBase64` yields
      `Encode(buf[..])` in both environments. */
  function GenerateSodiumKeyPair(publicKey: seq<byte>, privateKey: seq<byte>): (kp: KeyPairText)
    ensures |kp.publicKey| == 4 * ((|publicKey| + 2) / 3)
    ensures |kp.privateKey| == 4 * ((|privateKey| + 2) / 3)
    ensures ForgivingDecode(kp.publicKey) == Some(publicKey)
    ensures ForgivingDecode(kp.privateKey) == Some(privateKey)
  {
    EncodeShape(publicKey);
    EncodeShape(privateKey);
    DecodeEncode(publicKey);
    DecodeEncode(privateKey);
    KeyPairText(Encode(publicKey), Encode(privateKey))
  }

  /** `sodiumSeal`: decode the recipient key, seal the UTF-8 bytes of the
      plaintext to it, encode the sealed box. It fails exactly when the key
      does not decode or sealing throws; its text is base64 that decodes
      back to the sealed box. The final `toBase64` is written as `Encode`,
      which `ToBase64` yields in both environments. */
  function SodiumSeal(env: Env, box: SealedBox, text: TextCodec, plaintext: string, recipientPublicKey: string)
    : (r: Option<string>)
    ensures r.Some? <==>
      && DecodeBase64(env, recipientPublicKey).Some?
      && box.seal(text.encode(plaintext), DecodeBase64(env, recipientPublicKey).value).Some?
    ensures r.Some? ==>
      ForgivingDecode(r.value) == box.seal(text.encode(plaintext), DecodeBase64(env, recipientPublicKey).value)
  {
    var publicKey :- DecodeBase64(env, recipientPublicKey);
    var cipher :- box.seal(text.encode(plaintext), publicKey);
    DecodeEncode(cipher);
    Some(Encode(cipher))
  }

  /** `sodiumUnseal`: decode both keys and the box, open it, decode the UTF-8
      bytes. It succeeds exactly when all three inputs decode and the box
      opens, and then yields the UTF-8 decoding of the opened message. */
  function SodiumUnseal(env: Env, box: SealedBox, text: TextCodec, cipherText: string,
                        recipientPublicKey: string, recipientPrivateKey: string): (r: Option<string>)
    ensures r.Some? <==>
      && DecodeBase64(env, recipientPublicKey).Some?
      && DecodeBase64(env, recipientPrivateKey).Some?
      && DecodeBase64(env, cipherText).Some?
      && box.sealOpen(DecodeBase64(env, cipherText).value, DecodeBase64(env, recipientPublicKey).value,
                      DecodeBase64(env, recipientPrivateKey).value).Some?
    ensures r.Some? ==>
      r.value == text.decode(box.sealOpen(DecodeBase64(env, cipherText).value,
                                          DecodeBase64(env, recipientPublicKey).value,
                                          DecodeBase64(env, recipientPrivateKey).value).value)
  {
    var publicKey :- DecodeBase64(env, recipientPublicKey);
    var privateKey :- DecodeBase64(env, recipientPrivateKey);
    var cipher :- DecodeBase64(env, cipherText);
    var message :- box.sealOpen(cipher, publicKey, privateKey);
    Some(text.decode(message))
  }

  /** The keys `generateSodiumKeyPair` hands out decode back to the raw keys. */
  lemma GeneratedKeysDecode(env: Env, publicKey: seq<byte>, privateKey: seq<byte>)
    requires DecoderInvertsEncoding(env)
    ensures DecodeBase64(env, GenerateSodiumKeyPair(publicKey, privateKey).publicKey) == Some(publicKey)
    ensures DecodeBase64(env, GenerateSodiumKeyPair(publicKey, privateKey).privateKey) == Some(privateKey)
  {
    CodecRoundTrip(env, publicKey);
    CodecRoundTrip(env, privateKey);
  }

  /** Unsealing with the recipient's key pair recovers what was sealed to
      its public key, whatever base64 text the keys were given as. */
  lemma SealUnsealRoundTrip(env: Env, box: SealedBox, text: TextCodec, plaintext: string,
                            recipientPublicKey: string, recipientPrivateKey: string)
    requires DecoderInvertsEncoding(env) && TextRoundTrips(text)
    requires DecodeBase64(env, recipientPublicKey).Some? && DecodeBase64(env, recipientPrivateKey).Some?
    requires OpensSealed(box, DecodeBase64(env, recipientPublicKey).value, DecodeBase64(env, recipientPrivateKey).value)
    ensures SodiumSeal(env, box, text, plaintext, recipientPublicKey).Some? ==>
      SodiumUnseal(env, box, text, SodiumSeal(env, box, text, plaintext, recipientPublicKey).value,
                   recipientPublicKey, recipientPrivateKey) == Some(plaintext)
  {
    var publicKey := DecodeBase64(env, recipientPublicKey).value;
    var sealed := box.seal(text.encode(plaintext), publicKey);
    if sealed.Some? {
      CodecRoundTrip(env, sealed.value);
    }
  }

  /** The whole sealed-box life cycle: with keys from
      `generateSodiumKeyPair`, a successful seal always unseals to the
      plaintext. */
  lemma GeneratedKeyPairRoundTrip(env: Env, box: SealedBox, text: TextCodec, plaintext: string,
                                  publicKey: seq<byte>, privateKey: seq<byte>)
    requires DecoderInvertsEncoding(env) && TextRoundTrips(text)
    requires OpensSealed(box, publicKey, privateKey)
    ensures var kp := GenerateSodiumKeyPair(publicKey, privateKey);
      SodiumSeal(env, box, text, plaintext, kp.publicKey).Some? ==>
      SodiumUnseal(env, box, text, SodiumSeal(env, box, text, plaintext, kp.publicKey).value,
                   kp.publicKey, kp.privateKey) == Some(plaintext)
  {
    var kp := GenerateSodiumKeyPair(publicKey, privateKey);
    GeneratedKeysDecode(env, publicKey, privateKey);
    SealUnsealRoundTrip(env, box, text, plaintext, kp.publicKey, kp.privateKey);
  }

  /** A failure to decode any of the three base64 inputs, or to open the
      box, makes `sodiumUnseal` fail; when an input does not decode, it
      fails whatever `crypto_box_seal_open` would do, so libsodium is not
      consulted. */
  lemma UnsealFailsOnBadInput(env: Env, box: SealedBox, text: TextCodec, cipherText: string,
                              recipientPublicKey: string, recipientPrivateKey: string,
                              otherSealOpen: (seq<byte>, seq<byte>, seq<byte>) -> Option<seq<byte>>)
    requires var undecodable := DecodeBase64(env, recipientPublicKey).None?
               || DecodeBase64(env, recipientPrivateKey).None? || DecodeBase64(env, cipherText).None?;
      undecodable
      || box.sealOpen(DecodeBase64(env, cipherText).value, DecodeBase64(env, recipientPublicKey).value,
                      DecodeBase64(env, recipientPrivateKey).value).None?
    ensures SodiumUnseal(env, box, text, cipherText, recipientPublicKey, recipientPrivateKey).None?
    ensures DecodeBase64(env, recipientPublicKey).None? || DecodeBase64(env, recipientPrivateKey).None?
            || DecodeBase64(env, cipherText).None? ==>
      SodiumUnseal(env, box.(sealOpen := otherSealOpen), text, cipherText, recipientPublicKey,
                   recipientPrivateKey).None?
  {
  }
}
