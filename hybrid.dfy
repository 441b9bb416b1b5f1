/** The hybrid envelope of src/hybrid/hybridEncryptor.ts. The AES and RSA
    primitives and `JSON.stringify`/`JSON.parse` are not modelled: they are
    the functions of a `Primitives` value, `None` standing for a thrown
    exception or a rejected promise, and the round trips they are trusted to
    satisfy are the ghost predicates below. */
module HybridEncryptor {
  import opened Options
  import opened JsValue

  datatype AesConfig = AesConfig(secretKey: string, iv: string, salt: string, algorithm: string)

  /** The RSA half of the configuration; the private key may be absent. */
  datatype RsaKeys = RsaKeys(publicKey: string, privateKey: Option<string>)

  datatype HybridConfig = HybridConfig(aes: AesConfig, rsa: RsaKeys)

  datatype Primitives = Primitives(
    aesEncrypt: (Value, map<string, Value>) -> Option<string>,
    aesDecrypt: (Value, map<string, Value>) -> Option<Value>,
    rsaEncrypt: (string, string) -> Option<string>,
    rsaDecrypt: (Value, Option<string>) -> Option<string>,
    stringify: Value -> string,
    parse: string -> Option<Value>)

  /** `JSON.parse` reads back what `JSON.stringify` wrote. */
  ghost predicate JsonRoundTrips(p: Primitives) {
    forall v :: IsJson(v) ==> p.parse(p.stringify(v)) == Some(v)
  }

  /** AES decryption under the same configuration recovers any JSON value
      that AES encryption accepted. */
  ghost predicate AesRoundTrips(p: Primitives) {
    forall data, config :: IsJson(data) && p.aesEncrypt(data, config).Some? ==>
      p.aesDecrypt(Str(p.aesEncrypt(data, config).value), config) == Some(data)
  }

  /** RSA decryption with `privateKey` recovers whatever was encrypted to
      `publicKey`: the two form a key pair. */
  ghost predicate RsaRoundTrips(p: Primitives, publicKey: string, privateKey: string) {
    forall m :: p.rsaEncrypt(m, publicKey).Some? ==>
      p.rsaDecrypt(Str(p.rsaEncrypt(m, publicKey).value), Some(privateKey)) == Some(m)
  }

  /** `config.aes` as the object the AES primitive receives. */
  function AesObject(aes: AesConfig): map<string, Value> {
    map["secretKey" := Str(aes.secretKey), "iv" := Str(aes.iv), "salt" := Str(aes.salt),
        "algorithm" := Str(aes.algorithm)]
  }

  /** The object whose JSON text is wrapped with RSA. */
  function KeyInfo(aes: AesConfig): Value {
    Obj(map["secretKey" := Str(aes.secretKey), "iv" := Str(aes.iv), "salt" := Str(aes.salt)])
  }

  /** `keyData`, the text handed to `rsaEncrypt`. */
  function KeyData(p: Primitives, aes: AesConfig): string {
    p.stringify(KeyInfo(aes))
  }

  function EnvelopeObject(encryptedData: string, encryptedKey: string): Value {
    Obj(map["encryptedData" := Str(encryptedData), "encryptedKey" := Str(encryptedKey)])
  }

  /** `hybridEncrypt`: AES-encrypt the data, RSA-encrypt the key info, emit
      the JSON envelope. Every failure propagates (as `None`). */
  function HybridEncrypt(p: Primitives, data: Value, config: HybridConfig): (token: Option<string>)
    ensures token.Some? <==>
      && p.aesEncrypt(data, AesObject(config.aes)).Some?
      && p.rsaEncrypt(KeyData(p, config.aes), config.rsa.publicKey).Some?
  {
    var aesEncrypted :- p.aesEncrypt(data, AesObject(config.aes));
    var encryptedKey :- p.rsaEncrypt(KeyData(p, config.aes), config.rsa.publicKey);
    Some(p.stringify(EnvelopeObject(aesEncrypted, encryptedKey)))
  }

  /** Object spread `{ ...target, ...source }`: every own property of
      `source` overrides, every other property of `target` stays. */
  function Spread(target: map<string, Value>, source: Value): (r: map<string, Value>)
    ensures r.Keys == target.Keys + OwnProps(source).Keys
    ensures forall k | k in OwnProps(source) :: r[k] == OwnProps(source)[k]
    ensures forall k | k in target && k !in OwnProps(source) :: r[k] == target[k]
  {
    target + OwnProps(source)
  }

  /** `const { encryptedData, encryptedKey } = value`, which throws exactly
      on `null` and `undefined`. An object yields its two properties, each
      `undefined` where missing; any other value yields two `undefined`
      fields. */
  function Destructure(v: Value): (r: Option<(Value, Value)>)
    ensures r.None? <==> v.Null? || v.Undefined?
    ensures v.Obj? ==> r == Some((
      if "encryptedData" in v.props then v.props["encryptedData"] else Undefined,
      if "encryptedKey" in v.props then v.props["encryptedKey"] else Undefined))
    ensures r.Some? && !v.Obj? ==> r.value == (Undefined, Undefined)
  {
    if v.Null? || v.Undefined? then None
    else Some((Prop(v, "encryptedData"), Prop(v, "encryptedKey")))
  }

  /** The steps of `hybridDecrypt` before AES decryption: parse the token,
      unwrap and parse the key info, merge it over `config.aes`. It succeeds
      exactly when all four steps do, and then yields `encryptedData` with
      the effective AES configuration: the recovered key info spread over
      `config.aes`, which always has the four AES properties. */
  function OpenEnvelope(p: Primitives, token: string, config: HybridConfig)
    : (e: Option<(Value, map<string, Value>)>)
    ensures e.Some? <==>
      && p.parse(token).Some?
      && Destructure(p.parse(token).value).Some?
      && p.rsaDecrypt(Destructure(p.parse(token).value).value.1, config.rsa.privateKey).Some?
      && p.parse(p.rsaDecrypt(Destructure(p.parse(token).value).value.1, config.rsa.privateKey).value).Some?
    ensures e.Some? ==> exists parsed: Value, keyInfo: Value ::
      && p.parse(token) == Some(parsed)
      && Destructure(parsed).Some?
      && p.rsaDecrypt(Destructure(parsed).value.1, config.rsa.privateKey).Some?
      && p.parse(p.rsaDecrypt(Destructure(parsed).value.1, config.rsa.privateKey).value) == Some(keyInfo)
      && e.value == (Destructure(parsed).value.0, Spread(AesObject(config.aes), keyInfo))
    ensures e.Some? ==> AesObject(config.aes).Keys <= e.value.1.Keys
  {
    var parsed :- p.parse(token);
    var fields :- Destructure(parsed);
    var keyText :- p.rsaDecrypt(fields.1, config.rsa.privateKey);
    var keyInfo :- p.parse(keyText);
    Some((fields.0, Spread(AesObject(config.aes), keyInfo)))
  }

  /** `hybridDecrypt`: every failure, at any step, is caught and becomes
      `null` (here `None`). */
  function HybridDecrypt(p: Primitives, token: string, config: HybridConfig): (r: Option<Value>)
    ensures r.Some? ==> exists data: Value, aes: map<string, Value> ::
      AesObject(config.aes).Keys <= aes.Keys && r == p.aesDecrypt(data, aes)
  {
    var envelope :- OpenEnvelope(p, token, config);
    p.aesDecrypt(envelope.0, envelope.1)
  }

  /** The text wrapped with RSA parses back to an object with exactly the
      properties `secretKey`, `iv` and `salt`, copied unchanged from
      `config.aes`; `algorithm` is not among them. */
  lemma WrappedKeyInfoShape(p: Primitives, aes: AesConfig)
    requires JsonRoundTrips(p)
    ensures var info := p.parse(KeyData(p, aes));
      && info.Some? && info.value.Obj?
      && info.value.props.Keys == {"secretKey", "iv", "salt"}
      && "algorithm" !in info.value.props
      && info.value.props["secretKey"] == Str(aes.secretKey)
      && info.value.props["iv"] == Str(aes.iv)
      && info.value.props["salt"] == Str(aes.salt)
  {
    assert IsJson(KeyInfo(aes));
  }

  /** `hybridEncrypt` succeeds exactly when both primitives do, and its
      token parses back to an object with exactly two properties:
      `encryptedData`, the AES output, and `encryptedKey`, the RSA output. */
  lemma EnvelopeShape(p: Primitives, data: Value, config: HybridConfig)
    requires JsonRoundTrips(p)
    ensures var aesOut := p.aesEncrypt(data, AesObject(config.aes));
      var rsaOut := p.rsaEncrypt(KeyData(p, config.aes), config.rsa.publicKey);
      var token := HybridEncrypt(p, data, config);
      && (token.Some? <==> aesOut.Some? && rsaOut.Some?)
      && (token.Some? ==>
            p.parse(token.value) ==
            Some(Obj(map["encryptedData" := Str(aesOut.value), "encryptedKey" := Str(rsaOut.value)])))
  {
    var aesOut := p.aesEncrypt(data, AesObject(config.aes));
    var rsaOut := p.rsaEncrypt(KeyData(p, config.aes), config.rsa.publicKey);
    if aesOut.Some? && rsaOut.Some? {
      assert IsJson(EnvelopeObject(aesOut.value, rsaOut.value));
    }
  }

  /** The key info the sender wraps, merged over the sender's own AES
      configuration, gives that configuration back unchanged. */
  lemma HonestKeyInfoKeepsConfig(aes: AesConfig)
    ensures Spread(AesObject(aes), KeyInfo(aes)) == AesObject(aes)
  {
    var merged := Spread(AesObject(aes), KeyInfo(aes));
    assert merged.Keys == AesObject(aes).Keys;
  }

  /** A recovered key-info object without `algorithm` never changes the
      caller's algorithm; each of its own properties wins over the caller's. */
  lemma AlgorithmComesFromCaller(aes: AesConfig, keyInfo: map<string, Value>)
    requires "algorithm" !in keyInfo
    ensures var merged := Spread(AesObject(aes), Obj(keyInfo));
      && merged["algorithm"] == Str(aes.algorithm)
      && forall k | k in keyInfo :: merged[k] == keyInfo[k]
  {
  }

  /** The round trip: with key-pair RSA keys and primitives that round-trip,
      every token `hybridEncrypt` produces opens to the sender's AES output
      under an effective configuration equal to `config.aes`, and
      `hybridDecrypt` returns the original data. */
  lemma RoundTrip(p: Primitives, data: Value, config: HybridConfig, privateKey: string)
    requires JsonRoundTrips(p) && AesRoundTrips(p)
    requires RsaRoundTrips(p, config.rsa.publicKey, privateKey)
    requires config.rsa.privateKey == Some(privateKey)
    requires IsJson(data)
    ensures var token := HybridEncrypt(p, data, config);
      token.Some? ==>
        && OpenEnvelope(p, token.value, config)
           == Some((Str(p.aesEncrypt(data, AesObject(config.aes)).value), AesObject(config.aes)))
        && HybridDecrypt(p, token.value, config) == Some(data)
  {
    var token := HybridEncrypt(p, data, config);
    if token.Some? {
      var aesOut := p.aesEncrypt(data, AesObject(config.aes)).value;
      var rsaOut := p.rsaEncrypt(KeyData(p, config.aes), config.rsa.publicKey).value;
      EnvelopeShape(p, data, config);
      var parsed := Obj(map["encryptedData" := Str(aesOut), "encryptedKey" := Str(rsaOut)]);
      assert Destructure(parsed) == Some((Str(aesOut), Str(rsaOut)));
      assert p.rsaDecrypt(Str(rsaOut), config.rsa.privateKey) == Some(KeyData(p, config.aes));
      assert IsJson(KeyInfo(config.aes));
      HonestKeyInfoKeepsConfig(config.aes);
    }
  }

  /** Fail-closed on the token: text that does not parse, or parses to
      `null`, makes `hybridDecrypt` return `null`. */
  lemma FailsClosedOnToken(p: Primitives, token: string, config: HybridConfig)
    requires p.parse(token).Some? ==> p.parse(token).value.Null?
    ensures HybridDecrypt(p, token, config) == None
  {
  }

  /** Key mismatch: when the wrapped key does not unwrap under the supplied
      private key, or unwraps to text that is not JSON, `hybridDecrypt`
      returns `null` whatever the AES primitive would do, so AES decryption
      is never reached. */
  lemma FailsClosedOnKey(p: Primitives, token: string, config: HybridConfig,
                         otherAesDecrypt: (Value, map<string, Value>) -> Option<Value>)
    requires p.parse(token).Some? && Destructure(p.parse(token).value).Some?
    requires var keyText := p.rsaDecrypt(Destructure(p.parse(token).value).value.1, config.rsa.privateKey);
      keyText.None? || p.parse(keyText.value).None?
    ensures HybridDecrypt(p, token, config) == None
    ensures HybridDecrypt(p.(aesDecrypt := otherAesDecrypt), token, config) == None
  {
  }

  /** Fail-closed, the other way round: a result other than `null` means
      that every step succeeded and the result is the AES decryption of
      `encryptedData` under the merged configuration. */
  lemma SuccessPassesEveryStep(p: Primitives, token: string, config: HybridConfig)
    requires HybridDecrypt(p, token, config).Some?
    ensures exists parsed, keyInfo ::
      && p.parse(token) == Some(parsed)
      && Destructure(parsed).Some?
      && p.rsaDecrypt(Destructure(parsed).value.1, config.rsa.privateKey).Some?
      && p.parse(p.rsaDecrypt(Destructure(parsed).value.1, config.rsa.privateKey).value) == Some(keyInfo)
      && p.aesDecrypt(Destructure(parsed).value.0, Spread(AesObject(config.aes), keyInfo))
         == HybridDecrypt(p, token, config)
  {
    var parsed := p.parse(token).value;
    var keyText := p.rsaDecrypt(Destructure(parsed).value.1, config.rsa.privateKey).value;
    var keyInfo := p.parse(keyText).value;
    assert p.parse(token) == Some(parsed);
  }

  /** The converse of `SuccessPassesEveryStep`: once the token parses, its
      key unwraps and the key info parses, `hybridDecrypt` is exactly AES
      decryption of `encryptedData` under the key info spread over
      `config.aes`, whatever that key info holds. */
  lemma StepsSucceedDecrypts(p: Primitives, token: string, config: HybridConfig, parsed: Value, keyInfo: Value)
    requires p.parse(token) == Some(parsed)
    requires Destructure(parsed).Some?
    requires p.rsaDecrypt(Destructure(parsed).value.1, config.rsa.privateKey).Some?
    requires p.parse(p.rsaDecrypt(Destructure(parsed).value.1, config.rsa.privateKey).value) == Some(keyInfo)
    ensures HybridDecrypt(p, token, config)
            == p.aesDecrypt(Destructure(parsed).value.0, Spread(AesObject(config.aes), keyInfo))
  {
  }

  /** A token wrapped by another sender: when the recovered key info is that
      sender's, AES decryption runs with the sender's `secretKey`, `iv` and
      `salt` and the receiver's own `algorithm`. */
  lemma ForeignSenderKeyInfoWins(p: Primitives, token: string, config: HybridConfig, parsed: Value,
                                 sender: AesConfig)
    requires p.parse(token) == Some(parsed)
    requires Destructure(parsed).Some?
    requires p.rsaDecrypt(Destructure(parsed).value.1, config.rsa.privateKey).Some?
    requires p.parse(p.rsaDecrypt(Destructure(parsed).value.1, config.rsa.privateKey).value)
             == Some(KeyInfo(sender))
    ensures HybridDecrypt(p, token, config)
            == p.aesDecrypt(Destructure(parsed).value.0, AesObject(sender.(algorithm := config.aes.algorithm)))
  {
    var merged := Spread(AesObject(config.aes), KeyInfo(sender));
    assert merged.Keys == AesObject(sender.(algorithm := config.aes.algorithm)).Keys;
    assert merged == AesObject(sender.(algorithm := config.aes.algorithm));
  }
}
