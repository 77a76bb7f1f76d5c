/** src/index.ts: `aesGcmEncrypt`, `aesGcmDecrypt`, `HybridEncrypt` and
    `HybridDecrypt`. The WebCrypto primitives (key export and import, RSA-OAEP
    as in section 7.1 of RFC 8017, AES-GCM as in NIST SP 800-38D) are functions
    the caller supplies; what the round trip needs from them is stated as
    predicates over those functions, not assumed. */
module Hybrid {
  import opened Bytes
  import Utils
  import Codecs
  import Framing

  /** Nonce size in bytes: the 96 bits recommended for AES-GCM. */
  const AES_GCM_NONCE_SIZE := 12

  /** Both AES-GCM wrappers pass `new Uint8Array(12)` filled with 0 as the IV. */
  function ZeroNonce(): (nonce: Bytes)
    ensures |nonce| == AES_GCM_NONCE_SIZE
    ensures forall i :: 0 <= i < |nonce| ==> nonce[i] == 0
  {
    seq(AES_GCM_NONCE_SIZE, _ => 0)
  }

  /** Which WebCrypto call rejected, or the RangeError `ab2str` throws on an odd
      number of plaintext bytes. The code adds no error of its own. */
  datatype Failure =
    | RsaEncryptRejected
    | AesEncryptRejected
    | RsaDecryptRejected
    | AesKeyImportRejected
    | AesDecryptRejected
    | OddPlaintextLength

  /** The WebCrypto operations the envelope code calls. An RSA call takes the
      key, the OAEP label and the message; an AES call takes the key, the nonce
      and the message. A rejected promise is None. */
  datatype Provider<!PublicKey, !PrivateKey, !SessionKey> = Provider(
    exportRaw: SessionKey -> Bytes,
    importRaw: Bytes -> Option<SessionKey>,
    rsaEncrypt: (PublicKey, Bytes, Bytes) -> Option<Bytes>,
    rsaDecrypt: (PrivateKey, Bytes, Bytes) -> Option<Bytes>,
    aesEncrypt: (SessionKey, Bytes, Bytes) -> Option<Bytes>,
    aesDecrypt: (SessionKey, Bytes, Bytes) -> Option<Bytes>)

  /** pubKey and privKey form an RSA-OAEP key pair: decryption with the same
      label undoes encryption, and a ciphertext is no longer than a 16-bit
      length can say (at most 512 bytes for a 4096-bit modulus). */
  ghost predicate RsaKeyPair<PublicKey, PrivateKey, SessionKey>(
    p: Provider<PublicKey, PrivateKey, SessionKey>, pubKey: PublicKey, privKey: PrivateKey)
  {
    forall oaepLabel, m :: p.rsaEncrypt(pubKey, oaepLabel, m).Some? ==>
      |p.rsaEncrypt(pubKey, oaepLabel, m).value| < 0x1_0000
      && p.rsaDecrypt(privKey, oaepLabel, p.rsaEncrypt(pubKey, oaepLabel, m).value) == Some(m)
  }

  /** The OAEP label is bound into the ciphertext: decrypting under another
      label is rejected. */
  ghost predicate LabelBound<PublicKey, PrivateKey, SessionKey>(
    p: Provider<PublicKey, PrivateKey, SessionKey>, pubKey: PublicKey, privKey: PrivateKey)
  {
    forall oaepLabel, other, m :: oaepLabel != other && p.rsaEncrypt(pubKey, oaepLabel, m).Some? ==>
      p.rsaDecrypt(privKey, other, p.rsaEncrypt(pubKey, oaepLabel, m).value).None?
  }

  /** The session key survives export and re-import, and AES-GCM decryption
      under the re-imported key undoes encryption with the same nonce. */
  ghost predicate SessionKeyRecoverable<PublicKey, PrivateKey, SessionKey>(
    p: Provider<PublicKey, PrivateKey, SessionKey>, sessionKey: SessionKey)
  {
    p.importRaw(p.exportRaw(sessionKey)).Some?
    && forall nonce, m :: p.aesEncrypt(sessionKey, nonce, m).Some? ==>
      p.aesDecrypt(p.importRaw(p.exportRaw(sessionKey)).value, nonce, p.aesEncrypt(sessionKey, nonce, m).value) == Some(m)
  }

  /** `aesGcmEncrypt`: AES-GCM over the `str2ab` bytes of str (two per code
      unit), under the all-zero nonce. */
  method AesGcmEncrypt<PublicKey, PrivateKey, SessionKey>(
    p: Provider<PublicKey, PrivateKey, SessionKey>, key: SessionKey, str: JsString, e: Endian)
    returns (r: Option<Bytes>)
    ensures r == p.aesEncrypt(key, ZeroNonce(), Utils.EncodeUnits(str, e))
  {
    var nonce := ZeroNonce();
    var plain := Utils.Str2Ab(str, e);
    r := p.aesEncrypt(key, nonce, plain[..]);
  }

  /** `aesGcmDecrypt`: AES-GCM decryption under the all-zero nonce, then
      `ab2str`. */
  function AesGcmDecrypt<PublicKey, PrivateKey, SessionKey>(
    p: Provider<PublicKey, PrivateKey, SessionKey>, key: SessionKey, enc: Bytes, e: Endian)
    : (r: Result<JsString, Failure>)
    ensures r == Err(AesDecryptRejected) <==> p.aesDecrypt(key, ZeroNonce(), enc).None?
    ensures r.Ok? <==> p.aesDecrypt(key, ZeroNonce(), enc).Some? && |p.aesDecrypt(key, ZeroNonce(), enc).value| % 2 == 0
    ensures r.Ok? ==> Utils.EncodeUnits(r.value, e) == p.aesDecrypt(key, ZeroNonce(), enc).value
    ensures p.aesDecrypt(key, ZeroNonce(), enc).Some? && |p.aesDecrypt(key, ZeroNonce(), enc).value| % 2 != 0
      ==> r == Err(OddPlaintextLength)
  {
    match p.aesDecrypt(key, ZeroNonce(), enc)
    case None => Err(AesDecryptRejected)
    case Some(result) =>
      match Codecs.Ab2Str(result, e)
      case None => Err(OddPlaintextLength)
      case Some(text) =>
        Codecs.Str2AbAb2Str(result, text, e);
        Ok(text)
  }

  /** The envelope `HybridEncrypt` resolves to, as a value; sessionKey is the key
      `generateKey` produced for this call. */
  function EncryptedEnvelope<PublicKey, PrivateKey, SessionKey>(
    p: Provider<PublicKey, PrivateKey, SessionKey>, pubKey: PublicKey, text: JsString,
    oaepLabel: Bytes, sessionKey: SessionKey, e: Endian)
    : (r: Result<Bytes, Failure>)
  {
    match p.rsaEncrypt(pubKey, oaepLabel, p.exportRaw(sessionKey))
    case None => Err(RsaEncryptRejected)
    case Some(rsaCipherText) =>
      match p.aesEncrypt(sessionKey, ZeroNonce(), Utils.EncodeUnits(text, e))
      case None => Err(AesEncryptRejected)
      case Some(aesCipherText) => Ok(Framing.Frame(rsaCipherText, aesCipherText))
  }

  /** `HybridEncrypt`: export the session key, RSA-OAEP-encrypt it under pubKey
      with the label, AES-GCM-encrypt the text under the session key, and
      assemble the envelope. */
  method HybridEncrypt<PublicKey, PrivateKey, SessionKey>(
    p: Provider<PublicKey, PrivateKey, SessionKey>, pubKey: PublicKey, text: JsString,
    oaepLabel: Bytes, sessionKey: SessionKey, e: Endian)
    returns (r: Result<Bytes, Failure>)
    ensures r == EncryptedEnvelope(p, pubKey, text, oaepLabel, sessionKey, e)
    ensures r.Ok? ==> Framing.NumberFromLEBuffer(r.value) == Some(|p.rsaEncrypt(pubKey, oaepLabel, p.exportRaw(sessionKey)).value| % 0x1_0000)
  {
    var rawSessionKey := p.exportRaw(sessionKey);
    var rsaCipherText := p.rsaEncrypt(pubKey, oaepLabel, rawSessionKey);
    if rsaCipherText.None? {
      return Err(RsaEncryptRejected);
    }
    var result := AesGcmEncrypt(p, sessionKey, text, e);
    if result.None? {
      return Err(AesEncryptRejected);
    }
    var resultBuffer := Framing.BuildEnvelope(rsaCipherText.value, result.value);
    r := Ok(resultBuffer[..]);
  }

  /** `HybridDecrypt`: split the buffer, RSA-OAEP-decrypt the session key with
      the label, import it as an AES-GCM key, and decrypt the rest. No length is
      checked: a short or inconsistent buffer reaches the primitives as it is. */
  function HybridDecrypt<PublicKey, PrivateKey, SessionKey>(
    p: Provider<PublicKey, PrivateKey, SessionKey>, privKey: PrivateKey, cipherText: Bytes,
    oaepLabel: Bytes, e: Endian)
    : (r: Result<JsString, Failure>)
    ensures var parts := Framing.SplitEnvelope(cipherText);
      r == Err(RsaDecryptRejected) <==> p.rsaDecrypt(privKey, oaepLabel, parts.0).None?
    ensures var parts := Framing.SplitEnvelope(cipherText);
      r.Ok? ==>
        var rawKey := p.rsaDecrypt(privKey, oaepLabel, parts.0);
        rawKey.Some? && p.importRaw(rawKey.value).Some?
        && var plain := p.aesDecrypt(p.importRaw(rawKey.value).value, ZeroNonce(), parts.1);
           plain.Some? && Utils.EncodeUnits(r.value, e) == plain.value
    ensures var parts := Framing.SplitEnvelope(cipherText);
      var rawKey := p.rsaDecrypt(privKey, oaepLabel, parts.0);
      rawKey.Some? && p.importRaw(rawKey.value).None? ==> r == Err(AesKeyImportRejected)
    ensures var parts := Framing.SplitEnvelope(cipherText);
      var rawKey := p.rsaDecrypt(privKey, oaepLabel, parts.0);
      r.Ok? <==>
        rawKey.Some? && p.importRaw(rawKey.value).Some?
        && var plain := p.aesDecrypt(p.importRaw(rawKey.value).value, ZeroNonce(), parts.1);
           plain.Some? && |plain.value| % 2 == 0
  {
    var (rsaCipherText, aesCipherText) := Framing.SplitEnvelope(cipherText);
    match p.rsaDecrypt(privKey, oaepLabel, rsaCipherText)
    case None => Err(RsaDecryptRejected)
    case Some(sessionKey) =>
      match p.importRaw(sessionKey)
      case None => Err(AesKeyImportRejected)
      case Some(key) => AesGcmDecrypt(p, key, aesCipherText, e)
  }

  /** The AES-GCM wrappers are inverse: same key, same (zero) nonce, and
      `ab2str` undoes `str2ab`. */
  lemma AesGcmRoundTrip<PublicKey, PrivateKey, SessionKey>(
    p: Provider<PublicKey, PrivateKey, SessionKey>, sessionKey: SessionKey, text: JsString, e: Endian)
    requires SessionKeyRecoverable(p, sessionKey)
    requires p.aesEncrypt(sessionKey, ZeroNonce(), Utils.EncodeUnits(text, e)).Some?
    ensures AesGcmDecrypt(p, p.importRaw(p.exportRaw(sessionKey)).value,
                          p.aesEncrypt(sessionKey, ZeroNonce(), Utils.EncodeUnits(text, e)).value, e) == Ok(text)
  {
    Codecs.Ab2StrStr2Ab(text, e);
  }

  /** Round trip: for a key pair, the same label and the same host byte order,
      decrypting an envelope `HybridEncrypt` produced gives back the text. */
  lemma HybridRoundTrip<PublicKey, PrivateKey, SessionKey>(
    p: Provider<PublicKey, PrivateKey, SessionKey>, pubKey: PublicKey, privKey: PrivateKey,
    text: JsString, oaepLabel: Bytes, sessionKey: SessionKey, e: Endian)
    requires RsaKeyPair(p, pubKey, privKey)
    requires SessionKeyRecoverable(p, sessionKey)
    requires EncryptedEnvelope(p, pubKey, text, oaepLabel, sessionKey, e).Ok?
    ensures HybridDecrypt(p, privKey, EncryptedEnvelope(p, pubKey, text, oaepLabel, sessionKey, e).value, oaepLabel, e) == Ok(text)
  {
    var rsaCipherText := p.rsaEncrypt(pubKey, oaepLabel, p.exportRaw(sessionKey)).value;
    var aesCipherText := p.aesEncrypt(sessionKey, ZeroNonce(), Utils.EncodeUnits(text, e)).value;
    Framing.SplitFrame(rsaCipherText, aesCipherText);
    AesGcmRoundTrip(p, sessionKey, text, e);
  }

  /** Label binding: decrypting under another label fails at the RSA step, and
      no plaintext comes out. */
  lemma LabelMismatchRejected<PublicKey, PrivateKey, SessionKey>(
    p: Provider<PublicKey, PrivateKey, SessionKey>, pubKey: PublicKey, privKey: PrivateKey,
    text: JsString, oaepLabel: Bytes, other: Bytes, sessionKey: SessionKey, e: Endian)
    requires RsaKeyPair(p, pubKey, privKey) && LabelBound(p, pubKey, privKey)
    requires oaepLabel != other
    requires EncryptedEnvelope(p, pubKey, text, oaepLabel, sessionKey, e).Ok?
    ensures HybridDecrypt(p, privKey, EncryptedEnvelope(p, pubKey, text, oaepLabel, sessionKey, e).value, other, e) == Err(RsaDecryptRejected)
  {
    var rsaCipherText := p.rsaEncrypt(pubKey, oaepLabel, p.exportRaw(sessionKey)).value;
    var aesCipherText := p.aesEncrypt(sessionKey, ZeroNonce(), Utils.EncodeUnits(text, e)).value;
    Framing.SplitFrame(rsaCipherText, aesCipherText);
  }

  /** The text of the round-trip scenario, "Bonjour le monde". */
  const BONJOUR: JsString := Ascii("Bonjour le monde")

  /** With a 2048-bit key (256-byte RSA ciphertext) and AES-GCM's 16-byte tag,
      the 16-character text gives a 306-byte envelope: 2 + 256 + 32 + 16, since
      `str2ab` spends two bytes on each character. */
  lemma BonjourEnvelopeLength<PublicKey, PrivateKey, SessionKey>(
    p: Provider<PublicKey, PrivateKey, SessionKey>, pubKey: PublicKey,
    oaepLabel: Bytes, sessionKey: SessionKey, e: Endian)
    requires forall m :: p.rsaEncrypt(pubKey, oaepLabel, m).Some? ==> |p.rsaEncrypt(pubKey, oaepLabel, m).value| == 256
    requires forall m :: p.aesEncrypt(sessionKey, ZeroNonce(), m).Some? ==>
      |p.aesEncrypt(sessionKey, ZeroNonce(), m).value| == |m| + 16
    requires EncryptedEnvelope(p, pubKey, BONJOUR, oaepLabel, sessionKey, e).Ok?
    ensures |EncryptedEnvelope(p, pubKey, BONJOUR, oaepLabel, sessionKey, e).value| == 306
  {
  }
}
