/** CryptographyService: the SHA-256 hex digest of a text, and signing and verifying
    built on the JCA primitives of module Jca. */
module Cryptography {
  import opened Wrappers
  import opened JavaText
  import opened Jca

  /** The label `signText` reports for its digest. */
  const HashAlgorithm: string := "SHA-256"

  type Nibble = d: int | 0 <= d < 16
  type Octet = v: int | 0 <= v < 256

  // ---------------------------------------------------------------- hex digits

  /** The lower-case hex digit Java prints for `d`. */
  function HexDigit(d: Nibble): (c: char) {
    if d < 10 then ('0' as int + d) as char else ('a' as int + d - 10) as char
  }

  predicate IsHexChar(c: char) { '0' <= c <= '9' || 'a' <= c <= 'f' }

  predicate IsLowerHex(s: string) {
    forall i :: 0 <= i < |s| ==> IsHexChar(s[i])
  }

  function DigitValue(c: char): (d: Nibble)
    requires IsHexChar(c)
    ensures HexDigit(d) == c
  {
    if c <= '9' then c as int - '0' as int else c as int - 'a' as int + 10
  }

  lemma DigitRoundTrip(d: Nibble)
    ensures IsHexChar(HexDigit(d)) && DigitValue(HexDigit(d)) == d
  {
  }

  /** The value of a string of hex digits, most significant first. */
  function HexValue(s: string): (v: nat)
    requires IsLowerHex(s)
  {
    if |s| == 0 then 0 else 16 * HexValue(s[..|s| - 1]) + DigitValue(s[|s| - 1])
  }

  /** `Integer.toHexString(v)` for a non-negative `v`: lower-case hex digits, no leading zeros. */
  function ToHexString(v: nat): (r: string)
    ensures |r| >= 1 && IsLowerHex(r)
    ensures |r| > 1 ==> r[0] != '0'
  {
    if v < 16 then [HexDigit(v)] else ToHexString(v / 16) + [HexDigit(v % 16)]
  }

  /** Reading the digits back gives the number: toHexString loses nothing. */
  lemma {:induction false} ToHexStringValue(v: nat)
    ensures HexValue(ToHexString(v)) == v
  {
    DigitRoundTrip(v % 16);
    if v >= 16 {
      ToHexStringValue(v / 16);
      var r := ToHexString(v);
      assert r[..|r| - 1] == ToHexString(v / 16);
    }
  }

  /** The two digits every digest byte contributes: zero-padded `toHexString`. */
  function ByteHex(v: Octet): (r: string)
    ensures |r| == 2 && IsLowerHex(r)
    ensures r[0] == '0' <==> v < 16
  {
    [HexDigit(v / 16), HexDigit(v % 16)]
  }

  /** The loop body of `calculateSHA256Hash`: `toHexString` is one digit exactly for values
      below 16, and padding those with '0' gives the two-digit form. */
  lemma PaddedHex(v: Octet)
    ensures |ToHexString(v)| == 1 <==> v < 16
    ensures (if |ToHexString(v)| == 1 then "0" + ToHexString(v) else ToHexString(v)) == ByteHex(v)
  {
    if v >= 16 {
      assert ToHexString(v / 16) == [HexDigit(v / 16)];
    }
  }

  // ---------------------------------------------------------------- digests as hex

  /** The hex form of a digest: two digits per byte, in order. */
  function HexOf(d: seq<JByte>): (r: string)
    ensures |r| == 2 * |d|
    ensures IsLowerHex(r)
  {
    if |d| == 0 then "" else HexOf(d[..|d| - 1]) + ByteHex(Unsigned(d[|d| - 1]))
  }

  /** Byte `i` of the digest is characters `2i` and `2i+1` of its hex form. */
  lemma {:induction false} HexOfAt(d: seq<JByte>, i: nat)
    requires i < |d|
    ensures HexOf(d)[2 * i..2 * i + 2] == ByteHex(Unsigned(d[i]))
  {
    var n := |d| - 1;
    if i < n {
      HexOfAt(d[..n], i);
      assert HexOf(d)[..2 * n] == HexOf(d[..n]);
    }
  }

  /** Decodes pairs of hex digits back into bytes; None for odd length or a non-digit. */
  function HexDecode(s: string): (d: Option<seq<JByte>>) {
    if |s| == 0 then Some([])
    else if |s| < 2 || !IsHexChar(s[|s| - 2]) || !IsHexChar(s[|s| - 1]) then None
    else match HexDecode(s[..|s| - 2])
      case None => None
      case Some(front) =>
        Some(front + [Signed(16 * DigitValue(s[|s| - 2]) + DigitValue(s[|s| - 1]))])
  }

  /** Decoding the hex form gives the digest back. */
  lemma {:induction false} HexRoundTrip(d: seq<JByte>)
    ensures HexDecode(HexOf(d)) == Some(d)
  {
    if |d| > 0 {
      var n := |d| - 1;
      var v := Unsigned(d[n]);
      var s := HexOf(d);
      HexRoundTrip(d[..n]);
      assert s[..|s| - 2] == HexOf(d[..n]);
      DigitRoundTrip(v / 16);
      DigitRoundTrip(v % 16);
      assert Signed(16 * (v / 16) + v % 16) == d[n];
      assert d[..n] + [d[n]] == d;
    }
  }

  /** Distinct digests have distinct hex forms. */
  lemma HexOfInjective(d: seq<JByte>, e: seq<JByte>)
    requires d != e
    ensures HexOf(d) != HexOf(e)
  {
    HexRoundTrip(d);
    HexRoundTrip(e);
  }

  // ---------------------------------------------------------------- hashing

  /** The SHA-256 digest of the UTF-8 bytes of `text`. */
  function Digest(p: Provider, text: string): (d: seq<JByte>)
    ensures Sound(p) ==> |d| == 32
  {
    p.sha256(Utf8Encode(text))
  }

  /** What `calculateSHA256Hash(text)` returns. */
  function Sha256Hex(p: Provider, text: string): (h: string)
    ensures IsLowerHex(h) && |h| == 2 * |Digest(p, text)|
  {
    HexOf(Digest(p, text))
  }

  /** `calculateSHA256Hash`: digest the UTF-8 bytes, then append each byte's
      `Integer.toHexString(0xff & b)`, after a '0' when that is a single digit. */
  method CalculateSha256Hash(p: Provider, text: string) returns (hexString: string)
    ensures hexString == Sha256Hex(p, text)
    ensures |hexString| == 2 * |Digest(p, text)| && IsLowerHex(hexString)
    ensures forall i :: 0 <= i < |Digest(p, text)| ==>
              hexString[2 * i..2 * i + 2] == ByteHex(Unsigned(Digest(p, text)[i]))
  {
    var hashBytes := p.sha256(Utf8Encode(text));
    hexString := "";
    for i := 0 to |hashBytes|
      invariant hexString == HexOf(hashBytes[..i])
    {
      var b := hashBytes[i];
      var hex := ToHexString(Unsigned(b));
      PaddedHex(Unsigned(b));
      if |hex| == 1 {
        hexString := hexString + "0";
      }
      hexString := hexString + hex;
      assert hashBytes[..i + 1][..i] == hashBytes[..i];
    }
    assert hashBytes[..|hashBytes|] == hashBytes;
    forall i | 0 <= i < |hashBytes|
      ensures hexString[2 * i..2 * i + 2] == ByteHex(Unsigned(hashBytes[i]))
    {
      HexOfAt(hashBytes, i);
    }
  }

  /** Under SHA-256 the hash is 64 lower-case hex digits, and texts with distinct digests
      have distinct hashes. */
  lemma Sha256HexShape(p: Provider, text: string, text': string)
    requires Sound(p)
    ensures |Sha256Hex(p, text)| == 64
    ensures Digest(p, text) != Digest(p, text') ==> Sha256Hex(p, text) != Sha256Hex(p, text')
  {
    if Digest(p, text) != Digest(p, text') {
      HexOfInjective(Digest(p, text), Digest(p, text'));
    }
  }

  // ---------------------------------------------------------------- keys, signing, checking

  /** `generateKeyPair`: a fresh pair from the provider; a missing RSA provider is
      rethrown with the prefix "Erro ao gerar par de chaves: ". */
  function GenerateKeyPair(p: Provider, entropy: nat): (r: Result<KeyPair>)
    ensures r.Success? <==> p.generateRsa(entropy).Success?
    ensures r.Success? ==> Issued(p, r.value)
    ensures r.Failure? ==> r.error == "Erro ao gerar par de chaves: " + p.generateRsa(entropy).error
  {
    match p.generateRsa(entropy)
    case Success(kp) => Success(kp)
    case Failure(e) => Failure("Erro ao gerar par de chaves: " + e)
  }

  /** `signHash`: sign the UTF-8 bytes of the hex hash; any failure is rethrown with the
      prefix "Erro ao assinar hash: ". */
  function SignHash(p: Provider, hash: string, privateKey: string): (r: Result<string>)
    ensures r.Success? <==> p.rsaSign(Utf8Encode(hash), privateKey).Success?
    ensures r.Success? ==> r.value == p.rsaSign(Utf8Encode(hash), privateKey).value
    ensures r.Failure? ==> r.error == "Erro ao assinar hash: " + p.rsaSign(Utf8Encode(hash), privateKey).error
  {
    match p.rsaSign(Utf8Encode(hash), privateKey)
    case Success(sig) => Success(sig)
    case Failure(e) => Failure("Erro ao assinar hash: " + e)
  }

  /** `verifySignature`: check the signature over the UTF-8 bytes of the hash. A malformed
      key or signature is an error, rethrown with the prefix "Erro ao verificar assinatura: ",
      not a `false`. */
  function VerifySignature(p: Provider, hash: string, signature: string, publicKey: string): (r: Result<bool>)
    ensures r.Failure? <==> p.rsaVerify(Utf8Encode(hash), signature, publicKey).Failure?
    ensures r.Success? ==> r.value == p.rsaVerify(Utf8Encode(hash), signature, publicKey).value
    ensures r.Failure? ==> r.error == "Erro ao verificar assinatura: " + p.rsaVerify(Utf8Encode(hash), signature, publicKey).error
  {
    match p.rsaVerify(Utf8Encode(hash), signature, publicKey)
    case Success(ok) => Success(ok)
    case Failure(e) => Failure("Erro ao verificar assinatura: " + e)
  }

  /** The map `signText` returns: "hash", "signature" and "algorithm". */
  datatype SignedText = SignedText(hash: string, signature: string, algorithm: string)

  /** `signText`: hash the text, sign the hash; a signing error propagates unchanged. */
  function SignText(p: Provider, text: string, privateKey: string): (r: Result<SignedText>)
    ensures r.Success? <==> SignHash(p, Sha256Hex(p, text), privateKey).Success?
    ensures r.Success? ==> r.value.hash == Sha256Hex(p, text) && r.value.algorithm == "SHA-256"
                           && r.value.signature == SignHash(p, r.value.hash, privateKey).value
    ensures r.Failure? ==> r.error == SignHash(p, Sha256Hex(p, text), privateKey).error
  {
    var hash := Sha256Hex(p, text);
    match SignHash(p, hash, privateKey)
    case Success(sig) => Success(SignedText(hash, sig, HashAlgorithm))
    case Failure(e) => Failure(e)
  }

  /** `verifyText`: recompute the hash of the presented text and check the signature over it. */
  function VerifyText(p: Provider, text: string, signature: string, publicKey: string): (r: Result<bool>)
    ensures r.Failure? <==> p.rsaVerify(Utf8Encode(Sha256Hex(p, text)), signature, publicKey).Failure?
    ensures r.Success? ==> r.value == p.rsaVerify(Utf8Encode(Sha256Hex(p, text)), signature, publicKey).value
    ensures r.Failure? ==>
              r.error == "Erro ao verificar assinatura: " + p.rsaVerify(Utf8Encode(Sha256Hex(p, text)), signature, publicKey).error
  {
    VerifySignature(p, Sha256Hex(p, text), signature, publicKey)
  }

  /** Signing a text with an issued private key succeeds, and the paired public key
      accepts the result for that text. */
  lemma SignThenVerify(p: Provider, kp: KeyPair, text: string)
    requires Sound(p) && Issued(p, kp)
    ensures SignText(p, text, kp.privateKey).Success?
    ensures VerifyText(p, text, SignText(p, text, kp.privateKey).value.signature, kp.publicKey) == Success(true)
  {
  }

  /** Another issued key pair's public key rejects the signature: `false`, not an error. */
  lemma VerifyWithOtherKey(p: Provider, kp: KeyPair, other: KeyPair, text: string)
    requires Sound(p) && Issued(p, kp) && Issued(p, other) && other.publicKey != kp.publicKey
    ensures VerifyText(p, text, SignText(p, text, kp.privateKey).value.signature, other.publicKey) == Success(false)
  {
    var m := Utf8Encode(Sha256Hex(p, text));
    assert p.rsaSign(m, kp.privateKey).Success?;
    assert p.rsaVerify(m, p.rsaSign(m, kp.privateKey).value, other.publicKey).Success?;
  }

  /** A text whose digest differs from the signed one's is rejected: `false`, not an error. */
  lemma VerifyAlteredText(p: Provider, kp: KeyPair, text: string, altered: string)
    requires Sound(p) && Issued(p, kp)
    requires Digest(p, altered) != Digest(p, text)
    ensures VerifyText(p, altered, SignText(p, text, kp.privateKey).value.signature, kp.publicKey) == Success(false)
  {
    var h, h' := Sha256Hex(p, text), Sha256Hex(p, altered);
    HexOfInjective(Digest(p, text), Digest(p, altered));
    Utf8AsciiInjective(h, h');
    var m, m' := Utf8Encode(h), Utf8Encode(h');
    assert p.rsaSign(m, kp.privateKey).Success?;
  }

  /** The paired public key accepts, for a text, no signature other than the one `signText`
      produced for it: a tampered signature is `false` or an error, never `true`. */
  lemma VerifyTamperedSignature(p: Provider, kp: KeyPair, text: string, signature: string)
    requires Sound(p) && Issued(p, kp)
    requires signature != SignText(p, text, kp.privateKey).value.signature
    ensures VerifyText(p, text, signature, kp.publicKey) != Success(true)
  {
    var m := Utf8Encode(Sha256Hex(p, text));
    assert p.rsaSign(m, kp.privateKey).Success?;
  }
}
