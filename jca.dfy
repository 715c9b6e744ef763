/** The Java Cryptography Architecture calls the core makes, as uninterpreted functions:
    SHA-256 over bytes, RSA key-pair generation (Base64 DER keys), and SHA256withRSA
    signing and verification over Base64 strings. Each call that can throw returns a Result.
    `Sound` collects what the core relies on them to do. */
module Jca {
  import opened Wrappers
  import opened JavaText

  /** The two Base64 strings `generateKeyPair` returns under "publicKey" and "privateKey". */
  datatype KeyPair = KeyPair(publicKey: string, privateKey: string)

  datatype Provider = Provider(
    /** `MessageDigest.getInstance("SHA-256").digest(bytes)`. */
    sha256: seq<JByte> -> seq<JByte>,
    /** A 2048-bit RSA key pair drawn from the given entropy, Base64-encoded;
        Failure when no RSA provider is installed. */
    generateRsa: nat -> Result<KeyPair>,
    /** SHA256withRSA signature of the message bytes under a Base64 PKCS#8 private key,
        Base64-encoded; Failure on a malformed key. */
    rsaSign: (seq<JByte>, string) -> Result<string>,
    /** SHA256withRSA check of a Base64 signature over the message bytes under a Base64
        X.509 public key; Failure on a malformed key or signature encoding. */
    rsaVerify: (seq<JByte>, string, string) -> Result<bool>)

  /** A key pair this provider's generator can produce. */
  ghost predicate Issued(p: Provider, kp: KeyPair) {
    exists entropy :: p.generateRsa(entropy) == Success(kp)
  }

  /** The assumptions about the primitives:
      - SHA-256 yields 32 bytes;
      - an issued private key signs every message;
      - the matching public key accepts that signature;
      - any other string as public key does not accept it (it fails or says false);
      - the same key does not accept it for any other message;
      - an issued public key decodes, so checking an issued key's signature does not throw;
      - an issued public key accepts, for a message, only the signature its own private key
        produces for it (a tampered or forged signature is not accepted). */
  ghost predicate Sound(p: Provider) {
    && (forall m :: |p.sha256(m)| == 32)
    && (forall kp, m | Issued(p, kp) :: p.rsaSign(m, kp.privateKey).Success?)
    && (forall kp, m | Issued(p, kp) && p.rsaSign(m, kp.privateKey).Success? ::
          p.rsaVerify(m, p.rsaSign(m, kp.privateKey).value, kp.publicKey) == Success(true))
    && (forall kp, m, pub | Issued(p, kp) && p.rsaSign(m, kp.privateKey).Success? && pub != kp.publicKey ::
          p.rsaVerify(m, p.rsaSign(m, kp.privateKey).value, pub) != Success(true))
    && (forall kp, m, m' | Issued(p, kp) && p.rsaSign(m, kp.privateKey).Success? && m' != m ::
          p.rsaVerify(m', p.rsaSign(m, kp.privateKey).value, kp.publicKey) == Success(false))
    && (forall kp, kp', m | Issued(p, kp) && Issued(p, kp') && p.rsaSign(m, kp'.privateKey).Success? ::
          p.rsaVerify(m, p.rsaSign(m, kp'.privateKey).value, kp.publicKey).Success?)
    && (forall kp, m, s | Issued(p, kp) && p.rsaVerify(m, s, kp.publicKey) == Success(true) ::
          p.rsaSign(m, kp.privateKey) == Success(s))
  }

  // ------------------------------------------------------------------------
  // A symbolic provider that meets `Sound`, so the assumptions are consistent.
  // Key pair n is ("p" repeated n+1 times, "k" repeated n+1 times); a signature is the
  // message, one character per byte, followed by the private key.

  function Run(c: char, n: nat): (r: string)
    ensures |r| == n && forall i :: 0 <= i < n ==> r[i] == c
  {
    if n == 0 then "" else [c] + Run(c, n - 1)
  }

  predicate IsRun(s: string, c: char) {
    |s| > 0 && forall i :: 0 <= i < |s| ==> s[i] == c
  }

  /** One character per byte, all of them above 'k' and 'p'. */
  function Tag(m: seq<JByte>): (r: string)
    ensures |r| == |m|
    ensures forall i :: 0 <= i < |m| ==> r[i] as int == m[i] as int + 384
  {
    seq(|m|, i requires 0 <= i < |m| => (m[i] as int + 384) as char)
  }

  function Ideal(): Provider {
    Provider(
      m => seq(32, i => 0),
      (n: nat) => Success(KeyPair(Run('p', n + 1), Run('k', n + 1))),
      (m, key) => if IsRun(key, 'k') then Success(Tag(m) + key) else Failure("invalid key"),
      (m, sig, key) => if IsRun(key, 'p') then Success(sig == Tag(m) + Run('k', |key|))
                       else Failure("invalid key"))
  }

  lemma TagInjective(m: seq<JByte>, m': seq<JByte>, suffix: string)
    requires Tag(m) + suffix == Tag(m') + suffix
    ensures m == m'
  {
    assert |m| == |m'|;
    forall i | 0 <= i < |m| ensures m[i] == m'[i] {
      assert (Tag(m) + suffix)[i] == Tag(m)[i];
      assert (Tag(m') + suffix)[i] == Tag(m')[i];
    }
  }

  lemma IssuedByIdeal(kp: KeyPair)
    requires Issued(Ideal(), kp)
    ensures IsRun(kp.publicKey, 'p') && IsRun(kp.privateKey, 'k')
    ensures |kp.publicKey| == |kp.privateKey|
    ensures kp.privateKey == Run('k', |kp.publicKey|)
  {
    var n :| Ideal().generateRsa(n) == Success(kp);
  }

  /** The assumptions can all be met at once. */
  lemma IdealIsSound()
    ensures Sound(Ideal())
  {
    var p := Ideal();
    forall kp, m | Issued(p, kp) ensures p.rsaSign(m, kp.privateKey).Success? {
      IssuedByIdeal(kp);
    }
    forall kp, m | Issued(p, kp) && p.rsaSign(m, kp.privateKey).Success?
      ensures p.rsaVerify(m, p.rsaSign(m, kp.privateKey).value, kp.publicKey) == Success(true)
    {
      IssuedByIdeal(kp);
    }
    forall kp, m, pub | Issued(p, kp) && p.rsaSign(m, kp.privateKey).Success? && pub != kp.publicKey
      ensures p.rsaVerify(m, p.rsaSign(m, kp.privateKey).value, pub) != Success(true)
    {
      IssuedByIdeal(kp);
      if IsRun(pub, 'p') {
        assert |pub| != |kp.publicKey|;
        assert |Tag(m) + kp.privateKey| != |Tag(m) + Run('k', |pub|)|;
      }
    }
    forall kp, m, m' | Issued(p, kp) && p.rsaSign(m, kp.privateKey).Success? && m' != m
      ensures p.rsaVerify(m', p.rsaSign(m, kp.privateKey).value, kp.publicKey) == Success(false)
    {
      IssuedByIdeal(kp);
      if Tag(m) + kp.privateKey == Tag(m') + Run('k', |kp.publicKey|) {
        TagInjective(m, m', kp.privateKey);
      }
    }
    forall kp, kp', m | Issued(p, kp) && Issued(p, kp') && p.rsaSign(m, kp'.privateKey).Success?
      ensures p.rsaVerify(m, p.rsaSign(m, kp'.privateKey).value, kp.publicKey).Success?
    {
      IssuedByIdeal(kp);
    }
    forall kp, m, s | Issued(p, kp) && p.rsaVerify(m, s, kp.publicKey) == Success(true)
      ensures p.rsaSign(m, kp.privateKey) == Success(s)
    {
      IssuedByIdeal(kp);
    }
  }
}
