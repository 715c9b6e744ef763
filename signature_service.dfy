/** SignatureService: creates signature records and checks them, turning every error of
    the check into `false`. */
module Signatures {
  import opened Wrappers
  import opened JavaText
  import opened Jca
  import Cryptography
  import opened Entities

  /** The algorithm label stored on every record. */
  const SignatureAlgorithm: string := "SHA-256 with RSA"

  /** The record `signText` builds for `user` and `text` under the id and creation time the
      store hands out, or the message of the exception it throws. */
  function NewSignature(p: Provider, user: User, text: string, id: SignatureId, createdAt: nat): (r: Result<Signature>)
    ensures r.Success? <==> Cryptography.SignHash(p, Cryptography.Sha256Hex(p, text), user.privateKey).Success?
    ensures r.Success? ==>
              && r.value.id == id && r.value.user == user && r.value.originalText == text
              && r.value.textHash == Cryptography.Sha256Hex(p, text)
              && r.value.signature == Cryptography.SignHash(p, r.value.textHash, user.privateKey).value
              && r.value.algorithm == SignatureAlgorithm && r.value.createdAt == createdAt
    ensures r.Failure? ==>
              r.error == "Erro ao assinar texto: " + Cryptography.SignHash(p, Cryptography.Sha256Hex(p, text), user.privateKey).error
  {
    var textHash := Cryptography.Sha256Hex(p, text);
    match Cryptography.SignHash(p, textHash, user.privateKey)
    case Failure(e) => Failure("Erro ao assinar texto: " + e)
    case Success(signature) => Success(Signature(id, user, text, textHash, signature, SignatureAlgorithm, createdAt))
  }

  /** `verifySignature(signature)`: check the stored hash and signature against the owner's
      public key; an exception counts as invalid, so the answer is always a boolean. */
  function VerifySignature(p: Provider, record: Signature): (valid: bool)
    ensures valid <==> Cryptography.VerifySignature(p, record.textHash, record.signature, record.user.publicKey) == Success(true)
  {
    match Cryptography.VerifySignature(p, record.textHash, record.signature, record.user.publicKey)
    case Success(ok) => ok
    case Failure(_) => false
  }

  /** `verifySignatureByText`: hash the presented text and check the signature against the
      given public key; an exception counts as invalid. */
  function VerifySignatureByText(p: Provider, originalText: string, signatureValue: string, publicKey: string): (valid: bool)
    ensures valid <==> Cryptography.VerifyText(p, originalText, signatureValue, publicKey) == Success(true)
  {
    match Cryptography.VerifyText(p, originalText, signatureValue, publicKey)
    case Success(ok) => ok
    case Failure(_) => false
  }

  /** A record made for a user whose keys were issued by the provider is saved with the
      hash of its unchanged text and the "SHA-256 with RSA" label, and checks as valid. */
  lemma SignedRecordVerifies(p: Provider, user: User, text: string, id: SignatureId, createdAt: nat)
    requires Sound(p) && Issued(p, Keys(user))
    ensures NewSignature(p, user, text, id, createdAt).Success?
    ensures var record := NewSignature(p, user, text, id, createdAt).value;
              && record.id == id && record.user == user && record.originalText == text
              && record.textHash == Cryptography.Sha256Hex(p, text) && |record.textHash| == 64
              && record.algorithm == SignatureAlgorithm
              && VerifySignature(p, record)
  {
    Cryptography.SignThenVerify(p, Keys(user), text);
    Cryptography.Sha256HexShape(p, text, text);
  }

  /** On any record `signText` made, checking by id and checking by its text, signature and
      owner's key give the same answer, whatever the provider. */
  lemma VerifyPathsAgree(p: Provider, user: User, text: string, id: SignatureId, createdAt: nat)
    requires NewSignature(p, user, text, id, createdAt).Success?
    ensures var record := NewSignature(p, user, text, id, createdAt).value;
              VerifySignatureByText(p, record.originalText, record.signature, record.user.publicKey)
              == VerifySignature(p, record)
  {
  }

  /** A text whose digest differs from the signed text's fails the check by text against
      the signer's key. */
  lemma AlteredTextInvalid(p: Provider, user: User, text: string, altered: string, id: SignatureId, createdAt: nat)
    requires Sound(p) && Issued(p, Keys(user))
    requires Cryptography.Digest(p, altered) != Cryptography.Digest(p, text)
    ensures NewSignature(p, user, text, id, createdAt).Success?
    ensures !VerifySignatureByText(p, altered, NewSignature(p, user, text, id, createdAt).value.signature, user.publicKey)
  {
    Cryptography.SignThenVerify(p, Keys(user), text);
    Cryptography.VerifyAlteredText(p, Keys(user), text, altered);
  }

  /** Checking by text against the signer's key rejects every signature other than the one
      `signText` stored for that text: a tampered signature is invalid. */
  lemma TamperedSignatureInvalid(p: Provider, user: User, text: string, signature: string,
                                 id: SignatureId, createdAt: nat)
    requires Sound(p) && Issued(p, Keys(user))
    requires NewSignature(p, user, text, id, createdAt).Success?
    requires signature != NewSignature(p, user, text, id, createdAt).value.signature
    ensures !VerifySignatureByText(p, text, signature, user.publicKey)
  {
    Cryptography.VerifyTamperedSignature(p, Keys(user), text, signature);
  }

  /** The signature repository and the service around it. Records are only ever added,
      each under an id the store has not handed out before. */
  class SignatureService {
    const provider: Provider
    var store: map<SignatureId, Signature>
    /** How many records have been saved: the next id and creation time. */
    var saved: nat

    ghost predicate Valid()
      reads this
    {
      forall id | id in store :: store[id].id == id && id.serial < saved
    }

    constructor (provider: Provider)
      ensures Valid()
      ensures this.provider == provider && store == map[] && saved == 0
    {
      this.provider := provider;
      store := map[];
      saved := 0;
    }

    /** `signText`: hash, sign with the user's private key, then build and save the record.
        The save comes last, so a signing failure leaves the store as it was. */
    method SignText(user: User, text: string) returns (r: Result<Signature>)
      requires Valid()
      requires NotBlank(text)
      modifies this
      ensures Valid()
      ensures r == NewSignature(provider, user, text, SignatureId(old(saved)), old(saved))
      ensures r.Success? ==> && r.value.id !in old(store)
                             && store == old(store)[r.value.id := r.value]
                             && saved == old(saved) + 1
      ensures r.Failure? ==> store == old(store) && saved == old(saved)
    {
      var textHash := Cryptography.CalculateSha256Hash(provider, text);
      var signature := Cryptography.SignHash(provider, textHash, user.privateKey);
      if signature.Failure? {
        return Failure("Erro ao assinar texto: " + signature.error);
      }
      var entity := Signature(SignatureId(saved), user, text, textHash, signature.value, SignatureAlgorithm, saved);
      store := store[entity.id := entity];
      saved := saved + 1;
      r := Success(entity);
    }

    /** `findById`: the record stored under `id`, if any. */
    function FindById(id: SignatureId): (r: Option<Signature>)
      requires Valid()
      reads this
      ensures r.Some? <==> id in store
      ensures r.Some? ==> r.value.id == id && r.value == store[id]
    {
      if id in store then Some(store[id]) else None
    }
  }
}
