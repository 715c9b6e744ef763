/** The persisted entities, as values. A record's identity is its id: the entity declares a
    UUID, the DTO and the repository a Long; one opaque id type stands for both. */
module Entities {
  import opened Wrappers
  import opened Jca

  datatype SignatureId = SignatureId(serial: nat)
  datatype UserId = UserId(serial: nat)

  /** An identity and its key pair (Base64 strings); `password` is the encoder's output. */
  datatype User = User(
    id: UserId,
    name: string,
    email: string,
    password: string,
    publicKey: string,
    privateKey: string)

  /** The key pair a user holds. */
  function Keys(user: User): (kp: KeyPair) {
    KeyPair(user.publicKey, user.privateKey)
  }

  /** A signature record. `createdAt` is a logical timestamp, increasing with insertion. */
  datatype Signature = Signature(
    id: SignatureId,
    user: User,
    originalText: string,
    textHash: string,
    signature: string,
    algorithm: string,
    createdAt: nat)

  /** One verification attempt; the record is referenced by its id, and `verifiedAt` is a
      logical timestamp, increasing with insertion. */
  datatype VerificationLog = VerificationLog(
    id: nat,
    signature: SignatureId,
    verifiedAt: nat,
    ipAddress: string,
    userAgent: Option<string>,
    isValid: bool)
}
