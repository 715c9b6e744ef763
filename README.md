# Assina Aqui: signing and verification core

Assina Aqui is a digital-signature service. A registered user gets one RSA key pair. The
user signs a text: the service stores the text, its SHA-256 hex digest and the signature of
that digest. Anyone can then verify a stored signature, either by its id or by presenting
the text and the signature together with the record's id. Every verification answered with 200 is written to an audit
log, and the reply reports how many times the record has been verified. A request whose
client address cannot be read (an `X-Forwarded-For` made only of commas) is answered with
500 after the check and writes no row.

This Dafny project models that core:

- `CryptographyService`: the hex-digest loop, the sign/verify compositions, and the JCA
  primitives they call.
- `SignatureService`: record creation and storage, plus the two total checks.
- `VerificationLogService`: the append-only audit log and the counts derived from it.
- `VerificationController`: both verification endpoints and the client-address parsing.
- `VerificationResponse`: the mutable reply object, with its status derivation.
- `UserService`: user creation, email lookup and `loadUserByUsername`.

## Modules

| file | module | what it holds |
|---|---|---|
| `wrappers.dfy` | `Wrappers` | `Option` and `Result`. A `Failure` carries the message of the exception Java would throw. |
| `java_text.dfy` | `JavaText` | The java.lang behaviour the core relies on: signed bytes and `0xff & b`, `String.getBytes(UTF_8)` (RFC 3629), `String.trim()`, `String.split(",")` with its removal of trailing empty strings, and `@NotBlank`. |
| `jca.dfy` | `Jca` | SHA-256, RSA key generation and SHA256withRSA sign/verify as function-valued fields of a `Provider`. The predicate `Sound` states what the core relies on them to do. `Ideal()` is a concrete provider proved to meet `Sound`, so those assumptions are consistent. |
| `cryptography_service.dfy` | `Cryptography` | `calculateSHA256Hash` as a loop proved against `HexOf`, with the hex decoder as its inverse. Also `generateKeyPair`, `signHash`, `verifySignature`, `signText` and `verifyText`. |
| `entities.dfy` | `Entities` | `User`, `Signature` and `VerificationLog` records. |
| `signature_service.dfy` | `Signatures` | `SignatureService`: a class over a `map` store. |
| `verification_log_service.dfy` | `Audit` | `VerificationLogService`: a class over a `seq` of rows, with `Count`, `Filter` and `Reverse` as their specifications. |
| `verification_response.dfy` | `Responses` | `VerificationResponse`: a class with eight mutable fields. |
| `verification_controller.dfy` | `Verification` | `getClientIpAddress` and the two handlers, as methods of `VerificationController`. |
| `user_service.dfy` | `Users` | `UserService`: a class over a `seq` of users. |
| `scenarios.dfy` | `Scenarios` | The integration flow, stated as methods whose contracts follow from the operations' contracts: register, sign, verify by id three times (counts 1, 2, 3), and verify by text. |

### Modelling choices

- Java `byte` is the subset type `JByte` (-128..127). `0xff & b` is `Unsigned`.
- Every `throw` in the core becomes a `Failure(message)` carrying the same message text.
  The handlers' `catch (Exception e)` becomes a 500 reply, and the services'
  exception-to-`false` becomes a `bool`.
- Ids are one opaque type, `SignatureId`. The entity uses a UUID, while the DTO and the
  repository use a `Long`.
- The stores hand out ids and creation times from a counter. `verifiedAt` of log row `i`
  is `i`. These stand in for the database's generated keys and `@CreationTimestamp`.
- The password encoder is a function-valued field of `UserService`. The entropy that key
  generation draws on is a method parameter.
- `Jca.Sound` treats a signature string as canonical: an issued public key accepts, for a
  message, only the exact string its private key produced. Real Base64 decoding may accept
  other spellings of the same bytes.
- Where the integration and controller tests disagree with the code, the model follows the
  code:
  - The text endpoint looks the record up by the body's `"id"`, through
    `UUID.fromString`; it does not search by hash and signature. A body without `"id"`
    therefore gets a 500 reply.
  - The status strings are `"VÁLIDA"` and `"INVÁLIDA"`, not `"VALID"`.
  - An altered text with a correct id gets 400 "Texto não corresponde à assinatura"
    before any check or log row. It does not get 404.
- `CryptographyService.verifySignature` throws on a malformed key or signature; it does not
  return `false`. Only `SignatureService` turns those errors into `false`, and the model
  keeps that split.
- An `X-Forwarded-For` header made only of commas (`","`) splits into an empty array.
  Indexing `[0]` then throws, so the handler answers 500 and logs nothing.
  `GetClientIpAddress` returns that failure.

## Model

| member | source | states |
|---|---|---|
| `JavaText.Unsigned` | backend/src/main/java/com/assinaaqui/backend/service/CryptographyService.java:56 | `0xff & b` lies in 0..255 and agrees with the byte modulo 256 |
| `JavaText.Utf8Encode` | backend/src/main/java/com/assinaaqui/backend/service/CryptographyService.java:52 | `getBytes(UTF_8)` yields between 1 and 4 bytes per character |
| `JavaText.Utf8Ascii` | backend/src/main/java/com/assinaaqui/backend/service/CryptographyService.java:83 | an ASCII string (such as a hex hash) encodes to one byte per character, equal to its code |
| `JavaText.Utf8AsciiInjective` | backend/src/main/java/com/assinaaqui/backend/service/CryptographyService.java:108 | distinct hex hashes give distinct message bytes to sign or verify |
| `JavaText.EncodeCharRoundTrip` | backend/src/main/java/com/assinaaqui/backend/service/CryptographyService.java:52 | the bytes `getBytes(UTF_8)` gives for one character decode back to its code point, and the lead byte tells how many bytes follow |
| `JavaText.EncodeCharInjective` | backend/src/main/java/com/assinaaqui/backend/service/CryptographyService.java:52 | two characters with the same UTF-8 bytes are the same character |
| `JavaText.Utf8EncodeInjective` | backend/src/main/java/com/assinaaqui/backend/service/CryptographyService.java:52 | distinct strings of any characters give distinct UTF-8 bytes, so the text fed to SHA-256 determines the string exactly |
| `JavaText.Trim` | backend/src/main/java/com/assinaaqui/backend/controller/VerificationController.java:149 | `trim()` is the infix of the input left after removing every leading and trailing character <= ' ', and it neither starts nor ends with one |
| `JavaText.NotBlankIff` | backend/src/main/java/com/assinaaqui/backend/dto/SignRequest.java:8 | `@NotBlank` holds exactly when the text has a character above ' ' |
| `JavaText.SplitAllJoin` | backend/src/main/java/com/assinaaqui/backend/controller/VerificationController.java:149 | the pieces between commas, joined back with commas, give the original header |
| `JavaText.Split` | backend/src/main/java/com/assinaaqui/backend/controller/VerificationController.java:149 | `split(",")` yields pieces that contain no comma; when the string has a comma, trailing empty pieces are dropped; a string without a comma yields itself alone |
| `JavaText.SplitFirst` | backend/src/main/java/com/assinaaqui/backend/controller/VerificationController.java:149 | `split(",")` of a non-empty string is empty exactly when the string is commas only; otherwise element 0 is the text before the first comma |
| `Cryptography.ToHexString` | backend/src/main/java/com/assinaaqui/backend/service/CryptographyService.java:56 | `Integer.toHexString` yields lower-case hex digits with no leading zero |
| `Cryptography.ToHexStringValue` | backend/src/main/java/com/assinaaqui/backend/service/CryptographyService.java:56 | reading `toHexString(v)` back as hex gives `v` |
| `Cryptography.ByteHex` | backend/src/main/java/com/assinaaqui/backend/service/CryptographyService.java:55-61 | every byte contributes two lower-case hex digits, the first one '0' exactly when the value is below 16 |
| `Cryptography.PaddedHex` | backend/src/main/java/com/assinaaqui/backend/service/CryptographyService.java:56-60 | `toHexString` has one digit exactly for values below 16, and padding those with '0' gives the two-digit form |
| `Cryptography.HexOf` | backend/src/main/java/com/assinaaqui/backend/service/CryptographyService.java:54-62 | the hex form is lower-case and twice as long as the digest |
| `Cryptography.HexOfAt` | backend/src/main/java/com/assinaaqui/backend/service/CryptographyService.java:55-61 | characters 2i and 2i+1 of the hex form are the two digits of byte i |
| `Cryptography.HexRoundTrip` | backend/src/main/java/com/assinaaqui/backend/service/CryptographyService.java:54-62 | decoding the hex form gives the digest back |
| `Cryptography.HexOfInjective` | backend/src/main/java/com/assinaaqui/backend/service/CryptographyService.java:55-61 | distinct digests have distinct hex forms |
| `Cryptography.Digest` | backend/src/main/java/com/assinaaqui/backend/service/CryptographyService.java:51-52 | the SHA-256 digest of the text's UTF-8 bytes is 32 bytes long |
| `Cryptography.Sha256Hex` | backend/src/main/java/com/assinaaqui/backend/service/CryptographyService.java:49-66 | the hash of a text is lower-case hex, two digits per digest byte |
| `Cryptography.CalculateSha256Hash` | backend/src/main/java/com/assinaaqui/backend/service/CryptographyService.java:49-66 | the byte loop returns the hex form of the digest of the text's UTF-8 bytes: twice the digest length, lower-case, byte i at characters 2i and 2i+1 |
| `Cryptography.Sha256HexShape` | backend/src/main/java/com/assinaaqui/backend/service/CryptographyService.java:52-62 | under SHA-256 the hash has 64 characters, and texts with distinct digests have distinct hashes |
| `Cryptography.GenerateKeyPair` | backend/src/main/java/com/assinaaqui/backend/service/CryptographyService.java:25-42 | it succeeds exactly when the RSA generator does, with a pair the provider issued; otherwise it fails with "Erro ao gerar par de chaves: " and the cause |
| `Cryptography.SignHash` | backend/src/main/java/com/assinaaqui/backend/service/CryptographyService.java:74-90 | it signs the UTF-8 bytes of the hash; any failure becomes "Erro ao assinar hash: " and the cause |
| `Cryptography.VerifySignature` | backend/src/main/java/com/assinaaqui/backend/service/CryptographyService.java:99-115 | it checks the signature over the UTF-8 bytes of the hash; a malformed key or signature is an error ("Erro ao verificar assinatura: " and the cause), not `false` |
| `Cryptography.SignText` | backend/src/main/java/com/assinaaqui/backend/service/CryptographyService.java:123-133 | it succeeds exactly when signing the hash does, returning hash = the text's hash, the signature of that hash and algorithm "SHA-256"; a signing error propagates unchanged |
| `Cryptography.VerifyText` | backend/src/main/java/com/assinaaqui/backend/service/CryptographyService.java:142-145 | it checks the signature over the UTF-8 bytes of the text's hex hash: an error exactly when that check throws, with "Erro ao verificar assinatura: " and the cause, otherwise that check's verdict |
| `Cryptography.SignThenVerify` | backend/src/main/java/com/assinaaqui/backend/service/CryptographyService.java:123-145 | with an issued key, `signText` succeeds and `verifyText` with the paired public key returns true |
| `Cryptography.VerifyWithOtherKey` | backend/src/main/java/com/assinaaqui/backend/service/CryptographyService.java:142-145 | another issued pair's public key makes `verifyText` return false, not throw |
| `Cryptography.VerifyAlteredText` | backend/src/main/java/com/assinaaqui/backend/service/CryptographyService.java:142-145 | a text with a different digest makes `verifyText` return false against the signer's key |
| `Cryptography.VerifyTamperedSignature` | backend/src/main/java/com/assinaaqui/backend/service/CryptographyService.java:142-145 | the paired public key accepts, for a text, only the signature `signText` produced for it; any other signature string is `false` or an error, never `true` |
| `Signatures.NewSignature` | backend/src/main/java/com/assinaaqui/backend/service/SignatureService.java:22-42 | the record exists exactly when signing the hash succeeds. It then has the given id and owner, the unchanged text, hash = `calculateSHA256Hash(text)`, signature = `signHash(hash, owner's private key)`, label "SHA-256 with RSA" and the given creation time. Otherwise the error is "Erro ao assinar texto: " and the cause |
| `Signatures.VerifySignature` | backend/src/main/java/com/assinaaqui/backend/service/SignatureService.java:56-66 | true exactly when the primitive check of the stored hash and signature against the owner's public key returns true; every error counts as false |
| `Signatures.VerifySignatureByText` | backend/src/main/java/com/assinaaqui/backend/service/SignatureService.java:68-75 | true exactly when `verifyText` on the presented text, signature and key returns true; every error counts as false |
| `Signatures.SignedRecordVerifies` | backend/src/main/java/com/assinaaqui/backend/service/SignatureService.java:22-66 | for a user whose keys the provider issued, signing succeeds, the record keeps the text and the 64-character hash, and it checks as valid |
| `Signatures.VerifyPathsAgree` | backend/src/main/java/com/assinaaqui/backend/service/SignatureService.java:56-75 | for any record `signText` made, checking by id and checking by its own text, signature and owner's key give the same answer, whatever the provider |
| `Signatures.AlteredTextInvalid` | backend/src/main/java/com/assinaaqui/backend/service/SignatureService.java:68-75 | a text whose digest differs from the signed one fails the check by text |
| `Signatures.TamperedSignatureInvalid` | backend/src/main/java/com/assinaaqui/backend/service/SignatureService.java:68-75 | checking by text against the signer's key rejects every signature other than the one stored for that text |
| `Signatures.SignatureService.SignText` | backend/src/main/java/com/assinaaqui/backend/service/SignatureService.java:22-42 | it returns the record `NewSignature` describes, under an id not yet in the store; on success that record alone is added, and on failure the store is unchanged |
| `Signatures.SignatureService.FindById` | backend/src/main/java/com/assinaaqui/backend/service/SignatureService.java:44-46 | a record is found exactly when its id is stored, and it is the record stored under that id |
| `Audit.CountAppend` | backend/src/main/java/com/assinaaqui/backend/service/VerificationLogService.java:17-37 | appending a row adds one to its record's count and leaves every other count alone |
| `Audit.CountIsPositions` | backend/src/main/java/com/assinaaqui/backend/service/VerificationLogService.java:35-37 | the count is the number of positions holding a row of the record |
| `Audit.Filter` | backend/src/main/java/com/assinaaqui/backend/service/VerificationLogService.java:27-29 | exactly the rows of the record, as many as its count |
| `Audit.FilterMultiset` | backend/src/main/java/com/assinaaqui/backend/service/VerificationLogService.java:27-29 | each row of the record occurs as often as in the log, and no row of another record occurs |
| `Audit.FilterIncreasing` | backend/src/main/java/com/assinaaqui/backend/service/VerificationLogService.java:31-33 | filtering rows that are in time order keeps them in time order |
| `Audit.ReverseMultiset` | backend/src/main/java/com/assinaaqui/backend/service/VerificationLogService.java:31-33 | reversing keeps exactly the same rows |
| `Audit.VerificationLogService.LogVerification` | backend/src/main/java/com/assinaaqui/backend/service/VerificationLogService.java:17-25 | exactly one row is appended, carrying the given record, address, agent and outcome, with no deduplication; that record's count grows by one and every other count is unchanged |
| `Audit.VerificationLogService.CountBySignature` | backend/src/main/java/com/assinaaqui/backend/service/VerificationLogService.java:35-37 | the number of rows that reference the record |
| `Audit.VerificationLogService.FindBySignature` | backend/src/main/java/com/assinaaqui/backend/service/VerificationLogService.java:27-29 | every row of the record, each as often as in the log, and nothing else |
| `Audit.VerificationLogService.FindBySignatureOrderByVerifiedAtDesc` | backend/src/main/java/com/assinaaqui/backend/service/VerificationLogService.java:31-33 | the same rows as `findBySignature`, newest first |
| `Responses.StatusOf` | backend/src/main/java/com/assinaaqui/backend/dto/VerificationResponse.java:24 | the status is "VÁLIDA" exactly when the flag is true, and "INVÁLIDA" otherwise |
| `Responses.VerificationResponse.constructor` | backend/src/main/java/com/assinaaqui/backend/dto/VerificationResponse.java:19-30 | the status is derived from the flag; the other six fields are copied unchanged |
| `Responses.VerificationResponse.SetSignatureId` | backend/src/main/java/com/assinaaqui/backend/dto/VerificationResponse.java:37-39 | only the id changes |
| `Responses.VerificationResponse.SetValid` | backend/src/main/java/com/assinaaqui/backend/dto/VerificationResponse.java:45-48 | the flag and the status change together, so status and flag agree afterwards whatever they were before |
| `Responses.VerificationResponse.SetStatus` | backend/src/main/java/com/assinaaqui/backend/dto/VerificationResponse.java:54-56 | only the status changes; status and flag agree afterwards exactly when the new text is the one the flag calls for |
| `Responses.VerificationResponse.SetSignatory` | backend/src/main/java/com/assinaaqui/backend/dto/VerificationResponse.java:62-64 | only the signatory changes |
| `Responses.VerificationResponse.SetAlgorithm` | backend/src/main/java/com/assinaaqui/backend/dto/VerificationResponse.java:70-72 | only the algorithm changes |
| `Responses.VerificationResponse.SetSignedAt` | backend/src/main/java/com/assinaaqui/backend/dto/VerificationResponse.java:78-80 | only the signing time changes |
| `Responses.VerificationResponse.SetOriginalText` | backend/src/main/java/com/assinaaqui/backend/dto/VerificationResponse.java:86-88 | only the original text changes |
| `Responses.VerificationResponse.SetVerificationCount` | backend/src/main/java/com/assinaaqui/backend/dto/VerificationResponse.java:94-96 | only the count changes |
| `Responses.StatusCanDrift` | backend/src/main/java/com/assinaaqui/backend/dto/VerificationResponse.java:45-56 | `setStatus` can leave the status contradicting the flag, and a later `setValid` restores agreement |
| `Verification.GetClientIpAddress` | backend/src/main/java/com/assinaaqui/backend/controller/VerificationController.java:146-158 | a non-empty X-Forwarded-For gives its text before the first comma, trimmed, and fails exactly when it is commas only; otherwise a non-empty X-Real-IP; otherwise the remote address |
| `Verification.VerificationController.VerifySignature` | backend/src/main/java/com/assinaaqui/backend/controller/VerificationController.java:29-75 | an unknown id gives 404 and no row; an unreadable client address gives 500 and no row; otherwise exactly one row with the computed validity is appended, and the 200 reply carries that validity, its status and the count read after the append |
| `Verification.VerificationController.VerifySignatureByText` | backend/src/main/java/com/assinaaqui/backend/controller/VerificationController.java:77-144 | a missing text or signature gives 400 before any lookup; an unparsable id gives 500; an unknown id gives 404; a text different from the stored one gives 400; none of these logs. Otherwise one row with `verifySignatureByText(text, signature, owner's key)` is appended and the reply carries it and the new count |
| `Users.FindEmailFinds` | backend/src/main/java/com/assinaaqui/backend/service/UserService.java:59-61 | with unique emails, looking up a stored user's email finds that user |
| `Users.FindEmail` | backend/src/main/java/com/assinaaqui/backend/service/UserService.java:59-61 | a user is found only if stored with that email, and nothing is found exactly when no stored user has it |
| `Users.UserService.FindByEmail` | backend/src/main/java/com/assinaaqui/backend/service/UserService.java:59-61 | finds a stored user with that email, and nothing exactly when no stored user has it |
| `Users.UserService.LoadUserByUsername` | backend/src/main/java/com/assinaaqui/backend/service/UserService.java:28-38 | an unknown email fails with "Usuário não encontrado: " and the email; otherwise the details carry the email, that user's stored password and no authorities |
| `Users.UserService.CreateUser` | backend/src/main/java/com/assinaaqui/backend/service/UserService.java:40-57 | a taken email fails with "Email já está em uso" and adds nothing; a key-generation failure adds nothing. Otherwise exactly one user is appended with the name, the email, the encoded password and one issued key pair; emails stay unique and `findByEmail` finds the new user |
| `Scenarios.SignedSetup` | backend/src/test/java/com/assinaaqui/backend/DigitalSignatureIntegrationTest.java:59-111 | registering a user and signing a non-blank text stores one record that keeps the text and checks as valid by id and by text |
| `Scenarios.VerifyValidRecord` | backend/src/main/java/com/assinaaqui/backend/controller/VerificationController.java:29-75 | verifying a valid stored record by id answers "VÁLIDA" with the count one above the count before |
| `Scenarios.VerifyThrice` | backend/src/test/java/com/assinaaqui/backend/DigitalSignatureIntegrationTest.java:220-230 | three verifications by id of a valid record with an empty log answer counts 1, 2 and 3, all "VÁLIDA" |
| `Scenarios.VerifyByIdThreeTimes` | backend/src/test/java/com/assinaaqui/backend/DigitalSignatureIntegrationTest.java:204-231 | after registration and signing, three verifications by id answer counts 1, 2 and 3, all "VÁLIDA" |
| `Scenarios.VerifyTextCases` | backend/src/main/java/com/assinaaqui/backend/controller/VerificationController.java:77-144 | on a stored record: its own text and signature give a valid 200; an altered text gives the 400 mismatch; a body without a signature gives the 400 missing-field reply; only the first is logged |
| `Scenarios.VerifyByText` | backend/src/test/java/com/assinaaqui/backend/DigitalSignatureIntegrationTest.java:116-126 | after registration and signing, verification by text with the record's id answers valid, an altered text is a mismatch, an incomplete body is refused, and the count is 1 |
| `Scenarios.VerifyTextWithoutId` | backend/src/test/java/com/assinaaqui/backend/DigitalSignatureIntegrationTest.java:116-126 | a text-verification body with text and signature but no "id", as the test sends it, gets 500 from the failed UUID parse and logs nothing |

## Left out

- Real cryptography is not modelled: the SHA-256 compression function, RSA key
  generation, the SHA256withRSA algorithm, and Base64, PKCS#8 and X.509 decoding. These
  are JCA calls; the model uses uninterpreted functions constrained by `Jca.Sound`.
- `Cryptography.CalculateSha256Hash`: the `NoSuchAlgorithmException` path ("Erro ao
  calcular hash SHA-256: ") is not modelled, because SHA-256 is a mandatory JCA algorithm
  and the model's digest is total.
- `Signatures.SignatureService.SignText` requires a non-blank text. Its caller validates
  the request (`@NotBlank` and a 1..10000-character `@Size` on `SignRequest`, checked by
  `@Valid` before `signText` runs), and the entity's own `@NotBlank` would reject a blank
  text at save time. That validation layer is not modelled, and the length limit is not
  required.
- `findByUser` and `findByUserOrderByCreatedAtDesc` of `SignatureService` and `findById`
  of `UserService` are not modelled. They are repository pass-throughs used only by other
  controllers.
- `validatePassword` of `UserService` is not modelled. It delegates to the password
  encoder's `matches`, a foreign library call, and only the login controller uses it.
- `VerificationResponse`: the no-argument constructor and the getters are not modelled
  separately; `Body()` reads all eight fields.
- Ids are one opaque type. The UUID of the entity and the `Long` of the DTO and
  repository are not distinguished, and UUID text parsing is the parameter `parseUuid`
  of the text handler.
- HTTP header names are matched exactly. Servlet containers match them case-insensitively.
- UTF-8 encoding works on Dafny characters (Unicode scalar values). Java's unpaired UTF-16
  surrogates, which `getBytes` replaces with '?', are not modelled.
- Counts and ids are unbounded integers. The `long` overflow of the count is not modelled.
- Creation and verification times are logical clocks (the store's insertion counter), not
  `LocalDateTime`.
- Concurrency, transactions and database constraint violations are not modelled. The
  unique-email check and the insert are one atomic step.
- The password encoder is a function parameter. JWT handling, `AuthController`,
  `SignatureController`, `InfoController` and the frontend are not part of this model.
