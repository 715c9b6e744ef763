/** The integration flows, stated against the model: register, sign, verify by id three
    times, verify by text. What each step answers follows from the contracts alone. */
module Scenarios {
  import opened Wrappers
  import opened JavaText
  import opened Jca
  import opened Entities
  import Signatures
  import Audit
  import Users
  import opened Responses
  import opened Verification

  /** Register "Test User", sign `text` as that user, and wire a controller over an empty
      audit log. The one record verifies, by id and by its text. */
  method SignedSetup(p: Provider, passwordEncoder: string -> string, entropy: nat, text: string)
    returns (controller: VerificationController, record: Signature)
    requires Sound(p) && p.generateRsa(entropy).Success? && NotBlank(text)
    ensures fresh(controller) && fresh(controller.verificationLogService)
    ensures controller.Valid() && controller.signatureService.provider == p
    ensures controller.signatureService.store == map[record.id := record]
    ensures controller.verificationLogService.rows == []
    ensures record.id == SignatureId(0) && record.originalText == text
    ensures Signatures.VerifySignature(p, record)
    ensures Signatures.VerifySignatureByText(p, text, record.signature, record.user.publicKey)
  {
    var users := new Users.UserService(p, passwordEncoder);
    var user := users.CreateUser("Test User", "test@example.com", "password123", entropy);
    var signatures := new Signatures.SignatureService(p);
    var signed := signatures.SignText(user.value, text);
    Signatures.SignedRecordVerifies(p, user.value, text, SignatureId(0), 0);
    Signatures.VerifyPathsAgree(p, user.value, text, SignatureId(0), 0);
    record := signed.value;
    var logs := new Audit.VerificationLogService();
    controller := new VerificationController(signatures, logs);
  }

  /** One GET /verify/{id} on a record that checks as valid, with `n` rows already logged
      for it: the answer is valid and carries the count n + 1. */
  method VerifyValidRecord(controller: VerificationController, record: Signature, request: HttpRequest,
                           ghost n: int)
    returns (count: int, status: string)
    requires controller.Valid() && controller.signatureService.store == map[record.id := record]
    requires Signatures.VerifySignature(controller.signatureService.provider, record)
    requires GetClientIpAddress(request).Success?
    requires controller.verificationLogService.CountBySignature(record.id) == n
    modifies controller.verificationLogService
    ensures controller.Valid() && controller.signatureService.store == map[record.id := record]
    ensures controller.verificationLogService.CountBySignature(record.id) == n + 1
    ensures count == n + 1 && status == ValidStatus
  {
    assert controller.signatureService.FindById(record.id) == Some(record);
    var response := controller.VerifySignature(record.id, request);
    count := response.body.verificationCount;
    status := response.body.status;
  }

  /** Three GET /verify/{id} in a row on a valid record with nothing logged yet. */
  method VerifyThrice(controller: VerificationController, record: Signature, request: HttpRequest)
    returns (counts: seq<int>, statuses: seq<string>)
    requires controller.Valid() && controller.signatureService.store == map[record.id := record]
    requires Signatures.VerifySignature(controller.signatureService.provider, record)
    requires GetClientIpAddress(request).Success?
    requires controller.verificationLogService.rows == []
    modifies controller.verificationLogService
    ensures counts == [1, 2, 3]
    ensures statuses == [ValidStatus, ValidStatus, ValidStatus]
  {
    assert controller.verificationLogService.CountBySignature(record.id) == 0;
    var c1, s1 := VerifyValidRecord(controller, record, request, 0);
    var c2, s2 := VerifyValidRecord(controller, record, request, 1);
    var c3, s3 := VerifyValidRecord(controller, record, request, 2);
    counts, statuses := [c1, c2, c3], [s1, s2, s3];
  }

  /** Register, sign, then verify the record by id three times: every answer is valid,
      and the counts are 1, 2 and 3. */
  method VerifyByIdThreeTimes(p: Provider, passwordEncoder: string -> string, entropy: nat,
                              text: string, request: HttpRequest)
    returns (counts: seq<int>, statuses: seq<string>)
    requires Sound(p) && p.generateRsa(entropy).Success?
    requires NotBlank(text) && GetClientIpAddress(request).Success?
    ensures counts == [1, 2, 3]
    ensures statuses == [ValidStatus, ValidStatus, ValidStatus]
  {
    var controller, record := SignedSetup(p, passwordEncoder, entropy, text);
    counts, statuses := VerifyThrice(controller, record, request);
  }

  /** POST /verify/text three times on a record whose stored text verifies: the stored text
      is valid and logged once; an altered text is a mismatch; a body without a signature
      is refused before anything else. */
  method VerifyTextCases(controller: VerificationController, record: Signature, altered: string,
                         request: HttpRequest, idText: string,
                         parseUuid: Option<string> -> Result<SignatureId>)
    returns (matching: Response, mismatching: Response, incomplete: Response, count: int)
    requires controller.Valid() && controller.signatureService.store == map[record.id := record]
    requires Signatures.VerifySignatureByText(controller.signatureService.provider, record.originalText,
                                              record.signature, record.user.publicKey)
    requires altered != record.originalText && GetClientIpAddress(request).Success?
    requires parseUuid(None).Failure? && parseUuid(Some(idText)) == Success(record.id)
    requires controller.verificationLogService.rows == []
    modifies controller.verificationLogService
    ensures matching.Ok? && matching.body.isValid && matching.body.status == ValidStatus
    ensures mismatching == BadRequest(TextMismatchMessage)
    ensures incomplete == BadRequest(MissingFieldsMessage)
    ensures count == 1
  {
    var logs := controller.verificationLogService;
    assert logs.CountBySignature(record.id) == 0;
    assert controller.signatureService.FindById(record.id) == Some(record);
    matching := controller.VerifySignatureByText(
      map["text" := record.originalText, "signature" := record.signature, "id" := idText], request, parseUuid);
    assert logs.CountBySignature(record.id) == 1;
    mismatching := controller.VerifySignatureByText(
      map["text" := altered, "signature" := record.signature, "id" := idText], request, parseUuid);
    incomplete := controller.VerifySignatureByText(
      map["text" := record.originalText, "id" := idText], request, parseUuid);
    count := logs.CountBySignature(record.id);
  }

  /** Register, sign, then verify by text: the stored text with its signature is valid and
      logged; an altered text is refused as a mismatch (400, since the lookup goes by id)
      and not logged; a body without a signature is refused before anything else. */
  method VerifyByText(p: Provider, passwordEncoder: string -> string, entropy: nat,
                      text: string, altered: string, request: HttpRequest,
                      idText: string, parseUuid: Option<string> -> Result<SignatureId>)
    returns (matching: Response, mismatching: Response, incomplete: Response, count: int)
    requires Sound(p) && p.generateRsa(entropy).Success?
    requires NotBlank(text) && altered != text && GetClientIpAddress(request).Success?
    requires parseUuid(None).Failure? && parseUuid(Some(idText)) == Success(SignatureId(0))
    ensures matching.Ok? && matching.body.isValid && matching.body.status == ValidStatus
    ensures mismatching == BadRequest(TextMismatchMessage)
    ensures incomplete == BadRequest(MissingFieldsMessage)
    ensures count == 1
  {
    var controller, record := SignedSetup(p, passwordEncoder, entropy, text);
    matching, mismatching, incomplete, count :=
      VerifyTextCases(controller, record, altered, request, idText, parseUuid);
  }

  /** POST /verify/text with a text and a signature but no "id", as the integration test
      sends it: `UUID.fromString(null)` throws, so the answer is 500 and nothing is logged. */
  method VerifyTextWithoutId(controller: VerificationController, text: string, signature: string,
                             request: HttpRequest, parseUuid: Option<string> -> Result<SignatureId>)
    returns (response: Response)
    requires controller.Valid() && parseUuid(None).Failure?
    modifies controller.verificationLogService
    ensures response == InternalError(InternalErrorPrefix + parseUuid(None).error)
    ensures controller.verificationLogService.rows == old(controller.verificationLogService.rows)
  {
    response := controller.VerifySignatureByText(map["text" := text, "signature" := signature], request, parseUuid);
  }
}
