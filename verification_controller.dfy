/** VerificationController: the two verification endpoints. Each looks the record up,
    checks it, appends one audit row and answers with the count read after that append. */
module Verification {
  import opened Wrappers
  import opened JavaText
  import opened Entities
  import Signatures
  import Audit
  import opened Responses

  /** The parts of an HTTP request the controller reads. Header names are matched exactly. */
  datatype HttpRequest = HttpRequest(headers: map<string, string>, remoteAddr: string)

  /** `request.getHeader(name)`: null when absent. */
  function GetHeader(request: HttpRequest, name: string): (value: Option<string>) {
    if name in request.headers then Some(request.headers[name]) else None
  }

  /** The message of the exception `split(",")[0]` throws on an empty array. */
  const EmptySplitMessage: string := "Index 0 out of bounds for length 0"

  /** `getClientIpAddress`: the first comma-separated element of a non-empty X-Forwarded-For,
      trimmed; else a non-empty X-Real-IP; else the remote address. An X-Forwarded-For made
      only of commas splits into no element at all, and indexing it throws. */
  function GetClientIpAddress(request: HttpRequest): (r: Result<string>)
    ensures var xff := GetHeader(request, "X-Forwarded-For");
            xff.Some? && xff.value != "" ==>
              && (r.Failure? <==> forall i :: 0 <= i < |xff.value| ==> xff.value[i] == ',')
              && (r.Success? ==> r.value == Trim(BeforeFirst(xff.value, ',')))
    ensures var xff, xri := GetHeader(request, "X-Forwarded-For"), GetHeader(request, "X-Real-IP");
            !(xff.Some? && xff.value != "") && xri.Some? && xri.value != "" ==> r == Success(xri.value)
    ensures var xff, xri := GetHeader(request, "X-Forwarded-For"), GetHeader(request, "X-Real-IP");
            !(xff.Some? && xff.value != "") && !(xri.Some? && xri.value != "") ==> r == Success(request.remoteAddr)
  {
    var xForwardedFor := GetHeader(request, "X-Forwarded-For");
    if xForwardedFor.Some? && xForwardedFor.value != "" then
      var parts := Split(xForwardedFor.value, ',');
      SplitFirst(xForwardedFor.value, ',');
      if |parts| == 0 then Failure(EmptySplitMessage) else Success(Trim(parts[0]))
    else
      var xRealIp := GetHeader(request, "X-Real-IP");
      if xRealIp.Some? && xRealIp.value != "" then Success(xRealIp.value) else Success(request.remoteAddr)
  }

  const NotFoundMessage: string := "Assinatura não encontrada"
  const MissingFieldsMessage: string := "Texto e assinatura são obrigatórios"
  const TextMismatchMessage: string := "Texto não corresponde à assinatura"
  const InternalErrorPrefix: string := "Erro ao verificar assinatura: "

  /** The HTTP reply: 200 with a response object, or 404, 400 or 500 with an error message. */
  datatype Response =
    | Ok(body: VerificationResponse)
    | NotFound(error: string)
    | BadRequest(error: string)
    | InternalError(error: string)

  class VerificationController {
    const signatureService: Signatures.SignatureService
    const verificationLogService: Audit.VerificationLogService

    ghost predicate Valid()
      reads this, signatureService, verificationLogService
    {
      signatureService.Valid() && verificationLogService.Valid()
    }

    constructor (signatureService: Signatures.SignatureService, verificationLogService: Audit.VerificationLogService)
      ensures this.signatureService == signatureService
      ensures this.verificationLogService == verificationLogService
    {
      this.signatureService := signatureService;
      this.verificationLogService := verificationLogService;
    }

    /** The row an answered verification appends. */
    ghost function NextRow(id: SignatureId, ip: string, request: HttpRequest, valid: bool): VerificationLog
      reads verificationLogService
    {
      VerificationLog(|verificationLogService.rows|, id, |verificationLogService.rows|, ip,
                      GetHeader(request, "User-Agent"), valid)
    }

    /** The body of a 200 reply for `record` with the given validity and count. */
    function Reply(record: Signature, valid: bool, count: int): (body: ResponseBody) {
      ResponseBody(record.id, valid, StatusOf(valid), record.user.name, record.algorithm,
                   record.createdAt, record.originalText, count)
    }

    /** `verifySignature` (GET /verify/{id}). */
    method VerifySignature(id: SignatureId, request: HttpRequest) returns (response: Response)
      requires Valid()
      modifies verificationLogService
      ensures Valid()
      // unknown id: 404, and nothing is logged
      ensures signatureService.FindById(id).None? ==>
                response == NotFound(NotFoundMessage) && verificationLogService.rows == old(verificationLogService.rows)
      // the client address cannot be read: 500, and nothing is logged
      ensures signatureService.FindById(id).Some? && GetClientIpAddress(request).Failure? ==>
                && response == InternalError(InternalErrorPrefix + GetClientIpAddress(request).error)
                && verificationLogService.rows == old(verificationLogService.rows)
      // otherwise exactly one row with the computed validity, and the count read after it
      ensures signatureService.FindById(id).Some? && GetClientIpAddress(request).Success? ==>
                var record := signatureService.store[id];
                var valid := Signatures.VerifySignature(signatureService.provider, record);
                && verificationLogService.rows
                     == old(verificationLogService.rows) + [old(NextRow(id, GetClientIpAddress(request).value, request, valid))]
                && verificationLogService.CountBySignature(id) == old(verificationLogService.CountBySignature(id)) + 1
                && response.Ok? && fresh(response.body) && response.body.Consistent()
                && response.body.Body() == Reply(record, valid, verificationLogService.CountBySignature(id))
    {
      var signatureOptional := signatureService.FindById(id);
      if signatureOptional.None? {
        return NotFound(NotFoundMessage);
      }
      var signature := signatureOptional.value;
      var isValid := Signatures.VerifySignature(signatureService.provider, signature);
      var ipAddress := GetClientIpAddress(request);
      if ipAddress.Failure? {
        return InternalError(InternalErrorPrefix + ipAddress.error);
      }
      var userAgent := GetHeader(request, "User-Agent");
      var _ := verificationLogService.LogVerification(signature.id, ipAddress.value, userAgent, isValid);
      var verificationCount := verificationLogService.CountBySignature(signature.id);
      var body := new VerificationResponse(signature.id, isValid, signature.user.name, signature.algorithm,
                                           signature.createdAt, signature.originalText, verificationCount);
      response := Ok(body);
    }

    /** `verifySignatureByText` (POST /verify/text). The record is found through the body's
        "id", parsed by `parseUuid` (UUID.fromString, which throws on null and on malformed
        text); the presented signature is checked against the record owner's public key. */
    method VerifySignatureByText(body: map<string, string>, httpRequest: HttpRequest,
                                 parseUuid: Option<string> -> Result<SignatureId>)
      returns (response: Response)
      requires Valid()
      requires parseUuid(None).Failure?
      modifies verificationLogService
      ensures Valid()
      // a missing field: 400 before any lookup, nothing logged
      ensures ("text" !in body || "signature" !in body) ==>
                response == BadRequest(MissingFieldsMessage)
                && verificationLogService.rows == old(verificationLogService.rows)
      // anything other than a fully answered request logs nothing
      ensures !response.Ok? ==> verificationLogService.rows == old(verificationLogService.rows)
      ensures "text" in body && "signature" in body ==>
                var parsed := parseUuid(if "id" in body then Some(body["id"]) else None);
                && (parsed.Failure? ==> response == InternalError(InternalErrorPrefix + parsed.error))
                && (parsed.Success? && signatureService.FindById(parsed.value).None? ==>
                      response == NotFound(NotFoundMessage))
                && (parsed.Success? && signatureService.FindById(parsed.value).Some? ==>
                      var record := signatureService.store[parsed.value];
                      var valid := Signatures.VerifySignatureByText(signatureService.provider, body["text"],
                                                                    body["signature"], record.user.publicKey);
                      var ip := GetClientIpAddress(httpRequest);
                      && (record.originalText != body["text"] ==> response == BadRequest(TextMismatchMessage))
                      && (record.originalText == body["text"] && ip.Failure? ==>
                            response == InternalError(InternalErrorPrefix + ip.error))
                      && (record.originalText == body["text"] && ip.Success? ==>
                            && verificationLogService.rows
                                 == old(verificationLogService.rows) + [old(NextRow(record.id, ip.value, httpRequest, valid))]
                            && verificationLogService.CountBySignature(record.id)
                                 == old(verificationLogService.CountBySignature(record.id)) + 1
                            && response.Ok? && fresh(response.body) && response.body.Consistent()
                            && response.body.Body() == Reply(record, valid, verificationLogService.CountBySignature(record.id))))
    {
      var originalText := if "text" in body then Some(body["text"]) else None;
      var signatureValue := if "signature" in body then Some(body["signature"]) else None;
      if originalText.None? || signatureValue.None? {
        return BadRequest(MissingFieldsMessage);
      }
      var id := parseUuid(if "id" in body then Some(body["id"]) else None);
      if id.Failure? {
        return InternalError(InternalErrorPrefix + id.error);
      }
      var signatureOptional := signatureService.FindById(id.value);
      if signatureOptional.None? {
        return NotFound(NotFoundMessage);
      }
      var signature := signatureOptional.value;
      if signature.originalText != originalText.value {
        return BadRequest(TextMismatchMessage);
      }
      var isValid := Signatures.VerifySignatureByText(signatureService.provider, originalText.value,
                                                      signatureValue.value, signature.user.publicKey);
      var ipAddress := GetClientIpAddress(httpRequest);
      if ipAddress.Failure? {
        return InternalError(InternalErrorPrefix + ipAddress.error);
      }
      var userAgent := GetHeader(httpRequest, "User-Agent");
      var _ := verificationLogService.LogVerification(signature.id, ipAddress.value, userAgent, isValid);
      var verificationCount := verificationLogService.CountBySignature(signature.id);
      var responseBody := new VerificationResponse(signature.id, isValid, signature.user.name, signature.algorithm,
                                                   signature.createdAt, signature.originalText, verificationCount);
      response := Ok(responseBody);
    }
  }
}
