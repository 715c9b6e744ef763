/** VerificationResponse: the mutable reply of the verification endpoints. Its status text
    is derived from the validity flag by the constructor and by `setValid`, not by
    `setStatus`. */
module Responses {
  import opened Entities

  const ValidStatus: string := "VÁLIDA"
  const InvalidStatus: string := "INVÁLIDA"

  /** The status text for a validity flag. */
  function StatusOf(isValid: bool): (status: string)
    ensures status == ValidStatus || status == InvalidStatus
    ensures status == ValidStatus <==> isValid
  {
    if isValid then ValidStatus else InvalidStatus
  }

  /** The fields of a response, as the JSON body shows them. */
  datatype ResponseBody = ResponseBody(
    signatureId: SignatureId,
    isValid: bool,
    status: string,
    signatory: string,
    algorithm: string,
    signedAt: nat,
    originalText: string,
    verificationCount: int)

  class VerificationResponse {
    var signatureId: SignatureId
    var isValid: bool
    var status: string
    var signatory: string
    var algorithm: string
    var signedAt: nat
    var originalText: string
    var verificationCount: int

    function Body(): ResponseBody
      reads this
    {
      ResponseBody(signatureId, isValid, status, signatory, algorithm, signedAt, originalText, verificationCount)
    }

    /** The status agrees with the validity flag. */
    ghost predicate Consistent()
      reads this
    {
      status == StatusOf(isValid)
    }

    constructor (signatureId: SignatureId, isValid: bool, signatory: string, algorithm: string,
                 signedAt: nat, originalText: string, verificationCount: int)
      ensures Consistent()
      ensures Body() == ResponseBody(signatureId, isValid, StatusOf(isValid), signatory, algorithm,
                                     signedAt, originalText, verificationCount)
    {
      this.signatureId := signatureId;
      this.isValid := isValid;
      this.status := if isValid then ValidStatus else InvalidStatus;
      this.signatory := signatory;
      this.algorithm := algorithm;
      this.signedAt := signedAt;
      this.originalText := originalText;
      this.verificationCount := verificationCount;
    }

    method SetSignatureId(signatureId: SignatureId)
      modifies this
      ensures Body() == old(Body()).(signatureId := signatureId)
      ensures Consistent() <==> old(Consistent())
    {
      this.signatureId := signatureId;
    }

    /** `setValid`: the flag and the status change together, so the response is consistent
        afterwards whatever it was before. */
    method SetValid(valid: bool)
      modifies this
      ensures Body() == old(Body()).(isValid := valid, status := StatusOf(valid))
      ensures Consistent()
    {
      isValid := valid;
      status := if valid then ValidStatus else InvalidStatus;
    }

    /** `setStatus`: only the status changes, so consistency now holds exactly when the new
        text is the one the current flag calls for. */
    method SetStatus(status: string)
      modifies this
      ensures Body() == old(Body()).(status := status)
      ensures Consistent() <==> status == StatusOf(isValid)
    {
      this.status := status;
    }

    method SetSignatory(signatory: string)
      modifies this
      ensures Body() == old(Body()).(signatory := signatory)
      ensures Consistent() <==> old(Consistent())
    {
      this.signatory := signatory;
    }

    method SetAlgorithm(algorithm: string)
      modifies this
      ensures Body() == old(Body()).(algorithm := algorithm)
      ensures Consistent() <==> old(Consistent())
    {
      this.algorithm := algorithm;
    }

    method SetSignedAt(signedAt: nat)
      modifies this
      ensures Body() == old(Body()).(signedAt := signedAt)
      ensures Consistent() <==> old(Consistent())
    {
      this.signedAt := signedAt;
    }

    method SetOriginalText(originalText: string)
      modifies this
      ensures Body() == old(Body()).(originalText := originalText)
      ensures Consistent() <==> old(Consistent())
    {
      this.originalText := originalText;
    }

    method SetVerificationCount(verificationCount: int)
      modifies this
      ensures Body() == old(Body()).(verificationCount := verificationCount)
      ensures Consistent() <==> old(Consistent())
    {
      this.verificationCount := verificationCount;
    }
  }

  /** A client of the setters: `setStatus` can leave a response whose status contradicts
      its flag, and a later `setValid` restores agreement. */
  method StatusCanDrift(r: VerificationResponse) returns (afterSetStatus: bool, afterSetValid: bool)
    modifies r
    ensures !afterSetStatus && afterSetValid
  {
    var v := r.isValid;
    r.SetStatus(StatusOf(!v));
    afterSetStatus := r.status == StatusOf(r.isValid);
    r.SetValid(v);
    afterSetValid := r.status == StatusOf(r.isValid);
  }
}
