/**
 * The OCSP revocation rule. A certificate that names no OCSP responder (no
 * Authority Information Access extension, section 4.2.2.1 of RFC 5280) is not
 * subject to the rule; otherwise its issuer is looked up among the configured
 * intermediate certificates and the revocation status (RFC 6960) is queried
 * once. Only a GOOD status accepts.
 */
module OcspRules {
  import opened Outcomes
  import opened Certificates

  /** What the revocation status check yields: a status, or the exception it threw. */
  datatype RevocationStatus =
    | Good
    | Revoked
    | Unknown
    | CheckFailed(message: string)  // IOException or CertPathValidatorException

  /** The status check: the network call to the responder, given the certificate and its issuer. */
  type StatusOracle = (Certificate, Certificate) -> RevocationStatus

  datatype StatusQuery = StatusQuery(certificate: Certificate, issuer: Certificate)

  /** The exceptions that can leave the body of the rule's try block. */
  datatype Thrown =
    | FailedValidationException(message: string)
    | CertificateValidationException(message: string)
    | OtherException(message: string)

  /** FailedValidationException is a subclass of CertificateValidationException. */
  predicate IsCertificateValidationException(e: Thrown)
  {
    e.FailedValidationException? || e.CertificateValidationException?
  }

  const NotGoodMessage := "Certificate status is not reported as GOOD by OCSP."

  function IssuerNotFoundMessage(issuerName: string): string
  {
    "Unable to find issuer certificate '" + issuerName + "'"
  }

  /** What the try block did: the exception it threw (None when it completed) and the status queries it made. */
  datatype CheckRun = CheckRun(thrown: Option<Thrown>, queries: seq<StatusQuery>)

  /** The body of the try block of OCSPRule.validate. */
  function Check(cert: Certificate, intermediates: Bucket, status: StatusOracle): CheckRun
  {
    if !cert.hasAuthorityInfoAccess then CheckRun(None, [])
    else match FindBySubject(intermediates, cert.issuer)
      case None => CheckRun(Some(FailedValidationException(IssuerNotFoundMessage(cert.issuerName))), [])
      case Some(issuer) =>
        var queries := [StatusQuery(cert, issuer)];
        match status(cert, issuer)
        case Good => CheckRun(None, queries)
        case Revoked => CheckRun(Some(FailedValidationException(NotGoodMessage)), queries)
        case Unknown => CheckRun(Some(FailedValidationException(NotGoodMessage)), queries)
        case CheckFailed(m) => CheckRun(Some(OtherException(m)), queries)
  }

  /** The catch clauses: a validation exception is rethrown as it is, anything else becomes a general one. */
  function Rethrow(e: Thrown): (r: Outcome)
    ensures r.Reject? && r.message == e.message
    ensures r.kind == Failed <==> e.FailedValidationException?
  {
    if IsCertificateValidationException(e) then
      Reject(if e.FailedValidationException? then Failed else General, e.message)
    else
      Reject(General, e.message)
  }

  /** The outcome of the rule and the status queries made while reaching it. */
  datatype OcspRun = OcspRun(outcome: Outcome, queries: seq<StatusQuery>)

  /** OCSPRule.validate with its intermediate-certificate bucket and its status check. */
  function Validate(cert: Certificate, intermediates: Bucket, status: StatusOracle): (run: OcspRun)
    // at most one query, and only about this certificate and the issuer found in the bucket
    ensures |run.queries| <= 1
    ensures run.queries != [] ==>
      cert.hasAuthorityInfoAccess && FindBySubject(intermediates, cert.issuer).Some? &&
      run.queries == [StatusQuery(cert, FindBySubject(intermediates, cert.issuer).value)]
    // only a missing extension or a GOOD status accepts
    ensures run.outcome.Accept? <==>
      !cert.hasAuthorityInfoAccess ||
      (FindBySubject(intermediates, cert.issuer).Some? &&
       status(cert, FindBySubject(intermediates, cert.issuer).value) == Good)
  {
    var check := Check(cert, intermediates, status);
    match check.thrown
    case None => OcspRun(Accept, check.queries)
    case Some(e) => OcspRun(Rethrow(e), check.queries)
  }

  /** Without the extension the certificate is accepted, with no lookup and no query. */
  lemma NoAuthorityInfoAccessAccepts(cert: Certificate, intermediates: Bucket, status: StatusOracle)
    requires !cert.hasAuthorityInfoAccess
    ensures Validate(cert, intermediates, status) == OcspRun(Accept, [])
  {
  }

  /** An issuer missing from the bucket is a failed validation naming it in RFC 2253 form, reached without any query. */
  lemma IssuerMissingFails(cert: Certificate, intermediates: Bucket, status: StatusOracle)
    requires cert.hasAuthorityInfoAccess
    requires forall i | 0 <= i < |intermediates| :: intermediates[i].subject != cert.issuer
    ensures Validate(cert, intermediates, status)
      == OcspRun(Reject(Failed, IssuerNotFoundMessage(cert.issuerName)), [])
  {
  }

  /** With the issuer found, each reported status maps to its outcome. */
  lemma StatusOutcome(cert: Certificate, intermediates: Bucket, status: StatusOracle, issuer: Certificate)
    requires cert.hasAuthorityInfoAccess
    requires FindBySubject(intermediates, cert.issuer) == Some(issuer)
    ensures Validate(cert, intermediates, status).queries == [StatusQuery(cert, issuer)]
    ensures Validate(cert, intermediates, status).outcome ==
      match status(cert, issuer)
      case Good => Accept
      case Revoked => Reject(Failed, NotGoodMessage)
      case Unknown => Reject(Failed, NotGoodMessage)
      case CheckFailed(m) => Reject(General, m)
  {
  }

  /** Two status checks that agree on the queries the rule makes lead to the same run. */
  lemma OnlyQueriedStatusMatters(cert: Certificate, intermediates: Bucket, s1: StatusOracle, s2: StatusOracle)
    requires forall q | q in Validate(cert, intermediates, s1).queries :: s1(q.certificate, q.issuer) == s2(q.certificate, q.issuer)
    ensures Validate(cert, intermediates, s1) == Validate(cert, intermediates, s2)
  {
  }
}
