/**
 * The result of evaluating a validator rule. A rule signals acceptance by
 * returning normally and rejection by throwing; the two exception classes of
 * the validator API become the two rejection kinds.
 */
module Outcomes {

  /** Which exception a rejecting rule throws. */
  datatype ErrorKind =
    | Failed   // FailedValidationException: the certificate was found not to satisfy the rule
    | General  // CertificateValidationException: the rule could not reach a decision

  datatype Outcome = Accept | Reject(kind: ErrorKind, message: string)

  datatype Option<+T> = None | Some(value: T)
}
