# Certificate validator rules in Dafny

This project models three parts of a certificate validator's rule engine:

- **AND junction.** It combines validator rules. Its children run in order on the same certificate, and the first rejection is the junction's outcome.
- **OCSP rule.** It resolves a certificate's issuer in a bucket of intermediate certificates. Then it asks for the certificate's revocation status once (RFC 6960). Only GOOD is accepted. A certificate without the Authority Information Access extension (section 4.2.2.1 of RFC 5280) is not subject to the rule.
- **Norwegian organization-number validator.** It finds a nine-digit organization number in the certificate's subject and lets a provider judge that number.

A rule in the source accepts by returning normally and rejects by throwing an exception. Here every rule yields an `Outcome`:

- `Accept`
- `Reject(Failed, message)`, for `FailedValidationException`
- `Reject(General, message)`, for `CertificateValidationException`

The OCSP status check and the organization-number provider are collaborators. Each is a function parameter (an oracle). Each rule also returns the list of oracle calls it made. This lets the model state "at most one call, and only with these arguments". A lemma per rule adds that two oracles which agree on those calls give the same result.

Files and modules:

- `outcome.dfy` (`Outcomes`): the outcome and `Option` types.
- `certificate.dfy` (`Certificates`): the certificate view, the subject's distinguished-name attributes, and the bucket lookup by subject.
- `and_junction.dfy` (`Junctions`): the rule datatype, its evaluation, and the AND junction.
- `ocsp_rule.dfy` (`OcspRules`): the OCSP rule. A small exception type models the body of the rule's try block and its two catch clauses.
- `organization_number.dfy` (`OrganizationNumbers`): the two patterns, `extractNumber` and `validate`.

The pattern `^.+\-\W*([0-9]{9})$` is written twice:

- as a declarative language: a string splits into a prefix, a hyphen, non-word characters, and nine digits;
- as a hand-written matcher that scans from the right.

The model proves that the two agree. It also proves that the matcher's group is the number in every possible split.

A missing issuer is a `FailedValidationException` in the code (`OCSPRule.java:41`), so the model gives `Reject(Failed, …)`.

## Model

| member | source | states |
|---|---|---|
| `Certificates.Values` | src/main/java/no/difi/virksomhetssertifikat/extras/NorwegianOrganizationNumberValidator.java:56 | a value is listed exactly when some attribute of the given kind carries it (the assumed behaviour of `extract`) |
| `Certificates.ValuesAppend` | src/main/java/no/difi/virksomhetssertifikat/extras/NorwegianOrganizationNumberValidator.java:56 | the values keep attribute order: those of a concatenation are the first part's, then the second's |
| `Certificates.FindBySubject` | src/main/java/no/difi/certvalidator/rule/OCSPRule.java:39 | the issuer lookup returns a bucket certificate whose subject is the name, and returns nothing exactly when no certificate has that subject |
| `Certificates.FindBySubjectFirst` | src/main/java/no/difi/certvalidator/rule/OCSPRule.java:39 | when several certificates share the subject, the lookup returns the first one in bucket order |
| `Junctions.RunAnd` | src/main/java/no/difi/certvalidator/structure/AndJunction.java:21-24 | every child before the last evaluated one accepted; a rejection is the last evaluated child's own outcome, unchanged; no child after it is evaluated; the junction accepts if and only if every child accepts; zero children accept with nothing evaluated |
| `Junctions.AndPair` | src/main/java/no/difi/certvalidator/structure/AndJunction.java:21-24 | a junction of two rules gives the first rule's rejection, or else the second rule's outcome |
| `Junctions.AndFlatten` | src/main/java/no/difi/certvalidator/structure/AndJunction.java:21-24 | And(rs1 + rs2) decides as And([And(rs1), And(rs2)]) on every certificate |
| `Junctions.AndSingleton` | src/main/java/no/difi/certvalidator/structure/AndJunction.java:21-24 | And([r]) decides as r |
| `Junctions.OcspFirstSkipsWithoutAuthorityInfoAccess` | src/main/java/no/difi/certvalidator/rule/OCSPRule.java:35-37 | at the head of an AND junction, the OCSP rule passes a certificate without the extension on to the remaining children, whose run then decides |
| `OcspRules.Rethrow` | src/main/java/no/difi/certvalidator/rule/OCSPRule.java:47-53 | a caught exception always rejects with its own message; the kind is Failed exactly for a FailedValidationException; any other CertificateValidationException stays General, and any other exception is wrapped as General |
| `OcspRules.Validate` | src/main/java/no/difi/certvalidator/rule/OCSPRule.java:33-54 | at most one status query, and only with this certificate and the issuer found in the bucket; accepts if and only if the extension is absent, or the issuer is found and its status is GOOD |
| `OcspRules.NoAuthorityInfoAccessAccepts` | src/main/java/no/difi/certvalidator/rule/OCSPRule.java:35-37 | without the extension the rule accepts with no query, whatever the bucket and the status check |
| `OcspRules.IssuerMissingFails` | src/main/java/no/difi/certvalidator/rule/OCSPRule.java:39-41 | an issuer missing from the bucket gives Failed "Unable to find issuer certificate '<issuer name>'", printing the issuer's RFC 2253 name, with no status query |
| `OcspRules.StatusOutcome` | src/main/java/no/difi/certvalidator/rule/OCSPRule.java:43-52 | with the issuer found, the single query is (certificate, issuer); GOOD accepts, REVOKED and UNKNOWN give Failed "Certificate status is not reported as GOOD by OCSP.", and a failed check gives General with that failure's message |
| `OcspRules.OnlyQueriedStatusMatters` | src/main/java/no/difi/certvalidator/rule/OCSPRule.java:43-46 | two status checks that agree on the queries made give the same outcome and queries |
| `OrganizationNumbers.OrganizationNumberGroup` | src/main/java/no/difi/virksomhetssertifikat/extras/NorwegianOrganizationNumberValidator.java:26 | the group of the organization-name pattern is always nine ASCII digits |
| `OrganizationNumbers.EndsWithHyphenGapSound` | src/main/java/no/difi/virksomhetssertifikat/extras/NorwegianOrganizationNumberValidator.java:26 | if the right-to-left matcher accepts `.+\-\W*`, the string splits as a non-empty prefix without line terminators, a hyphen, and non-word characters |
| `OrganizationNumbers.EndsWithHyphenGapComplete` | src/main/java/no/difi/virksomhetssertifikat/extras/NorwegianOrganizationNumberValidator.java:26 | every such split is accepted by the right-to-left matcher |
| `OrganizationNumbers.OrganizationNumberGroupCorrect` | src/main/java/no/difi/virksomhetssertifikat/extras/NorwegianOrganizationNumberValidator.java:26 | the matcher finds a group exactly when the whole string matches `^.+\-\W*([0-9]{9})$`, and the group is the nine-digit number of every split |
| `OrganizationNumbers.FirstSerialNumber` | src/main/java/no/difi/virksomhetssertifikat/extras/NorwegianOrganizationNumberValidator.java:56-58 | a value is returned only if it occurs among the values and is exactly nine digits; nothing is returned exactly when no value is |
| `OrganizationNumbers.FirstSerialNumberAt` | src/main/java/no/difi/virksomhetssertifikat/extras/NorwegianOrganizationNumberValidator.java:56-58 | the first nine-digit value in list order is the one returned |
| `OrganizationNumbers.FirstOrganizationNumber` | src/main/java/no/difi/virksomhetssertifikat/extras/NorwegianOrganizationNumberValidator.java:61-64 | a returned number is nine digits; nothing is returned exactly when no value has a group |
| `OrganizationNumbers.FirstOrganizationNumberAt` | src/main/java/no/difi/virksomhetssertifikat/extras/NorwegianOrganizationNumberValidator.java:61-64 | for the first value in list order that matches the organization-name pattern, its last nine characters are returned |
| `OrganizationNumbers.ExtractNumber` | src/main/java/no/difi/virksomhetssertifikat/extras/NorwegianOrganizationNumberValidator.java:53-71 | a found number is nine ASCII digits; an encoding error is reported exactly when the subject cannot be read, and it carries the error's message |
| `OrganizationNumbers.SerialNumberFirst` | src/main/java/no/difi/virksomhetssertifikat/extras/NorwegianOrganizationNumberValidator.java:56-58 | the first nine-digit SERIALNUMBER value is the result, whatever the O values are |
| `OrganizationNumbers.OrganizationNameFallback` | src/main/java/no/difi/virksomhetssertifikat/extras/NorwegianOrganizationNumberValidator.java:56-64 | when no SERIALNUMBER value is nine digits, the result is the last nine characters of the first O value that matches the organization-name pattern |
| `OrganizationNumbers.NotFoundExactly` | src/main/java/no/difi/virksomhetssertifikat/extras/NorwegianOrganizationNumberValidator.java:56-67 | nothing is found if and only if no SERIALNUMBER value is nine digits and no O value matches the organization-name pattern |
| `OrganizationNumbers.Validate` | src/main/java/no/difi/virksomhetssertifikat/extras/NorwegianOrganizationNumberValidator.java:36-44 | the provider is asked at most once, and only about the extracted number; the rule accepts if and only if a number is extracted and the provider accepts it; "not found" and "provider said no" give the same Failed "Organization number not detected."; an unreadable subject gives General with the encoding error's message, and the provider is not asked |
| `OrganizationNumbers.OnlyConsultedValuesMatter` | src/main/java/no/difi/virksomhetssertifikat/extras/NorwegianOrganizationNumberValidator.java:37-40 | two providers that agree on the values asked about give the same outcome and calls |
| `OrganizationNumbers.SerialNumberExample` | src/main/java/no/difi/virksomhetssertifikat/extras/NorwegianOrganizationNumberValidator.java:55 | the subject C=NO,…,O=RF Commfides,SERIALNUMBER=399573952,CN=RF Commfides yields 399573952 |
| `OrganizationNumbers.OrganizationNameExample` | src/main/java/no/difi/virksomhetssertifikat/extras/NorwegianOrganizationNumberValidator.java:60 | the subject CN=name, OU=None, O=organisasjon - 123456789, L=None, C=None yields 123456789 |

## Left out

- Logging (the debug lines of all three classes, with the serial number) is a side channel that does not affect control flow. It is not modelled.
- The OCSP protocol and its transport behind `getRevocationStatus` (`OCSPRule.java:56-58`) are not modelled. The check is an oracle parameter. It returns a status or the message of the IOException or CertPathValidatorException it threw.
- X.509 decoding and the extension lookup are not modelled. The certificate is a record: subject and issuer names, the issuer's printed name, whether the Authority Information Access extension is present, and the subject's attributes.
- One string stands for each principal, and string equality stands for `X500Principal.equals`; the normalisation behind that equality is not modelled. The missing-issuer message prints a separate field, `issuerName`, which stands for the RFC 2253 form that `getName()` returns (`OCSPRule.java:41`).
- The serial number is read only by the log lines, so the certificate record has no serial-number field.
- Parsing a distinguished name into attributes (`extract` and `getSubject` of the principal-name base class) is not part of this model. The subject is given as its ordered list of attributes, or as the message of the encoding error. `Certificates.Values` assumes that `extract` returns the values of one attribute type in the order they occur, with the type matched exactly.
- The source calls `getSubject` twice, once per attribute type. The model decodes the subject once, so it assumes both calls give the same answer.
- Strings are sequences of Unicode code points, not Java's UTF-16 units. Both patterns only count and test ASCII digits, hyphens and the classes `\W` and `.`, so matching is the same.
- In `OCSPRule`, a null bucket, a null status, or a runtime exception thrown by a collaborator is not modelled. These would pass through its catch-all clause (`OCSPRule.java:50-52`) as General rejections.
- In `AndJunction` and `NorwegianOrganizationNumberValidator`, unchecked exceptions escape unwrapped and are not modelled. This covers a child rule's runtime exception in the junction loop (`AndJunction.java:22-23`). It also covers a runtime exception from `provider.validate`, `extract` or `getSubject` in the organization-number validator, which catches only `CertificateEncodingException` (`NorwegianOrganizationNumberValidator.java:68`). `Outcome` has no third kind for such an escape.
- The exception cause attached when the source wraps an exception is not modelled; only its message is.
- The organization-number validator belongs to a different package than the other two classes. That package has its own `FailedValidationException` and `CertificateValidationException`. The model maps both packages onto the same `Outcome`, and it does not treat this validator as a `Rule` of the junction.
- The certificate bucket implementations are not part of this model: building them from a key store, iterating over them, and converting them to simple form. Only the lookup by subject that the OCSP rule uses is modelled.
- The OR junction, the principal-name rule, and the validator entry point are not part of this model.
- `OCSPRule` sets its bucket once in its constructor and only reads it afterwards. The model has no state: the bucket is a plain parameter of `OcspRules.Validate` and a fixed part of `Junctions.OcspRule`, so nothing can replace it.
