/**
 * The read-only view of an X.509 certificate that the rules need, and the
 * certificate bucket used to resolve issuers.
 */
module Certificates {
  import opened Outcomes

  /** One attribute of a distinguished name, such as O=Some Company. */
  datatype Attribute = Attribute(kind: string, value: string)

  /** The subject distinguished name as its ordered attributes, or the encoding error met while reading it. */
  datatype SubjectName = Decoded(attributes: seq<Attribute>) | EncodingFailure(message: string)

  datatype Certificate = Certificate(
    subject: string,                // the subject principal; string equality stands for X500Principal.equals
    issuer: string,                 // the issuer principal, compared likewise
    issuerName: string,             // the issuer principal as printed by getName() (RFC 2253 form)
    hasAuthorityInfoAccess: bool,   // whether the Authority Information Access extension is present
    subjectName: SubjectName)

  /** The values of all attributes of the given kind, in the order they occur. */
  function Values(attributes: seq<Attribute>, kind: string): (vs: seq<string>)
    ensures forall v :: v in vs <==>
      exists i | 0 <= i < |attributes| :: attributes[i].kind == kind && attributes[i].value == v
  {
    if attributes == [] then []
    else if attributes[0].kind == kind then [attributes[0].value] + Values(attributes[1..], kind)
    else Values(attributes[1..], kind)
  }

  /** Values keep attribute order: those of a concatenation are those of the first part, then the second. */
  lemma {:induction false} ValuesAppend(a: seq<Attribute>, b: seq<Attribute>, kind: string)
    ensures Values(a + b, kind) == Values(a, kind) + Values(b, kind)
  {
    if a == [] {
      assert a + b == b;
    } else {
      assert (a + b)[0] == a[0];
      assert (a + b)[1..] == a[1..] + b;
      ValuesAppend(a[1..], b, kind);
    }
  }

  /** A bucket of certificates, in the order in which it enumerates them. */
  type Bucket = seq<Certificate>

  /** The first certificate of the bucket whose subject is `name`, if any. */
  function FindBySubject(bucket: Bucket, name: string): (r: Option<Certificate>)
    ensures r.Some? ==> r.value in bucket && r.value.subject == name
    ensures r.None? <==> forall i | 0 <= i < |bucket| :: bucket[i].subject != name
  {
    if bucket == [] then None
    else if bucket[0].subject == name then Some(bucket[0])
    else FindBySubject(bucket[1..], name)
  }

  /** Of several certificates with the same subject, lookup returns the first. */
  lemma {:induction false} FindBySubjectFirst(bucket: Bucket, name: string, i: nat)
    requires i < |bucket| && bucket[i].subject == name
    requires forall j | 0 <= j < i :: bucket[j].subject != name
    ensures FindBySubject(bucket, name) == Some(bucket[i])
  {
    if i > 0 {
      FindBySubjectFirst(bucket[1..], name, i - 1);
    }
  }
}
