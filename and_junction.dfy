/**
 * Validator rules and the AND junction: children are evaluated in their
 * stored order on the same certificate, and the first rejection ends the
 * evaluation and is the junction's own outcome.
 */
module Junctions {
  import opened Outcomes
  import opened Certificates
  import OcspRules

  /** A validator rule: a junction over child rules, or any other rule given by its decision. */
  datatype Rule =
    | And(children: seq<Rule>)
    | Leaf(validate: Certificate -> Outcome)

  function Eval(rule: Rule, cert: Certificate): (outcome: Outcome)
  {
    match rule
    case Leaf(validate) => validate(cert)
    case And(children) => RunAnd(children, cert).outcome
  }

  /** The outcome of an AND junction and how many of its children were evaluated. */
  datatype JunctionRun = JunctionRun(outcome: Outcome, evaluated: nat)

  /** AndJunction.validate: each child in order, stopping at the first that rejects. */
  function RunAnd(children: seq<Rule>, cert: Certificate): (run: JunctionRun)
    ensures run.evaluated <= |children|
    ensures children == [] ==> run == JunctionRun(Accept, 0)
    // every child evaluated before the last one accepted
    ensures forall j | 0 <= j < run.evaluated - 1 :: Eval(children[j], cert) == Accept
    // a rejection is the last evaluated child's own outcome, unchanged
    ensures run.outcome.Reject? ==> 1 <= run.evaluated && Eval(children[run.evaluated - 1], cert) == run.outcome
    ensures run.outcome.Accept? <==> forall j | 0 <= j < |children| :: Eval(children[j], cert) == Accept
    ensures run.outcome.Accept? ==> run.evaluated == |children|
  {
    if children == [] then JunctionRun(Accept, 0)
    else
      var first := Eval(children[0], cert);
      if first.Reject? then JunctionRun(first, 1)
      else
        var rest := RunAnd(children[1..], cert);
        JunctionRun(rest.outcome, rest.evaluated + 1)
  }

  /** A junction of two rules is the first rule's rejection, or else the second rule's outcome. */
  lemma AndPair(a: Rule, b: Rule, cert: Certificate)
    ensures Eval(And([a, b]), cert) == if Eval(a, cert).Reject? then Eval(a, cert) else Eval(b, cert)
  {
    assert [a, b][1..] == [b];
    assert [b][1..] == [];
    if Eval(a, cert).Accept? {
      assert RunAnd([a, b], cert).outcome == RunAnd([b], cert).outcome;
      if Eval(b, cert).Accept? {
        assert RunAnd([b], cert).outcome == RunAnd([], cert).outcome;
      }
    }
  }

  /** Splitting a junction's children into two nested junctions does not change its outcome. */
  lemma {:induction false} AndFlatten(rs1: seq<Rule>, rs2: seq<Rule>, cert: Certificate)
    ensures Eval(And(rs1 + rs2), cert) == Eval(And([And(rs1), And(rs2)]), cert)
  {
    AndPair(And(rs1), And(rs2), cert);
    if rs1 == [] {
      assert rs1 + rs2 == rs2;
    } else {
      var tail := rs1[1..];
      assert (rs1 + rs2)[0] == rs1[0];
      assert (rs1 + rs2)[1..] == tail + rs2;
      if Eval(rs1[0], cert).Accept? {
        assert Eval(And(rs1 + rs2), cert) == Eval(And(tail + rs2), cert);
        assert Eval(And(rs1), cert) == Eval(And(tail), cert);
        AndFlatten(tail, rs2, cert);
        AndPair(And(tail), And(rs2), cert);
      }
    }
  }

  /** A junction with one child decides as that child does. */
  lemma AndSingleton(r: Rule, cert: Certificate)
    ensures Eval(And([r]), cert) == Eval(r, cert)
  {
  }

  /** The OCSP rule as a child of a junction. */
  function OcspRule(intermediates: Bucket, status: OcspRules.StatusOracle): (rule: Rule)
  {
    Leaf(cert => OcspRules.Validate(cert, intermediates, status).outcome)
  }

  /** Leading an AND junction, the OCSP rule lets a certificate without the extension through to the rest. */
  lemma OcspFirstSkipsWithoutAuthorityInfoAccess(
    intermediates: Bucket, status: OcspRules.StatusOracle, rest: seq<Rule>, cert: Certificate)
    requires !cert.hasAuthorityInfoAccess
    ensures RunAnd([OcspRule(intermediates, status)] + rest, cert) ==
      var run := RunAnd(rest, cert); JunctionRun(run.outcome, run.evaluated + 1)
  {
  }
}
