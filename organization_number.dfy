/**
 * Detection of a Norwegian organization number in the subject of a
 * certificate. The number is nine digits, found either as a SERIALNUMBER
 * attribute that is exactly the number or as the tail of an O attribute
 * ("organisasjon - 123456789"), and is then judged by a provider.
 */
module OrganizationNumbers {
  import opened Outcomes
  import opened Certificates

  const SerialNumberKind := "SERIALNUMBER"
  const OrganizationKind := "O"
  const NumberLength := 9
  const NotDetectedMessage := "Organization number not detected."

  /** [0-9] */
  predicate IsDigit(c: char) { '0' <= c <= '9' }

  /** \w without the Unicode flag: [a-zA-Z_0-9] */
  predicate IsWordChar(c: char)
  {
    ('a' <= c <= 'z') || ('A' <= c <= 'Z') || c == '_' || IsDigit(c)
  }

  /** The characters that `.` does not match: the line terminators. */
  predicate IsLineTerminator(c: char)
  {
    c == '\n' || c == '\r' || c == '\U{85}' || c == '\U{2028}' || c == '\U{2029}'
  }

  predicate AllDigits(s: string) { forall i | 0 <= i < |s| :: IsDigit(s[i]) }

  predicate AllNonWord(s: string) { forall i | 0 <= i < |s| :: !IsWordChar(s[i]) }

  predicate NoLineTerminator(s: string) { forall i | 0 <= i < |s| :: !IsLineTerminator(s[i]) }

  /** The whole string matches ^[0-9]{9}$. */
  predicate IsSerialNumber(s: string)
  {
    |s| == NumberLength && AllDigits(s)
  }

  // ---------------------------------------------------------------------
  // The organization-name pattern ^.+\-\W*([0-9]{9})$

  /** s splits as .+ then a hyphen then \W* then the nine-digit group. */
  ghost predicate OrganizationNameParse(s: string, prefix: string, gap: string, number: string)
  {
    && s == prefix + "-" + gap + number
    && |prefix| >= 1 && NoLineTerminator(prefix)
    && AllNonWord(gap)
    && |number| == NumberLength && AllDigits(number)
  }

  /** The whole string matches ^.+\-\W*([0-9]{9})$. */
  ghost predicate MatchesOrganizationName(s: string)
  {
    exists prefix, gap, number :: OrganizationNameParse(s, prefix, gap, number)
  }

  /** head splits as .+ then a hyphen then \W*. */
  ghost predicate HyphenGapParse(head: string, prefix: string, gap: string)
  {
    head == prefix + "-" + gap && |prefix| >= 1 && NoLineTerminator(prefix) && AllNonWord(gap)
  }

  /** `.+\-\W*` matches the whole of `head`, read from its right end. */
  predicate EndsWithHyphenGap(head: string)
    decreases |head|
  {
    && |head| >= 2
    && var last := head[|head| - 1];
       || (last == '-' && NoLineTerminator(head[..|head| - 1]))
       || (!IsWordChar(last) && EndsWithHyphenGap(head[..|head| - 1]))
  }

  /** The group of the organization-name pattern when the whole string matches it. */
  function OrganizationNumberGroup(s: string): (g: Option<string>)
    ensures g.Some? ==> |g.value| == NumberLength && AllDigits(g.value)
  {
    if |s| >= NumberLength && AllDigits(s[|s| - NumberLength..]) && EndsWithHyphenGap(s[..|s| - NumberLength])
    then Some(s[|s| - NumberLength..])
    else None
  }

  lemma {:induction false} EndsWithHyphenGapSound(head: string)
    requires EndsWithHyphenGap(head)
    ensures exists prefix, gap :: HyphenGapParse(head, prefix, gap)
  {
    var init, last := head[..|head| - 1], head[|head| - 1];
    assert head == init + [last];
    if last == '-' && NoLineTerminator(init) {
      assert head == init + "-" + [];
      assert HyphenGapParse(head, init, []);
    } else {
      EndsWithHyphenGapSound(init);
      var prefix, gap :| HyphenGapParse(init, prefix, gap);
      assert head == prefix + "-" + (gap + [last]);
      assert HyphenGapParse(head, prefix, gap + [last]);
    }
  }

  lemma {:induction false} EndsWithHyphenGapComplete(head: string, prefix: string, gap: string)
    requires HyphenGapParse(head, prefix, gap)
    ensures EndsWithHyphenGap(head)
    decreases |gap|
  {
    if gap == [] {
      assert head[..|head| - 1] == prefix;
    } else {
      var init := gap[..|gap| - 1];
      assert head[..|head| - 1] == prefix + "-" + init;
      assert head[|head| - 1] == gap[|gap| - 1];
      EndsWithHyphenGapComplete(head[..|head| - 1], prefix, init);
    }
  }

  /** The hand-written matcher agrees with the pattern, and its group is the number of every parse. */
  lemma OrganizationNumberGroupCorrect(s: string)
    ensures OrganizationNumberGroup(s).Some? <==> MatchesOrganizationName(s)
    ensures forall prefix, gap, number | OrganizationNameParse(s, prefix, gap, number) ::
      OrganizationNumberGroup(s) == Some(number)
  {
    if OrganizationNumberGroup(s).Some? {
      var head, number := s[..|s| - NumberLength], s[|s| - NumberLength..];
      EndsWithHyphenGapSound(head);
      var prefix, gap :| HyphenGapParse(head, prefix, gap);
      assert s == head + number;
      assert OrganizationNameParse(s, prefix, gap, number);
    }
    forall prefix, gap, number | OrganizationNameParse(s, prefix, gap, number)
      ensures OrganizationNumberGroup(s) == Some(number)
    {
      var head := prefix + "-" + gap;
      assert s == head + number;
      assert s[..|s| - NumberLength] == head && s[|s| - NumberLength..] == number;
      EndsWithHyphenGapComplete(head, prefix, gap);
    }
  }

  // ---------------------------------------------------------------------
  // extractNumber

  /** No value satisfies the pattern. */
  ghost predicate NoneMatch(values: seq<string>, matches: string -> bool)
  {
    forall i | 0 <= i < |values| :: !matches(values[i])
  }

  /** The first value that is exactly nine digits. */
  function FirstSerialNumber(values: seq<string>): (r: Option<string>)
    ensures r.Some? ==> r.value in values && IsSerialNumber(r.value)
    ensures r.None? <==> forall i | 0 <= i < |values| :: !IsSerialNumber(values[i])
  {
    if values == [] then None
    else if IsSerialNumber(values[0]) then Some(values[0])
    else FirstSerialNumber(values[1..])
  }

  /** The number in the first value that matches the organization-name pattern. */
  function FirstOrganizationNumber(values: seq<string>): (r: Option<string>)
    ensures r.Some? ==> |r.value| == NumberLength && AllDigits(r.value)
    ensures r.None? <==> forall i | 0 <= i < |values| :: OrganizationNumberGroup(values[i]).None?
  {
    if values == [] then None
    else match OrganizationNumberGroup(values[0])
      case Some(number) => Some(number)
      case None => FirstOrganizationNumber(values[1..])
  }

  /** What extractNumber does: return a number, return null, or throw with the encoding error's message. */
  datatype Extraction = Found(number: string) | NotFound | EncodingError(message: string)

  /** extractNumber: SERIALNUMBER values first, then O values, each in the order they occur. */
  function ExtractNumber(subject: SubjectName): (r: Extraction)
    ensures r.Found? ==> |r.number| == NumberLength && AllDigits(r.number)
    ensures r.EncodingError? <==> subject.EncodingFailure?
    ensures r.EncodingError? ==> r.message == subject.message
  {
    match subject
    case EncodingFailure(m) => EncodingError(m)
    case Decoded(attributes) =>
      match FirstSerialNumber(Values(attributes, SerialNumberKind))
      case Some(number) => Found(number)
      case None =>
        match FirstOrganizationNumber(Values(attributes, OrganizationKind))
        case Some(number) => Found(number)
        case None => NotFound
  }

  /** The first SERIALNUMBER value that is nine digits is the result, whatever the O values are. */
  lemma {:induction false} SerialNumberFirst(attributes: seq<Attribute>, i: nat)
    requires i < |Values(attributes, SerialNumberKind)|
    requires IsSerialNumber(Values(attributes, SerialNumberKind)[i])
    requires forall j | 0 <= j < i :: !IsSerialNumber(Values(attributes, SerialNumberKind)[j])
    ensures ExtractNumber(Decoded(attributes)) == Found(Values(attributes, SerialNumberKind)[i])
  {
    FirstSerialNumberAt(Values(attributes, SerialNumberKind), i);
  }

  lemma {:induction false} FirstSerialNumberAt(values: seq<string>, i: nat)
    requires i < |values| && IsSerialNumber(values[i])
    requires forall j | 0 <= j < i :: !IsSerialNumber(values[j])
    ensures FirstSerialNumber(values) == Some(values[i])
  {
    if i > 0 {
      FirstSerialNumberAt(values[1..], i - 1);
    }
  }

  lemma {:induction false} FirstOrganizationNumberAt(values: seq<string>, i: nat)
    requires i < |values| && MatchesOrganizationName(values[i])
    requires forall j | 0 <= j < i :: !MatchesOrganizationName(values[j])
    ensures FirstOrganizationNumber(values) == Some(values[i][|values[i]| - NumberLength..])
  {
    OrganizationNumberGroupCorrect(values[0]);
    if i > 0 {
      FirstOrganizationNumberAt(values[1..], i - 1);
    } else {
      var prefix, gap, number :| OrganizationNameParse(values[0], prefix, gap, number);
      assert values[0] == (prefix + "-" + gap) + number;
    }
  }

  /**
   * With no SERIALNUMBER value of nine digits, the result is the last nine
   * characters of the first O value matching the organization-name pattern.
   */
  lemma OrganizationNameFallback(attributes: seq<Attribute>, i: nat)
    requires forall j | 0 <= j < |Values(attributes, SerialNumberKind)| :: !IsSerialNumber(Values(attributes, SerialNumberKind)[j])
    requires i < |Values(attributes, OrganizationKind)|
    requires MatchesOrganizationName(Values(attributes, OrganizationKind)[i])
    requires forall j | 0 <= j < i :: !MatchesOrganizationName(Values(attributes, OrganizationKind)[j])
    ensures ExtractNumber(Decoded(attributes)) ==
      var o := Values(attributes, OrganizationKind)[i]; Found(o[|o| - NumberLength..])
  {
    FirstOrganizationNumberAt(Values(attributes, OrganizationKind), i);
  }

  /** Nothing is found exactly when no SERIALNUMBER value is nine digits and no O value matches the pattern. */
  lemma NotFoundExactly(attributes: seq<Attribute>)
    ensures ExtractNumber(Decoded(attributes)).NotFound? <==>
      NoneMatch(Values(attributes, SerialNumberKind), IsSerialNumber) &&
      NoneMatch(Values(attributes, OrganizationKind), MatchesOrganizationName)
  {
    var os := Values(attributes, OrganizationKind);
    forall j | 0 <= j < |os|
      ensures OrganizationNumberGroup(os[j]).None? <==> !MatchesOrganizationName(os[j])
    {
      OrganizationNumberGroupCorrect(os[j]);
    }
  }

  // ---------------------------------------------------------------------
  // validate

  /** The outcome of the rule and the values the provider was asked about. */
  datatype ProviderRun = ProviderRun(outcome: Outcome, consulted: seq<string>)

  /** NorwegianOrganizationNumberValidator.validate with its provider. */
  function Validate(cert: Certificate, provider: string -> bool): (run: ProviderRun)
    // the provider is asked at most once, and only about the extracted number
    ensures |run.consulted| <= 1
    ensures forall n | n in run.consulted :: ExtractNumber(cert.subjectName) == Found(n)
    ensures run.outcome.Accept? <==>
      ExtractNumber(cert.subjectName).Found? && provider(ExtractNumber(cert.subjectName).number)
    // "not found" and "rejected by the provider" are one and the same failure
    ensures cert.subjectName.Decoded? ==> run.outcome.Accept? || run.outcome == Reject(Failed, NotDetectedMessage)
    // an encoding error is a general failure carrying its message, reached without the provider
    ensures cert.subjectName.EncodingFailure? ==>
      run == ProviderRun(Reject(General, cert.subjectName.message), [])
  {
    match ExtractNumber(cert.subjectName)
    case EncodingError(m) => ProviderRun(Reject(General, m), [])
    case NotFound => ProviderRun(Reject(Failed, NotDetectedMessage), [])
    case Found(number) =>
      if provider(number) then ProviderRun(Accept, [number])
      else ProviderRun(Reject(Failed, NotDetectedMessage), [number])
  }

  /** Two providers that agree on the values the rule asks about lead to the same run. */
  lemma OnlyConsultedValuesMatter(cert: Certificate, p1: string -> bool, p2: string -> bool)
    requires forall n | n in Validate(cert, p1).consulted :: p1(n) == p2(n)
    ensures Validate(cert, p1) == Validate(cert, p2)
  {
  }

  // ---------------------------------------------------------------------
  // The two subjects given as examples next to extractNumber

  lemma SerialNumberExample()
    ensures ExtractNumber(Decoded([
      Attribute("C", "NO"), Attribute("ST", "AKERSHUS"), Attribute("L", "FORNEBUVEIEN 1, 1366 LYSAKER"),
      Attribute("O", "RF Commfides"), Attribute("SERIALNUMBER", "399573952"), Attribute("CN", "RF Commfides")]))
      == Found("399573952")
  {
    var attributes := [
      Attribute("C", "NO"), Attribute("ST", "AKERSHUS"), Attribute("L", "FORNEBUVEIEN 1, 1366 LYSAKER"),
      Attribute("O", "RF Commfides"), Attribute("SERIALNUMBER", "399573952"), Attribute("CN", "RF Commfides")];
    assert Values(attributes, SerialNumberKind) == ["399573952"];
  }

  lemma OrganizationNameExample()
    ensures ExtractNumber(Decoded([
      Attribute("CN", "name"), Attribute("OU", "None"), Attribute("O", "organisasjon - 123456789"),
      Attribute("L", "None"), Attribute("C", "None")]))
      == Found("123456789")
  {
    var o := "organisasjon - 123456789";
    assert o[..|o| - NumberLength] == "organisasjon - ";
    assert "organisasjon - "[..14] == "organisasjon -";
    assert EndsWithHyphenGap("organisasjon -");
    assert EndsWithHyphenGap("organisasjon - ");
    assert OrganizationNumberGroup(o) == Some("123456789");
  }
}
