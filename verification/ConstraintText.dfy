/**
 The text of a version constraint in a lock: clauses in canonical order, each a
 relation sign and a canonical version, joined by commas.
 */
module ConstraintText {
  import opened Prelude
  import opened Text
  import opened Versions
  import opened Domain
  import opened Locks
  import opened LockNormal

  // A version in its proper representation. The parser never makes an empty one.
  ghost predicate WellFormed(v: RPackageVersion) {
    v.components.Valid() && |v.All()| >= 1
  }

  lemma ParsedIsWellFormed(text: string, minimum: nat)
    requires ParseSpec(text, minimum).Ok?
    ensures WellFormed(ParseSpec(text, minimum).value) && |ParseSpec(text, minimum).value.All()| >= minimum
    ensures ParseSpec(text, minimum).value.raw == text
  {
    AcceptedParts(SplitOn(text, IsSeparator), 0);
  }

  function RelationTag(op: RelationOp): string {
    match op
    case Lt => "<"
    case Le => "<="
    case Eq => "="
    case Ne => "!="
    case Ge => ">="
    case Gt => ">"
  }

  function RenderClause(clause: VersionClause): string {
    RelationTag(clause.op) + VersionText(clause.version)
  }

  function RenderClauses(clauses: seq<VersionClause>): (texts: seq<string>)
    ensures |texts| == |clauses| && forall i | 0 <= i < |clauses| :: texts[i] == RenderClause(clauses[i])
  {
    seq(|clauses|, i requires 0 <= i < |clauses| => RenderClause(clauses[i]))
  }

  // `canonical_r_requirement`.
  function RenderConstraint(constraint: VersionConstraint): string {
    if constraint.clauses == [] then "*" else Join(RenderClauses(CanonicalConstraint(constraint).clauses), ",")
  }

  datatype ConstraintError = EmptyOrControl | EmptyTerm | MissingVersion | BadVersion(error: VersionError)

  // The relation a term starts with, and what follows it.
  function TakeRelation(term: string): (RelationOp, string) {
    if StartsWith(term, ">=") then (Ge, term[2..])
    else if StartsWith(term, "<=") then (Le, term[2..])
    else if StartsWith(term, "!=") then (Ne, term[2..])
    else if StartsWith(term, "==") then (Eq, term[2..])
    else if StartsWith(term, ">") then (Gt, term[1..])
    else if StartsWith(term, "<") then (Lt, term[1..])
    else if StartsWith(term, "=") then (Eq, term[1..])
    else (Eq, term)
  }

  function ParseTerm(text: string, minimum: nat): Result<VersionClause, ConstraintError> {
    var term := Strip(text);
    if term == "" then Err(EmptyTerm)
    else
      var (op, rest) := TakeRelation(term);
      var version := Strip(rest);
      if version == "" || version == "*" then Err(MissingVersion)
      else match ParseSpec(version, minimum)
        case Err(error) => Err(BadVersion(error))
        case Ok(v) => Ok(VersionClause(op, v))
  }

  function ParseTerms(texts: seq<string>, minimum: nat): Result<seq<VersionClause>, ConstraintError> {
    if texts == [] then Ok([])
    else
      var first :- ParseTerm(texts[0], minimum);
      var rest :- ParseTerms(texts[1..], minimum);
      Ok([first] + rest)
  }

  // `parse_r_constraint` with a minimum of one component, `parse_package_constraint`
  // with two.
  function ParseConstraint(input: string, minimum: nat): Result<VersionConstraint, ConstraintError> {
    if input == "" || exists c | c in input :: IsControl(c) then Err(EmptyOrControl)
    else if Strip(input) == "*" then Ok(VersionConstraint([]))
    else
      var clauses :- ParseTerms(SplitOn(input, IsComma), minimum);
      Ok(CanonicalConstraint(VersionConstraint(clauses)))
  }

  // ------------------------------------------------------------------- round trip

  // A canonical version text is digits and periods, and starts and ends with a digit.
  lemma VersionTextShape(v: RPackageVersion)
    requires WellFormed(v)
    ensures var text := VersionText(v);
      text != "" && IsDigit(text[0]) && IsDigit(text[|text| - 1]) && forall c | c in text ::
        IsDigit(c) || IsSeparator(c)
  {
    CanonicalVersionParses(v, 1);
    ValidSpelling(VersionText(v), 1);
  }

  lemma TagTaken(op: RelationOp, rest: string)
    requires rest != "" && IsDigit(rest[0])
    ensures TakeRelation(RelationTag(op) + rest) == (op, rest)
  {
    var term := RelationTag(op) + rest;
    assert term[|RelationTag(op)|..] == rest && term[|RelationTag(op)|] == rest[0];
    assert |RelationTag(op)| == 1 ==> term[..2] == [term[0], rest[0]];
  }

  // A rendered clause parses to the same relation and an equal version that is
  // rendered the same.
  lemma ClauseParses(clause: VersionClause, minimum: nat)
    requires WellFormed(clause.version) && minimum <= 2 && |clause.version.All()| >= minimum
    ensures var parsed := ParseTerm(RenderClause(clause), minimum);
      && parsed.Ok? && SameClause(parsed.value, clause)
      && WellFormed(parsed.value.version) && VersionText(parsed.value.version) == VersionText(clause.version)
  {
    var text := VersionText(clause.version);
    VersionTextShape(clause.version);
    TagTaken(clause.op, text);
    var term := RelationTag(clause.op) + text;
    assert term[|term| - 1] == text[|text| - 1];
    StripSpaced(term);
    StripSpaced(text);
    CanonicalVersionParses(clause.version, minimum);
    ParsedIsWellFormed(text, minimum);
  }

  ghost predicate AllWellFormed(clauses: seq<VersionClause>, minimum: nat) {
    forall i | 0 <= i < |clauses| :: WellFormed(clauses[i].version) && |clauses[i].version.All()| >= minimum
  }

  // The same relations and equal versions, rendered the same, clause by clause.
  ghost predicate Matches(parsed: seq<VersionClause>, clauses: seq<VersionClause>) {
    |parsed| == |clauses| && forall i | 0 <= i < |clauses| ::
      SameClause(parsed[i], clauses[i]) && VersionText(parsed[i].version) == VersionText(clauses[i].version)
  }

  lemma MatchesMore(first: VersionClause, rest: seq<VersionClause>, clauses: seq<VersionClause>)
    requires clauses != [] && Matches(rest, clauses[1..])
    requires SameClause(first, clauses[0]) && VersionText(first.version) == VersionText(clauses[0].version)
    ensures Matches([first] + rest, clauses)
  {
    forall i | 0 <= i < |clauses|
      ensures SameClause(([first] + rest)[i], clauses[i])
      ensures VersionText(([first] + rest)[i].version) == VersionText(clauses[i].version)
    {
      assert i > 0 ==> clauses[1..][i - 1] == clauses[i];
    }
  }

  lemma TermsOfCons(text: string, texts: seq<string>, minimum: nat)
    requires ParseTerm(text, minimum).Ok? && ParseTerms(texts, minimum).Ok?
    ensures ParseTerms([text] + texts, minimum) ==
      Ok([ParseTerm(text, minimum).value] + ParseTerms(texts, minimum).value)
  {
    assert ([text] + texts)[1..] == texts;
  }

  lemma {:induction false} TermsParse(clauses: seq<VersionClause>, minimum: nat)
    requires AllWellFormed(clauses, minimum) && minimum <= 2
    ensures ParseTerms(RenderClauses(clauses), minimum).Ok?
    ensures Matches(ParseTerms(RenderClauses(clauses), minimum).value, clauses)
  {
    if clauses != [] {
      var text, texts := RenderClause(clauses[0]), RenderClauses(clauses[1..]);
      assert RenderClauses(clauses) == [text] + texts;
      ClauseParses(clauses[0], minimum);
      TermsParse(clauses[1..], minimum);
      TermsOfCons(text, texts, minimum);
      MatchesMore(ParseTerm(text, minimum).value, ParseTerms(texts, minimum).value, clauses);
    }
  }

  // Clauses that match a canonical list are a canonical list.
  lemma MatchesCanonical(parsed: seq<VersionClause>, clauses: seq<VersionClause>)
    requires Matches(parsed, clauses) && StrictlySorted(clauses, CompareRelations)
    ensures CanonicalConstraint(VersionConstraint(parsed)).clauses == parsed
    ensures CanonClauses(parsed) == CanonClauses(clauses)
    ensures RenderClauses(parsed) == RenderClauses(clauses)
  {
    forall i, j | 0 <= i < j < |parsed|
      ensures CompareRelations(parsed[i], parsed[j]) == Less
    {
      SameIsKeyEquality(parsed[i].version, clauses[i].version);
      SameIsKeyEquality(parsed[j].version, clauses[j].version);
      assert CompareRelations(clauses[i], clauses[j]) == Less;
    }
    StrictIsCanonical(parsed);
    forall i | 0 <= i < |parsed|
      ensures CanonClause(parsed[i]) == CanonClause(clauses[i])
    {
      CanonIsSame(parsed[i].version, clauses[i].version);
    }
  }

  lemma StrictIsCanonical(clauses: seq<VersionClause>)
    requires StrictlySorted(clauses, CompareRelations)
    ensures CanonicalConstraint(VersionConstraint(clauses)).clauses == clauses
  {
    RelationOrdering();
    forall i, j | 0 <= i < j < |clauses|
      ensures CompareClauses(clauses[i], clauses[j]) != Greater && !SameClause(clauses[i], clauses[j])
    {
      assert CompareRelations(clauses[i], clauses[j]) == Less;
    }
    SortOfSorted(clauses, CompareClauses);
    DedupOfStrict(clauses, SameClause);
  }

  lemma ClauseChars(clause: VersionClause, c: char)
    requires WellFormed(clause.version) && c in RenderClause(clause)
    ensures !IsComma(c) && !IsControl(c) && c != '*' && !IsSpace(c)
  {
    VersionTextShape(clause.version);
  }

  // A rendered list of clauses has no control characters, is not a star, and splits
  // into its clauses.
  lemma RenderedSplits(clauses: seq<VersionClause>)
    requires clauses != [] && AllWellFormed(clauses, 1)
    ensures var text := Join(RenderClauses(clauses), ",");
      && text != "" && Strip(text) != "*" && (forall c | c in text :: !IsControl(c))
      && SplitOn(text, IsComma) == RenderClauses(clauses)
  {
    var texts := RenderClauses(clauses);
    var text := Join(texts, ",");
    forall part, c | part in texts && c in part
      ensures !IsComma(c) && !IsControl(c) && c != '*' && !IsSpace(c)
    {
      var i :| 0 <= i < |texts| && texts[i] == part;
      ClauseChars(clauses[i], c);
    }
    SplitOfJoin(texts, ',', IsComma);
    JoinChars(texts, ",");
    VersionTextShape(clauses[0].version);
    assert SplitOn("", IsComma)[0] == "" && texts[0] != "";
    NoSpaces(text);
  }

  lemma NoSpaces(text: string)
    requires text != "" && forall c | c in text :: !IsSpace(c)
    ensures Strip(text) == text
  {
    assert text[0] in text && text[|text| - 1] in text;
    StripSpaced(text);
  }

  lemma CanonicalWellFormed(constraint: VersionConstraint, minimum: nat)
    requires AllWellFormed(constraint.clauses, minimum)
    ensures AllWellFormed(CanonicalConstraint(constraint).clauses, minimum)
    ensures CanonicalConstraint(constraint).clauses == [] <==> constraint.clauses == []
  {
    var canonical := CanonicalConstraint(constraint).clauses;
    CanonicalClausesFacts(constraint);
    forall i | 0 <= i < |canonical|
      ensures WellFormed(canonical[i].version) && |canonical[i].version.All()| >= minimum
    {
      assert canonical[i] in canonical;
      var k :| 0 <= k < |constraint.clauses| && constraint.clauses[k] == canonical[i];
    }
    if constraint.clauses != [] {
      assert constraint.clauses[0] in constraint.clauses;
      assert RepresentedBy(canonical, constraint.clauses[0], SameClause);
    }
  }

  // Reading back a rendered constraint gives the canonical constraint, up to version
  // spelling, and what was read is rendered the same.
  lemma ConstraintRoundTrip(constraint: VersionConstraint, minimum: nat)
    requires AllWellFormed(constraint.clauses, minimum) && 1 <= minimum <= 2
    ensures var parsed := ParseConstraint(RenderConstraint(constraint), minimum);
      && parsed.Ok?
      && CanonConstraint(parsed.value) == CanonConstraint(CanonicalConstraint(constraint))
      && RenderConstraint(parsed.value) == RenderConstraint(constraint)
  {
    var canonical := CanonicalConstraint(constraint).clauses;
    CanonicalWellFormed(constraint, minimum);
    if constraint.clauses != [] {
      RenderedSplits(canonical);
      TermsParse(canonical, minimum);
      CanonicalClausesFacts(constraint);
      MatchesCanonical(ParseTerms(RenderClauses(canonical), minimum).value, canonical);
    } else {
      StripSpaced("*");
    }
  }
}
