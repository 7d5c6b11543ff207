/**
 What a solve is asked for: root requirements, locks and a publication cutoff, with
 the candidate eligibility and the projection of declared dependencies they rest on.
 */
module Requests {
  import opened Prelude
  import opened Versions
  import opened Domain
  import opened Candidates

  datatype RootExpansion = HardOnly | DirectSuggests

  datatype RootRequirement = RootRequirement(package: PackageRequirement, expansion: RootExpansion)

  // Locked identities are looked up by subject, up to version spelling.
  datatype Request = Request(
    roots: seq<RootRequirement>,
    rVersion: RPackageVersion,
    rRequirement: VersionConstraint,
    locked: map<SolverKey, ReleaseIdentity>,
    cutoff: Option<int>)

  datatype LockDecision = Unlocked | Prefer(identity: ReleaseIdentity) | Require(identity: ReleaseIdentity) {
    function Locked(): Option<ReleaseIdentity> {
      if Unlocked? then None else Some(identity)
    }

    // Whether a candidate of this identity may be used at all.
    predicate Admits(id: ReleaseIdentity) {
      Require? ==> SameIdentity(id, identity)
    }
  }

  // ------------------------------------------------------- effective edges

  datatype EffectiveKind = EffectiveDepends | EffectiveImports | EffectiveLinkingTo | PromotedSuggests

  datatype Edge = Edge(kind: EffectiveKind, package: PackageRequirement)

  function EffectiveKindOf(kind: DependencyKind, expansion: RootExpansion): Option<EffectiveKind> {
    match kind
    case Depends => Some(EffectiveDepends)
    case Imports => Some(EffectiveImports)
    case LinkingTo => Some(EffectiveLinkingTo)
    case Suggests => if expansion == DirectSuggests then Some(PromotedSuggests) else None
    case Enhances => None
  }

  // `project_dependency_edges`.
  function Edges(declared: seq<DeclaredDependency>, expansion: RootExpansion): seq<Edge> {
    if declared == [] then []
    else
      var rest := Edges(declared[1..], expansion);
      match EffectiveKindOf(declared[0].kind, expansion)
      case Some(kind) => [Edge(kind, declared[0].package)] + rest
      case None => rest
  }

  // Releases that declare the same up to spelling have the same edges up to spelling.
  lemma {:induction false} EdgesUpToSpelling(own: seq<DeclaredDependency>, other: seq<DeclaredDependency>,
    x: RootExpansion, i: nat)
    requires CanonDependencies(own) == CanonDependencies(other)
    requires i < |Edges(own, x)|
    ensures |Edges(other, x)| == |Edges(own, x)|
    ensures CanonRequirement(Edges(own, x)[i].package) == CanonRequirement(Edges(other, x)[i].package)
    decreases |own|
  {
    assert |own| == |CanonDependencies(own)| == |other|;
    assert CanonDependency(own[0]) == CanonDependencies(own)[0] == CanonDependency(other[0]);
    forall k | 0 <= k < |own[1..]|
      ensures CanonDependencies(own[1..])[k] == CanonDependencies(other[1..])[k]
    {
      assert CanonDependencies(own)[k + 1] == CanonDependencies(other)[k + 1];
    }
    assert CanonDependencies(own[1..]) == CanonDependencies(other[1..]);
    if EffectiveKindOf(own[0].kind, x) == None {
      EdgesUpToSpelling(own[1..], other[1..], x, i);
    } else if i > 0 {
      EdgesUpToSpelling(own[1..], other[1..], x, i - 1);
    } else if |Edges(own[1..], x)| > 0 {
      EdgesUpToSpelling(own[1..], other[1..], x, 0);
    } else if |Edges(other[1..], x)| > 0 {
      EdgesUpToSpelling(other[1..], own[1..], x, 0);
    }
  }

  // Promoting suggestions only adds edges.
  lemma {:induction false} HardEdgesStay(declared: seq<DeclaredDependency>, edge: Edge)
    ensures edge in Edges(declared, HardOnly) ==> edge in Edges(declared, DirectSuggests)
  {
    if declared != [] {
      HardEdgesStay(declared[1..], edge);
    }
  }

  // ------------------------------------------------------------ eligibility

  function SubjectName(subject: SolverKey): Option<string> {
    match subject
    case RegistryKey(_, name) => Some(name)
    case BioconductorKey(_, _, name) => Some(name)
    case RepositoryKey(_, name) => Some(name)
    case ExactKey(identity) => Some(identity.name)
    case InstalledName(name) => Some(name)
    case RKey => None
  }

  predicate ProvenanceMatches(provenance: Provenance, subject: SolverKey) {
    match subject
    case RegistryKey(namespace, _) => provenance.RegistryRelease? && provenance.namespace == namespace
    case BioconductorKey(namespace, release, _) =>
      provenance.BioconductorRelease? && provenance.namespace == namespace && provenance.release == release
    case RKey => false
    case _ => true
  }

  predicate OccurrenceApplies(o: Occurrence, subject: SolverKey) {
    o.availability == Candidates.Available && (subject.RepositoryKey? ==> o.repository == subject.repository)
  }

  predicate SubjectCovers(id: ReleaseIdentity, subject: SolverKey) {
    && SubjectName(subject) == Some(id.name)
    && (subject.ExactKey? ==> SameIdentity(id, subject.identity))
    && ProvenanceMatches(id.provenance, subject)
  }

  // `applicable_occurrences`.
  function ApplicableOccurrences(c: Candidate, subject: SolverKey): seq<Occurrence> {
    if SubjectCovers(c.release.identity, subject)
    then Filter(c.occurrences, (o: Occurrence) => OccurrenceApplies(o, subject))
    else []
  }

  // `is_eligible_for`.
  predicate EligibleFor(c: Candidate, subject: SolverKey) {
    if SubjectName(subject) != Some(c.release.identity.name) then false
    else if subject.ExactKey? then
      SameIdentity(c.release.identity, subject.identity)
      && (c.exposure != NoExposure || exists i | 0 <= i < |c.occurrences| ::
        c.occurrences[i].availability == Candidates.Available)
    else if c.exposure == RuntimeInstalled && subject.InstalledName? then true
    else ApplicableOccurrences(c, subject) != []
  }

  predicate AvailableFrom(c: Candidate, repository: string) {
    exists i | 0 <= i < |c.occurrences| ::
      c.occurrences[i].repository == repository && c.occurrences[i].availability == Candidates.Available
  }

  // An eligible candidate comes from where the subject says.
  lemma EligibleIsCovered(c: Candidate, subject: SolverKey)
    requires EligibleFor(c, subject)
    ensures SubjectCovers(c.release.identity, subject)
    ensures subject.RepositoryKey? ==> AvailableFrom(c, subject.repository)
    ensures subject.RepositoryKey? ==>
      exists o :: o in ApplicableOccurrences(c, subject) && o.repository == subject.repository
  {
    if subject.RepositoryKey? {
      var applies := (o: Occurrence) => OccurrenceApplies(o, subject);
      FilterMembers(c.occurrences, applies);
      var first := Filter(c.occurrences, applies)[0];
      assert first in Filter(c.occurrences, applies);
      var i :| 0 <= i < |c.occurrences| && c.occurrences[i] == first;
    }
  }

  // ---------------------------------------------------------------- subjects

  datatype LoadError =
    | LoaderFailed
    | ConflictingWithinSubject
    | ConflictingViews
    | LostCandidate
    | IdentifiersExhausted
    | MatchesQuarantined
    | GitUnsupported(name: string)
    | NotVisible
    | NotLoaded

  // The identity of the first exact root of this name.
  function ExactRoot(roots: seq<RootRequirement>, name: string): Option<ReleaseIdentity> {
    if roots == [] then None
    else if roots[0].package.name == name && roots[0].package.source.Exact? then Some(roots[0].package.source.identity)
    else ExactRoot(roots[1..], name)
  }

  // `subject_for_package`, with the subject taken up to version spelling.
  function SubjectFor(request: Request, package: PackageRequirement): Result<SolverKey, LoadError> {
    if package.source.Git? then Err(GitUnsupported(package.name))
    else if package.name == "R" then Ok(RKey)
    else Ok(CanonKey(match package.source
      case Registry(namespace) => RegistryKey(namespace, package.name)
      case Bioconductor(namespace, release) => BioconductorKey(namespace, release, package.name)
      case Repository(repository) => RepositoryKey(repository, package.name)
      case Exact(identity) => ExactKey(identity)
      case _ =>
        match ExactRoot(request.roots, package.name)
        case Some(identity) => ExactKey(identity)
        case None => InstalledName(package.name)))
  }

  // Requirements that differ in spelling only have the same subject.
  lemma SubjectUpToSpelling(request: Request, p: PackageRequirement, q: PackageRequirement)
    requires CanonRequirement(p) == CanonRequirement(q)
    ensures SubjectFor(request, p) == SubjectFor(request, q)
  {
    assert CanonSource(p.source) == CanonSource(q.source);
  }

  lemma {:induction false} ExactRootName(roots: seq<RootRequirement>, name: string)
    requires forall r | r in roots :: r.package.Valid()
    ensures ExactRoot(roots, name).Some? ==> ExactRoot(roots, name).value.name == name
  {
    if roots != [] {
      assert roots[0] in roots;
      ExactRootName(roots[1..], name);
    }
  }

  // A subject names the package it was made for.
  lemma SubjectNamesPackage(request: Request, package: PackageRequirement)
    requires package.Valid() && forall r | r in request.roots :: r.package.Valid()
    requires SubjectFor(request, package).Ok?
    ensures var subject := SubjectFor(request, package).value;
      if package.name == "R" then subject == RKey else SubjectName(subject) == Some(package.name)
  {
    ExactRootName(request.roots, package.name);
  }

  // Whether the roots ask for this subject with its suggestions. A Git root that
  // comes before the answer is an error.
  function ExpansionFor(request: Request, roots: seq<RootRequirement>, subject: SolverKey)
    : Result<RootExpansion, LoadError> {
    if roots == [] then Ok(HardOnly)
    else
      var first :- SubjectFor(request, roots[0].package);
      if first == subject && roots[0].expansion == DirectSuggests then Ok(DirectSuggests)
      else ExpansionFor(request, roots[1..], subject)
  }
}
