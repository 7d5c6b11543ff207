/**
 The logical lock: what `Lockfile::new` accepts and the normal form it returns.
 */
module Locks {
  import opened Prelude
  import opened Text
  import opened Versions
  import opened Domain
  import opened Requests

  datatype GitSelector = DefaultBranch | Branch(name: string) | Tag(name: string) | Rev(name: string)

  datatype LockedGitSource = LockedGitSource(
    url: string, selector: GitSelector, subdirectory: Option<string>, constraint: VersionConstraint)

  datatype LockedEdge = LockedEdge(kind: EffectiveKind, package: string)

  datatype LockedPackage = LockedPackage(
    identity: ReleaseIdentity,
    version: RPackageVersion,
    published: Option<string>,
    dependencies: seq<LockedEdge>,
    visible: seq<string>,
    digest: string,
    source: Option<LockedGitSource>)

  datatype LockedResolution = LockedResolution(
    rVersion: RPackageVersion, environment: string, cutoff: Option<int>, packages: seq<LockedPackage>)

  datatype Lockfile = Lockfile(intent: string, rRequirement: VersionConstraint, resolution: LockedResolution)

  datatype LockError =
    | ConflictingMetadata(name: string)
    | InvalidPublishedVersionSpelling(name: string)
    | RBasePackageLocked(name: string)
    | DanglingDependency(name: string, dependency: string)
    | InstalledNameConflict(name: string)
    | DuplicateVisibleRepository(name: string, repository: string)
    | RRequirementMismatch
    | NonCanonical

  // -------------------------------------------------------- equality of records

  function CanonGit(source: LockedGitSource): LockedGitSource {
    source.(constraint := CanonConstraint(source.constraint))
  }

  // Rust's `==` on packages compares versions and constraints up to spelling.
  function CanonPackage(p: LockedPackage): LockedPackage {
    p.(identity := CanonIdentity(p.identity), version := Canon(p.version),
       source := if p.source.Some? then Some(CanonGit(p.source.value)) else None)
  }

  predicate SamePackage(a: LockedPackage, b: LockedPackage) {
    CanonPackage(a) == CanonPackage(b)
  }

  function CanonPackages(ps: seq<LockedPackage>): (canon: seq<LockedPackage>)
    ensures |canon| == |ps| && forall i | 0 <= i < |ps| :: canon[i] == CanonPackage(ps[i])
  {
    seq(|ps|, i requires 0 <= i < |ps| => CanonPackage(ps[i]))
  }

  // ---------------------------------------------------------------- comparisons

  function ProvenanceRank(p: Provenance): nat {
    match p
    case RBasePackage(_) => 0
    case RegistryRelease(_, _) => 1
    case GitCommit(_, _, _) => 2
    case BioconductorRelease(_, _, _) => 3
    case ImmutableSource(_, _) => 4
  }

  function CompareOptional(a: Option<string>, b: Option<string>): Order {
    match (a, b)
    case (None, None) => Equal
    case (None, Some(_)) => Less
    case (Some(_), None) => Greater
    case (Some(x), Some(y)) => CompareText(x, y)
  }

  // `cmp_provenance`.
  function CompareProvenance(a: Provenance, b: Provenance): Order {
    CompareNat(ProvenanceRank(a), ProvenanceRank(b)).Then(match (a, b)
      case (RBasePackage(v), RBasePackage(w)) => v.Compare(w)
      case (RegistryRelease(n, v), RegistryRelease(m, w)) => CompareText(n, m).Then(v.Compare(w))
      case (GitCommit(r, c, d), GitCommit(s, e, f)) =>
        CompareText(r, s).Then(CompareText(c, e)).Then(CompareOptional(d, f))
      case (BioconductorRelease(n, r, v), BioconductorRelease(m, s, w)) =>
        CompareText(n, m).Then(CompareText(r, s)).Then(v.Compare(w))
      case (ImmutableSource(s, d), ImmutableSource(r, e)) => CompareText(s, r).Then(CompareText(d, e))
      case (_, _) => Equal)
  }

  // `cmp_identity`.
  function CompareIdentity(a: ReleaseIdentity, b: ReleaseIdentity): Order {
    CompareText(a.name, b.name).Then(CompareProvenance(a.provenance, b.provenance))
  }

  function ComparePackages(a: LockedPackage, b: LockedPackage): Order {
    CompareIdentity(a.identity, b.identity)
  }

  function KindRank(kind: EffectiveKind): nat {
    match kind
    case EffectiveDepends => 0
    case EffectiveImports => 1
    case EffectiveLinkingTo => 2
    case PromotedSuggests => 3
  }

  // `dependency_edge_cmp`.
  function CompareEdges(a: LockedEdge, b: LockedEdge): Order {
    CompareText(a.package, b.package).Then(CompareNat(KindRank(a.kind), KindRank(b.kind)))
  }

  function RelationRank(op: RelationOp): nat {
    match op
    case Lt => 0
    case Le => 1
    case Eq => 2
    case Ne => 3
    case Ge => 4
    case Gt => 5
  }

  function CompareRelations(a: VersionClause, b: VersionClause): Order {
    CompareNat(RelationRank(a.op), RelationRank(b.op)).Then(a.version.Compare(b.version))
  }

  function CompareClauses(a: VersionClause, b: VersionClause): Order {
    CompareRelations(a, b).Then(CompareText(a.version.raw, b.version.raw))
  }

  // ---------------------------------------------------------------- normal forms

  // `canonicalize_constraint`.
  function CanonicalConstraint(constraint: VersionConstraint): VersionConstraint {
    VersionConstraint(DedupBy(SortBy(constraint.clauses, CompareClauses), SameClause))
  }

  predicate SameClause(a: VersionClause, b: VersionClause) {
    a.op == b.op && a.version.Same(b.version)
  }

  // `canonicalize_dependency_edges`.
  function CanonicalEdges(edges: seq<LockedEdge>): seq<LockedEdge> {
    DedupBy(SortBy(edges, CompareEdges), (a: LockedEdge, b: LockedEdge) => a == b)
  }

  function Tidy(p: LockedPackage): LockedPackage {
    p.(dependencies := CanonicalEdges(p.dependencies))
  }

  // ------------------------------------------------------------------ validation

  // `GitCommitId::new`.
  function ParseCommit(text: string): Option<string> {
    if |text| != 40 && |text| != 64 then None
    else if exists i | 0 <= i < |text| :: !IsHexDigit(text[i]) then None
    else if forall i | 0 <= i < |text| :: text[i] == '0' then None
    else Some(Lower(text))
  }

  // The canonical text of a version in its proper representation.
  function VersionText(v: RPackageVersion): string {
    if v.components.Valid() then CanonicalVersion(v) else v.raw
  }

  predicate SourceAgrees(p: LockedPackage, source: LockedGitSource) {
    && p.identity.provenance.GitCommit?
    && p.identity.provenance.repository == source.url && p.identity.provenance.subdirectory == source.subdirectory
    && source.constraint.Satisfies(p.version)
    && (source.selector.Rev? ==> match ParseCommit(source.selector.name)
          case Some(commit) => p.identity.provenance.commit == commit
          case None => true)
  }

  predicate PublishedAgrees(p: LockedPackage, spelling: string) {
    var parsed := ParseSpec(spelling, 2);
    parsed.Ok? && parsed.value.Same(p.version) && spelling != VersionText(p.version)
  }

  predicate ProvenanceAgrees(p: LockedPackage) {
    match p.identity.provenance
    case RegistryRelease(_, version) => version.Same(p.version)
    case BioconductorRelease(_, _, version) => version.Same(p.version)
    case _ => true
  }

  // `LockedPackage::validate`.
  function ValidatePackage(p: LockedPackage): Option<LockError> {
    if p.identity.provenance.RBasePackage? then Some(RBasePackageLocked(p.identity.name))
    else if !ProvenanceAgrees(p) then Some(ConflictingMetadata(p.identity.name))
    else if p.source.Some? && !SourceAgrees(p, p.source.value) then Some(ConflictingMetadata(p.identity.name))
    else if p.published.Some? && !PublishedAgrees(p, p.published.value)
      then Some(InvalidPublishedVersionSpelling(p.identity.name))
    else None
  }

  // The first repository that was already seen.
  function Duplicate(seen: set<string>, visible: seq<string>): Option<string>
    decreases |visible|
  {
    if visible == [] then None
    else if visible[0] in seen then Some(visible[0])
    else Duplicate(seen + {visible[0]}, visible[1..])
  }

  // `validate_visible_repository_ids`.
  function ValidateVisible(p: LockedPackage): Option<LockError> {
    match Duplicate({}, p.visible)
    case Some(repository) => Some(DuplicateVisibleRepository(p.identity.name, repository))
    case None => None
  }

  function CheckPackage(p: LockedPackage): Option<LockError> {
    match ValidatePackage(p)
    case Some(error) => Some(error)
    case None => ValidateVisible(p)
  }

  function CheckAll(ps: seq<LockedPackage>): Option<LockError> {
    if ps == [] then None
    else match CheckPackage(ps[0])
      case Some(error) => Some(error)
      case None => CheckAll(ps[1..])
  }

  function TidyAll(ps: seq<LockedPackage>): (tidied: seq<LockedPackage>)
    ensures |tidied| == |ps| && forall i | 0 <= i < |ps| :: tidied[i] == Tidy(ps[i])
  {
    seq(|ps|, i requires 0 <= i < |ps| => Tidy(ps[i]))
  }

  // Drops what repeats the last package kept; differing records of one identity conflict.
  function Unrepeated(kept: seq<LockedPackage>, rest: seq<LockedPackage>): Result<seq<LockedPackage>, LockError>
    decreases |rest|
  {
    if rest == [] then Ok(kept)
    else if kept != [] && SameIdentity(kept[|kept| - 1].identity, rest[0].identity) then
      if !SamePackage(kept[|kept| - 1], rest[0]) then Err(ConflictingMetadata(rest[0].identity.name))
      else Unrepeated(kept, rest[1..])
    else Unrepeated(kept + [rest[0]], rest[1..])
  }

  // The identity last seen for each name, or the name that has two.
  function NamesTaken(taken: map<string, ReleaseIdentity>, ps: seq<LockedPackage>): Option<LockError>
    decreases |ps|
  {
    if ps == [] then None
    else
      var name := ps[0].identity.name;
      if name in taken && !SameIdentity(taken[name], ps[0].identity) then Some(InstalledNameConflict(name))
      else NamesTaken(taken[name := ps[0].identity], ps[1..])
  }

  function NamesOf(ps: seq<LockedPackage>): set<string> {
    set p | p in ps :: p.identity.name
  }

  function DanglingIn(selected: set<string>, edges: seq<LockedEdge>): Option<string> {
    if edges == [] then None
    else if edges[0].package !in selected then Some(edges[0].package)
    else DanglingIn(selected, edges[1..])
  }

  // `ensure_dependencies_exist`.
  function Dangling(selected: set<string>, ps: seq<LockedPackage>): Option<LockError> {
    if ps == [] then None
    else match DanglingIn(selected, ps[0].dependencies)
      case Some(dependency) => Some(DanglingDependency(ps[0].identity.name, dependency))
      case None => Dangling(selected, ps[1..])
  }

  function CheckGraph(ps: seq<LockedPackage>): Option<LockError> {
    match NamesTaken(map[], ps)
    case Some(error) => Some(error)
    case None => Dangling(NamesOf(ps), ps)
  }

  // `normalize_contents`.
  function Normalized(ps: seq<LockedPackage>): Result<seq<LockedPackage>, LockError> {
    match CheckAll(ps)
    case Some(error) => Err(error)
    case None =>
      var unique :- Unrepeated([], SortBy(TidyAll(ps), ComparePackages));
      match CheckGraph(unique)
      case Some(error) => Err(error)
      case None => Ok(unique)
  }

  function ConflictingPair(ps: seq<LockedPackage>): Option<LockError> {
    if |ps| < 2 then None
    else if SameIdentity(ps[0].identity, ps[1].identity) && !SamePackage(ps[0], ps[1])
      then Some(ConflictingMetadata(ps[0].identity.name))
    else ConflictingPair(ps[1..])
  }

  // `validate_contents`.
  function ValidateContents(lock: Lockfile): Option<LockError> {
    if !lock.rRequirement.Satisfies(lock.resolution.rVersion) then Some(RRequirementMismatch)
    else
      var sorted := SortBy(lock.resolution.packages, ComparePackages);
      match CheckAll(sorted)
      case Some(error) => Some(error)
      case None =>
        match ConflictingPair(sorted)
        case Some(error) => Some(error)
        case None => CheckGraph(sorted)
  }

  // `Lockfile::new`.
  function NewLock(intent: string, rRequirement: VersionConstraint, resolution: LockedResolution)
    : Result<Lockfile, LockError> {
    var packages :- Normalized(resolution.packages);
    var lock := Lockfile(intent, CanonicalConstraint(rRequirement), resolution.(packages := packages));
    match ValidateContents(lock)
    case Some(error) => Err(error)
    case None => Ok(lock)
  }

  // `validate_canonical_resolution`.
  predicate CanonicalResolution(resolution: LockedResolution) {
    var ps := resolution.packages;
    && CanonPackages(SortBy(ps, ComparePackages)) == CanonPackages(ps)
    && (forall i | 0 < i < |ps| :: !SameIdentity(ps[i - 1].identity, ps[i].identity))
    && (forall k, i | 0 <= k < |ps| && 0 < i < |ps[k].dependencies| ::
          CompareEdges(ps[k].dependencies[i - 1], ps[k].dependencies[i]) == Less)
  }
}
