/**
 Release identities, version constraints, dependencies and solver subjects.

 Rust's `==` on these types compares versions by their canonical components, not
 by spelling. Here `Canon…` replaces each version by one representative, and two
 values are equal in Rust's sense exactly when their `Canon…` images are the same.
 */
module Domain {
  import opened Prelude
  import opened Text
  import opened Versions

  datatype Provenance =
    | RBasePackage(rVersion: RPackageVersion)
    | RegistryRelease(namespace: string, version: RPackageVersion)
    | GitCommit(repository: string, commit: string, subdirectory: Option<string>)
    | BioconductorRelease(namespace: string, release: string, version: RPackageVersion)
    | ImmutableSource(scheme: string, digest: string)

  datatype ReleaseIdentity = ReleaseIdentity(name: string, provenance: Provenance)

  datatype RelationOp = Lt | Le | Eq | Ne | Ge | Gt

  datatype VersionClause = VersionClause(op: RelationOp, version: RPackageVersion) {
    predicate Accepts(candidate: RPackageVersion) {
      var order := candidate.Compare(version);
      match op
      case Lt => order == Less
      case Le => order != Greater
      case Eq => order == Equal
      case Ne => order != Equal
      case Ge => order != Less
      case Gt => order == Greater
    }
  }

  // A conjunction of clauses.
  datatype VersionConstraint = VersionConstraint(clauses: seq<VersionClause>) {
    predicate Satisfies(candidate: RPackageVersion) {
      forall i | 0 <= i < |clauses| :: clauses[i].Accepts(candidate)
    }
  }

  datatype DependencyKind = Depends | Imports | LinkingTo | Suggests | Enhances

  datatype SourceConstraint =
    | Any
    | Registry(namespace: string)
    | Repository(repository: string)
    | Bioconductor(namespace: string, release: string)
    | Git(url: string)
    | Exact(identity: ReleaseIdentity)

  datatype PackageRequirement =
    PackageRequirement(name: string, source: SourceConstraint, constraint: VersionConstraint) {
    // `PackageRequirement::new` rejects an exact identity with another name.
    predicate Valid() {
      source.Exact? ==> source.identity.name == name
    }
  }

  datatype DeclaredDependency = DeclaredDependency(kind: DependencyKind, package: PackageRequirement)

  datatype SolverKey =
    | RegistryKey(namespace: string, name: string)
    | BioconductorKey(namespace: string, release: string, name: string)
    | RepositoryKey(repository: string, name: string)
    | ExactKey(identity: ReleaseIdentity)
    | InstalledName(name: string)
    | RKey

  // An ASCII letter, then letters, digits or periods, not ending with a period.
  predicate ValidPackageName(name: string) {
    && name != ""
    && IsAlpha(name[0])
    && (forall c | c in name :: IsAlphanumeric(c) || c == '.')
    && name[|name| - 1] != '.'
  }

  // ------------------------------------------------ equality up to spelling

  function Canon(v: RPackageVersion): RPackageVersion {
    RPackageVersion("", Spill(v.Key()))
  }

  function CanonProvenance(p: Provenance): Provenance {
    match p
    case RBasePackage(v) => RBasePackage(Canon(v))
    case RegistryRelease(namespace, v) => RegistryRelease(namespace, Canon(v))
    case GitCommit(_, _, _) => p
    case BioconductorRelease(namespace, release, v) => BioconductorRelease(namespace, release, Canon(v))
    case ImmutableSource(_, _) => p
  }

  function CanonIdentity(id: ReleaseIdentity): ReleaseIdentity {
    ReleaseIdentity(id.name, CanonProvenance(id.provenance))
  }

  function CanonClause(clause: VersionClause): VersionClause {
    VersionClause(clause.op, Canon(clause.version))
  }

  function CanonClauses(clauses: seq<VersionClause>): (canon: seq<VersionClause>)
    ensures |canon| == |clauses|
    ensures forall i | 0 <= i < |clauses| :: canon[i] == CanonClause(clauses[i])
  {
    seq(|clauses|, i requires 0 <= i < |clauses| => CanonClause(clauses[i]))
  }

  function CanonConstraint(constraint: VersionConstraint): VersionConstraint {
    VersionConstraint(CanonClauses(constraint.clauses))
  }

  function CanonSource(source: SourceConstraint): SourceConstraint {
    match source
    case Exact(identity) => Exact(CanonIdentity(identity))
    case _ => source
  }

  function CanonRequirement(r: PackageRequirement): PackageRequirement {
    PackageRequirement(r.name, CanonSource(r.source), CanonConstraint(r.constraint))
  }

  function CanonDependency(d: DeclaredDependency): DeclaredDependency {
    DeclaredDependency(d.kind, CanonRequirement(d.package))
  }

  function CanonDependencies(ds: seq<DeclaredDependency>): (canon: seq<DeclaredDependency>)
    ensures |canon| == |ds|
    ensures forall i | 0 <= i < |ds| :: canon[i] == CanonDependency(ds[i])
  {
    seq(|ds|, i requires 0 <= i < |ds| => CanonDependency(ds[i]))
  }

  function CanonKey(key: SolverKey): SolverKey {
    match key
    case ExactKey(identity) => ExactKey(CanonIdentity(identity))
    case _ => key
  }

  predicate SameIdentity(a: ReleaseIdentity, b: ReleaseIdentity) {
    CanonIdentity(a) == CanonIdentity(b)
  }

  lemma {:induction false} TrimTwice(s: seq<u32>)
    ensures Trim(Trim(s)) == Trim(s)
  {
    TrimFacts(s);
  }

  lemma CanonIsSame(v: RPackageVersion, w: RPackageVersion)
    ensures Canon(v).Key() == v.Key() && Canon(Canon(v)) == Canon(v)
    ensures Canon(v) == Canon(w) <==> v.Same(w)
  {
    if v.components.Valid() {
      TrimTwice(v.All());
    }
    assert Canon(v).Key() == v.Key();
    SameIsKeyEquality(v, w);
  }

  // Constraint satisfaction cannot see spelling.
  lemma SatisfiesUpToSpelling(c: VersionConstraint, d: VersionConstraint, v: RPackageVersion, w: RPackageVersion)
    requires CanonConstraint(c) == CanonConstraint(d) && Canon(v) == Canon(w)
    ensures c.Satisfies(v) <==> d.Satisfies(w)
  {
    CanonIsSame(v, w);
    assert |c.clauses| == |CanonClauses(c.clauses)| == |d.clauses|;
    forall i | 0 <= i < |c.clauses|
      ensures c.clauses[i].Accepts(v) <==> d.clauses[i].Accepts(w)
    {
      assert CanonClauses(c.clauses)[i] == CanonClauses(d.clauses)[i];
      CanonIsSame(c.clauses[i].version, d.clauses[i].version);
    }
  }
}
