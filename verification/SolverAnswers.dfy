/**
 What the PubGrub provider answers, as functions of the solve-local tables: the
 cached views of subjects and the interned candidate identifiers.
 */
module SolverAnswers {
  import opened Prelude
  import opened Versions
  import opened Domain
  import opened Candidates
  import opened CandidateMerge
  import opened Requests

  datatype LoadResult = LoadResult(releases: seq<Candidate>, quarantined: seq<RPackageVersion>)

  // The injected collaborators of a solve. `sortKey` and `subjectText` are the
  // textual forms by which identities and subjects are ordered.
  datatype Problem = Problem(
    request: Request,
    load: SolverKey -> Result<LoadResult, LoadError>,
    decide: (SolverKey, Option<ReleaseIdentity>) -> LockDecision,
    prefer: (SolverKey, Candidate, Candidate, Option<ReleaseIdentity>) -> Order,
    sortKey: ReleaseIdentity -> string,
    subjectText: SolverKey -> string) {
    function Decision(subject: SolverKey): LockDecision {
      decide(subject, if subject in request.locked then Some(request.locked[subject]) else None)
    }

    // Loaders hand out prepared candidates, and roots are valid requirements.
    ghost predicate Sound() {
      && (forall s, c | load(s).Ok? && c in load(s).value.releases :: Valid(c))
      && (forall r | r in request.roots :: r.package.Valid())
    }
  }

  // -------------------------------------------------------------- one subject

  function Position(unique: seq<Candidate>, key: ReleaseIdentity): (found: Option<nat>)
    ensures found.Some? ==> found.value < |unique| && KeyOf(unique[found.value]) == key
    ensures found.None? ==> forall i | 0 <= i < |unique| :: KeyOf(unique[i]) != key
  {
    if unique == [] then None
    else if KeyOf(unique[0]) == key then Some(0)
    else match Position(unique[1..], key)
      case Some(i) => Some(i + 1)
      case None => None
  }

  // One more release: merged with the one of its identity, which moves to the end.
  function Unified(unique: seq<Candidate>, c: Candidate): Result<seq<Candidate>, LoadError> {
    match Position(unique, KeyOf(c))
    case None => Ok(unique + [c])
    case Some(i) =>
      match Merge(unique[i], c)
      case Err(_) => Err(ConflictingWithinSubject)
      case Ok(merged) => Ok(unique[..i] + unique[i + 1..] + [merged])
  }

  function UnifyAll(unique: seq<Candidate>, rest: seq<Candidate>): Result<seq<Candidate>, LoadError>
    decreases |rest|
  {
    if rest == [] then Ok(unique)
    else
      var next :- Unified(unique, rest[0]);
      UnifyAll(next, rest[1..])
  }

  function ByIdentity(p: Problem): (Candidate, Candidate) -> Order {
    (a: Candidate, b: Candidate) => CompareText(p.sortKey(a.release.identity), p.sortKey(b.release.identity))
  }

  // The candidates of a subject, before they get identifiers.
  function View(p: Problem, subject: SolverKey): Result<seq<Candidate>, LoadError> {
    var result :- p.load(subject);
    var unique :- UnifyAll([], result.releases);
    Ok(Filter(SortBy(unique, ByIdentity(p)), (c: Candidate) => EligibleFor(c, subject)))
  }

  ghost predicate Distinct(cs: seq<Candidate>) {
    DistinctBy(cs, KeyOf)
  }

  ghost predicate AllValid(cs: seq<Candidate>) {
    All(cs, Valid)
  }

  ghost predicate All<T>(s: seq<T>, good: T -> bool) {
    forall i | 0 <= i < |s| :: good(s[i])
  }

  lemma MovedToEnd<T, K>(s: seq<T>, i: nat, m: T, n: seq<T>, key: T -> K, good: T -> bool)
    requires i < |s| && n == s[..i] + s[i + 1..] + [m]
    requires DistinctBy(s, key) && All(s, good) && good(m) && key(m) == key(s[i])
    ensures DistinctBy(n, key) && All(n, good)
  {
  }

  lemma Appended<T, K>(s: seq<T>, m: T, key: T -> K, good: T -> bool)
    requires DistinctBy(s, key) && All(s, good) && good(m)
    requires forall i | 0 <= i < |s| :: key(s[i]) != key(m)
    ensures DistinctBy(s + [m], key) && All(s + [m], good)
  {
  }

  lemma UnifiedKeeps(unique: seq<Candidate>, c: Candidate, r: Result<seq<Candidate>, LoadError>)
    requires AllValid(unique) && Distinct(unique) && Valid(c) && r == Unified(unique, c)
    ensures r.Ok? ==> AllValid(r.value) && Distinct(r.value)
  {
    match Position(unique, KeyOf(c))
    case None => Appended(unique, c, KeyOf, Valid);
    case Some(i) =>
      var m := Merge(unique[i], c);
      assert Valid(unique[i]);
      MergeIsJoin(unique[i], c, m);
      if m.Ok? {
        MovedToEnd(unique, i, m.value, r.value, KeyOf, Valid);
      }
  }

  lemma {:induction false} UnifyKeeps(unique: seq<Candidate>, rest: seq<Candidate>)
    requires AllValid(unique) && Distinct(unique) && AllValid(rest)
    ensures UnifyAll(unique, rest).Ok? ==>
      AllValid(UnifyAll(unique, rest).value) && Distinct(UnifyAll(unique, rest).value)
    decreases |rest|
  {
    if rest != [] {
      var next := Unified(unique, rest[0]);
      UnifiedKeeps(unique, rest[0], next);
      if next.Ok? {
        UnifyKeeps(next.value, rest[1..]);
      }
    }
  }

  lemma ListedIsValid(p: Problem, subject: SolverKey, c: Candidate)
    requires p.Sound() && p.load(subject).Ok? && c in p.load(subject).value.releases
    ensures Valid(c)
  {
  }

  // A view lists valid eligible candidates, one for each identity.
  lemma ViewFacts(p: Problem, subject: SolverKey)
    requires p.Sound() && View(p, subject).Ok?
    ensures var view := View(p, subject).value;
      AllValid(view) && Distinct(view) && forall i | 0 <= i < |view| :: EligibleFor(view[i], subject)
  {
    var result := p.load(subject).value;
    var unique := UnifyAll([], result.releases).value;
    assert AllValid(result.releases) by {
      forall i | 0 <= i < |result.releases|
        ensures Valid(result.releases[i])
      {
        ListedIsValid(p, subject, result.releases[i]);
      }
    }
    UnifyKeeps([], result.releases);
    ArrangedFacts(unique, ByIdentity(p), (c: Candidate) => EligibleFor(c, subject));
  }

  lemma ArrangedFacts(unique: seq<Candidate>, cmp: (Candidate, Candidate) -> Order, keep: Candidate -> bool)
    requires AllValid(unique) && Distinct(unique)
    ensures var view := Filter(SortBy(unique, cmp), keep);
      AllValid(view) && Distinct(view) && forall i | 0 <= i < |view| :: keep(view[i])
  {
    var sorted := SortBy(unique, cmp);
    var view := Filter(sorted, keep);
    SortElements(unique, cmp);
    SortDistinct(unique, KeyOf, cmp);
    FilterMembers(sorted, keep);
    FilterDistinct(sorted, KeyOf, keep);
    forall i | 0 <= i < |view|
      ensures Valid(view[i]) && keep(view[i])
    {
      assert view[i] in view && view[i] in unique;
    }
  }

  // ------------------------------------------------------------------- tables

  datatype LoadedSubject = LoadedSubject(candidates: seq<(nat, Candidate)>, quarantined: seq<RPackageVersion>)

  datatype Tables = Tables(
    loaded: map<SolverKey, Result<LoadedSubject, LoadError>>,
    ids: map<ReleaseIdentity, nat>,
    interned: map<nat, Candidate>,
    next: nat)

  ghost predicate SubMap<K, V>(m: map<K, V>, n: map<K, V>) {
    forall k | k in m :: k in n && m[k] == n[k]
  }

  // Later tables of the same solve.
  ghost predicate Extends(t: Tables, u: Tables) {
    SubMap(t.loaded, u.loaded) && SubMap(t.ids, u.ids) && SubMap(t.interned, u.interned) && t.next <= u.next
  }

  // Identifiers and identities correspond one to one.
  ghost predicate ValidInterner(t: Tables) {
    && (forall k | k in t.ids :: t.ids[k] < t.next && t.ids[k] in t.interned && KeyOf(t.interned[t.ids[k]]) == k)
    && (forall id | id in t.interned :: KeyOf(t.interned[id]) in t.ids && t.ids[KeyOf(t.interned[id])] == id)
  }

  // The candidate holds the identifier of its identity, and what was interned for
  // it knows the same.
  ghost predicate Interned(t: Tables, id: nat, c: Candidate) {
    KeyOf(c) in t.ids && t.ids[KeyOf(c)] == id && id in t.interned && SameFacts(t.interned[id], c)
  }

  ghost predicate Numbered(t: Tables, view: seq<Candidate>, candidates: seq<(nat, Candidate)>) {
    |candidates| == |view|
    && forall i | 0 <= i < |view| :: candidates[i].1 == view[i] && Interned(t, candidates[i].0, view[i])
  }

  ghost predicate ValidLoaded(p: Problem, t: Tables, subject: SolverKey) {
    subject in t.loaded && (t.loaded[subject].Ok? ==>
      && View(p, subject).Ok?
      && p.load(subject).Ok?
      && t.loaded[subject].value.quarantined == p.load(subject).value.quarantined
      && Numbered(t, View(p, subject).value, t.loaded[subject].value.candidates))
  }

  ghost predicate ValidTables(p: Problem, t: Tables) {
    && ValidInterner(t)
    && (forall s | s in t.loaded :: ValidLoaded(p, t, s))
  }

  lemma NumberedStays(t: Tables, u: Tables, view: seq<Candidate>, candidates: seq<(nat, Candidate)>)
    requires Extends(t, u) && Numbered(t, view, candidates)
    ensures Numbered(u, view, candidates)
  {
    forall i | 0 <= i < |view|
      ensures Interned(u, candidates[i].0, view[i])
    {
      assert Interned(t, candidates[i].0, view[i]);
    }
  }

  // ------------------------------------------------------------------ answers

  datatype PackageId = Root | Subject(key: SolverKey) | Occupancy(name: string)

  datatype SolverVersion = RootVersion | RVersion(version: RPackageVersion) | CandidateVersion(id: nat)

  datatype PublicationRejection = PublicationCooldown(identity: ReleaseIdentity, published: int)
    | PublicationUnknown(identity: ReleaseIdentity)

  datatype Reason = UnknownRootVersion | UnknownCandidateVersion
    | PublicationPolicy(rejections: seq<PublicationRejection>) | GitDependency(name: string)

  datatype Dependencies = Available(constraints: seq<(PackageId, set<SolverVersion>)>) | Unavailable(reason: Reason)

  function Look(t: Tables, subject: SolverKey): Result<LoadedSubject, LoadError> {
    if subject in t.loaded then t.loaded[subject] else Err(NotLoaded)
  }

  function Target(p: Problem): SolverVersion {
    RVersion(Canon(p.request.rVersion))
  }

  function RRange(p: Problem, constraint: VersionConstraint): set<SolverVersion> {
    if constraint.Satisfies(p.request.rVersion) then {Target(p)} else {}
  }

  function Matching(candidates: seq<(nat, Candidate)>, constraint: VersionConstraint): set<SolverVersion> {
    set x | x in candidates && constraint.Satisfies(x.1.release.version) :: CandidateVersion(x.0)
  }

  // An empty range is an error when quarantine explains it.
  function CheckedRange(p: Problem, subject: SolverKey, quarantined: seq<RPackageVersion>,
    constraint: VersionConstraint, range: set<SolverVersion>):
      Result<set<SolverVersion>, LoadError> {
    if !p.Decision(subject).Require? && range == {}
      && exists i | 0 <= i < |quarantined| :: constraint.Satisfies(quarantined[i])
    then Err(MatchesQuarantined)
    else Ok(range)
  }

  // `candidate_ranges`.
  function CandidateRange(p: Problem, t: Tables, subject: SolverKey,
    constraint: VersionConstraint): Result<set<SolverVersion>, LoadError> {
    var loaded :- Look(t, subject);
    CheckedRange(p, subject, loaded.quarantined, constraint, Matching(loaded.candidates, constraint))
  }

  // The constraint that a requirement turns into.
  function RequirementRange(p: Problem, t: Tables, package: PackageRequirement)
    : Result<(PackageId, set<SolverVersion>), LoadError> {
    var subject :- SubjectFor(p.request, package);
    var range :- if subject == RKey then Ok(RRange(p, package.constraint))
      else CandidateRange(p, t, subject, package.constraint);
    Ok((Subject(subject), range))
  }

  function RootPackages(roots: seq<RootRequirement>): (packages: seq<PackageRequirement>)
    ensures |packages| == |roots| && forall i | 0 <= i < |roots| :: packages[i] == roots[i].package
  {
    seq(|roots|, i requires 0 <= i < |roots| => roots[i].package)
  }

  function EdgePackages(edges: seq<Edge>): (packages: seq<PackageRequirement>)
    ensures |packages| == |edges| && forall i | 0 <= i < |edges| :: packages[i] == edges[i].package
  {
    seq(|edges|, i requires 0 <= i < |edges| => edges[i].package)
  }

  function RootRanges(p: Problem, t: Tables,
    packages: seq<PackageRequirement>): Result<seq<(PackageId, set<SolverVersion>)>, LoadError> {
    if packages == [] then Ok([])
    else
      var first :- RequirementRange(p, t, packages[0]);
      var rest :- RootRanges(p, t, packages[1..]);
      Ok([first] + rest)
  }

  // A Git edge makes the whole candidate unavailable.
  function EdgeRanges(p: Problem, t: Tables, packages: seq<PackageRequirement>): Result<Dependencies, LoadError> {
    if packages == [] then Ok(Dependencies.Available([]))
    else if packages[0].source.Git? then Ok(Unavailable(GitDependency(packages[0].name)))
    else
      var first :- RequirementRange(p, t, packages[0]);
      var rest :- EdgeRanges(p, t, packages[1..]);
      Ok(match rest
        case Available(constraints) => Dependencies.Available([first] + constraints)
        case Unavailable(_) => rest)
  }

  function Find(candidates: seq<(nat, Candidate)>, id: nat): (found: Option<Candidate>)
    ensures found.Some? ==> (id, found.value) in candidates
    ensures found.None? ==> forall i | 0 <= i < |candidates| :: candidates[i].0 != id
  {
    if candidates == [] then None
    else if candidates[0].0 == id then assert candidates[0] in candidates; Some(candidates[0].1)
    else Find(candidates[1..], id)
  }

  function CandidateFor(t: Tables, subject: SolverKey, id: nat): Result<Candidate, LoadError> {
    var loaded :- Look(t, subject);
    match Find(loaded.candidates, id)
    case Some(c) => Ok(c)
    case None => Err(NotVisible)
  }

  // Why a cutoff keeps a candidate out, if it does.
  function RejectionOf(p: Problem, c: Candidate, locked: Option<ReleaseIdentity>): Option<PublicationRejection> {
    if p.request.cutoff.None? || c.release.IsRBase() || (locked.Some? && SameIdentity(c.release.identity, locked.value))
      then None
    else match c.release.publication
      case Some(published) =>
        if published > p.request.cutoff.value then Some(PublicationCooldown(c.release.identity, published)) else None
      case None => Some(PublicationUnknown(c.release.identity))
  }

  function RejectionList(p: Problem, candidates: seq<(nat, Candidate)>,
    locked: Option<ReleaseIdentity>): seq<PublicationRejection> {
    if candidates == [] then []
    else
      var rest := RejectionList(p, candidates[1..], locked);
      match RejectionOf(p, candidates[0].1, locked)
      case Some(rejection) => [rejection] + rest
      case None => rest
  }

  function Rejections(p: Problem, candidates: seq<(nat, Candidate)>,
    locked: Option<ReleaseIdentity>): seq<PublicationRejection> {
    SortBy(RejectionList(p, candidates, locked),
      (a: PublicationRejection, b: PublicationRejection) => CompareText(p.sortKey(a.identity), p.sortKey(b.identity)))
  }

  predicate Named(rejections: seq<PublicationRejection>, id: ReleaseIdentity) {
    exists i | 0 <= i < |rejections| :: SameIdentity(id, rejections[i].identity)
  }

  // The candidates the lock and the range leave, before the cutoff.
  function Permitted(p: Problem, subject: SolverKey, candidates: seq<(nat, Candidate)>,
    range: SolverVersion -> bool): seq<(nat, Candidate)> {
    Filter(candidates, (x: (nat, Candidate)) =>
      p.Decision(subject).Admits(x.1.release.identity) && range(CandidateVersion(x.0)))
  }

  // Dropping what the cutoff rejects, unless that is everything.
  function AfterCutoff(p: Problem, subject: SolverKey, permitted: seq<(nat, Candidate)>): seq<(nat, Candidate)> {
    var rejections := Rejections(p, permitted, p.Decision(subject).Locked());
    if p.request.cutoff.None? || rejections == [] then permitted
    else
      var kept := Filter(permitted, (x: (nat, Candidate)) => !Named(rejections, x.1.release.identity));
      if kept == [] then permitted else kept
  }

  function ByPreference(p: Problem, subject: SolverKey): ((nat, Candidate), (nat, Candidate)) -> Order {
    (a: (nat, Candidate), b: (nat, Candidate)) =>
      p.prefer(subject, a.1, b.1, p.Decision(subject).Locked())
        .Then(a.1.release.version.Compare(b.1.release.version))
        .Then(CompareText(p.sortKey(a.1.release.identity), p.sortKey(b.1.release.identity)))
  }

  // The version `choose_version` offers for a subject other than R.
  function ChooseCandidate(p: Problem, t: Tables, subject: SolverKey,
    range: SolverVersion -> bool): Result<Option<SolverVersion>, LoadError> {
    var loaded :- Look(t, subject);
    var ordered := SortBy(AfterCutoff(p, subject, Permitted(p, subject, loaded.candidates, range)),
      ByPreference(p, subject));
    Ok(if ordered == [] then None else Some(CandidateVersion(ordered[|ordered| - 1].0)))
  }

  // What `choose_version` may answer.
  ghost predicate Offered(p: Problem, t: Tables, package: PackageId, range: SolverVersion -> bool,
    answer: Result<Option<SolverVersion>, LoadError>) {
    match package
    case Root => answer == Ok(if range(RootVersion) then Some(RootVersion) else None)
    case Subject(RKey) => answer == Ok(if range(Target(p)) then Some(Target(p)) else None)
    case Subject(subject) => answer == ChooseCandidate(p, t, subject, range)
    case Occupancy(name) => OccupantOffered(p, t, name, range, answer)
  }

  // The identifier in range whose identity of that name sorts first.
  ghost predicate OccupantOffered(p: Problem, t: Tables, name: string, range: SolverVersion -> bool,
    answer: Result<Option<SolverVersion>, LoadError>) {
    match answer
    case Err(_) => false
    case Ok(None) => forall id | id in t.interned && Occupies(t, id, name) :: !range(CandidateVersion(id))
    case Ok(Some(version)) =>
      && version.CandidateVersion? && range(version)
      && version.id in t.interned && Occupies(t, version.id, name)
      && forall id | id in t.interned && Occupies(t, id, name) && range(CandidateVersion(id)) ::
           CompareText(p.sortKey(t.interned[version.id].release.identity),
             p.sortKey(t.interned[id].release.identity)) != Greater
  }

  predicate Occupies(t: Tables, id: nat, name: string)
    requires id in t.interned
  {
    t.interned[id].release.identity.name == name
  }

  function CandidateRejections(p: Problem, subject: SolverKey, id: nat, c: Candidate): seq<PublicationRejection> {
    var decision := p.Decision(subject);
    if !decision.Admits(c.release.identity) then [] else Rejections(p, [(id, c)], decision.Locked())
  }

  // A candidate's edges behind the reservation of its name.
  function Reserving(name: string, id: nat, edges: Dependencies): Dependencies {
    match edges
    case Available(constraints) => Dependencies.Available([(Occupancy(name), {CandidateVersion(id)})] + constraints)
    case Unavailable(_) => edges
  }

  function ReleaseDependencies(p: Problem, t: Tables, subject: SolverKey, id: nat,
    release: Release): Result<Dependencies, LoadError> {
    var expansion :- ExpansionFor(p.request, p.request.roots, subject);
    var edges :- EdgeRanges(p, t, EdgePackages(Edges(release.dependencies, expansion)));
    Ok(Reserving(release.identity.name, id, edges))
  }

  // `get_dependencies` for a candidate of a subject.
  function CandidateDependencies(p: Problem, t: Tables, subject: SolverKey, id: nat): Result<Dependencies, LoadError> {
    var c :- CandidateFor(t, subject, id);
    var rejections := CandidateRejections(p, subject, id, c);
    if rejections != [] then Ok(Unavailable(PublicationPolicy(rejections)))
    else ReleaseDependencies(p, t, subject, id, c.release)
  }

  // What `get_dependencies` answers.
  function DependenciesOf(p: Problem, t: Tables, package: PackageId, version: SolverVersion)
    : Result<Dependencies, LoadError> {
    match package
    case Root =>
      if version != RootVersion then Ok(Unavailable(UnknownRootVersion))
      else
        var roots :- RootRanges(p, t, RootPackages(p.request.roots));
        Ok(Dependencies.Available([(Subject(RKey), RRange(p, p.request.rRequirement))] + roots))
    case Subject(RKey) => Ok(Dependencies.Available([]))
    case Subject(subject) =>
      if version.CandidateVersion? then CandidateDependencies(p, t, subject, version.id)
      else Ok(Unavailable(UnknownCandidateVersion))
    case Occupancy(_) => Ok(Dependencies.Available([]))
  }

  // ---------------------------------------------------------------- stability

  lemma RequirementRangeStays(p: Problem, t: Tables, u: Tables, package: PackageRequirement)
    requires Extends(t, u) && RequirementRange(p, t, package).Ok?
    ensures RequirementRange(p, u, package) == RequirementRange(p, t, package)
  {
  }

  lemma {:induction false} RootRangesStay(p: Problem, t: Tables, u: Tables, packages: seq<PackageRequirement>)
    requires Extends(t, u) && RootRanges(p, t, packages).Ok?
    ensures RootRanges(p, u, packages) == RootRanges(p, t, packages)
  {
    if packages != [] {
      RequirementRangeStays(p, t, u, packages[0]);
      RootRangesStay(p, t, u, packages[1..]);
    }
  }

  lemma {:induction false} EdgeRangesStay(p: Problem, t: Tables, u: Tables, packages: seq<PackageRequirement>)
    requires Extends(t, u) && EdgeRanges(p, t, packages).Ok?
    ensures EdgeRanges(p, u, packages) == EdgeRanges(p, t, packages)
  {
    if packages != [] && !packages[0].source.Git? {
      RequirementRangeStays(p, t, u, packages[0]);
      EdgeRangesStay(p, t, u, packages[1..]);
    }
  }

  // An answered dependency query has the same answer for the rest of the solve.
  lemma DependenciesStay(p: Problem, t: Tables, u: Tables, package: PackageId, version: SolverVersion)
    requires Extends(t, u) && DependenciesOf(p, t, package, version).Ok?
    ensures DependenciesOf(p, u, package, version) == DependenciesOf(p, t, package, version)
  {
    match package
    case Root =>
      if version == RootVersion {
        RootRangesStay(p, t, u, RootPackages(p.request.roots));
      }
    case Subject(RKey) =>
    case Subject(subject) =>
      if version.CandidateVersion? {
        CandidateDependenciesStay(p, t, u, subject, version.id);
      }
    case Occupancy(_) =>
  }

  lemma CandidateDependenciesStay(p: Problem, t: Tables, u: Tables, subject: SolverKey, id: nat)
    requires Extends(t, u) && CandidateDependencies(p, t, subject, id).Ok?
    ensures CandidateDependencies(p, u, subject, id) == CandidateDependencies(p, t, subject, id)
  {
    var c := CandidateFor(t, subject, id).value;
    if CandidateRejections(p, subject, id, c) == [] {
      var expansion := ExpansionFor(p.request, p.request.roots, subject).value;
      EdgeRangesStay(p, t, u, EdgePackages(Edges(c.release.dependencies, expansion)));
    }
  }

  lemma ChooseStays(p: Problem, t: Tables, u: Tables, subject: SolverKey, range: SolverVersion -> bool)
    requires Extends(t, u) && ChooseCandidate(p, t, subject, range).Ok?
    ensures ChooseCandidate(p, u, subject, range) == ChooseCandidate(p, t, subject, range)
  {
  }
}
