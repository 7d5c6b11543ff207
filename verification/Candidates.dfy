/**
 Prepared candidates: a release with the repository occurrences that make it
 visible, and the merge of several observations of one release.
 */
module Candidates {
  import opened Prelude
  import opened Versions
  import opened Domain
  import opened Distributions

  datatype Release = Release(
    identity: ReleaseIdentity,
    version: RPackageVersion,
    metadata: seq<(string, string)>,
    publication: Option<int>,
    dependencies: seq<DeclaredDependency>,
    distributions: seq<Distribution>) {
    predicate IsRBase() {
      identity.provenance.RBasePackage?
    }
  }

  datatype Availability = Available | MetadataOnly

  datatype Currentness = Current | Historical

  datatype Occurrence = Occurrence(
    repository: string,
    registry: string,
    availability: Availability,
    currentness: Currentness,
    rank: nat,
    distributions: seq<Distribution>)

  datatype Exposure = NoExposure | ExactOnly | RuntimeInstalled {
    function Rank(): nat {
      match this
      case NoExposure => 0
      case ExactOnly => 1
      case RuntimeInstalled => 2
    }
  }

  datatype Candidate = Candidate(release: Release, exposure: Exposure, occurrences: seq<Occurrence>)

  datatype CandidateError =
    | IdentityMismatch
    | ConflictingReleaseMetadata(field: string)
    | ConflictingOccurrence(repository: string)
    | InvalidOccurrence(repository: string)
    | DistributionNotInRelease(repository: string)
    | ReleaseDistributionWithoutOccurrence
    | MissingRepositoryOccurrence
    | InvalidNonRepositoryExposure

  // ----------------------------------------------------------------- releases

  // Pushes what is not contained yet.
  function PushNew(own: seq<Distribution>, incoming: seq<Distribution>): seq<Distribution>
    decreases |incoming|
  {
    if incoming == [] then own
    else PushNew(if incoming[0] in own then own else own + [incoming[0]], incoming[1..])
  }

  lemma {:induction false} PushNewMembers(own: seq<Distribution>, incoming: seq<Distribution>)
    ensures forall d :: d in PushNew(own, incoming) <==> d in own || d in incoming
    decreases |incoming|
  {
    if incoming != [] {
      PushNewMembers(if incoming[0] in own then own else own + [incoming[0]], incoming[1..]);
      assert incoming == [incoming[0]] + incoming[1..];
    }
  }

  // `PackageRelease::merge_distributions`.
  method MergeDistributions(own: seq<Distribution>, incoming: seq<Distribution>) returns (merged: seq<Distribution>)
    ensures merged == Canonicalize(PushNew(own, incoming))
  {
    merged := own;
    assert incoming[0..] == incoming;
    for i := 0 to |incoming|
      invariant PushNew(own, incoming) == PushNew(merged, incoming[i..])
    {
      assert incoming[i..][1..] == incoming[i + 1..];
      if incoming[i] !in merged {
        merged := merged + [incoming[i]];
      }
    }
    merged := Canonicalize(merged);
  }

  // Merging lists what either list holds, once, in canonical order.
  lemma MergedDistributionsFacts(own: seq<Distribution>, incoming: seq<Distribution>)
    requires AllSized(own) && AllSized(incoming)
    ensures CanonicalList(Canonicalize(own + incoming)) && CanonicalList(Canonicalize(PushNew(own, incoming)))
    ensures forall d :: d in Canonicalize(own + incoming) <==> d in own || d in incoming
    ensures forall d :: d in Canonicalize(PushNew(own, incoming)) <==> d in own || d in incoming
  {
    PushNewMembers(own, incoming);
    CanonicalizeFacts(own + incoming);
    CanonicalizeFacts(PushNew(own, incoming));
  }

  // `PackageRelease::merge_consistent`.
  function MergeReleases(own: Release, incoming: Release): Result<Release, CandidateError> {
    if !own.version.Same(incoming.version) then Err(ConflictingReleaseMetadata("version"))
    else if own.metadata != incoming.metadata then Err(ConflictingReleaseMetadata("metadata"))
    else if own.publication.Some? && incoming.publication.Some? && own.publication != incoming.publication then
      Err(ConflictingReleaseMetadata("publication"))
    else if CanonDependencies(own.dependencies) != CanonDependencies(incoming.dependencies) then
      Err(ConflictingReleaseMetadata("declared dependencies"))
    else Ok(own.(
      publication := if own.publication.Some? then own.publication else incoming.publication,
      distributions := Canonicalize(PushNew(own.distributions, incoming.distributions))))
  }

  // -------------------------------------------------------------- occurrences

  predicate SameScalars(a: Occurrence, b: Occurrence) {
    a.repository == b.repository && a.registry == b.registry && a.availability == b.availability
    && a.currentness == b.currentness && a.rank == b.rank
  }

  predicate RegistriesAgree(o: Occurrence) {
    forall i | 0 <= i < |o.distributions| :: o.distributions[i].registry == o.registry
  }

  function AvailabilityRank(a: Availability): nat {
    if a == Available then 0 else 1
  }

  function CurrentnessRank(c: Currentness): nat {
    if c == Current then 0 else 1
  }

  function CompareRepository(a: Occurrence, b: Occurrence): Order {
    CompareText(a.repository, b.repository)
  }

  function CompareRank(a: Occurrence, b: Occurrence): Order {
    CompareNat(a.rank, b.rank)
  }

  function CompareRest(a: Occurrence, b: Occurrence): Order {
    CompareText(a.registry, b.registry).Then(CompareNats(
      [AvailabilityRank(a.availability), CurrentnessRank(a.currentness)],
      [AvailabilityRank(b.availability), CurrentnessRank(b.currentness)]))
  }

  // Groups occurrences by repository.
  function CompareForGrouping(a: Occurrence, b: Occurrence): Order {
    CompareRepository(a, b).Then(CompareRank(a, b)).Then(CompareRest(a, b))
  }

  // The order in which a candidate keeps its occurrences.
  function CompareForKeeping(a: Occurrence, b: Occurrence): Order {
    CompareRank(a, b).Then(CompareRepository(a, b)).Then(CompareRest(a, b))
  }

  // Folds one more occurrence into the groups collected so far.
  function Grouped(groups: seq<Occurrence>, o: Occurrence): Result<seq<Occurrence>, CandidateError> {
    if !RegistriesAgree(o) then Err(InvalidOccurrence(o.repository))
    else if groups != [] && groups[|groups| - 1].repository == o.repository then
      var last := groups[|groups| - 1];
      if !SameScalars(last, o) then Err(ConflictingOccurrence(o.repository))
      else Ok(groups[..|groups| - 1] + [last.(distributions := Canonicalize(last.distributions + o.distributions))])
    else Ok(groups + [o])
  }

  function GroupAll(groups: seq<Occurrence>, rest: seq<Occurrence>): Result<seq<Occurrence>, CandidateError>
    decreases |rest|
  {
    if rest == [] then Ok(groups)
    else
      var next :- Grouped(groups, rest[0]);
      GroupAll(next, rest[1..])
  }

  method GroupOccurrences(occurrences: seq<Occurrence>) returns (r: Result<seq<Occurrence>, CandidateError>)
    ensures r == GroupAll([], SortBy(occurrences, CompareForGrouping))
  {
    var sorted := SortBy(occurrences, CompareForGrouping);
    var groups: seq<Occurrence> := [];
    assert sorted[0..] == sorted;
    for i := 0 to |sorted|
      invariant GroupAll([], sorted) == GroupAll(groups, sorted[i..])
    {
      assert sorted[i..][1..] == sorted[i + 1..];
      var next := Grouped(groups, sorted[i]);
      if next.Err? {
        return Err(next.error);
      }
      groups := next.value;
    }
    return Ok(groups);
  }

  // -------------------------------------------------------------- candidates

  predicate Listed(d: Distribution, occurrences: seq<Occurrence>) {
    exists i | 0 <= i < |occurrences| :: d in occurrences[i].distributions
  }

  predicate AllProjected(o: Occurrence, release: Release) {
    forall i | 0 <= i < |o.distributions| :: o.distributions[i] in release.distributions
  }

  function FirstUnprojected(occurrences: seq<Occurrence>, release: Release): Option<string> {
    if occurrences == [] then None
    else if !AllProjected(occurrences[0], release) then Some(occurrences[0].repository)
    else FirstUnprojected(occurrences[1..], release)
  }

  // The checks that follow the grouping in `normalize_and_validate`.
  function Validated(c: Candidate): Result<Candidate, CandidateError> {
    if c.exposure == NoExposure && c.occurrences == [] then Err(MissingRepositoryOccurrence)
    else match FirstUnprojected(c.occurrences, c.release)
      case Some(repository) => Err(DistributionNotInRelease(repository))
      case None =>
        if c.exposure == NoExposure
          && exists i | 0 <= i < |c.release.distributions| :: !Listed(c.release.distributions[i], c.occurrences)
        then Err(ReleaseDistributionWithoutOccurrence)
        else Ok(c)
  }

  // `normalize_and_validate`, and so `PreparedCandidate::new`.
  function Normalized(c: Candidate): Result<Candidate, CandidateError> {
    if c.exposure == RuntimeInstalled && !c.release.IsRBase() then Err(InvalidNonRepositoryExposure)
    else
      var groups :- GroupAll([], SortBy(c.occurrences, CompareForGrouping));
      Validated(c.(occurrences := SortBy(groups, CompareForKeeping)))
  }

  function MergedExposure(a: Exposure, b: Exposure): Exposure {
    if a == RuntimeInstalled || b == RuntimeInstalled then RuntimeInstalled
    else if a == ExactOnly || b == ExactOnly then ExactOnly
    else NoExposure
  }

  // `PreparedCandidate::merge`.
  function Merge(own: Candidate, incoming: Candidate): Result<Candidate, CandidateError> {
    if !SameIdentity(own.release.identity, incoming.release.identity) then Err(IdentityMismatch)
    else
      var release :- MergeReleases(own.release, incoming.release);
      Normalized(Candidate(release, MergedExposure(own.exposure, incoming.exposure),
        own.occurrences + incoming.occurrences))
  }

  // `same_facts`.
  predicate SameFacts(a: Candidate, b: Candidate) {
    && a.exposure == b.exposure
    && SameIdentity(a.release.identity, b.release.identity)
    && a.release.version.Same(b.release.version)
    && a.release.metadata == b.release.metadata
    && a.release.publication == b.release.publication
    && CanonDependencies(a.release.dependencies) == CanonDependencies(b.release.dependencies)
    && a.release.distributions == b.release.distributions
    && a.occurrences == b.occurrences
  }

  // What `new` and `merge` return, for releases and occurrences whose distribution
  // lists were canonical to begin with.
  ghost predicate Valid(c: Candidate) {
    && CanonicalList(c.release.distributions) && AllSized(c.release.distributions)
    && Orderly(c.occurrences)
    && DistinctBy(c.occurrences, (o: Occurrence) => o.repository)
    && Sorted(c.occurrences, CompareForKeeping)
    && (c.exposure == RuntimeInstalled ==> c.release.IsRBase())
    && Validated(c) == Ok(c)
  }

  // --------------------------------------------------------- facts as a lattice

  // The part of an occurrence that must agree within a repository.
  datatype Head = Head(repository: string, registry: string, availability: Availability, currentness: Currentness,
    rank: nat)

  // What every observation of a release must agree on, up to version spelling.
  datatype Core = Core(
    identity: ReleaseIdentity, version: RPackageVersion, metadata: seq<(string, string)>,
      dependencies: seq<DeclaredDependency>)

  // What a candidate knows. More observations only ever add to it.
  datatype Facts = Facts(
    core: Core,
    publications: set<int>,
    distributions: set<Distribution>,
    exposure: nat,
    heads: set<Head>,
    evidence: set<(string, Distribution)>) {
    // At most one publication date, and one head per repository.
    ghost predicate Functional() {
      && (forall p, q | p in publications && q in publications :: p == q)
      && (forall x, y | x in heads && y in heads && x.repository == y.repository :: x == y)
    }

    ghost predicate Below(other: Facts) {
      && core == other.core
      && publications <= other.publications
      && distributions <= other.distributions
      && exposure <= other.exposure
      && heads <= other.heads
      && evidence <= other.evidence
    }

    ghost function Join(other: Facts): Facts {
      Facts(core, publications + other.publications, distributions + other.distributions,
        if exposure < other.exposure then other.exposure else exposure,
        heads + other.heads, evidence + other.evidence)
    }

    ghost predicate Consistent(other: Facts) {
      core == other.core && Join(other).Functional()
    }
  }

  function HeadOf(o: Occurrence): Head {
    Head(o.repository, o.registry, o.availability, o.currentness, o.rank)
  }

  function HeadsOf(occurrences: seq<Occurrence>): set<Head> {
    if occurrences == [] then {} else {HeadOf(occurrences[0])} + HeadsOf(occurrences[1..])
  }

  function Tagged(repository: string, ds: seq<Distribution>): set<(string, Distribution)> {
    set d | d in ds :: (repository, d)
  }

  function EvidenceOf(occurrences: seq<Occurrence>): set<(string, Distribution)> {
    if occurrences == [] then {}
    else Tagged(occurrences[0].repository, occurrences[0].distributions) + EvidenceOf(occurrences[1..])
  }

  function CoreOf(release: Release): Core {
    Core(CanonIdentity(release.identity), Canon(release.version), release.metadata,
      CanonDependencies(release.dependencies))
  }

  ghost function FactsOf(c: Candidate): Facts {
    Facts(
      CoreOf(c.release),
      if c.release.publication.Some? then {c.release.publication.value} else {},
      (set d | d in c.release.distributions),
      c.exposure.Rank(),
      HeadsOf(c.occurrences),
      EvidenceOf(c.occurrences))
  }

  // Join is the least upper bound of consistent facts.
  lemma JoinIsLeastUpperBound(f: Facts, g: Facts, h: Facts)
    requires f.core == g.core
    ensures f.Below(f.Join(g)) && g.Below(f.Join(g))
    ensures f.Below(h) && g.Below(h) ==> f.Join(g).Below(h)
  {
  }

  lemma BelowIsAntisymmetric(f: Facts, g: Facts)
    requires f.Below(g) && g.Below(f)
    ensures f == g
  {
  }

  // Facts are consistent exactly when something extends both and still has one
  // date and one head per repository.
  lemma ConsistentIffBounded(f: Facts, g: Facts)
    ensures f.Consistent(g) <==> exists h: Facts :: f.Below(h) && g.Below(h) && h.Functional()
  {
    if f.Consistent(g) {
      JoinIsLeastUpperBound(f, g, f);
    }
  }

  // ------------------------------------------------------------------- grouping

  lemma OccurrenceOrders()
    ensures Ordering(CompareForGrouping) && Ordering(CompareForKeeping)
  {
    OrderingByText((o: Occurrence) => o.repository, CompareRepository);
    OrderingByNats((o: Occurrence) => [o.rank], CompareRank);
    var registry := (a: Occurrence, b: Occurrence) => CompareText(a.registry, b.registry);
    OrderingByText((o: Occurrence) => o.registry, registry);
    var ranks := (o: Occurrence) => [AvailabilityRank(o.availability), CurrentnessRank(o.currentness)];
    var flags := (a: Occurrence, b: Occurrence) => CompareNats(ranks(a), ranks(b));
    OrderingByNats(ranks, flags);
    OrderingThen(registry, flags, CompareRest);
    var grouping := (a: Occurrence, b: Occurrence) => CompareRepository(a, b).Then(CompareRank(a, b));
    OrderingThen(CompareRepository, CompareRank, grouping);
    OrderingThen(grouping, CompareRest, CompareForGrouping);
    var keeping := (a: Occurrence, b: Occurrence) => CompareRank(a, b).Then(CompareRepository(a, b));
    OrderingThen(CompareRank, CompareRepository, keeping);
    OrderingThen(keeping, CompareRest, CompareForKeeping);
  }

  ghost predicate OneHead(heads: set<Head>) {
    forall x, y | x in heads && y in heads && x.repository == y.repository :: x == y
  }

  ghost predicate Orderly(occurrences: seq<Occurrence>) {
    forall o | o in occurrences :: RegistriesAgree(o) && CanonicalList(o.distributions) && AllSized(o.distributions)
  }

  // Groups in strict order of repository, the last one not above what is to come.
  ghost predicate Grouping(groups: seq<Occurrence>, rest: seq<Occurrence>) {
    && StrictlySorted(groups, CompareRepository)
    && Sorted(rest, CompareRepository)
    && (groups != [] ==> forall i | 0 <= i < |rest| :: CompareRepository(groups[|groups| - 1], rest[i]) != Greater)
  }

  lemma {:induction false} HeadsOfConcat(a: seq<Occurrence>, b: seq<Occurrence>)
    ensures HeadsOf(a + b) == HeadsOf(a) + HeadsOf(b)
    ensures EvidenceOf(a + b) == EvidenceOf(a) + EvidenceOf(b)
  {
    if a == [] {
      assert a + b == b;
    } else {
      HeadsOfConcat(a[1..], b);
      assert (a + b)[1..] == a[1..] + b;
    }
  }

  // Replacing the last occurrence by its merge with another of its repository.
  lemma MergedLast(front: seq<Occurrence>, last: Occurrence, o: Occurrence, merged: Occurrence)
    requires SameScalars(last, o) && SameScalars(last, merged)
    requires forall d :: d in merged.distributions <==> d in last.distributions || d in o.distributions
    ensures HeadsOf(front + [merged]) == HeadsOf((front + [last]) + [o])
    ensures EvidenceOf(front + [merged]) == EvidenceOf((front + [last]) + [o])
  {
    HeadsOfConcat(front, [merged]);
    HeadsOfConcat(front, [last]);
    HeadsOfConcat(front + [last], [o]);
    assert HeadsOf([merged]) == {HeadOf(merged)} && HeadsOf([last]) == {HeadOf(last)} && HeadsOf([o]) == {HeadOf(o)};
    var r := o.repository;
    assert Tagged(r, merged.distributions) == Tagged(r, last.distributions) + Tagged(r, o.distributions);
    assert EvidenceOf([merged]) == Tagged(r, merged.distributions);
    assert EvidenceOf([last]) == Tagged(r, last.distributions);
    assert EvidenceOf([o]) == Tagged(r, o.distributions);
  }

  lemma GroupedLast(front: seq<Occurrence>, last: Occurrence, o: Occurrence)
    requires SameScalars(last, o) && AllSized(last.distributions) && AllSized(o.distributions)
    ensures var merged := last.(distributions := Canonicalize(last.distributions + o.distributions));
      && HeadsOf(front + [merged]) == HeadsOf((front + [last]) + [o])
      && EvidenceOf(front + [merged]) == EvidenceOf((front + [last]) + [o])
      && AllSized(merged.distributions)
  {
    var distributions := Canonicalize(last.distributions + o.distributions);
    MergedSized(last.distributions, o.distributions, distributions);
    MergedLast(front, last, o, last.(distributions := distributions));
  }

  lemma LastSized(front: seq<Occurrence>, last: Occurrence)
    requires AllSized(last.distributions) && forall g | g in front :: AllSized(g.distributions)
    ensures forall g | g in front + [last] :: AllSized(g.distributions)
  {
  }

  lemma GroupedAt(front: seq<Occurrence>, last: Occurrence, o: Occurrence)
    requires Grouped(front + [last], o).Ok? && last.repository == o.repository
    requires AllSized(last.distributions) && AllSized(o.distributions)
    ensures var merged := last.(distributions := Canonicalize(last.distributions + o.distributions));
      Grouped(front + [last], o).value == front + [merged] && AllSized(merged.distributions)
    ensures HeadsOf(Grouped(front + [last], o).value) == HeadsOf((front + [last]) + [o])
    ensures EvidenceOf(Grouped(front + [last], o).value) == EvidenceOf((front + [last]) + [o])
  {
    assert (front + [last])[..|front|] == front;
    GroupedLast(front, last, o);
  }

  // Folding in an occurrence adds its head and its evidence.
  lemma GroupedFacts(groups: seq<Occurrence>, o: Occurrence)
    requires Grouped(groups, o).Ok?
    requires AllSized(o.distributions) && forall g | g in groups :: AllSized(g.distributions)
    ensures HeadsOf(Grouped(groups, o).value) == HeadsOf(groups + [o])
    ensures EvidenceOf(Grouped(groups, o).value) == EvidenceOf(groups + [o])
    ensures forall g | g in Grouped(groups, o).value :: AllSized(g.distributions)
  {
    if groups != [] && groups[|groups| - 1].repository == o.repository {
      var front, last := groups[..|groups| - 1], groups[|groups| - 1];
      FrontAndLast(groups);
      GroupedAt(front, last, o);
      LastSized(front, last.(distributions := Canonicalize(last.distributions + o.distributions)));
    } else {
      LastSized(groups, o);
    }
  }

  lemma MergedSized(own: seq<Distribution>, incoming: seq<Distribution>, merged: seq<Distribution>)
    requires AllSized(own) && AllSized(incoming) && merged == Canonicalize(own + incoming)
    ensures AllSized(merged) && CanonicalList(merged)
    ensures forall d :: d in merged <==> d in own || d in incoming
  {
    MergedDistributionsFacts(own, incoming);
  }

  lemma RepositoryOrdering()
    ensures Ordering(CompareRepository)
    ensures forall a, b :: CompareRepository(a, b) == Equal <==> a.repository == b.repository
  {
    OrderingByText((o: Occurrence) => o.repository, CompareRepository);
    forall a: Occurrence, b: Occurrence
      ensures CompareRepository(a, b) == Equal <==> a.repository == b.repository
    {
      CompareTextFlip(a.repository, b.repository);
    }
  }

  lemma GroupingContinues(groups: seq<Occurrence>, rest: seq<Occurrence>)
    requires rest != [] && Grouping(groups, rest) && Grouped(groups, rest[0]).Ok?
    ensures Grouping(Grouped(groups, rest[0]).value, rest[1..])
  {
    RepositoryOrdering();
    var o, next := rest[0], Grouped(groups, rest[0]).value;
    forall i | 0 <= i < |rest[1..]|
      ensures CompareRepository(o, rest[1..][i]) != Greater
    {
      assert rest[1..][i] == rest[i + 1];
    }
    if groups != [] && groups[|groups| - 1].repository != o.repository {
      var last := groups[|groups| - 1];
      forall i | 0 <= i < |groups|
        ensures CompareRepository(groups[i], o) == Less
      {
        Tied(groups[i], last, o, CompareRepository);
      }
    }
  }

  ghost predicate SameKnowledge(a: seq<Occurrence>, b: seq<Occurrence>) {
    HeadsOf(a) == HeadsOf(b) && EvidenceOf(a) == EvidenceOf(b)
  }

  lemma SameKnowledgeExtended(a: seq<Occurrence>, b: seq<Occurrence>, rest: seq<Occurrence>)
    requires SameKnowledge(a, b)
    ensures SameKnowledge(a + rest, b + rest)
  {
    HeadsOfConcat(a, rest);
    HeadsOfConcat(b, rest);
  }

  lemma {:induction false} HeadMember(occurrences: seq<Occurrence>, i: nat)
    requires i < |occurrences|
    ensures HeadOf(occurrences[i]) in HeadsOf(occurrences)
  {
    if i > 0 {
      HeadMember(occurrences[1..], i - 1);
    }
  }

  lemma OrderlyNext(groups: seq<Occurrence>, o: Occurrence)
    requires Grouped(groups, o).Ok? && Orderly(groups) && Orderly([o])
    ensures Orderly(Grouped(groups, o).value)
  {
    assert o in [o];
    if groups != [] && groups[|groups| - 1].repository == o.repository {
      var last := groups[|groups| - 1];
      assert last in groups;
      var merged := Canonicalize(last.distributions + o.distributions);
      MergedSized(last.distributions, o.distributions, merged);
      forall i | 0 <= i < |merged|
        ensures merged[i].registry == last.registry
      {
        assert merged[i] in merged;
      }
    }
  }

  // Grouping sorted occurrences keeps all they say, and fails exactly when two of
  // one repository disagree.
  lemma {:induction false} GroupAllFacts(groups: seq<Occurrence>, rest: seq<Occurrence>)
    requires Grouping(groups, rest) && Orderly(groups) && Orderly(rest)
    ensures GroupAll(groups, rest).Ok? <== OneHead(HeadsOf(groups + rest))
    ensures GroupAll(groups, rest).Ok? ==>
      var all := GroupAll(groups, rest).value;
      SameKnowledge(all, groups + rest) && Orderly(all) && StrictlySorted(all, CompareRepository)
    decreases |rest|
  {
    hide StrictlySorted, HeadsOf;
    if rest == [] {
      assert groups + rest == groups;
    } else {
      var o := rest[0];
      assert Orderly([o]) && Orderly(rest[1..]);
      assert groups + rest == (groups + [o]) + rest[1..];
      assert o in rest;
      if Grouped(groups, o).Ok? {
        var next := Grouped(groups, o).value;
        GroupedFacts(groups, o);
        GroupingContinues(groups, rest);
        OrderlyNext(groups, o);
        SameKnowledgeExtended(next, groups + [o], rest[1..]);
        GroupAllFacts(next, rest[1..]);
      } else {
        HeadMember(groups + rest, |groups| - 1);
        HeadMember(groups + rest, |groups|);
      }
    }
  }

  // Groups of distinct repositories have one head each.
  lemma {:induction false} DistinctHeads(groups: seq<Occurrence>)
    requires StrictlySorted(groups, CompareRepository)
    ensures OneHead(HeadsOf(groups))
  {
    RepositoryOrdering();
    if groups != [] {
      DistinctHeads(groups[1..]);
      forall x | x in HeadsOf(groups[1..])
        ensures x.repository != groups[0].repository
      {
        var i := HeadOrigin(groups[1..], x);
        assert groups[1..][i] == groups[i + 1];
        assert CompareRepository(groups[0], groups[i + 1]) == Less;
      }
    }
  }

  lemma {:induction false} HeadOrigin(occurrences: seq<Occurrence>, x: Head) returns (i: nat)
    requires x in HeadsOf(occurrences)
    ensures i < |occurrences| && HeadOf(occurrences[i]) == x
  {
    if x == HeadOf(occurrences[0]) {
      i := 0;
    } else {
      i := HeadOrigin(occurrences[1..], x);
      i := i + 1;
    }
  }

  lemma {:induction false} EvidenceOrigin(occurrences: seq<Occurrence>, x: (string, Distribution)) returns (i: nat)
    requires x in EvidenceOf(occurrences)
    ensures i < |occurrences| && occurrences[i].repository == x.0 && x.1 in occurrences[i].distributions
  {
    if x in Tagged(occurrences[0].repository, occurrences[0].distributions) {
      i := 0;
    } else {
      i := EvidenceOrigin(occurrences[1..], x);
      i := i + 1;
    }
  }

  lemma {:induction false} EvidenceMember(occurrences: seq<Occurrence>, i: nat, d: Distribution)
    requires i < |occurrences| && d in occurrences[i].distributions
    ensures (occurrences[i].repository, d) in EvidenceOf(occurrences)
  {
    if i > 0 {
      EvidenceMember(occurrences[1..], i - 1, d);
    }
  }

  // What occurrences say does not depend on their order.
  lemma KnowledgeOfMembers(a: seq<Occurrence>, b: seq<Occurrence>)
    requires forall o | o in a :: o in b
    ensures HeadsOf(a) <= HeadsOf(b) && EvidenceOf(a) <= EvidenceOf(b)
  {
    forall x | x in HeadsOf(a)
      ensures x in HeadsOf(b)
    {
      var i := HeadOrigin(a, x);
      assert a[i] in a;
      var j :| 0 <= j < |b| && b[j] == a[i];
      HeadMember(b, j);
    }
    forall x | x in EvidenceOf(a)
      ensures x in EvidenceOf(b)
    {
      var i := EvidenceOrigin(a, x);
      assert a[i] in a;
      var j :| 0 <= j < |b| && b[j] == a[i];
      EvidenceMember(b, j, x.1);
    }
  }

  lemma SortedKnowledge(occurrences: seq<Occurrence>, cmp: (Occurrence, Occurrence) -> Order)
    ensures SameKnowledge(SortBy(occurrences, cmp), occurrences)
    ensures Orderly(occurrences) ==> Orderly(SortBy(occurrences, cmp))
  {
    SortElements(occurrences, cmp);
    KnowledgeOfMembers(SortBy(occurrences, cmp), occurrences);
    KnowledgeOfMembers(occurrences, SortBy(occurrences, cmp));
  }

  lemma GroupingOrder(occurrences: seq<Occurrence>)
    ensures Sorted(SortBy(occurrences, CompareForGrouping), CompareRepository)
  {
    OccurrenceOrders();
    SortSorted(occurrences, CompareForGrouping);
    var s := SortBy(occurrences, CompareForGrouping);
    forall i, j | 0 <= i < j < |s|
      ensures CompareRepository(s[i], s[j]) != Greater
    {
      assert CompareForGrouping(s[i], s[j]) != Greater;
    }
  }

  lemma GroupedFromNothing(sorted: seq<Occurrence>)
    requires Orderly(sorted) && Sorted(sorted, CompareRepository)
    ensures GroupAll([], sorted).Ok? <==> OneHead(HeadsOf(sorted))
    ensures GroupAll([], sorted).Ok? ==>
      var groups := GroupAll([], sorted).value;
      SameKnowledge(groups, sorted) && Orderly(groups) && StrictlySorted(groups, CompareRepository)
  {
    assert [] + sorted == sorted;
    GroupAllFacts([], sorted);
    if GroupAll([], sorted).Ok? {
      DistinctHeads(GroupAll([], sorted).value);
    }
  }

  lemma GroupedInOrder(occurrences: seq<Occurrence>)
    requires Orderly(occurrences)
    ensures var grouped := GroupAll([], SortBy(occurrences, CompareForGrouping));
      && (grouped.Ok? <==> OneHead(HeadsOf(occurrences)))
      && (grouped.Ok? ==>
            SameKnowledge(grouped.value, occurrences) && Orderly(grouped.value)
            && StrictlySorted(grouped.value, CompareRepository))
  {
    var sorted := SortBy(occurrences, CompareForGrouping);
    SortedKnowledge(occurrences, CompareForGrouping);
    GroupingOrder(occurrences);
    GroupedFromNothing(sorted);
  }

  lemma KeptInOrder(groups: seq<Occurrence>)
    requires Orderly(groups) && StrictlySorted(groups, CompareRepository)
    ensures var kept := SortBy(groups, CompareForKeeping);
      SameKnowledge(kept, groups) && Orderly(kept)
      && DistinctBy(kept, (o: Occurrence) => o.repository) && Sorted(kept, CompareForKeeping)
  {
    DistinctHeads(groups);
    SortedKnowledge(groups, CompareForKeeping);
    OccurrenceOrders();
    SortSorted(groups, CompareForKeeping);
    RepositoryOrdering();
    SortDistinct(groups, (o: Occurrence) => o.repository, CompareForKeeping);
  }

  // The grouped and reordered occurrences of a candidate.
  lemma NormalizedOccurrences(occurrences: seq<Occurrence>)
    requires Orderly(occurrences)
    ensures var grouped := GroupAll([], SortBy(occurrences, CompareForGrouping));
      && (grouped.Ok? <==> OneHead(HeadsOf(occurrences)))
      && (grouped.Ok? ==>
            var kept := SortBy(grouped.value, CompareForKeeping);
            SameKnowledge(kept, occurrences) && Orderly(kept)
            && DistinctBy(kept, (o: Occurrence) => o.repository) && Sorted(kept, CompareForKeeping))
  {
    GroupedInOrder(occurrences);
    var grouped := GroupAll([], SortBy(occurrences, CompareForGrouping));
    if grouped.Ok? {
      KeptInOrder(grouped.value);
    }
  }
}
