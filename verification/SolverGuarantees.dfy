/**
 What a resolution guarantees to the caller: requirements, locks, the publication
 cutoff, and how versions are offered.
 */
module SolverGuarantees {
  import opened Prelude
  import opened Versions
  import opened Domain
  import opened Candidates
  import opened CandidateMerge
  import opened Requests
  import opened SolverAnswers
  import opened Adapter
  import opened SolverSoundness
  import opened SolverProjection

  // A run that keeps the contract of the solver ends in a resolution, and that
  // resolution reports a closed choice.
  lemma RunIsReported(p: Problem, t: Tables, queries: seq<Query>, answers: seq<Answer>, selection: Selection,
      order: seq<PackageId>, r: Result<seq<ResolvedPackage>, Failure>)
    requires p.Sound() && ValidTables(p, t)
    requires AllTruthful(p, t, queries, answers) && Honoured(queries, answers, selection)
    requires (forall package :: package in order <==> package in selection) && forall i, j | 0 <= i < j < |order| ::
      order[i] != order[j]
    requires Outcome(p, t, selection, order, r)
    ensures r.Ok? && Closed(p, ChoiceOf(t, selection)) && Reports(p, ChoiceOf(t, selection), r.value)
  {
    HonouredIsSolution(p, t, queries, answers, selection);
    SolutionIsReported(p, t, selection, order, r);
  }

  // `solve` after a run of the solver that kept its contract: every subject it selected
  // had been loaded, so reporting loads nothing, fails nowhere and gives a closed choice.
  method ReportRun(provider: Provider, ghost queries: seq<Query>, ghost answers: seq<Answer>, selection: Selection,
      order: seq<PackageId>) returns (r: Result<seq<ResolvedPackage>, Failure>)
    requires provider.Valid() && provider.problem.Sound()
    requires AllTruthful(provider.problem, provider.State(), queries, answers) && Honoured(queries, answers, selection)
    requires (forall package :: package in order <==> package in selection) && forall i, j | 0 <= i < j < |order| ::
      order[i] != order[j]
    modifies provider
    ensures provider.Valid() && provider.State() == old(provider.State())
    ensures r.Ok? && Closed(provider.problem, ChoiceOf(provider.State(), selection))
    ensures Reports(provider.problem, ChoiceOf(provider.State(), selection), r.value)
  {
    HonouredIsSolution(provider.problem, provider.State(), queries, answers, selection);
    forall s | Subject(s) in selection && s != RKey
      ensures s in provider.cache
    {
      assert s in Subjects(selection);
      SolutionIsLoaded(provider.problem, provider.State(), selection, s);
    }
    r := Solve(provider, selection, order);
    SolutionIsReported(provider.problem, provider.State(), selection, order, r);
  }

  // ------------------------------------------------------------ dependency edges

  // A requirement is met by R itself, by a package that R supplies, or by a package
  // of the resolution; in the last two cases the candidate is of that name, comes
  // from the required source and satisfies the constraint. A package that has to come
  // from a repository is available there and lists it.
  ghost predicate Leads(p: Problem, choice: Choice, resolved: seq<ResolvedPackage>, package: PackageRequirement) {
    if package.name == "R" then !package.source.Git? && package.constraint.Satisfies(p.request.rVersion)
    else exists s :: LeadsTo(p, choice, resolved, package, s)
  }

  ghost predicate LeadsTo(p: Problem, choice: Choice, resolved: seq<ResolvedPackage>, package: PackageRequirement,
    s: SolverKey) {
    && SubjectFor(p.request, package) == Ok(s) && s in choice
    && choice[s].release.identity.name == package.name
    && SubjectCovers(choice[s].release.identity, s)
    && package.constraint.Satisfies(choice[s].release.version)
    && (package.source.Repository? ==> AvailableFrom(choice[s], package.source.repository))
    && (choice[s].release.IsRBase() || exists q :: q in resolved && Provides(q, package, choice[s].release.identity))
  }

  predicate Provides(q: ResolvedPackage, package: PackageRequirement, identity: ReleaseIdentity) {
    q.Name() == package.name && SameIdentity(q.release.identity, identity) &&
      package.constraint.Satisfies(q.release.version)
      && (package.source.Repository? ==> package.source.repository in q.repositories)
  }

  // The chosen candidate that meets a requirement.
  lemma MetByChoice(p: Problem, choice: Choice, package: PackageRequirement) returns (s: SolverKey)
    requires p.Sound() && Closed(p, choice) && package.name != "R"
    requires package.Valid() && Meets(p, choice, package)
    ensures SubjectFor(p.request, package) == Ok(s) && s in choice && EligibleFor(choice[s], s)
    ensures choice[s].release.identity.name == package.name
    ensures package.constraint.Satisfies(choice[s].release.version)
  {
    SubjectNamesPackage(p.request, package);
    s := SubjectFor(p.request, package).value;
    assert Chooses(p, choice, s);
    ViewedIsValid(p, s, choice[s]);
    EligibleIsCovered(choice[s], s);
  }

  lemma RepositorySubject(p: Problem, package: PackageRequirement, s: SolverKey, c: Candidate)
    requires SubjectFor(p.request, package) == Ok(s) && EligibleFor(c, s) && package.name != "R"
    requires package.source.Repository?
    ensures s.RepositoryKey? && s.repository == package.source.repository && AvailableFrom(c, package.source.repository)
  {
    EligibleIsCovered(c, s);
  }

  lemma ChosenLeads(p: Problem, choice: Choice, resolved: seq<ResolvedPackage>, package: PackageRequirement,
    s: SolverKey)
    requires Reports(p, choice, resolved) && s in choice && EligibleFor(choice[s], s)
    requires SubjectFor(p.request, package) == Ok(s) && package.name != "R"
    requires choice[s].release.identity.name == package.name
    requires package.constraint.Satisfies(choice[s].release.version)
    ensures LeadsTo(p, choice, resolved, package, s)
  {
    EligibleIsCovered(choice[s], s);
    if package.source.Repository? {
      RepositorySubject(p, package, s, choice[s]);
    }
    if !choice[s].release.IsRBase() {
      var q := ProvidedFor(p, choice, resolved, package, s);
    }
  }

  lemma MetLeads(p: Problem, choice: Choice, resolved: seq<ResolvedPackage>, package: PackageRequirement)
    requires p.Sound() && Closed(p, choice) && Reports(p, choice, resolved)
    requires package.Valid() && Meets(p, choice, package)
    ensures Leads(p, choice, resolved, package)
  {
    if package.name == "R" {
      SubjectNamesPackage(p.request, package);
    } else {
      var s := MetByChoice(p, choice, package);
      ChosenLeads(p, choice, resolved, package, s);
    }
  }

  lemma ProvidedFor(p: Problem, choice: Choice, resolved: seq<ResolvedPackage>, package: PackageRequirement,
    s: SolverKey) returns (q: ResolvedPackage)
    requires Reports(p, choice, resolved) && s in choice && !choice[s].release.IsRBase()
    requires SubjectFor(p.request, package) == Ok(s) && EligibleFor(choice[s], s) && package.name != "R"
    requires choice[s].release.identity.name == package.name
    requires package.constraint.Satisfies(choice[s].release.version)
    ensures q in resolved && Provides(q, package, choice[s].release.identity)
  {
    q := ListedForSubject(p, choice, resolved, s);
    SatisfiesSameRelease(package.constraint, q.release, choice[s].release);
    if package.source.Repository? {
      RepositorySubject(p, package, s, choice[s]);
      EligibleIsCovered(choice[s], s);
      assert OfName(choice, q.Name(), s) && PackageOf(p, choice, q);
      assert SeenIn(choice, q.Name(), s.repository);
    }
  }

  lemma ListedForSubject(p: Problem, choice: Choice, resolved: seq<ResolvedPackage>, s: SolverKey)
    returns (q: ResolvedPackage)
    requires Reports(p, choice, resolved) && s in choice && !choice[s].release.IsRBase()
    ensures q in resolved && q.Name() == choice[s].release.identity.name && SameRelease(q.release, choice[s].release)
  {
    q :| q in resolved && q.Name() == choice[s].release.identity.name;
    assert PackageOf(p, choice, q);
    assert OfName(choice, q.Name(), s);
  }

  lemma SatisfiesSameRelease(constraint: VersionConstraint, a: Release, b: Release)
    requires a.version.Same(b.version)
    ensures constraint.Satisfies(a.version) <==> constraint.Satisfies(b.version)
  {
    CanonIsSame(a.version, b.version);
    SatisfiesUpToSpelling(constraint, constraint, a.version, b.version);
  }

  // Meeting a requirement does not depend on how versions are spelled.
  lemma MeetsUpToSpelling(p: Problem, choice: Choice, a: PackageRequirement, b: PackageRequirement)
    requires CanonRequirement(a) == CanonRequirement(b)
    ensures Meets(p, choice, a) <==> Meets(p, choice, b)
  {
    SubjectUpToSpelling(p.request, a, b);
    var r := SubjectFor(p.request, a);
    if r.Ok? {
      SatisfiesUpToSpelling(a.constraint, b.constraint, p.request.rVersion, p.request.rVersion);
      if r.value in choice {
        SatisfiesUpToSpelling(a.constraint, b.constraint, choice[r.value].release.version,
          choice[r.value].release.version);
      }
    }
  }

  // The subject whose edges the package reports.
  lemma EdgesSubject(p: Problem, choice: Choice, r: ResolvedPackage) returns (s: SolverKey)
    requires PackageOf(p, choice, r)
    ensures OfName(choice, r.Name(), s) && r.edges == Edges(r.release.dependencies, Wanted(p, s))
    ensures CanonDependencies(r.release.dependencies) == CanonDependencies(choice[s].release.dependencies)
  {
    if AnyWants(p, choice, r.Name()) {
      s :| OfName(choice, r.Name(), s) && Wanted(p, s) == DirectSuggests;
    } else {
      s := r.subject;
      assert Wanted(p, s) == HardOnly;
    }
  }

  // Every effective edge of every resolved package leads somewhere.
  lemma EveryEdgeLeads(p: Problem, choice: Choice, resolved: seq<ResolvedPackage>, r: ResolvedPackage, i: nat)
    requires p.Sound() && Closed(p, choice) && Reports(p, choice, resolved)
    requires r in resolved && i < |r.edges| && r.edges[i].package.Valid()
    ensures Leads(p, choice, resolved, r.edges[i].package)
  {
    var s := EdgesSubject(p, choice, r);
    var x := Wanted(p, s);
    EdgesUpToSpelling(r.release.dependencies, choice[s].release.dependencies, x, i);
    var mine, theirs := r.edges[i].package, Edges(choice[s].release.dependencies, x)[i].package;
    assert Chooses(p, choice, s);
    assert EdgesMet(p, choice, choice[s].release, x);
    assert Meets(p, choice, theirs);
    MeetsUpToSpelling(p, choice, mine, theirs);
    MetLeads(p, choice, resolved, mine);
  }

  // Every root leads somewhere, and the target R meets the request.
  lemma EveryRootLeads(p: Problem, choice: Choice, resolved: seq<ResolvedPackage>, i: nat)
    requires p.Sound() && Closed(p, choice) && Reports(p, choice, resolved) && i < |p.request.roots|
    ensures Leads(p, choice, resolved, p.request.roots[i].package)
    ensures p.request.rRequirement.Satisfies(p.request.rVersion)
  {
    assert p.request.roots[i] in p.request.roots;
    MetLeads(p, choice, resolved, p.request.roots[i].package);
  }

  // One identity for each installed name of a resolution.
  lemma OnePackagePerName(p: Problem, choice: Choice, resolved: seq<ResolvedPackage>, q: ResolvedPackage,
    r: ResolvedPackage)
    requires Reports(p, choice, resolved) && q in resolved && r in resolved && q.Name() == r.Name()
    ensures q == r
  {
    var i :| 0 <= i < |resolved| && resolved[i] == q;
    var j :| 0 <= j < |resolved| && resolved[j] == r;
    CompareTextFlip(q.Name(), r.Name());
  }

  // --------------------------------------------------------------- locks, cutoff

  // A required lock is kept exactly.
  lemma RequiredLockKept(p: Problem, t: Tables, selection: Selection, s: SolverKey, locked: ReleaseIdentity)
    requires ValidTables(p, t) && Solution(p, t, selection) && s in Subjects(selection)
    requires p.Decision(s) == Require(locked)
    ensures s in ChoiceOf(t, selection) && SameIdentity(ChoiceOf(t, selection)[s].release.identity, locked)
  {
    SubjectChooses(p, t, selection, s);
  }

  // Supplied by R, locked, or published on or before the cutoff.
  predicate Timely(p: Problem, s: SolverKey, release: Release)
    requires p.request.cutoff.Some?
  {
    var locked := p.Decision(s).Locked();
    || release.IsRBase()
    || (locked.Some? && SameIdentity(release.identity, locked.value))
    || (release.publication.Some? && release.publication.value <= p.request.cutoff.value)
  }

  lemma UnrejectedIsTimely(p: Problem, s: SolverKey, c: Candidate)
    requires p.request.cutoff.Some?
    ensures RejectionOf(p, c, p.Decision(s).Locked()).None? <==> Timely(p, s, c.release)
  {
  }

  // With a cutoff, everything selected is timely.
  lemma CutoffKept(p: Problem, t: Tables, selection: Selection, s: SolverKey)
    requires ValidTables(p, t) && Solution(p, t, selection) && s in Subjects(selection)
    requires p.request.cutoff.Some?
    ensures s in ChoiceOf(t, selection) && Timely(p, s, ChoiceOf(t, selection)[s].release)
  {
    SubjectChooses(p, t, selection, s);
    UnrejectedIsTimely(p, s, ChoiceOf(t, selection)[s]);
  }

  // ----------------------------------------------------------------------- offers

  predicate Rejected(p: Problem, s: SolverKey, x: (nat, Candidate)) {
    RejectionOf(p, x.1, p.Decision(s).Locked()).Some?
  }

  lemma {:induction false} RejectionMembers(p: Problem, candidates: seq<(nat, Candidate)>,
    locked: Option<ReleaseIdentity>)
    ensures forall x | x in candidates && RejectionOf(p, x.1, locked).Some? ::
      RejectionOf(p, x.1, locked).value in RejectionList(p, candidates, locked)
    ensures forall r | r in RejectionList(p, candidates, locked) ::
      exists x :: x in candidates && RejectionOf(p, x.1, locked) == Some(r)
  {
    if candidates != [] {
      RejectionMembers(p, candidates[1..], locked);
      assert forall x :: x in candidates <==> x == candidates[0] || x in candidates[1..];
    }
  }

  // Candidates of one identity are rejected together.
  lemma RejectedTogether(p: Problem, s: SolverKey, x: (nat, Candidate), y: (nat, Candidate))
    requires SameFacts(x.1, y.1)
    ensures Rejected(p, s, x) == Rejected(p, s, y)
  {
    assert CanonProvenance(x.1.release.identity.provenance) == CanonProvenance(y.1.release.identity.provenance);
  }

  ghost predicate OneViewPerIdentity(candidates: seq<(nat, Candidate)>) {
    forall x, y | x in candidates && y in candidates && KeyOf(x.1) == KeyOf(y.1) :: SameFacts(x.1, y.1)
  }

  // The cutoff drops exactly what it rejects, unless it rejects everything.
  lemma CutoffDrops(p: Problem, s: SolverKey, permitted: seq<(nat, Candidate)>, x: (nat, Candidate))
    requires OneViewPerIdentity(permitted)
    ensures x in AfterCutoff(p, s, permitted) <==>
      x in permitted && (!Rejected(p, s, x) || forall y | y in permitted :: Rejected(p, s, y))
  {
    var locked := p.Decision(s).Locked();
    var rejections := Rejections(p, permitted, locked);
    var keep := (x: (nat, Candidate)) => !Named(rejections, x.1.release.identity);
    FilterMembers(permitted, keep);
    EmptyOrInhabited(Filter(permitted, keep));
    forall y | y in permitted
      ensures keep(y) <==> !Rejected(p, s, y)
    {
      NamedIsRejected(p, s, permitted, y);
    }
    NoRejections(p, s, permitted);
  }

  lemma NamedIsRejected(p: Problem, s: SolverKey, permitted: seq<(nat, Candidate)>, y: (nat, Candidate))
    requires OneViewPerIdentity(permitted) && y in permitted
    ensures Named(Rejections(p, permitted, p.Decision(s).Locked()), y.1.release.identity) <==> Rejected(p, s, y)
  {
    var locked := p.Decision(s).Locked();
    var list, rejections := RejectionList(p, permitted, locked), Rejections(p, permitted, locked);
    SortElements(list, (a: PublicationRejection, b: PublicationRejection) => CompareText(p.sortKey(a.identity),
      p.sortKey(b.identity)));
    RejectionMembers(p, permitted, locked);
    if Rejected(p, s, y) {
      RejectedIsNamed(p, y.1, locked, rejections);
    }
    if Named(rejections, y.1.release.identity) {
      var z := NamedBy(p, permitted, locked, rejections, y.1.release.identity);
      RejectedTogether(p, s, z, y);
    }
  }

  lemma RejectedIsNamed(p: Problem, c: Candidate, locked: Option<ReleaseIdentity>,
    rejections: seq<PublicationRejection>)
    requires RejectionOf(p, c, locked).Some? && RejectionOf(p, c, locked).value in rejections
    ensures Named(rejections, c.release.identity)
  {
    var i :| 0 <= i < |rejections| && rejections[i] == RejectionOf(p, c, locked).value;
    assert SameIdentity(c.release.identity, rejections[i].identity);
  }

  lemma NamedBy(p: Problem, permitted: seq<(nat, Candidate)>, locked: Option<ReleaseIdentity>,
      rejections: seq<PublicationRejection>, id: ReleaseIdentity) returns (z: (nat, Candidate))
    requires Named(rejections, id)
    requires forall r | r in rejections :: exists x :: x in permitted && RejectionOf(p, x.1, locked) == Some(r)
    ensures z in permitted && RejectionOf(p, z.1, locked).Some? && KeyOf(z.1) == CanonIdentity(id)
  {
    var i :| 0 <= i < |rejections| && SameIdentity(id, rejections[i].identity);
    assert rejections[i] in rejections;
    z :| z in permitted && RejectionOf(p, z.1, locked) == Some(rejections[i]);
  }

  lemma NoRejections(p: Problem, s: SolverKey, permitted: seq<(nat, Candidate)>)
    ensures Rejections(p, permitted, p.Decision(s).Locked()) == [] <==> forall y | y in permitted :: !Rejected(p, s, y)
    ensures p.request.cutoff.None? ==> forall y | y in permitted :: !Rejected(p, s, y)
  {
    var locked := p.Decision(s).Locked();
    var list := RejectionList(p, permitted, locked);
    RejectionMembers(p, permitted, locked);
    SortElements(list, (a: PublicationRejection, b: PublicationRejection) => CompareText(p.sortKey(a.identity),
      p.sortKey(b.identity)));
    EmptyOrInhabited(list);
    assert |list| == |Rejections(p, permitted, locked)|;
  }

  lemma ListedOncePerIdentity(p: Problem, t: Tables, s: SolverKey, permitted: seq<(nat, Candidate)>)
    requires ValidTables(p, t) && s in t.loaded && t.loaded[s].Ok?
    requires forall x | x in permitted :: x in t.loaded[s].value.candidates
    ensures OneViewPerIdentity(permitted)
  {
    forall x, y | x in permitted && y in permitted && KeyOf(x.1) == KeyOf(y.1)
      ensures SameFacts(x.1, y.1)
    {
      assert x == (x.0, x.1) && y == (y.0, y.1);
      ListedFacts(p, t, s, x.0, x.1);
      ListedFacts(p, t, s, y.0, y.1);
      InternedTogether(t, x.0, x.1, y.1);
    }
  }

  // Rejected only along with everything else.
  predicate LastResort(p: Problem, s: SolverKey, permitted: seq<(nat, Candidate)>, x: (nat, Candidate)) {
    Rejected(p, s, x) ==> forall y | y in permitted :: Rejected(p, s, y)
  }

  // A subject is offered a version exactly when the lock and the range leave one.
  lemma OfferedWhen(p: Problem, t: Tables, s: SolverKey, range: SolverVersion -> bool, permitted: seq<(nat, Candidate)>)
    requires ValidTables(p, t) && s in t.loaded && t.loaded[s].Ok?
    requires permitted == Permitted(p, s, t.loaded[s].value.candidates, range)
    ensures ChooseCandidate(p, t, s, range).Ok?
    ensures ChooseCandidate(p, t, s, range).value.None? <==> permitted == []
  {
    PermittedMembers(p, s, t.loaded[s].value.candidates, range);
    ListedOncePerIdentity(p, t, s, permitted);
    EligibleWhen(p, s, permitted);
    SortElements(AfterCutoff(p, s, permitted), ByPreference(p, s));
  }

  // The offer is rejected by the cutoff only if everything the lock and the range
  // leave is rejected.
  lemma RejectedOfferIsLastResort(p: Problem, t: Tables, s: SolverKey, range: SolverVersion -> bool,
    permitted: seq<(nat, Candidate)>)
      returns (x: (nat, Candidate))
    requires ValidTables(p, t) && s in t.loaded && t.loaded[s].Ok?
    requires permitted == Permitted(p, s, t.loaded[s].value.candidates, range) && permitted != []
    ensures ChooseCandidate(p, t, s, range) == Ok(Some(CandidateVersion(x.0)))
    ensures x in permitted && LastResort(p, s, permitted, x)
  {
    PermittedMembers(p, s, t.loaded[s].value.candidates, range);
    ListedOncePerIdentity(p, t, s, permitted);
    EligibleWhen(p, s, permitted);
    var eligible := AfterCutoff(p, s, permitted);
    SortElements(eligible, ByPreference(p, s));
    x := BestOffer(p, s, permitted, SortBy(eligible, ByPreference(p, s)));
  }

  lemma PermittedMembers(p: Problem, s: SolverKey, candidates: seq<(nat, Candidate)>, range: SolverVersion -> bool)
    ensures forall x :: x in Permitted(p, s, candidates, range) <==>
      x in candidates && p.Decision(s).Admits(x.1.release.identity) && range(CandidateVersion(x.0))
  {
    FilterMembers(candidates, (x: (nat, Candidate)) => p.Decision(s).Admits(x.1.release.identity) &&
      range(CandidateVersion(x.0)));
  }

  lemma BestOffer(p: Problem, s: SolverKey, permitted: seq<(nat, Candidate)>, ordered: seq<(nat, Candidate)>)
    returns (x: (nat, Candidate))
    requires OneViewPerIdentity(permitted) && ordered != []
    requires forall y :: y in ordered <==> y in AfterCutoff(p, s, permitted)
    ensures x == ordered[|ordered| - 1] && x in permitted && LastResort(p, s, permitted, x)
  {
    x := ordered[|ordered| - 1];
    assert x in ordered;
    CutoffDrops(p, s, permitted, x);
  }

  lemma EligibleWhen(p: Problem, s: SolverKey, permitted: seq<(nat, Candidate)>)
    requires OneViewPerIdentity(permitted)
    ensures AfterCutoff(p, s, permitted) == [] <==> permitted == []
  {
    var eligible := AfterCutoff(p, s, permitted);
    if eligible != [] {
      assert eligible[0] in eligible;
      CutoffDrops(p, s, permitted, eligible[0]);
    }
  }

  // A rejected offer cannot be selected: its dependencies are unavailable.
  lemma RejectedIsUnavailable(p: Problem, t: Tables, s: SolverKey, id: nat, c: Candidate)
    requires s != RKey && CandidateFor(t, s, id) == Ok(c)
    requires p.Decision(s).Admits(c.release.identity) && Rejected(p, s, (id, c))
    ensures DependenciesOf(p, t, Subject(s), CandidateVersion(id)).Ok?
    ensures DependenciesOf(p, t, Subject(s), CandidateVersion(id)).value.Unavailable?
  {
    NoRejections(p, s, [(id, c)]);
    assert (id, c) in [(id, c)];
  }

  // If preferences are an ordering, no eligible candidate is preferred to the offer.
  lemma OfferIsPreferred(p: Problem, t: Tables, s: SolverKey, range: SolverVersion -> bool,
    eligible: seq<(nat, Candidate)>, x: (nat, Candidate))
      returns (y: (nat, Candidate))
    requires Ordering(ByPreference(p, s)) && s in t.loaded && t.loaded[s].Ok?
    requires eligible == AfterCutoff(p, s, Permitted(p, s, t.loaded[s].value.candidates, range)) && x in eligible
    ensures ChooseCandidate(p, t, s, range) == Ok(Some(CandidateVersion(y.0)))
    ensures y in eligible && ByPreference(p, s)(x, y) != Greater
  {
    var ordered := SortBy(eligible, ByPreference(p, s));
    y := LastIsGreatest(eligible, ByPreference(p, s), x);
    assert y == ordered[|ordered| - 1];
  }

  lemma LastOfSorted<T(!new)>(s: seq<T>, cmp: (T, T) -> Order, x: T) returns (y: T)
    requires Ordering(cmp) && Sorted(s, cmp) && x in s
    ensures y == s[|s| - 1] && y in s && cmp(x, y) != Greater
  {
    var k :| 0 <= k < |s| && s[k] == x;
    y := s[|s| - 1];
    Tied(x, x, x, cmp);
  }

  lemma LastIsGreatest<T(!new)>(s: seq<T>, cmp: (T, T) -> Order, x: T) returns (y: T)
    requires Ordering(cmp) && x in s
    ensures |SortBy(s, cmp)| > 0 && y == SortBy(s, cmp)[|SortBy(s, cmp)| - 1]
    ensures y in s && cmp(x, y) != Greater
  {
    SortElements(s, cmp);
    SortSorted(s, cmp);
    y := LastOfSorted(SortBy(s, cmp), cmp, x);
  }

  // ------------------------------------------------------------ default preference

  function PreferenceRank(c: Candidate, s: SolverKey, locked: Option<ReleaseIdentity>): nat {
    if locked.Some? && SameIdentity(locked.value, c.release.identity) then 3
    else if exists o | o in ApplicableOccurrences(c, s) :: o.currentness == Current then 2
    else 1
  }

  // The least rank where the subject sees the candidate.
  function RepositoryRank(occurrences: seq<Occurrence>): Option<nat> {
    if occurrences == [] then None
    else match RepositoryRank(occurrences[1..])
      case None => Some(occurrences[0].rank)
      case Some(least) => Some(if occurrences[0].rank < least then occurrences[0].rank else least)
  }

  function RankKey(rank: Option<nat>): seq<nat> {
    match rank
    case None => [0]
    case Some(n) => [1, n]
  }

  // `DefaultCandidatePreference`: locked, then current, then version, then the better
  // repository rank, then the identity key.
  function DefaultPreference(sortKey: ReleaseIdentity -> string, s: SolverKey, a: Candidate, b: Candidate,
    locked: Option<ReleaseIdentity>): Order {
    CompareNats([PreferenceRank(a, s, locked)], [PreferenceRank(b, s, locked)])
      .Then(a.release.version.Compare(b.release.version))
      .Then(CompareNats(RankKey(RepositoryRank(ApplicableOccurrences(b, s))),
        RankKey(RepositoryRank(ApplicableOccurrences(a, s)))))
      .Then(CompareText(sortKey(a.release.identity), sortKey(b.release.identity)))
  }

  // The provider of the problem ranks by the default preference.
  ghost predicate PrefersByDefault(p: Problem) {
    forall s, a, b, locked :: p.prefer(s, a, b, locked) == DefaultPreference(p.sortKey, s, a, b, locked)
  }

  function RanksKey(p: Problem, s: SolverKey, x: (nat, Candidate)): seq<nat> {
    [PreferenceRank(x.1, s, p.Decision(s).Locked())]
  }

  function PlacesKey(s: SolverKey, x: (nat, Candidate)): seq<nat> {
    RankKey(RepositoryRank(ApplicableOccurrences(x.1, s)))
  }

  lemma ReversedOrdering<T(!new)>(cmp: (T, T) -> Order, reversed: (T, T) -> Order)
    requires Ordering(cmp) && forall a, b :: reversed(a, b) == cmp(b, a)
    ensures Ordering(reversed)
  {
    forall a, b
      ensures reversed(a, b) == reversed(b, a).Flip()
    {
      assert cmp(b, a) == cmp(a, b).Flip();
    }
    forall a, b, c | reversed(a, b) != Greater && reversed(b, c) != Greater
      ensures reversed(a, c) != Greater
    {
      assert cmp(c, b) != Greater && cmp(b, a) != Greater;
    }
  }

  type Pairing = ((nat, Candidate), (nat, Candidate)) -> Order

  function ByRanks(p: Problem, s: SolverKey): Pairing {
    (a: (nat, Candidate), b: (nat, Candidate)) => CompareNats(RanksKey(p, s, a), RanksKey(p, s, b))
  }

  function ByVersion(): Pairing {
    (a: (nat, Candidate), b: (nat, Candidate)) => a.1.release.version.Compare(b.1.release.version)
  }

  function ByPlaces(s: SolverKey): Pairing {
    (a: (nat, Candidate), b: (nat, Candidate)) => CompareNats(PlacesKey(s, b), PlacesKey(s, a))
  }

  function ByKeyText(p: Problem): Pairing {
    (a: (nat, Candidate), b: (nat, Candidate)) => CompareText(p.sortKey(a.1.release.identity),
      p.sortKey(b.1.release.identity))
  }

  function Both(first: Pairing, next: Pairing): Pairing {
    (a: (nat, Candidate), b: (nat, Candidate)) => first(a, b).Then(next(a, b))
  }

  lemma BothOrdered(first: Pairing, next: Pairing)
    requires Ordering(first) && Ordering(next)
    ensures Ordering(Both(first, next))
  {
    OrderingThen(first, next, Both(first, next));
  }

  lemma PartsOrdered(p: Problem, s: SolverKey)
    ensures Ordering(ByRanks(p, s)) && Ordering(ByVersion()) && Ordering(ByPlaces(s)) && Ordering(ByKeyText(p))
  {
    OrderingByNats((x: (nat, Candidate)) => RanksKey(p, s, x), ByRanks(p, s));
    OrderingByNats((x: (nat, Candidate)) => x.1.release.version.Key(), ByVersion());
    var places := (a: (nat, Candidate), b: (nat, Candidate)) => CompareNats(PlacesKey(s, a), PlacesKey(s, b));
    OrderingByNats((x: (nat, Candidate)) => PlacesKey(s, x), places);
    ReversedOrdering(places, ByPlaces(s));
    OrderingByText((x: (nat, Candidate)) => p.sortKey(x.1.release.identity), ByKeyText(p));
  }

  // The default preference orders the candidates of a subject.
  lemma DefaultPreferenceOrders(p: Problem, s: SolverKey)
    requires PrefersByDefault(p)
    ensures Ordering(ByPreference(p, s))
  {
    hide Ordering;
    PartsOrdered(p, s);
    BothOrdered(ByRanks(p, s), ByVersion());
    BothOrdered(Both(ByRanks(p, s), ByVersion()), ByPlaces(s));
    BothOrdered(Both(Both(ByRanks(p, s), ByVersion()), ByPlaces(s)), ByKeyText(p));
    BothOrdered(ByVersion(), ByKeyText(p));
    OrderingThen(Both(Both(Both(ByRanks(p, s), ByVersion()), ByPlaces(s)), ByKeyText(p)),
      Both(ByVersion(), ByKeyText(p)), ByPreference(p, s));
  }

  // By default an eligible locked candidate is what is offered.
  lemma LockedIsOffered(p: Problem, t: Tables, s: SolverKey, range: SolverVersion -> bool,
    eligible: seq<(nat, Candidate)>, x: (nat, Candidate))
      returns (y: (nat, Candidate))
    requires PrefersByDefault(p) && s in t.loaded && t.loaded[s].Ok?
    requires eligible == AfterCutoff(p, s, Permitted(p, s, t.loaded[s].value.candidates, range)) && x in eligible
    requires p.Decision(s).Locked().Some? && SameIdentity(p.Decision(s).identity, x.1.release.identity)
    ensures ChooseCandidate(p, t, s, range) == Ok(Some(CandidateVersion(y.0)))
    ensures y in eligible && SameIdentity(y.1.release.identity, p.Decision(s).identity)
  {
    DefaultPreferenceOrders(p, s);
    y := OfferIsPreferred(p, t, s, range, eligible, x);
  }
}
