/**
 What an assignment that the solver reports means in the package domain.

 The solver is an outside library. All that is used of it is its contract: chosen
 versions were offered, their dependency answers were available, and every
 constraint in those answers holds.
 */
module SolverSoundness {
  import opened Prelude
  import opened Versions
  import opened Domain
  import opened Candidates
  import opened CandidateMerge
  import opened Requests
  import opened SolverAnswers
  import opened Adapter

  // ---------------------------------------------------------- runs of the solver

  datatype Query =
    | Choosing(package: PackageId, range: SolverVersion -> bool)
    | Requesting(package: PackageId, version: SolverVersion)
    | Prioritizing(package: PackageId, range: SolverVersion -> bool)

  datatype Answer =
    | Chosen(choice: Result<Option<SolverVersion>, LoadError>)
    | Given(dependencies: Result<Dependencies, LoadError>)
    | Priority(count: nat)

  type Selection = map<PackageId, SolverVersion>

  // What stays true of an offer while the tables grow. A reservation that is offered
  // stays possible, though one that sorts before it may be interned later.
  ghost predicate Stands(p: Problem, t: Tables, package: PackageId, range: SolverVersion -> bool,
    choice: Option<SolverVersion>) {
    match package
    case Occupancy(name) =>
      choice.Some? ==>
        choice.value.CandidateVersion? && choice.value.id in t.interned
        && Occupies(t, choice.value.id, name) && range(choice.value)
    case _ => Offered(p, t, package, range, Ok(choice))
  }

  // The answer, if no load failed, is what the final tables say.
  ghost predicate Truthful(p: Problem, t: Tables, q: Query, a: Answer) {
    match q
    case Choosing(package, range) => a.Chosen? && (a.choice.Ok? ==> Stands(p, t, package, range, a.choice.value))
    case Requesting(package, version) =>
      a.Given? && (a.dependencies.Ok? ==> DependenciesOf(p, t, package, version) == a.dependencies)
    case Prioritizing(_, _) => a.Priority?
  }

  ghost predicate AllTruthful(p: Problem, t: Tables, queries: seq<Query>, answers: seq<Answer>) {
    |answers| == |queries| && forall i | 0 <= i < |queries| :: Truthful(p, t, queries[i], answers[i])
  }

  lemma TruthStays(p: Problem, t: Tables, u: Tables, q: Query, a: Answer)
    requires Truthful(p, t, q, a) && Extends(t, u)
    ensures Truthful(p, u, q, a)
  {
    match q
    case Choosing(package, range) =>
      if a.choice.Ok? && package.Subject? && package.key != RKey {
        ChooseStays(p, t, u, package.key, range);
      }
    case Requesting(package, version) =>
      if a.dependencies.Ok? {
        DependenciesStay(p, t, u, package, version);
      }
    case Prioritizing(_, _) =>
  }

  lemma TruthsNext(p: Problem, t: Tables, u: Tables, queries: seq<Query>, n: nat, answers: seq<Answer>, a: Answer)
    requires n < |queries| && AllTruthful(p, t, queries[..n], answers) && Extends(t, u)
    requires Truthful(p, u, queries[n], a)
    ensures AllTruthful(p, u, queries[..n + 1], answers + [a])
  {
    forall i | 0 <= i < n
      ensures Truthful(p, u, queries[i], answers[i])
    {
      assert queries[..n][i] == queries[i];
      TruthStays(p, t, u, queries[i], answers[i]);
    }
  }

  method Respond(provider: Provider, q: Query) returns (a: Answer)
    requires provider.Valid()
    modifies provider
    ensures provider.Valid() && Extends(old(provider.State()), provider.State())
    ensures Truthful(provider.problem, provider.State(), q, a)
  {
    match q
    case Choosing(package, range) =>
      var choice := provider.ChooseVersion(package, range);
      a := Chosen(choice);
    case Requesting(package, version) =>
      var dependencies := provider.GetDependencies(package, version);
      a := Given(dependencies);
    case Prioritizing(package, range) =>
      var count := provider.Prioritize(package, range);
      a := Priority(count);
  }

  // Whatever the solver asks in whatever order, every answer stays true to the end.
  method Replay(provider: Provider, queries: seq<Query>) returns (answers: seq<Answer>)
    requires provider.Valid()
    modifies provider
    ensures provider.Valid() && Extends(old(provider.State()), provider.State())
    ensures AllTruthful(provider.problem, provider.State(), queries, answers)
  {
    answers := [];
    for i := 0 to |queries|
      invariant provider.Valid() && Extends(old(provider.State()), provider.State())
      invariant AllTruthful(provider.problem, provider.State(), queries[..i], answers)
    {
      ghost var before := provider.State();
      var a := Respond(provider, queries[i]);
      ExtendsChain(old(provider.State()), before, provider.State());
      TruthsNext(provider.problem, before, provider.State(), queries, i, answers, a);
      answers := answers + [a];
    }
    assert queries[..|queries|] == queries;
  }

  ghost predicate Hold(constraints: seq<(PackageId, set<SolverVersion>)>, selection: Selection) {
    forall k | 0 <= k < |constraints| ::
      constraints[k].0 in selection && selection[constraints[k].0] in constraints[k].1
  }

  ghost predicate OfferedAs(q: Query, a: Answer, package: PackageId, version: SolverVersion) {
    q.Choosing? && q.package == package && a == Chosen(Ok(Some(version)))
  }

  ghost predicate SatisfiedAs(q: Query, a: Answer, package: PackageId, selection: Selection)
    requires package in selection
  {
    && q == Requesting(package, selection[package])
    && a.Given? && a.dependencies.Ok? && a.dependencies.value.Available?
    && Hold(a.dependencies.value.constraints, selection)
  }

  // The contract of the solver for the run it reports on.
  ghost predicate Honoured(queries: seq<Query>, answers: seq<Answer>, selection: Selection)
    requires |queries| == |answers|
  {
    && Root in selection && selection[Root] == RootVersion
    && (forall package | package in selection && package != Root ::
          exists i :: 0 <= i < |queries| && OfferedAs(queries[i], answers[i], package, selection[package]))
    && (forall package | package in selection ::
          exists i :: 0 <= i < |queries| && SatisfiedAs(queries[i], answers[i], package, selection))
  }

  // --------------------------------------------------------------- solutions

  ghost predicate DependenciesHold(p: Problem, t: Tables, selection: Selection, package: PackageId)
    requires package in selection
  {
    var answer := DependenciesOf(p, t, package, selection[package]);
    answer.Ok? && answer.value.Available? && Hold(answer.value.constraints, selection)
  }

  ghost predicate WasOffered(p: Problem, t: Tables, subject: SolverKey, version: SolverVersion) {
    exists range: SolverVersion -> bool :: ChooseCandidate(p, t, subject, range) == Ok(Some(version))
  }

  // The provider offers this version for some range.
  ghost predicate Offerable(p: Problem, t: Tables, package: PackageId, version: SolverVersion) {
    exists range: SolverVersion -> bool :: Offered(p, t, package, range, Ok(Some(version)))
  }

  lemma OfferableSubject(p: Problem, t: Tables, s: SolverKey, version: SolverVersion)
    requires s != RKey
    ensures Offerable(p, t, Subject(s), version) <==> WasOffered(p, t, s, version)
  {
    if Offerable(p, t, Subject(s), version) {
      var range: SolverVersion -> bool :| Offered(p, t, Subject(s), range, Ok(Some(version)));
      assert ChooseCandidate(p, t, s, range) == Ok(Some(version));
    }
    if WasOffered(p, t, s, version) {
      var range: SolverVersion -> bool :| ChooseCandidate(p, t, s, range) == Ok(Some(version));
      assert Offered(p, t, Subject(s), range, Ok(Some(version)));
    }
  }

  // Asked for an interned identifier alone, the provider offers it for its name.
  lemma OccupantOfferable(p: Problem, t: Tables, name: string, id: nat)
    requires id in t.interned && Occupies(t, id, name)
    ensures Offerable(p, t, Occupancy(name), CandidateVersion(id))
  {
    var range := (v: SolverVersion) => v == CandidateVersion(id);
    var key := p.sortKey(t.interned[id].release.identity);
    CompareTextFlip(key, key);
    assert Offered(p, t, Occupancy(name), range, Ok(Some(CandidateVersion(id))));
  }

  lemma TargetOfferable(p: Problem, t: Tables)
    ensures Offerable(p, t, Subject(RKey), Target(p))
  {
    var range := (v: SolverVersion) => v == Target(p);
    assert Offered(p, t, Subject(RKey), range, Ok(Some(Target(p))));
  }

  lemma StandingIsOfferable(p: Problem, t: Tables, package: PackageId, range: SolverVersion -> bool,
    version: SolverVersion)
    requires Stands(p, t, package, range, Some(version))
    ensures Offerable(p, t, package, version)
  {
    if package.Occupancy? {
      OccupantOfferable(p, t, package.name, version.id);
    }
  }

  // The same contract over the final tables.
  ghost predicate Solution(p: Problem, t: Tables, selection: Selection) {
    && Root in selection && selection[Root] == RootVersion
    && (forall package | package in selection && package != Root :: Offerable(p, t, package, selection[package]))
    && (forall package | package in selection :: DependenciesHold(p, t, selection, package))
  }

  lemma HonouredIsSolution(p: Problem, t: Tables, queries: seq<Query>, answers: seq<Answer>, selection: Selection)
    requires AllTruthful(p, t, queries, answers) && Honoured(queries, answers, selection)
    ensures Solution(p, t, selection)
  {
    forall package | package in selection && package != Root
      ensures Offerable(p, t, package, selection[package])
    {
      var i :| 0 <= i < |queries| && OfferedAs(queries[i], answers[i], package, selection[package]);
      assert Truthful(p, t, queries[i], answers[i]);
      StandingIsOfferable(p, t, package, queries[i].range, selection[package]);
    }
    forall package | package in selection
      ensures DependenciesHold(p, t, selection, package)
    {
      var i :| 0 <= i < |queries| && SatisfiedAs(queries[i], answers[i], package, selection);
      assert Truthful(p, t, queries[i], answers[i]);
    }
  }

  // --------------------------------------------------------- the package domain

  // A candidate for each chosen subject.
  type Choice = map<SolverKey, Candidate>

  ghost predicate Meets(p: Problem, choice: Choice, package: PackageRequirement) {
    match SubjectFor(p.request, package)
    case Err(_) => false
    case Ok(subject) =>
      if subject == RKey then package.constraint.Satisfies(p.request.rVersion)
      else subject in choice && package.constraint.Satisfies(choice[subject].release.version)
  }

  // Whether the request wants the suggestions of this subject.
  function Wanted(p: Problem, subject: SolverKey): RootExpansion {
    match ExpansionFor(p.request, p.request.roots, subject)
    case Ok(expansion) => expansion
    case Err(_) => HardOnly
  }

  ghost predicate EdgesMet(p: Problem, choice: Choice, release: Release, expansion: RootExpansion) {
    forall i | 0 <= i < |Edges(release.dependencies, expansion)| ::
      Meets(p, choice, Edges(release.dependencies, expansion)[i].package)
  }

  // A choice that answers the request by the rules of the package domain.
  ghost predicate Closed(p: Problem, choice: Choice) {
    && p.request.rRequirement.Satisfies(p.request.rVersion)
    && (forall i | 0 <= i < |p.request.roots| :: Meets(p, choice, p.request.roots[i].package))
    && RKey !in choice
    && (forall s | s in choice :: Chooses(p, choice, s))
    && OneIdentityPerName(choice)
  }

  ghost predicate Chooses(p: Problem, choice: Choice, s: SolverKey)
    requires s in choice
  {
    && View(p, s).Ok? && choice[s] in View(p, s).value
    && EdgesMet(p, choice, choice[s].release, Wanted(p, s))
    && p.Decision(s).Admits(choice[s].release.identity)
    && RejectionOf(p, choice[s], p.Decision(s).Locked()).None?
  }

  ghost predicate OneIdentityPerName(choice: Choice) {
    forall s, u | s in choice && u in choice && choice[s].release.identity.name == choice[u].release.identity.name ::
      KeyOf(choice[s]) == KeyOf(choice[u])
  }

  // ----------------------------------------------------------------- soundness

  function Subjects(selection: Selection): set<SolverKey> {
    set package | package in selection && package.Subject? && package.key != RKey :: package.key
  }

  predicate VisibleIn(t: Tables, selection: Selection, s: SolverKey) {
    Subject(s) in selection && selection[Subject(s)].CandidateVersion?
    && CandidateFor(t, s, selection[Subject(s)].id).Ok?
  }

  function ChoiceOf(t: Tables, selection: Selection): Choice {
    map s | s in Subjects(selection) && VisibleIn(t, selection, s) :: CandidateFor(t, s, selection[Subject(s)].id).value
  }

  // A candidate listed under an identifier.
  lemma ListedFacts(p: Problem, t: Tables, s: SolverKey, id: nat, c: Candidate)
    requires ValidTables(p, t) && s in t.loaded && t.loaded[s].Ok? && (id, c) in t.loaded[s].value.candidates
    ensures Interned(t, id, c) && View(p, s).Ok? && c in View(p, s).value
  {
    assert ValidLoaded(p, t, s);
    var candidates, view := t.loaded[s].value.candidates, View(p, s).value;
    var i :| 0 <= i < |candidates| && candidates[i] == (id, c);
    assert candidates[i].1 == view[i] && Interned(t, candidates[i].0, view[i]);
  }

  lemma InternedTogether(t: Tables, id: nat, c: Candidate, d: Candidate)
    requires ValidInterner(t) && Interned(t, id, c) && Interned(t, id, d)
    ensures KeyOf(c) == KeyOf(d) && SameFacts(c, d)
  {
    SameFactsEuclidean(t.interned[id], c, d);
  }

  lemma SameFactsEuclidean(m: Candidate, c: Candidate, d: Candidate)
    requires SameFacts(m, c) && SameFacts(m, d)
    ensures SameFacts(c, d)
  {
    CanonIsSame(m.release.version, c.release.version);
    CanonIsSame(m.release.version, d.release.version);
    CanonIsSame(c.release.version, d.release.version);
  }

  lemma SatisfiesSameFacts(constraint: VersionConstraint, c: Candidate, d: Candidate)
    requires SameFacts(c, d)
    ensures constraint.Satisfies(c.release.version) <==> constraint.Satisfies(d.release.version)
  {
    CanonIsSame(c.release.version, d.release.version);
    SatisfiesUpToSpelling(constraint, constraint, c.release.version, d.release.version);
  }

  lemma {:induction false} EdgeRangesAre(p: Problem, t: Tables, packages: seq<PackageRequirement>, i: nat)
    requires i < |packages|
    requires EdgeRanges(p, t, packages).Ok? && EdgeRanges(p, t, packages).value.Available?
    ensures var constraints := EdgeRanges(p, t, packages).value.constraints;
      i < |constraints| && RequirementRange(p, t, packages[i]) == Ok(constraints[i])
  {
    if i > 0 {
      EdgeRangesAre(p, t, packages[1..], i - 1);
    }
  }

  lemma {:induction false} RootRangesAre(p: Problem, t: Tables, packages: seq<PackageRequirement>, i: nat)
    requires i < |packages| && RootRanges(p, t, packages).Ok?
    ensures var constraints := RootRanges(p, t, packages).value;
      i < |constraints| && RequirementRange(p, t, packages[i]) == Ok(constraints[i])
  {
    if i > 0 {
      RootRangesAre(p, t, packages[1..], i - 1);
    }
  }

  // A constraint that holds of the selection is met by the choice.
  lemma HeldIsMet(p: Problem, t: Tables, selection: Selection, package: PackageRequirement,
    constraint: (PackageId, set<SolverVersion>))
    requires ValidTables(p, t) && RequirementRange(p, t, package) == Ok(constraint)
    requires constraint.0 in selection && selection[constraint.0] in constraint.1
    ensures Meets(p, ChoiceOf(t, selection), package)
  {
    var s := SubjectFor(p.request, package).value;
    if s != RKey {
      var candidates := t.loaded[s].value.candidates;
      assert constraint.1 == Matching(candidates, package.constraint);
      var x :| x in candidates && package.constraint.Satisfies(x.1.release.version) &&
        selection[constraint.0] == CandidateVersion(x.0);
      FoundMatches(p, t, s, x.0, x.1, package.constraint);
      assert s in Subjects(selection) && VisibleIn(t, selection, s);
    }
  }

  lemma FoundMatches(p: Problem, t: Tables, s: SolverKey, id: nat, c: Candidate, constraint: VersionConstraint)
    requires ValidTables(p, t) && s in t.loaded && t.loaded[s].Ok? && (id, c) in t.loaded[s].value.candidates
    requires constraint.Satisfies(c.release.version)
    ensures CandidateFor(t, s, id).Ok? && constraint.Satisfies(CandidateFor(t, s, id).value.release.version)
  {
    var candidates := t.loaded[s].value.candidates;
    var found := Find(candidates, id);
    var i :| 0 <= i < |candidates| && candidates[i] == (id, c);
    assert found.Some?;
    ListedFacts(p, t, s, id, c);
    ListedFacts(p, t, s, id, found.value);
    InternedTogether(t, id, c, found.value);
    SatisfiesSameFacts(constraint, c, found.value);
  }

  // What the dependency answer of a selected subject implies.
  lemma SubjectSound(p: Problem, t: Tables, selection: Selection, s: SolverKey)
    requires ValidTables(p, t) && Subject(s) in selection && s != RKey && selection[Subject(s)].CandidateVersion?
    requires DependenciesHold(p, t, selection, Subject(s))
    ensures VisibleIn(t, selection, s)
    ensures var c := CandidateFor(t, s, selection[Subject(s)].id).value;
      && EdgesMet(p, ChoiceOf(t, selection), c.release, Wanted(p, s))
      && CandidateRejections(p, s, selection[Subject(s)].id, c) == []
      && Occupancy(c.release.identity.name) in selection
      && selection[Occupancy(c.release.identity.name)] == selection[Subject(s)]
  {
    var id := selection[Subject(s)].id;
    var answer := CandidateDependencies(p, t, s, id);
    assert answer == DependenciesOf(p, t, Subject(s), selection[Subject(s)]);
    var c := AnsweredCandidate(p, t, s, id, answer);
    ReleaseSound(p, t, selection, s, id, c.release, answer.value.constraints);
  }

  lemma AnsweredCandidate(p: Problem, t: Tables, s: SolverKey, id: nat, answer: Result<Dependencies, LoadError>)
    returns (c: Candidate)
    requires answer == CandidateDependencies(p, t, s, id) && answer.Ok? && answer.value.Available?
    ensures CandidateFor(t, s, id) == Ok(c) && CandidateRejections(p, s, id, c) == []
    ensures answer == ReleaseDependencies(p, t, s, id, c.release)
  {
    c := CandidateFor(t, s, id).value;
  }

  // Edges whose constraints hold, behind one more, are met.
  lemma EdgesSound(p: Problem, t: Tables, selection: Selection, packages: seq<PackageRequirement>,
    first: (PackageId, set<SolverVersion>), ranges: seq<(PackageId, set<SolverVersion>)>, i: nat)
    requires ValidTables(p, t) && EdgeRanges(p, t, packages) == Ok(Dependencies.Available(ranges))
    requires Hold([first] + ranges, selection) && i < |packages|
    ensures Meets(p, ChoiceOf(t, selection), packages[i])
  {
    EdgeRangesAre(p, t, packages, i);
    assert ([first] + ranges)[i + 1] == ranges[i];
    HeldIsMet(p, t, selection, packages[i], ranges[i]);
  }

  lemma ReleaseSound(p: Problem, t: Tables, selection: Selection, s: SolverKey, id: nat, release: Release,
      constraints: seq<(PackageId, set<SolverVersion>)>)
    requires ValidTables(p, t) && ReleaseDependencies(p, t, s, id, release) == Ok(Dependencies.Available(constraints))
    requires Hold(constraints, selection)
    ensures EdgesMet(p, ChoiceOf(t, selection), release, Wanted(p, s))
    ensures Occupancy(release.identity.name) in selection &&
      selection[Occupancy(release.identity.name)] == CandidateVersion(id)
  {
    var edges := Edges(release.dependencies, Wanted(p, s));
    var packages := EdgePackages(edges);
    var ranges := EdgeRanges(p, t, packages).value.constraints;
    var first := (Occupancy(release.identity.name), {CandidateVersion(id)});
    assert constraints == [first] + ranges && constraints[0] == first;
    forall i | 0 <= i < |edges|
      ensures Meets(p, ChoiceOf(t, selection), edges[i].package)
    {
      EdgesSound(p, t, selection, packages, first, ranges, i);
    }
  }

  lemma RootSound(p: Problem, t: Tables, selection: Selection)
    requires ValidTables(p, t) && Root in selection && selection[Root] == RootVersion
    requires DependenciesHold(p, t, selection, Root)
    ensures p.request.rRequirement.Satisfies(p.request.rVersion)
    ensures forall i | 0 <= i < |p.request.roots| :: Meets(p, ChoiceOf(t, selection), p.request.roots[i].package)
  {
    var packages := RootPackages(p.request.roots);
    var ranges := RootRanges(p, t, packages).value;
    var constraints := DependenciesOf(p, t, Root, RootVersion).value.constraints;
    assert constraints == [(Subject(RKey), RRange(p, p.request.rRequirement))] + ranges;
    assert selection[constraints[0].0] in constraints[0].1;
    forall i | 0 <= i < |packages|
      ensures Meets(p, ChoiceOf(t, selection), packages[i])
    {
      RootRangesAre(p, t, packages, i);
      assert constraints[i + 1] == ranges[i];
      HeldIsMet(p, t, selection, packages[i], ranges[i]);
    }
  }

  // An offered candidate is listed, in range and admitted by the lock.
  lemma ChosenFrom(p: Problem, s: SolverKey, candidates: seq<(nat, Candidate)>, range: SolverVersion -> bool,
    x: (nat, Candidate))
    requires x in SortBy(AfterCutoff(p, s, Permitted(p, s, candidates, range)), ByPreference(p, s))
    ensures x in candidates && p.Decision(s).Admits(x.1.release.identity) && range(CandidateVersion(x.0))
  {
    var permitted := Permitted(p, s, candidates, range);
    SortElements(AfterCutoff(p, s, permitted), ByPreference(p, s));
    CutoffMembers(p, s, permitted, x);
    FilterMembers(candidates, (x: (nat, Candidate)) => p.Decision(s).Admits(x.1.release.identity) &&
      range(CandidateVersion(x.0)));
  }

  lemma ChosenFromTables(p: Problem, t: Tables, s: SolverKey, range: SolverVersion -> bool, version: SolverVersion)
    returns (c: Candidate)
    requires ChooseCandidate(p, t, s, range) == Ok(Some(version))
    ensures version.CandidateVersion? && s in t.loaded && t.loaded[s].Ok? &&
      (version.id, c) in t.loaded[s].value.candidates
    ensures p.Decision(s).Admits(c.release.identity) && range(version)
  {
    var candidates := t.loaded[s].value.candidates;
    var ordered := SortBy(AfterCutoff(p, s, Permitted(p, s, candidates, range)), ByPreference(p, s));
    var x := ordered[|ordered| - 1];
    assert x in ordered;
    ChosenFrom(p, s, candidates, range, x);
    c := x.1;
    assert x == (x.0, c);
  }

  // What is offered for a subject keeps a required lock.
  lemma OfferedIsAdmitted(p: Problem, t: Tables, s: SolverKey, version: SolverVersion)
    requires ValidTables(p, t) && WasOffered(p, t, s, version)
    ensures version.CandidateVersion? && CandidateFor(t, s, version.id).Ok?
    ensures p.Decision(s).Admits(CandidateFor(t, s, version.id).value.release.identity)
  {
    var range: SolverVersion -> bool :| ChooseCandidate(p, t, s, range) == Ok(Some(version));
    var c := ChosenFromTables(p, t, s, range, version);
    AdmitsFound(p, t, s, version.id, c);
  }

  lemma AdmitsFound(p: Problem, t: Tables, s: SolverKey, id: nat, c: Candidate)
    requires ValidTables(p, t) && s in t.loaded && t.loaded[s].Ok? && (id, c) in t.loaded[s].value.candidates
    requires p.Decision(s).Admits(c.release.identity)
    ensures CandidateFor(t, s, id).Ok? && p.Decision(s).Admits(CandidateFor(t, s, id).value.release.identity)
  {
    var candidates := t.loaded[s].value.candidates;
    var i :| 0 <= i < |candidates| && candidates[i] == (id, c);
    var found := Find(candidates, id);
    assert found.Some?;
    ListedFacts(p, t, s, id, c);
    ListedFacts(p, t, s, id, found.value);
    InternedTogether(t, id, c, found.value);
  }

  lemma CutoffMembers(p: Problem, s: SolverKey, permitted: seq<(nat, Candidate)>, x: (nat, Candidate))
    requires x in AfterCutoff(p, s, permitted)
    ensures x in permitted
  {
    var rejections := Rejections(p, permitted, p.Decision(s).Locked());
    FilterMembers(permitted, (x: (nat, Candidate)) => !Named(rejections, x.1.release.identity));
  }

  lemma NoRejection(p: Problem, s: SolverKey, id: nat, c: Candidate)
    requires p.Decision(s).Admits(c.release.identity) && CandidateRejections(p, s, id, c) == []
    ensures RejectionOf(p, c, p.Decision(s).Locked()).None?
  {
    var list := RejectionList(p, [(id, c)], p.Decision(s).Locked());
    SortElements(list, (a: PublicationRejection, b: PublicationRejection) => CompareText(p.sortKey(a.identity),
      p.sortKey(b.identity)));
    assert |list| == 0;
    assert [(id, c)][1..] == [];
  }

  lemma SubjectChooses(p: Problem, t: Tables, selection: Selection, s: SolverKey)
    requires ValidTables(p, t) && Solution(p, t, selection) && s in Subjects(selection)
    ensures VisibleIn(t, selection, s) && s in ChoiceOf(t, selection) && Chooses(p, ChoiceOf(t, selection), s)
    ensures var c := ChoiceOf(t, selection)[s];
      && Interned(t, selection[Subject(s)].id, c)
      && Occupancy(c.release.identity.name) in selection
      && selection[Occupancy(c.release.identity.name)] == selection[Subject(s)]
  {
    OfferableSubject(p, t, s, selection[Subject(s)]);
    OfferedIsAdmitted(p, t, s, selection[Subject(s)]);
    SubjectSound(p, t, selection, s);
    var id := selection[Subject(s)].id;
    var c := CandidateFor(t, s, id).value;
    NoRejection(p, s, id, c);
    ListedFacts(p, t, s, id, c);
  }

  // Whatever was offered had been loaded.
  lemma SolutionIsLoaded(p: Problem, t: Tables, selection: Selection, s: SolverKey)
    requires Solution(p, t, selection) && s in Subjects(selection)
    ensures s in t.loaded && t.loaded[s].Ok?
  {
    OfferableSubject(p, t, s, selection[Subject(s)]);
    var range: SolverVersion -> bool :| ChooseCandidate(p, t, s, range) == Ok(Some(selection[Subject(s)]));
  }

  // Soundness: every solution is a closed choice of one candidate for each subject.
  lemma SolutionIsClosed(p: Problem, t: Tables, selection: Selection)
    requires ValidTables(p, t) && Solution(p, t, selection)
    ensures ChoiceOf(t, selection).Keys == Subjects(selection)
    ensures Closed(p, ChoiceOf(t, selection))
  {
    var choice := ChoiceOf(t, selection);
    RootSound(p, t, selection);
    forall s | s in Subjects(selection)
      ensures s in choice && Chooses(p, choice, s)
    {
      SubjectChooses(p, t, selection, s);
    }
    forall s, u | s in choice && u in choice && choice[s].release.identity.name == choice[u].release.identity.name
      ensures KeyOf(choice[s]) == KeyOf(choice[u])
    {
      SameNameSameCandidate(p, t, selection, s, u);
    }
  }

  // Two subjects of one installed name were given one identifier.
  lemma SameNameSameCandidate(p: Problem, t: Tables, selection: Selection, s: SolverKey, u: SolverKey)
    requires ValidTables(p, t) && Solution(p, t, selection)
    requires var choice := ChoiceOf(t, selection);
      s in choice && u in choice && choice[s].release.identity.name == choice[u].release.identity.name
    ensures var choice := ChoiceOf(t, selection);
      KeyOf(choice[s]) == KeyOf(choice[u]) && SameFacts(choice[s], choice[u])
  {
    SubjectChooses(p, t, selection, s);
    SubjectChooses(p, t, selection, u);
    InternedTogether(t, selection[Subject(s)].id, ChoiceOf(t, selection)[s], ChoiceOf(t, selection)[u]);
  }
}
