/**
 The encoding loses nothing: every closed choice is a solution once Root, R and the
 name reservations are added to it.
 */
module SolverCompleteness {
  import opened Prelude
  import opened Versions
  import opened Domain
  import opened Candidates
  import opened CandidateMerge
  import opened Requests
  import opened SolverAnswers
  import opened SolverSoundness

  // Every chosen subject loaded without failure.
  ghost predicate AllLoaded(t: Tables, choice: Choice) {
    forall s | s in choice :: s in t.loaded && t.loaded[s].Ok?
  }

  ghost function IdOf(t: Tables, c: Candidate): nat {
    if KeyOf(c) in t.ids then t.ids[KeyOf(c)] else 0
  }

  ghost predicate Names(choice: Choice, s: SolverKey, name: string) {
    s in choice && choice[s].release.identity.name == name
  }

  ghost function Assigned(p: Problem, t: Tables, choice: Choice, package: PackageId): SolverVersion {
    match package
    case Root => RootVersion
    case Subject(s) => if s in choice then CandidateVersion(IdOf(t, choice[s])) else Target(p)
    case Occupancy(name) =>
      if exists s :: Names(choice, s, name) then
        var s :| Names(choice, s, name);
        CandidateVersion(IdOf(t, choice[s]))
      else RootVersion
  }

  ghost function Packages(choice: Choice): set<PackageId> {
    {Root, Subject(RKey)} + (set s | s in choice :: Subject(s)) +
      (set s | s in choice :: Occupancy(choice[s].release.identity.name))
  }

  // The choice with Root, R and one reservation for each installed name.
  ghost function Extension(p: Problem, t: Tables, choice: Choice): Selection {
    map package | package in Packages(choice) :: Assigned(p, t, choice, package)
  }

  // Chosen candidates are listed in their subjects under their identifiers.
  ghost predicate ListedIn(t: Tables, choice: Choice, s: SolverKey)
    requires s in choice
  {
    && s in t.loaded && t.loaded[s].Ok?
    && (IdOf(t, choice[s]), choice[s]) in t.loaded[s].value.candidates
    && CandidateFor(t, s, IdOf(t, choice[s])) == Ok(choice[s])
  }

  ghost predicate AllListed(t: Tables, choice: Choice) {
    forall s | s in choice :: ListedIn(t, choice, s)
  }

  ghost predicate PlacedIn(t: Tables, choice: Choice, selection: Selection, s: SolverKey)
    requires s in choice
  {
    var version := CandidateVersion(IdOf(t, choice[s]));
    var reservation := Occupancy(choice[s].release.identity.name);
    && Subject(s) in selection && selection[Subject(s)] == version
    && reservation in selection && selection[reservation] == version
  }

  // The selection that a choice stands for, entry by entry.
  ghost predicate Placed(p: Problem, t: Tables, choice: Choice, selection: Selection) {
    && selection.Keys == Packages(choice)
    && selection[Root] == RootVersion && selection[Subject(RKey)] == Target(p)
    && RKey !in choice
    && forall s | s in choice :: PlacedIn(t, choice, selection, s)
  }

  lemma ExtensionPlaces(p: Problem, t: Tables, choice: Choice)
    requires OneIdentityPerName(choice) && RKey !in choice
    ensures Placed(p, t, choice, Extension(p, t, choice))
  {
    forall s | s in choice
      ensures PlacedIn(t, choice, Extension(p, t, choice), s)
    {
      ReservedForAll(p, t, choice, s);
      assert Subject(s) in Packages(choice);
    }
  }

  // A reserved name belongs to every subject of that name.
  lemma ReservedForAll(p: Problem, t: Tables, choice: Choice, s: SolverKey)
    requires OneIdentityPerName(choice) && s in choice
    ensures var package := Occupancy(choice[s].release.identity.name);
      package in Extension(p, t, choice) && Extension(p, t, choice)[package] == CandidateVersion(IdOf(t, choice[s]))
  {
    var name := choice[s].release.identity.name;
    assert Names(choice, s, name);
    assert Occupancy(name) in Packages(choice);
    forall u | Names(choice, u, name)
      ensures IdOf(t, choice[u]) == IdOf(t, choice[s])
    {
      assert KeyOf(choice[u]) == KeyOf(choice[s]);
    }
  }

  lemma DistinctIndices(view: seq<Candidate>, i: nat, j: nat)
    requires Distinct(view) && i < |view| && j < |view| && KeyOf(view[i]) == KeyOf(view[j])
    ensures i == j
  {
  }

  lemma ListedAt(p: Problem, t: Tables, s: SolverKey, x: (nat, Candidate)) returns (i: nat)
    requires ValidTables(p, t) && s in t.loaded && t.loaded[s].Ok? && x in t.loaded[s].value.candidates
    requires View(p, s).Ok?
    ensures i < |View(p, s).value| && View(p, s).value[i] == x.1 && Interned(t, x.0, x.1)
  {
    assert ValidLoaded(p, t, s);
    var candidates, view := t.loaded[s].value.candidates, View(p, s).value;
    i :| 0 <= i < |candidates| && candidates[i] == x;
    assert candidates[i].1 == view[i] && Interned(t, candidates[i].0, view[i]);
  }

  // Identifiers are listed once in a subject.
  lemma SoleListed(p: Problem, t: Tables, s: SolverKey, x: (nat, Candidate), y: (nat, Candidate))
    requires p.Sound() && ValidTables(p, t) && s in t.loaded && t.loaded[s].Ok?
    requires x in t.loaded[s].value.candidates && y in t.loaded[s].value.candidates && x.0 == y.0
    ensures x == y
  {
    ListedFacts(p, t, s, x.0, x.1);
    ViewFacts(p, s);
    var view := View(p, s).value;
    var i := ListedAt(p, t, s, x);
    var j := ListedAt(p, t, s, y);
    InternedTogether(t, x.0, view[i], view[j]);
    DistinctIndices(view, i, j);
  }

  lemma ChosenIsListed(p: Problem, t: Tables, choice: Choice, s: SolverKey)
    requires p.Sound() && ValidTables(p, t) && s in choice && s in t.loaded && t.loaded[s].Ok?
    requires View(p, s).Ok? && choice[s] in View(p, s).value
    ensures ListedIn(t, choice, s)
  {
    var candidates := t.loaded[s].value.candidates;
    var x := Numbering(p, t, s, choice[s]);
    var i :| 0 <= i < |candidates| && candidates[i] == x;
    var found := Find(candidates, x.0);
    assert found.Some?;
    SoleListed(p, t, s, x, (x.0, found.value));
  }

  lemma Numbering(p: Problem, t: Tables, s: SolverKey, c: Candidate) returns (x: (nat, Candidate))
    requires ValidTables(p, t) && s in t.loaded && t.loaded[s].Ok?
    requires View(p, s).Ok? && c in View(p, s).value
    ensures x == (IdOf(t, c), c) && x in t.loaded[s].value.candidates
  {
    assert ValidLoaded(p, t, s);
    var candidates, view := t.loaded[s].value.candidates, View(p, s).value;
    var i :| 0 <= i < |view| && view[i] == c;
    assert candidates[i].1 == view[i] && Interned(t, candidates[i].0, view[i]);
    x := candidates[i];
  }

  lemma ClosedIsListed(p: Problem, t: Tables, choice: Choice)
    requires p.Sound() && ValidTables(p, t) && Closed(p, choice) && AllLoaded(t, choice)
    ensures AllListed(t, choice)
  {
    forall s | s in choice
      ensures ListedIn(t, choice, s)
    {
      assert Chooses(p, choice, s);
      ChosenIsListed(p, t, choice, s);
    }
  }

  // --------------------------------------------------------------- constraints

  // The requirement turns into a constraint that holds of the selection.
  ghost predicate Emits(p: Problem, t: Tables, selection: Selection, package: PackageRequirement) {
    RequirementRange(p, t, package).Ok? &&
      var constraint := RequirementRange(p, t, package).value;
      constraint.0 in selection && selection[constraint.0] in constraint.1
  }

  lemma ListedIsHeld(p: Problem, t: Tables, choice: Choice, selection: Selection, package: PackageRequirement,
    s: SolverKey)
    requires s in choice && s != RKey && SubjectFor(p.request, package) == Ok(s)
    requires ListedIn(t, choice, s) && PlacedIn(t, choice, selection, s)
    requires package.constraint.Satisfies(choice[s].release.version)
    ensures Emits(p, t, selection, package)
  {
    var x := (IdOf(t, choice[s]), choice[s]);
    assert x in t.loaded[s].value.candidates;
    assert CandidateVersion(x.0) in Matching(t.loaded[s].value.candidates, package.constraint);
  }

  // A met requirement emits a constraint that holds.
  lemma MetIsHeld(p: Problem, t: Tables, choice: Choice, selection: Selection, package: PackageRequirement)
    requires AllListed(t, choice) && Placed(p, t, choice, selection)
    requires Meets(p, choice, package)
    ensures Emits(p, t, selection, package)
  {
    var s := SubjectFor(p.request, package).value;
    if s != RKey {
      assert ListedIn(t, choice, s) && PlacedIn(t, choice, selection, s);
      ListedIsHeld(p, t, choice, selection, package, s);
    }
  }

  lemma {:induction false} EdgesEmit(p: Problem, t: Tables, selection: Selection, packages: seq<PackageRequirement>)
    requires forall i | 0 <= i < |packages| :: Emits(p, t, selection, packages[i])
    ensures EdgeRanges(p, t, packages).Ok? && EdgeRanges(p, t, packages).value.Available?
    ensures Hold(EdgeRanges(p, t, packages).value.constraints, selection)
  {
    if packages != [] {
      assert Emits(p, t, selection, packages[0]);
      EdgesEmit(p, t, selection, packages[1..]);
    }
  }

  lemma {:induction false} RootsEmit(p: Problem, t: Tables, selection: Selection, packages: seq<PackageRequirement>)
    requires forall i | 0 <= i < |packages| :: Emits(p, t, selection, packages[i])
    ensures RootRanges(p, t, packages).Ok?
    ensures Hold(RootRanges(p, t, packages).value, selection)
  {
    if packages != [] {
      assert Emits(p, t, selection, packages[0]);
      RootsEmit(p, t, selection, packages[1..]);
    }
  }

  lemma EdgesAreHeld(p: Problem, t: Tables, choice: Choice, selection: Selection,
    packages: seq<PackageRequirement>)
    requires AllListed(t, choice) && Placed(p, t, choice, selection)
    requires forall i | 0 <= i < |packages| :: Meets(p, choice, packages[i])
    ensures EdgeRanges(p, t, packages).Ok? && EdgeRanges(p, t, packages).value.Available?
    ensures Hold(EdgeRanges(p, t, packages).value.constraints, selection)
  {
    forall i | 0 <= i < |packages|
      ensures Emits(p, t, selection, packages[i])
    {
      MetIsHeld(p, t, choice, selection, packages[i]);
    }
    EdgesEmit(p, t, selection, packages);
  }

  lemma RootsAreHeld(p: Problem, t: Tables, choice: Choice, selection: Selection,
    packages: seq<PackageRequirement>)
    requires AllListed(t, choice) && Placed(p, t, choice, selection)
    requires forall i | 0 <= i < |packages| :: Meets(p, choice, packages[i])
    ensures RootRanges(p, t, packages).Ok?
    ensures Hold(RootRanges(p, t, packages).value, selection)
  {
    forall i | 0 <= i < |packages|
      ensures Emits(p, t, selection, packages[i])
    {
      MetIsHeld(p, t, choice, selection, packages[i]);
    }
    RootsEmit(p, t, selection, packages);
  }

  // Without Git roots the expansion of every subject is known.
  lemma {:induction false} ExpansionKnown(request: Request, roots: seq<RootRequirement>, s: SolverKey)
    requires forall i | 0 <= i < |roots| :: SubjectFor(request, roots[i].package).Ok?
    ensures ExpansionFor(request, roots, s).Ok?
    ensures ExpansionFor(request, roots, s).value == DirectSuggests <==>
      exists i | 0 <= i < |roots| :: SubjectFor(request, roots[i].package) == Ok(s) &&
        roots[i].expansion == DirectSuggests
  {
    hide SubjectFor;
    if roots != [] {
      forall i | 0 <= i < |roots[1..]|
        ensures SubjectFor(request, roots[1..][i].package).Ok?
      {
        assert roots[1..][i] == roots[i + 1];
      }
      ExpansionKnown(request, roots[1..], s);
      if i :|
        0 <= i < |roots[1..]| && SubjectFor(request, roots[1..][i].package) == Ok(s) &&
        roots[1..][i].expansion == DirectSuggests {
        assert roots[i + 1] == roots[1..][i];
      }
      if i :|
        0 <= i < |roots| && SubjectFor(request, roots[i].package) == Ok(s) &&
        roots[i].expansion == DirectSuggests && i > 0 {
        assert roots[1..][i - 1] == roots[i];
      }
    }
  }

  lemma NothingRejected(p: Problem, candidates: seq<(nat, Candidate)>, locked: Option<ReleaseIdentity>)
    requires forall i | 0 <= i < |candidates| :: RejectionOf(p, candidates[i].1, locked).None?
    ensures Rejections(p, candidates, locked) == []
  {
    NoneListed(p, candidates, locked);
    assert RejectionList(p, candidates, locked) == [];
  }

  lemma {:induction false} NoneListed(p: Problem, candidates: seq<(nat, Candidate)>, locked: Option<ReleaseIdentity>)
    requires forall i | 0 <= i < |candidates| :: RejectionOf(p, candidates[i].1, locked).None?
    ensures RejectionList(p, candidates, locked) == []
  {
    if candidates != [] {
      NoneListed(p, candidates[1..], locked);
    }
  }

  lemma RootsKnown(p: Problem, choice: Choice)
    requires Closed(p, choice)
    ensures forall i | 0 <= i < |p.request.roots| :: SubjectFor(p.request, p.request.roots[i].package).Ok?
  {
    forall i | 0 <= i < |p.request.roots|
      ensures SubjectFor(p.request, p.request.roots[i].package).Ok?
    {
      assert Meets(p, choice, p.request.roots[i].package);
    }
  }

  lemma ReleaseHolds(p: Problem, t: Tables, choice: Choice, selection: Selection, s: SolverKey, id: nat,
    release: Release)
    requires AllListed(t, choice) && Placed(p, t, choice, selection)
    requires ExpansionFor(p.request, p.request.roots, s).Ok? && EdgesMet(p, choice, release, Wanted(p, s))
    requires Occupancy(release.identity.name) in selection &&
      selection[Occupancy(release.identity.name)] == CandidateVersion(id)
    ensures var answer := ReleaseDependencies(p, t, s, id, release);
      answer.Ok? && answer.value.Available? && Hold(answer.value.constraints, selection)
  {
    hide EdgeRanges, AllListed, Placed, ExpansionFor, Edges, Meets;
    EdgesAreHeld(p, t, choice, selection, EdgePackages(Edges(release.dependencies, Wanted(p, s))));
  }

  lemma SubjectHolds(p: Problem, t: Tables, choice: Choice, selection: Selection, s: SolverKey)
    requires AllListed(t, choice) && Placed(p, t, choice, selection)
    requires s in choice && Chooses(p, choice, s) && ExpansionFor(p.request, p.request.roots, s).Ok?
    ensures Subject(s) in selection && DependenciesHold(p, t, selection, Subject(s))
  {
    var c := choice[s];
    var id := IdOf(t, c);
    assert ListedIn(t, choice, s) && PlacedIn(t, choice, selection, s);
    NothingRejected(p, [(id, c)], p.Decision(s).Locked());
    ReleaseHolds(p, t, choice, selection, s, id, c.release);
    UnrejectedDependencies(p, t, s, id, c);
  }

  lemma UnrejectedDependencies(p: Problem, t: Tables, s: SolverKey, id: nat, c: Candidate)
    requires CandidateFor(t, s, id) == Ok(c) && Rejections(p, [(id, c)], p.Decision(s).Locked()) == [] && s != RKey
    ensures DependenciesOf(p, t, Subject(s), CandidateVersion(id)) == ReleaseDependencies(p, t, s, id, c.release)
  {
  }

  lemma RootHolds(p: Problem, t: Tables, choice: Choice, selection: Selection)
    requires AllListed(t, choice) && Placed(p, t, choice, selection)
    requires p.request.rRequirement.Satisfies(p.request.rVersion)
    requires forall i | 0 <= i < |p.request.roots| :: Meets(p, choice, p.request.roots[i].package)
    ensures DependenciesHold(p, t, selection, Root)
  {
    RootsAreHeld(p, t, choice, selection, RootPackages(p.request.roots));
  }

  // -------------------------------------------------------------------- offers

  // Asked for exactly the chosen version, the provider offers it.
  lemma ChosenIsOffered(p: Problem, t: Tables, s: SolverKey, x: (nat, Candidate))
    requires s in t.loaded && t.loaded[s].Ok? && x in t.loaded[s].value.candidates
    requires forall y | y in t.loaded[s].value.candidates && y.0 == x.0 :: y == x
    requires p.Decision(s).Admits(x.1.release.identity) && RejectionOf(p, x.1, p.Decision(s).Locked()).None?
    ensures WasOffered(p, t, s, CandidateVersion(x.0))
  {
    var candidates := t.loaded[s].value.candidates;
    var range := (v: SolverVersion) => v == CandidateVersion(x.0);
    var permitted := Permitted(p, s, candidates, range);
    OnlyPermitted(p, s, candidates, x, range);
    forall i | 0 <= i < |permitted|
      ensures permitted[i] == x
    {
      assert permitted[i] in permitted;
    }
    NothingRejected(p, permitted, p.Decision(s).Locked());
    SortElements(permitted, ByPreference(p, s));
    var ordered := SortBy(permitted, ByPreference(p, s));
    assert x in ordered && ordered[|ordered| - 1] in ordered;
    assert ChooseCandidate(p, t, s, range) == Ok(Some(CandidateVersion(x.0)));
  }

  lemma OnlyPermitted(p: Problem, s: SolverKey, candidates: seq<(nat, Candidate)>, x: (nat, Candidate),
    range: SolverVersion -> bool)
    requires x in candidates && p.Decision(s).Admits(x.1.release.identity)
    requires range(CandidateVersion(x.0)) && forall y | y in candidates && range(CandidateVersion(y.0)) :: y == x
    ensures x in Permitted(p, s, candidates, range)
    ensures forall y | y in Permitted(p, s, candidates, range) :: y == x
  {
    FilterMembers(candidates, (x: (nat, Candidate)) => p.Decision(s).Admits(x.1.release.identity) &&
      range(CandidateVersion(x.0)));
  }

  lemma SubjectOffered(p: Problem, t: Tables, choice: Choice, s: SolverKey)
    requires p.Sound() && ValidTables(p, t) && s in choice && Chooses(p, choice, s) && ListedIn(t, choice, s)
    ensures WasOffered(p, t, s, CandidateVersion(IdOf(t, choice[s])))
  {
    var x := (IdOf(t, choice[s]), choice[s]);
    forall y | y in t.loaded[s].value.candidates && y.0 == x.0
      ensures y == x
    {
      SoleListed(p, t, s, x, y);
    }
    ChosenIsOffered(p, t, s, x);
  }

  // Completeness: a closed choice extends to a solution.
  lemma ClosedIsSolution(p: Problem, t: Tables, choice: Choice)
    requires p.Sound() && ValidTables(p, t) && Closed(p, choice) && AllLoaded(t, choice)
    ensures Solution(p, t, Extension(p, t, choice))
  {
    var selection := Extension(p, t, choice);
    ClosedIsListed(p, t, choice);
    ExtensionPlaces(p, t, choice);
    RootsKnown(p, choice);
    RootHolds(p, t, choice, selection);
    forall s | s in choice
      ensures WasOffered(p, t, s, CandidateVersion(IdOf(t, choice[s])))
      ensures DependenciesHold(p, t, selection, Subject(s))
    {
      ExpansionKnown(p.request, p.request.roots, s);
      SubjectOffered(p, t, choice, s);
      SubjectHolds(p, t, choice, selection, s);
    }
    forall s | s in choice
      ensures Solved(p, t, choice, selection, s) && ReservedIn(t, choice, s)
    {
      assert PlacedIn(t, choice, selection, s);
      ListedIsReserved(p, t, choice, s);
    }
    PlacedIsSolution(p, t, choice, selection);
  }

  ghost predicate Solved(p: Problem, t: Tables, choice: Choice, selection: Selection, s: SolverKey)
    requires s in choice
  {
    && PlacedIn(t, choice, selection, s)
    && WasOffered(p, t, s, CandidateVersion(IdOf(t, choice[s])))
    && DependenciesHold(p, t, selection, Subject(s))
  }

  lemma PlacedIsSolution(p: Problem, t: Tables, choice: Choice, selection: Selection)
    requires Placed(p, t, choice, selection) && DependenciesHold(p, t, selection, Root)
    requires forall s | s in choice :: Solved(p, t, choice, selection, s)
    requires forall s | s in choice :: ReservedIn(t, choice, s)
    ensures Solution(p, t, selection)
  {
    forall package | package in selection && package != Root
      ensures Offerable(p, t, package, selection[package])
    {
      PackageOffered(p, t, choice, selection, package);
    }
    forall package | package in selection
      ensures DependenciesHold(p, t, selection, package)
    {
      PackageHolds(p, t, choice, selection, package);
    }
  }

  // The identifier of a chosen candidate is interned under its installed name.
  ghost predicate ReservedIn(t: Tables, choice: Choice, s: SolverKey)
    requires s in choice
  {
    IdOf(t, choice[s]) in t.interned && Occupies(t, IdOf(t, choice[s]), choice[s].release.identity.name)
  }

  lemma ListedIsReserved(p: Problem, t: Tables, choice: Choice, s: SolverKey)
    requires ValidTables(p, t) && s in choice && ListedIn(t, choice, s)
    ensures ReservedIn(t, choice, s)
  {
    ListedFacts(p, t, s, IdOf(t, choice[s]), choice[s]);
  }

  // The provider offers the target R and every reservation as well.
  lemma PackageOffered(p: Problem, t: Tables, choice: Choice, selection: Selection, package: PackageId)
    requires Placed(p, t, choice, selection) && package in selection && package != Root
    requires forall s | s in choice :: Solved(p, t, choice, selection, s)
    requires forall s | s in choice :: ReservedIn(t, choice, s)
    ensures Offerable(p, t, package, selection[package])
  {
    if package.Occupancy? {
      OccupancyOffered(p, t, choice, selection, package.name);
    } else if package == Subject(RKey) {
      TargetOfferable(p, t);
    } else {
      OnlyChosen(choice, package.key);
      assert Solved(p, t, choice, selection, package.key);
      OfferableSubject(p, t, package.key, selection[package]);
    }
  }

  lemma OccupancyOffered(p: Problem, t: Tables, choice: Choice, selection: Selection, name: string)
    requires Placed(p, t, choice, selection) && Occupancy(name) in selection
    requires forall s | s in choice :: ReservedIn(t, choice, s)
    ensures Offerable(p, t, Occupancy(name), selection[Occupancy(name)])
  {
    var s := OccupiedBy(choice, name);
    assert PlacedIn(t, choice, selection, s) && ReservedIn(t, choice, s);
    OccupantOfferable(p, t, name, IdOf(t, choice[s]));
  }

  lemma OccupiedBy(choice: Choice, name: string) returns (s: SolverKey)
    requires Occupancy(name) in Packages(choice)
    ensures s in choice && choice[s].release.identity.name == name
  {
    s :| s in choice && Occupancy(choice[s].release.identity.name) == Occupancy(name);
  }

  lemma PackageHolds(p: Problem, t: Tables, choice: Choice, selection: Selection, package: PackageId)
    requires Placed(p, t, choice, selection) && DependenciesHold(p, t, selection, Root)
    requires package in selection && forall s | s in choice :: Solved(p, t, choice, selection, s)
    ensures DependenciesHold(p, t, selection, package)
  {
    if package.Subject? && package.key != RKey {
      assert Solved(p, t, choice, selection, package.key);
    }
  }

  ghost predicate Agrees(a: Choice, b: Choice, s: SolverKey) {
    s in a && s in b && a[s] == b[s]
  }

  lemma SameChoice(a: Choice, b: Choice)
    requires (forall s | s in b :: Agrees(a, b, s)) && forall s | s in a :: s in b
    ensures a == b
  {
  }

  lemma ChoiceOnly(t: Tables, selection: Selection, s: SolverKey)
    requires s in ChoiceOf(t, selection)
    ensures Subject(s) in selection && s != RKey
  {
    assert s in Subjects(selection);
  }

  // The extension stands for the choice it was made from.
  lemma ExtensionStandsFor(p: Problem, t: Tables, choice: Choice, selection: Selection)
    requires Placed(p, t, choice, selection) && AllListed(t, choice)
    ensures ChoiceOf(t, selection) == choice
  {
    forall s | s in choice
      ensures Agrees(ChoiceOf(t, selection), choice, s)
    {
      assert PlacedIn(t, choice, selection, s) && ListedIn(t, choice, s);
      StandsFor(t, choice, selection, s);
    }
    forall s | s in ChoiceOf(t, selection)
      ensures s in choice
    {
      ChoiceOnly(t, selection, s);
      OnlyChosen(choice, s);
    }
    SameChoice(ChoiceOf(t, selection), choice);
  }

  lemma OnlyChosen(choice: Choice, s: SolverKey)
    requires Subject(s) in Packages(choice) && s != RKey
    ensures s in choice
  {
  }

  lemma StandsFor(t: Tables, choice: Choice, selection: Selection, s: SolverKey)
    requires s in choice && s != RKey && PlacedIn(t, choice, selection, s) && ListedIn(t, choice, s)
    ensures s in ChoiceOf(t, selection) && ChoiceOf(t, selection)[s] == choice[s]
  {
    assert Subject(s) in selection && s in Subjects(selection);
    assert VisibleIn(t, selection, s);
  }

  // The encoding is exact: a loaded choice is closed if and only if its extension is
  // a solution that stands for it.
  lemma EncodingIsExact(p: Problem, t: Tables, choice: Choice)
    requires p.Sound() && ValidTables(p, t) && AllLoaded(t, choice)
    ensures Closed(p, choice) <==>
      Solution(p, t, Extension(p, t, choice)) && ChoiceOf(t, Extension(p, t, choice)) == choice
  {
    var selection := Extension(p, t, choice);
    if Closed(p, choice) {
      ClosedIsSolution(p, t, choice);
      ClosedIsListed(p, t, choice);
      ExtensionPlaces(p, t, choice);
      ExtensionStandsFor(p, t, choice, selection);
    }
    if Solution(p, t, selection) && ChoiceOf(t, selection) == choice {
      SolutionIsClosed(p, t, selection);
    }
  }
}
