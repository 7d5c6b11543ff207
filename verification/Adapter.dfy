/**
 The PubGrub dependency provider of one solve. Every query may load subjects and
 intern candidates; answers are what `SolverAnswers` says of the tables left behind,
 and tables only ever grow.
 */
module Adapter {
  import opened Prelude
  import opened Domain
  import opened Candidates
  import opened CandidateMerge
  import opened Requests
  import opened SolverAnswers

  const IDENTIFIER_LIMIT: nat := 0x1_0000_0000_0000_0000

  // `CandidateInterner::intern`.
  function InternOutcome(t: Tables, c: Candidate): (Result<nat, LoadError>, Tables) {
    if KeyOf(c) in t.ids then
      var id := t.ids[KeyOf(c)];
      if id !in t.interned then (Err(LostCandidate), t)
      else if !SameFacts(t.interned[id], c) then (Err(ConflictingViews), t)
      else (Ok(id), t)
    else if t.next + 1 >= IDENTIFIER_LIMIT then (Err(IdentifiersExhausted), t)
    else (Ok(t.next), t.(ids := t.ids[KeyOf(c) := t.next], interned := t.interned[t.next := c], next := t.next + 1))
  }

  // Interning keeps identifiers and identities in step, and never renames.
  lemma InternKeeps(t: Tables, c: Candidate, r: Result<nat, LoadError>, u: Tables)
    requires ValidInterner(t) && (r, u) == InternOutcome(t, c)
    ensures ValidInterner(u) && Extends(t, u) && u.loaded == t.loaded
    ensures r != Err(LostCandidate)
    ensures r.Ok? ==> Interned(u, r.value, c)
  {
    if KeyOf(c) !in t.ids && t.next + 1 < IDENTIFIER_LIMIT {
      FreshKeeps(t, KeyOf(c), c, u);
    }
  }

  lemma SameFactsWithItself(c: Candidate)
    ensures SameFacts(c, c)
  {
    CanonIsSame(c.release.version, c.release.version);
  }

  lemma FreshKeeps(t: Tables, key: ReleaseIdentity, c: Candidate, u: Tables)
    requires ValidInterner(t) && key == KeyOf(c) && key !in t.ids
    requires u == t.(ids := t.ids[key := t.next], interned := t.interned[t.next := c], next := t.next + 1)
    ensures ValidInterner(u) && Extends(t, u) && Interned(u, t.next, c)
  {
    forall id | id in t.interned
      ensures id != t.next && id in u.interned && u.interned[id] == t.interned[id]
    {
      assert KeyOf(t.interned[id]) in t.ids;
    }
    forall k | k in u.ids
      ensures u.ids[k] < u.next && u.ids[k] in u.interned && KeyOf(u.interned[u.ids[k]]) == k
    {
      if k != key {
        assert t.ids[k] < t.next;
      }
    }
    SameFactsWithItself(c);
    forall id | id in u.interned
      ensures KeyOf(u.interned[id]) in u.ids && u.ids[KeyOf(u.interned[id])] == id
    {
      if id != t.next {
        assert KeyOf(t.interned[id]) in t.ids;
      }
    }
  }

  lemma LoadedStay(p: Problem, t: Tables, u: Tables)
    requires ValidTables(p, t) && ValidInterner(u) && Extends(t, u) && u.loaded == t.loaded
    ensures ValidTables(p, u)
  {
    forall s | s in u.loaded
      ensures ValidLoaded(p, u, s)
    {
      LoadedStays(p, t, u, s);
    }
  }

  lemma LoadedStays(p: Problem, t: Tables, u: Tables, s: SolverKey)
    requires ValidLoaded(p, t, s) && Extends(t, u) && u.loaded == t.loaded
    ensures ValidLoaded(p, u, s)
  {
    if t.loaded[s].Ok? {
      NumberedStays(t, u, View(p, s).value, t.loaded[s].value.candidates);
    }
  }

  lemma ExtendsChain(t: Tables, u: Tables, v: Tables)
    requires Extends(t, u) && Extends(u, v)
    ensures Extends(t, v)
  {
  }

  lemma NumberedNext(t: Tables, view: seq<Candidate>, i: nat, candidates: seq<(nat, Candidate)>, id: nat)
    requires i < |view| && Numbered(t, view[..i], candidates) && Interned(t, id, view[i])
    ensures Numbered(t, view[..i + 1], candidates + [(id, view[i])])
  {
  }

  ghost predicate Represents(p: Problem, t: Tables, subject: SolverKey, loaded: LoadedSubject) {
    && View(p, subject).Ok? && p.load(subject).Ok?
    && loaded.quarantined == p.load(subject).value.quarantined
    && Numbered(t, View(p, subject).value, loaded.candidates)
  }

  // Caching what was computed for a subject that was not there.
  lemma CachedIsValid(p: Problem, t: Tables, subject: SolverKey, r: Result<LoadedSubject, LoadError>, u: Tables)
    requires ValidTables(p, t) && subject !in t.loaded && u == t.(loaded := t.loaded[subject := r])
    requires r.Ok? ==> Represents(p, t, subject, r.value)
    ensures ValidTables(p, u) && Extends(t, u) && Look(u, subject) == r
  {
    assert Extends(t, u);
    forall s | s in u.loaded
      ensures ValidLoaded(p, u, s)
    {
      if s == subject {
        if r.Ok? {
          NumberedStays(t, u, View(p, s).value, r.value.candidates);
        }
      } else {
        assert ValidLoaded(p, t, s);
        if t.loaded[s].Ok? {
          NumberedStays(t, u, View(p, s).value, t.loaded[s].value.candidates);
        }
      }
    }
  }

  // The ranges found are those of the first packages.
  ghost predicate Ranged(p: Problem, t: Tables, packages: seq<PackageRequirement>,
    found: seq<(PackageId, set<SolverVersion>)>) {
    |found| <= |packages| && forall k | 0 <= k < |found| :: RequirementRange(p, t, packages[k]) == Ok(found[k])
  }

  lemma RangedNext(p: Problem, t: Tables, u: Tables, packages: seq<PackageRequirement>,
      found: seq<(PackageId, set<SolverVersion>)>, range: Result<(PackageId, set<SolverVersion>), LoadError>)
    requires Ranged(p, t, packages, found) && Extends(t, u) && |found| < |packages|
    requires range == RequirementRange(p, u, packages[|found|])
    ensures Ranged(p, u, packages, found)
    ensures range.Ok? ==> Ranged(p, u, packages, found + [range.value])
  {
    forall k | 0 <= k < |found|
      ensures RequirementRange(p, u, packages[k]) == Ok(found[k])
    {
      RequirementRangeStays(p, t, u, packages[k]);
    }
  }

  lemma RangedTail(p: Problem, t: Tables, packages: seq<PackageRequirement>,
    found: seq<(PackageId, set<SolverVersion>)>)
    requires Ranged(p, t, packages, found) && found != []
    ensures Ranged(p, t, packages[1..], found[1..])
    ensures RequirementRange(p, t, packages[0]) == Ok(found[0])
  {
  }

  // Ranges answered for a prefix, and what comes next.
  lemma {:induction false} RootRangesFrom(p: Problem, t: Tables, packages: seq<PackageRequirement>,
    found: seq<(PackageId, set<SolverVersion>)>)
    requires Ranged(p, t, packages, found)
    ensures |found| == |packages| ==> RootRanges(p, t, packages) == Ok(found)
    ensures |found| < |packages| && RequirementRange(p, t, packages[|found|]).Err? ==>
      RootRanges(p, t, packages) == Err(RequirementRange(p, t, packages[|found|]).error)
  {
    if found != [] {
      RangedTail(p, t, packages, found);
      RootRangesFrom(p, t, packages[1..], found[1..]);
      assert found == [found[0]] + found[1..];
    }
  }

  lemma {:induction false} EdgeRangesFrom(p: Problem, t: Tables, packages: seq<PackageRequirement>,
    found: seq<(PackageId, set<SolverVersion>)>)
    requires Ranged(p, t, packages, found)
    ensures |found| == |packages| ==> EdgeRanges(p, t, packages) == Ok(Dependencies.Available(found))
    ensures |found| < |packages| && packages[|found|].source.Git? ==>
      EdgeRanges(p, t, packages) == Ok(Unavailable(GitDependency(packages[|found|].name)))
    ensures |found| < |packages| && !packages[|found|].source.Git? && RequirementRange(p, t, packages[|found|]).Err? ==>
      EdgeRanges(p, t, packages) == Err(RequirementRange(p, t, packages[|found|]).error)
  {
    if found != [] {
      RangedTail(p, t, packages, found);
      EdgeRangesFrom(p, t, packages[1..], found[1..]);
      assert found == [found[0]] + found[1..];
    }
  }

  method CollectMatching(candidates: seq<(nat, Candidate)>, constraint: VersionConstraint)
    returns (range: set<SolverVersion>)
    ensures range == Matching(candidates, constraint)
  {
    range := {};
    for i := 0 to |candidates|
      invariant range == Matching(candidates[..i], constraint)
    {
      assert candidates[..i + 1] == candidates[..i] + [candidates[i]];
      if constraint.Satisfies(candidates[i].1.release.version) {
        range := range + {CandidateVersion(candidates[i].0)};
      }
    }
    assert candidates[..|candidates|] == candidates;
  }

  class Provider {
    const problem: Problem
    var cache: map<SolverKey, Result<LoadedSubject, LoadError>>
    var byIdentity: map<ReleaseIdentity, nat>
    var candidates: map<nat, Candidate>
    var next: nat

    function State(): Tables
      reads this
    {
      Tables(cache, byIdentity, candidates, next)
    }

    ghost predicate Valid()
      reads this
    {
      ValidTables(problem, State())
    }

    constructor (problem: Problem)
      ensures this.problem == problem && Valid()
      ensures State() == Tables(map[], map[], map[], 0)
    {
      this.problem := problem;
      cache, byIdentity, candidates, next := map[], map[], map[], 0;
    }

    method Intern(c: Candidate) returns (r: Result<nat, LoadError>)
      modifies this`byIdentity, this`candidates, this`next
      ensures (r, State()) == InternOutcome(old(State()), c)
    {
      var key := KeyOf(c);
      if key in byIdentity {
        var id := byIdentity[key];
        if id !in candidates {
          return Err(LostCandidate);
        }
        if !SameFacts(candidates[id], c) {
          return Err(ConflictingViews);
        }
        return Ok(id);
      }
      if next + 1 >= IDENTIFIER_LIMIT {
        return Err(IdentifiersExhausted);
      }
      var id := next;
      next := next + 1;
      byIdentity := byIdentity[key := id];
      candidates := candidates[id := c];
      return Ok(id);
    }

    method InternAll(view: seq<Candidate>) returns (r: Result<seq<(nat, Candidate)>, LoadError>)
      requires Valid()
      modifies this`byIdentity, this`candidates, this`next
      ensures Valid() && Extends(old(State()), State())
      ensures r.Ok? ==> Numbered(State(), view, r.value)
    {
      var numbered: seq<(nat, Candidate)> := [];
      for i := 0 to |view|
        invariant Valid() && Extends(old(State()), State()) && cache == old(cache)
        invariant Numbered(State(), view[..i], numbered)
      {
        ghost var before := State();
        var id := Intern(view[i]);
        InternKeeps(before, view[i], id, State());
        LoadedStay(problem, before, State());
        ExtendsChain(old(State()), before, State());
        if id.Err? {
          return Err(id.error);
        }
        NumberedStays(before, State(), view[..i], numbered);
        NumberedNext(State(), view, i, numbered, id.value);
        numbered := numbered + [(id.value, view[i])];
      }
      assert view[..|view|] == view;
      return Ok(numbered);
    }

    // Merges releases of one identity, in arrival order.
    method Unify(releases: seq<Candidate>) returns (r: Result<seq<Candidate>, LoadError>)
      ensures r == UnifyAll([], releases)
    {
      var unique: seq<Candidate> := [];
      assert releases[0..] == releases;
      for i := 0 to |releases|
        invariant UnifyAll([], releases) == UnifyAll(unique, releases[i..])
      {
        assert releases[i..][1..] == releases[i + 1..];
        var next := Unified(unique, releases[i]);
        if next.Err? {
          return Err(next.error);
        }
        unique := next.value;
      }
      return Ok(unique);
    }

    // The loader's answer turned into numbered candidates.
    method Prepare(subject: SolverKey) returns (r: Result<LoadedSubject, LoadError>)
      requires Valid()
      modifies this`byIdentity, this`candidates, this`next
      ensures Valid() && Extends(old(State()), State())
      ensures r.Ok? ==> Represents(problem, State(), subject, r.value)
    {
      var result := problem.load(subject);
      if result.Err? {
        return Err(result.error);
      }
      var unique := Unify(result.value.releases);
      if unique.Err? {
        return Err(unique.error);
      }
      var sorted := SortBy(unique.value, ByIdentity(problem));
      var view := Filter(sorted, (c: Candidate) => EligibleFor(c, subject));
      var numbered := InternAll(view);
      if numbered.Err? {
        return Err(numbered.error);
      }
      return Ok(LoadedSubject(numbered.value, result.value.quarantined));
    }

    // Loads a subject at most once.
    method Load(subject: SolverKey) returns (r: Result<LoadedSubject, LoadError>)
      requires Valid()
      modifies this
      ensures Valid() && Extends(old(State()), State())
      ensures subject in cache && r == Look(State(), subject)
      ensures old(subject in cache) ==> State() == old(State())
    {
      if subject in cache {
        return cache[subject];
      }
      r := Prepare(subject);
      ghost var before := State();
      cache := cache[subject := r];
      CachedIsValid(problem, before, subject, r, State());
      ExtendsChain(old(State()), before, State());
    }

    // `candidate_for_id`.
    method CandidateForId(subject: SolverKey, id: nat) returns (r: Result<Candidate, LoadError>)
      requires Valid()
      modifies this
      ensures Valid() && Extends(old(State()), State())
      ensures r == CandidateFor(State(), subject, id)
      ensures old(subject in cache) ==> State() == old(State())
    {
      var loaded := Load(subject);
      if loaded.Err? {
        return Err(loaded.error);
      }
      match Find(loaded.value.candidates, id)
      case Some(c) => return Ok(c);
      case None => return Err(NotVisible);
    }

    method RangeFor(package: PackageRequirement) returns (r: Result<(PackageId, set<SolverVersion>), LoadError>)
      requires Valid()
      modifies this
      ensures Valid() && Extends(old(State()), State())
      ensures r == RequirementRange(problem, State(), package)
    {
      var subject := SubjectFor(problem.request, package);
      if subject.Err? {
        return Err(subject.error);
      }
      if subject.value == RKey {
        return Ok((Subject(RKey), RRange(problem, package.constraint)));
      }
      var loaded := Load(subject.value);
      if loaded.Err? {
        return Err(loaded.error);
      }
      var range := CollectMatching(loaded.value.candidates, package.constraint);
      var checked := CheckedRange(problem, subject.value, loaded.value.quarantined, package.constraint, range);
      if checked.Err? {
        return Err(checked.error);
      }
      return Ok((Subject(subject.value), checked.value));
    }

    method RootRangesFor(packages: seq<PackageRequirement>)
      returns (r: Result<seq<(PackageId, set<SolverVersion>)>, LoadError>)
      requires Valid()
      modifies this
      ensures Valid() && Extends(old(State()), State())
      ensures r == RootRanges(problem, State(), packages)
    {
      var found: seq<(PackageId, set<SolverVersion>)> := [];
      for i := 0 to |packages|
        invariant Valid() && Extends(old(State()), State()) && |found| == i
        invariant Ranged(problem, State(), packages, found)
      {
        ghost var before := State();
        var range := RangeFor(packages[i]);
        ExtendsChain(old(State()), before, State());
        RangedNext(problem, before, State(), packages, found, range);
        if range.Err? {
          RootRangesFrom(problem, State(), packages, found);
          return Err(range.error);
        }
        found := found + [range.value];
      }
      RootRangesFrom(problem, State(), packages, found);
      return Ok(found);
    }

    method EdgeRangesFor(packages: seq<PackageRequirement>) returns (r: Result<Dependencies, LoadError>)
      requires Valid()
      modifies this
      ensures Valid() && Extends(old(State()), State())
      ensures r == EdgeRanges(problem, State(), packages)
    {
      var found: seq<(PackageId, set<SolverVersion>)> := [];
      for i := 0 to |packages|
        invariant Valid() && Extends(old(State()), State()) && |found| == i
        invariant Ranged(problem, State(), packages, found)
      {
        if packages[i].source.Git? {
          EdgeRangesFrom(problem, State(), packages, found);
          return Ok(Unavailable(GitDependency(packages[i].name)));
        }
        ghost var before := State();
        var range := RangeFor(packages[i]);
        ExtendsChain(old(State()), before, State());
        RangedNext(problem, before, State(), packages, found, range);
        if range.Err? {
          EdgeRangesFrom(problem, State(), packages, found);
          return Err(range.error);
        }
        found := found + [range.value];
      }
      EdgeRangesFrom(problem, State(), packages, found);
      return Ok(Dependencies.Available(found));
    }

    method DependenciesOfRelease(subject: SolverKey, id: nat, release: Release)
      returns (r: Result<Dependencies, LoadError>)
      requires Valid()
      modifies this
      ensures Valid() && Extends(old(State()), State())
      ensures r == ReleaseDependencies(problem, State(), subject, id, release)
    {
      var expansion := ExpansionFor(problem.request, problem.request.roots, subject);
      if expansion.Err? {
        return Err(expansion.error);
      }
      var edges := EdgeRangesFor(EdgePackages(Edges(release.dependencies, expansion.value)));
      if edges.Err? {
        return Err(edges.error);
      }
      return Ok(Reserving(release.identity.name, id, edges.value));
    }

    // `get_dependencies` for a subject other than R.
    method DependenciesOfCandidate(subject: SolverKey, id: nat) returns (r: Result<Dependencies, LoadError>)
      requires Valid()
      modifies this
      ensures Valid() && Extends(old(State()), State())
      ensures r == CandidateDependencies(problem, State(), subject, id)
    {
      var loaded := Load(subject);
      if loaded.Err? {
        return Err(loaded.error);
      }
      var found := Find(loaded.value.candidates, id);
      if found.None? {
        return Err(NotVisible);
      }
      var rejections := CandidateRejections(problem, subject, id, found.value);
      if rejections != [] {
        return Ok(Unavailable(PublicationPolicy(rejections)));
      }
      ghost var before := State();
      r := DependenciesOfRelease(subject, id, found.value.release);
      ExtendsChain(old(State()), before, State());
      assert CandidateFor(State(), subject, id) == Ok(found.value);
    }

    method GetDependencies(package: PackageId, version: SolverVersion) returns (r: Result<Dependencies, LoadError>)
      requires Valid()
      modifies this
      ensures Valid() && Extends(old(State()), State())
      ensures r == DependenciesOf(problem, State(), package, version)
    {
      match package
      case Root =>
        if version != RootVersion {
          return Ok(Unavailable(UnknownRootVersion));
        }
        var roots := RootRangesFor(RootPackages(problem.request.roots));
        if roots.Err? {
          return Err(roots.error);
        }
        return Ok(Dependencies.Available([(Subject(RKey), RRange(problem, problem.request.rRequirement))] +
          roots.value));
      case Subject(RKey) =>
        return Ok(Dependencies.Available([]));
      case Subject(subject) =>
        if !version.CandidateVersion? {
          return Ok(Unavailable(UnknownCandidateVersion));
        }
        r := DependenciesOfCandidate(subject, version.id);
      case Occupancy(_) =>
        return Ok(Dependencies.Available([]));
    }

    function KeyText(id: nat): string
      requires id in candidates
      reads this
    {
      problem.sortKey(candidates[id].release.identity)
    }

    // The interned identifiers of a name, each with its sort key.
    method Occupants(name: string) returns (found: seq<(nat, string)>)
      ensures forall x | x in found :: x.0 in candidates && Occupies(State(), x.0, name) && x.1 == KeyText(x.0)
      ensures forall id | id in candidates && Occupies(State(), id, name) :: (id, KeyText(id)) in found
    {
      var rest := set id | id in candidates && candidates[id].release.identity.name == name;
      found := [];
      while rest != {}
        invariant rest <= candidates.Keys
        invariant forall x | x in found :: x.0 in candidates && Occupies(State(), x.0, name) && x.1 == KeyText(x.0)
        invariant forall id | id in rest :: Occupies(State(), id, name)
        invariant forall id | id in candidates && Occupies(State(), id, name) ::
          id in rest || (id, KeyText(id)) in found
        decreases |rest|
      {
        var id :| id in rest;
        found := found + [(id, KeyText(id))];
        rest := rest - {id};
      }
    }

    // `ids_for_name`: the interned identifiers of a name by sort key.
    method IdsForName(name: string) returns (sorted: seq<(nat, string)>)
      ensures forall x | x in sorted :: x.0 in candidates && Occupies(State(), x.0, name) && x.1 == KeyText(x.0)
      ensures forall id | id in candidates && Occupies(State(), id, name) :: (id, KeyText(id)) in sorted
      ensures Sorted(sorted, (a: (nat, string), b: (nat, string)) => CompareText(a.1, b.1))
    {
      var found := Occupants(name);
      var byKey := (a: (nat, string), b: (nat, string)) => CompareText(a.1, b.1);
      sorted := SortBy(found, byKey);
      OrderingByText((x: (nat, string)) => x.1, byKey);
      SortElements(found, byKey);
      SortSorted(found, byKey);
    }

    method ChooseOccupant(name: string, range: SolverVersion -> bool) returns (r: Option<SolverVersion>)
      ensures OccupantOffered(problem, State(), name, range, Ok(r))
    {
      var sorted := IdsForName(name);
      for i := 0 to |sorted|
        invariant forall k | 0 <= k < i :: !range(CandidateVersion(sorted[k].0))
      {
        if range(CandidateVersion(sorted[i].0)) {
          assert sorted[i] in sorted;
          forall id | id in candidates && Occupies(State(), id, name) && range(CandidateVersion(id))
            ensures CompareText(KeyText(sorted[i].0), KeyText(id)) != Greater
          {
            var j :| 0 <= j < |sorted| && sorted[j] == (id, KeyText(id));
            CompareTextFlip(KeyText(id), KeyText(id));
          }
          return Some(CandidateVersion(sorted[i].0));
        }
      }
      return None;
    }

    // `choose_version` for a subject other than R.
    method ChooseForSubject(subject: SolverKey, range: SolverVersion -> bool)
      returns (r: Result<Option<SolverVersion>, LoadError>)
      requires Valid()
      modifies this
      ensures Valid() && Extends(old(State()), State())
      ensures r == ChooseCandidate(problem, State(), subject, range)
    {
      var loaded := Load(subject);
      if loaded.Err? {
        return Err(loaded.error);
      }
      var permitted := Permitted(problem, subject, loaded.value.candidates, range);
      var eligible := AfterCutoff(problem, subject, permitted);
      var ordered := SortBy(eligible, ByPreference(problem, subject));
      if ordered == [] {
        return Ok(None);
      }
      return Ok(Some(CandidateVersion(ordered[|ordered| - 1].0)));
    }

    method ChooseVersion(package: PackageId, range: SolverVersion -> bool)
      returns (r: Result<Option<SolverVersion>, LoadError>)
      requires Valid()
      modifies this
      ensures Valid() && Extends(old(State()), State())
      ensures Offered(problem, State(), package, range, r)
    {
      match package
      case Root =>
        return Ok(if range(RootVersion) then Some(RootVersion) else None);
      case Subject(RKey) =>
        return Ok(if range(Target(problem)) then Some(Target(problem)) else None);
      case Subject(subject) =>
        r := ChooseForSubject(subject, range);
      case Occupancy(name) =>
        var chosen := ChooseOccupant(name, range);
        return Ok(chosen);
    }

    // The number of candidates in range, which the solver uses to order its work.
    // A subject that fails to load counts as the largest number.
    method Prioritize(package: PackageId, range: SolverVersion -> bool) returns (count: nat)
      requires Valid()
      modifies this
      ensures Valid() && Extends(old(State()), State())
      ensures package.Subject? && package.key != RKey ==>
        match Look(State(), package.key)
        case Ok(loaded) => count == |Filter(loaded.candidates, (x: (nat, Candidate)) => range(CandidateVersion(x.0)))|
        case Err(_) => count == IDENTIFIER_LIMIT - 1
    {
      match package
      case Root => return 1;
      case Subject(RKey) => return if range(Target(problem)) then 1 else 0;
      case Subject(subject) =>
        var loaded := Load(subject);
        if loaded.Err? {
          return IDENTIFIER_LIMIT - 1;
        }
        return |Filter(loaded.value.candidates, (x: (nat, Candidate)) => range(CandidateVersion(x.0)))|;
      case Occupancy(_) => return 1;
    }
  }
}
