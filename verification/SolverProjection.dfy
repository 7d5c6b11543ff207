/**
 Projecting a solution back to resolved packages. On a solution the projection cannot
 fail, and what it lists satisfies the request.
 */
module SolverProjection {
  import opened Prelude
  import opened Versions
  import opened Domain
  import opened Candidates
  import opened CandidateMerge
  import opened Requests
  import opened SolverAnswers
  import opened Adapter
  import opened SolverSoundness
  import opened SolverCompleteness

  datatype Failure = LoadFailure(error: LoadError) | MergeFailure(subject: SolverKey) | NameConflict(name: string)

  // What is collected for one installed name.
  datatype Entry = Entry(subject: SolverKey, candidate: Candidate, subjects: seq<SolverKey>)

  datatype ResolvedPackage = ResolvedPackage(
    subject: SolverKey, release: Release, edges: seq<Edge>, repositories: seq<string>) {
    function Name(): string {
      release.identity.name
    }
  }

  function SubjectRank(s: SolverKey): nat {
    match s
    case InstalledName(_) => 0
    case RegistryKey(_, _) => 1
    case BioconductorKey(_, _, _) => 2
    case RepositoryKey(_, _) => 3
    case ExactKey(_) => 4
    case RKey => 5
  }

  // `canonical_subject_cmp`.
  function CompareSubjects(p: Problem, a: SolverKey, b: SolverKey): Order {
    CompareNat(SubjectRank(a), SubjectRank(b)).Then(CompareText(p.subjectText(a), p.subjectText(b)))
  }

  lemma SubjectsOrdered(p: Problem)
    ensures Ordering((a: SolverKey, b: SolverKey) => CompareSubjects(p, a, b))
  {
    var ranks := (a: SolverKey, b: SolverKey) => CompareNats([SubjectRank(a)], [SubjectRank(b)]);
    var texts := (a: SolverKey, b: SolverKey) => CompareText(p.subjectText(a), p.subjectText(b));
    OrderingByNats((a: SolverKey) => [SubjectRank(a)], ranks);
    OrderingByText(p.subjectText, texts);
    OrderingThen(ranks, texts, (a: SolverKey, b: SolverKey) => CompareSubjects(p, a, b));
  }

  type Entries = map<string, Entry>

  // One selected subject more.
  function Collected(p: Problem, entries: Entries, s: SolverKey, c: Candidate): Result<Entries, Failure> {
    var name := c.release.identity.name;
    if c.release.IsRBase() then Ok(entries)
    else if name !in entries then Ok(entries[name := Entry(s, c, [s])])
    else
      var e := entries[name];
      if KeyOf(e.candidate) != KeyOf(c) then Err(NameConflict(name))
      else match Merge(e.candidate, c)
        case Err(_) => Err(MergeFailure(s))
        case Ok(merged) =>
          Ok(entries[name := Entry(if CompareSubjects(p, s, e.subject) == Less then s
            else e.subject, merged, e.subjects + [s])])
  }

  // ------------------------------------------------- entries describe a choice

  ghost predicate Chosen(choice: Choice, done: set<SolverKey>, name: string, s: SolverKey) {
    s in done && s in choice && choice[s].release.identity.name == name
  }

  ghost predicate Describes(p: Problem, choice: Choice, done: set<SolverKey>, name: string, e: Entry) {
    && Valid(e.candidate) && !e.candidate.release.IsRBase() && e.candidate.release.identity.name == name
    && e.subject in e.subjects
    && (forall s :: s in e.subjects <==> Chosen(choice, done, name, s))
    && (forall s | s in e.subjects :: s in choice && SameFacts(e.candidate, choice[s]))
    && (forall s | s in e.subjects :: CompareSubjects(p, e.subject, s) != Greater)
  }

  ghost predicate Collection(p: Problem, choice: Choice, done: set<SolverKey>, entries: Entries) {
    && (forall name | name in entries :: Describes(p, choice, done, name, entries[name]))
    && (forall s | s in done && s in choice && !choice[s].release.IsRBase() ::
      choice[s].release.identity.name in entries)
  }

  // Valid candidates, the same one wherever the name is the same.
  ghost predicate Uniform(choice: Choice) {
    && (forall s | s in choice :: Valid(choice[s]))
    && (forall s, u | s in choice && u in choice &&
      choice[s].release.identity.name == choice[u].release.identity.name ::
          SameFacts(choice[s], choice[u]))
  }

  lemma SameFactsFlip(c: Candidate, d: Candidate)
    requires SameFacts(c, d)
    ensures SameFacts(d, c) && KeyOf(c) == KeyOf(d) && c.release.IsRBase() == d.release.IsRBase()
    ensures c.release.identity.name == d.release.identity.name
  {
    SameFactsWithItself(c);
    SameFactsEuclidean(c, d, c);
    assert CanonProvenance(c.release.identity.provenance) == CanonProvenance(d.release.identity.provenance);
  }

  lemma SameFactsChain(c: Candidate, d: Candidate, e: Candidate)
    requires SameFacts(c, d) && SameFacts(d, e)
    ensures SameFacts(c, e)
  {
    SameFactsFlip(c, d);
    SameFactsEuclidean(d, c, e);
  }

  lemma LeastOfMore(p: Problem, e: Entry, s: SolverKey, least: SolverKey)
    requires e.subject in e.subjects && forall u | u in e.subjects :: CompareSubjects(p, e.subject, u) != Greater
    requires least == if CompareSubjects(p, s, e.subject) == Less then s else e.subject
    ensures least in e.subjects + [s]
    ensures forall u | u in e.subjects + [s] :: CompareSubjects(p, least, u) != Greater
  {
    SubjectsOrdered(p);
    var cmp := (a: SolverKey, b: SolverKey) => CompareSubjects(p, a, b);
    forall u | u in e.subjects + [s]
      ensures CompareSubjects(p, least, u) != Greater
    {
      assert u in e.subjects || u == s;
      Tied(s, e.subject, u, cmp);
      Tied(e.subject, s, s, cmp);
      assert cmp(s, e.subject) == cmp(e.subject, s).Flip();
    }
  }

  lemma NothingChosen(p: Problem, choice: Choice, done: set<SolverKey>, entries: Entries, s: SolverKey)
    requires Uniform(choice) && Collection(p, choice, done, entries) && s in choice
    requires !choice[s].release.IsRBase() && choice[s].release.identity.name !in entries
    ensures forall u :: !Chosen(choice, done, choice[s].release.identity.name, u)
  {
    forall u | Chosen(choice, done, choice[s].release.identity.name, u)
      ensures false
    {
      SameFactsFlip(choice[u], choice[s]);
    }
  }

  lemma CollectedAgain(p: Problem, entries: Entries, s: SolverKey, c: Candidate, e: Entry, r: Result<Entries, Failure>)
    requires c.release.identity.name in entries && entries[c.release.identity.name] == e && !c.release.IsRBase()
    requires KeyOf(e.candidate) == KeyOf(c) && Merge(e.candidate, c).Ok? && r == Collected(p, entries, s, c)
    ensures r == Ok(entries[c.release.identity.name := Entry(if CompareSubjects(p, s, e.subject) == Less then s
      else e.subject, Merge(e.candidate, c).value, e.subjects + [s])])
  {
  }

  // The next subject either starts an entry or agrees with the one there.
  lemma NextEntry(p: Problem, choice: Choice, done: set<SolverKey>, entries: Entries, s: SolverKey,
    r: Result<Entries, Failure>)
    requires Uniform(choice) && Collection(p, choice, done, entries) && s in choice && s !in done
    requires !choice[s].release.IsRBase() && r == Collected(p, entries, s, choice[s])
    ensures var name := choice[s].release.identity.name;
      r.Ok? && name in r.value && r.value == entries[name := r.value[name]]
      && Describes(p, choice, done + {s}, name, r.value[name])
  {
    var c := choice[s];
    var name := c.release.identity.name;
    if name in entries {
      assert Describes(p, choice, done, name, entries[name]);
      var e := entries[name];
      AgreedEntry(p, choice, done, name, e, s, c, Merge(e.candidate, c));
      CollectedAgain(p, entries, s, c, e, r);
    } else {
      NothingChosen(p, choice, done, entries, s);
      FirstEntry(p, choice, done, name, s, c, r.value[name]);
    }
  }

  lemma AgreedEntry(p: Problem, choice: Choice, done: set<SolverKey>, name: string, e: Entry, s: SolverKey,
    c: Candidate, m: Result<Candidate, CandidateError>)
    requires Uniform(choice) && Describes(p, choice, done, name, e) && s in choice && c == choice[s]
    requires c.release.identity.name == name && m == Merge(e.candidate, c)
    ensures KeyOf(e.candidate) == KeyOf(c) && m.Ok?
    ensures Describes(p, choice, done + {s}, name,
      Entry(if CompareSubjects(p, s, e.subject) == Less then s else e.subject, m.value, e.subjects + [s]))
  {
    SameFactsChain(e.candidate, choice[e.subject], c);
    SameFactsFlip(e.candidate, c);
    MergeIsIdempotent(e.candidate, c, m);
    GrownEntry(p, choice, done, name, e, s, m.value,
      Entry(if CompareSubjects(p, s, e.subject) == Less then s else e.subject, m.value, e.subjects + [s]));
  }

  lemma FirstEntry(p: Problem, choice: Choice, done: set<SolverKey>, name: string, s: SolverKey, c: Candidate, e: Entry)
    requires s in choice && c == choice[s] && Valid(c) && !c.release.IsRBase() && c.release.identity.name == name
    requires e == Entry(s, c, [s]) && forall u :: !Chosen(choice, done, name, u)
    ensures Describes(p, choice, done + {s}, name, e)
  {
    SameFactsWithItself(c);
    SubjectsOrdered(p);
    Tied(s, s, s, (a: SolverKey, b: SolverKey) => CompareSubjects(p, a, b));
    forall u
      ensures u in e.subjects <==> Chosen(choice, done + {s}, name, u)
    {
      assert u in e.subjects <==> u == s;
      assert Chosen(choice, done + {s}, name, u) <==> Chosen(choice, done, name, u) || u == s;
    }
  }

  lemma GrownEntry(p: Problem, choice: Choice, done: set<SolverKey>, name: string, e: Entry, s: SolverKey, m: Candidate,
    next: Entry)
    requires Describes(p, choice, done, name, e) && s in choice && choice[s].release.identity.name == name
    requires Valid(m) && SameFacts(m, e.candidate) && SameFacts(e.candidate, choice[s])
    requires next == Entry(if CompareSubjects(p, s, e.subject) == Less then s else e.subject, m, e.subjects + [s])
    ensures Describes(p, choice, done + {s}, name, next)
  {
    LeastOfMore(p, e, s, next.subject);
    SameFactsFlip(m, e.candidate);
    forall u
      ensures u in next.subjects <==> Chosen(choice, done + {s}, name, u)
    {
      assert u in next.subjects <==> u in e.subjects || u == s;
    }
    forall u | u in next.subjects
      ensures u in choice && SameFacts(m, choice[u])
    {
      SameFactsChain(m, e.candidate, choice[u]);
    }
  }

  // An entry of another name does not notice.
  lemma OtherEntry(p: Problem, choice: Choice, done: set<SolverKey>, name: string, e: Entry, s: SolverKey)
    requires Describes(p, choice, done, name, e) && s in choice && choice[s].release.identity.name != name
    ensures Describes(p, choice, done + {s}, name, e)
  {
    forall u
      ensures u in e.subjects <==> Chosen(choice, done + {s}, name, u)
    {
      assert Chosen(choice, done + {s}, name, u) <==> Chosen(choice, done, name, u);
    }
  }

  // Neither the name conflict nor the failed merge can happen.
  lemma CollectedKeeps(p: Problem, choice: Choice, done: set<SolverKey>, entries: Entries, s: SolverKey,
    r: Result<Entries, Failure>)
    requires Uniform(choice) && Collection(p, choice, done, entries) && s in choice && s !in done
    requires r == Collected(p, entries, s, choice[s])
    ensures r.Ok? && Collection(p, choice, done + {s}, r.value)
  {
    hide Uniform, Describes;
    var name := choice[s].release.identity.name;
    if choice[s].release.IsRBase() {
      forall n | n in entries
        ensures n != name
      {
        NotBase(p, choice, done, n, entries[n], s);
      }
    } else {
      NextEntry(p, choice, done, entries, s, r);
    }
    forall n | n in r.value
      ensures Describes(p, choice, done + {s}, n, r.value[n])
    {
      if n != name {
        OtherEntry(p, choice, done, n, entries[n], s);
      }
    }
  }

  lemma NotBase(p: Problem, choice: Choice, done: set<SolverKey>, n: string, e: Entry, s: SolverKey)
    requires Uniform(choice) && Describes(p, choice, done, n, e) && s in choice && choice[s].release.IsRBase()
    ensures n != choice[s].release.identity.name
  {
    if n == choice[s].release.identity.name {
      SameFactsChain(e.candidate, choice[e.subject], choice[s]);
      SameFactsFlip(e.candidate, choice[s]);
    }
  }

  // The choice behind a solution is uniform.
  lemma SolutionIsUniform(p: Problem, t: Tables, selection: Selection)
    requires p.Sound() && ValidTables(p, t) && Solution(p, t, selection)
    ensures Uniform(ChoiceOf(t, selection))
  {
    var choice := ChoiceOf(t, selection);
    SolutionIsClosed(p, t, selection);
    forall s | s in choice
      ensures Valid(choice[s])
    {
      assert Chooses(p, choice, s);
      ViewedIsValid(p, s, choice[s]);
    }
    forall s, u | s in choice && u in choice && choice[s].release.identity.name == choice[u].release.identity.name
      ensures SameFacts(choice[s], choice[u])
    {
      SameNameSameCandidate(p, t, selection, s, u);
    }
  }

  lemma ViewedIsValid(p: Problem, s: SolverKey, c: Candidate)
    requires p.Sound() && View(p, s).Ok? && c in View(p, s).value
    ensures Valid(c) && EligibleFor(c, s)
  {
    ViewFacts(p, s);
    var view := View(p, s).value;
    var i :| 0 <= i < |view| && view[i] == c;
  }

  // ------------------------------------------------------------ one package

  // Any of the subjects wanting suggestions promotes them.
  function ExpansionForSubjects(request: Request, subjects: seq<SolverKey>): Result<RootExpansion, LoadError> {
    if subjects == [] then Ok(HardOnly)
    else
      var first :- ExpansionFor(request, request.roots, subjects[0]);
      if first == DirectSuggests then Ok(DirectSuggests) else ExpansionForSubjects(request, subjects[1..])
  }

  lemma {:induction false} ExpansionOfSubjects(p: Problem, subjects: seq<SolverKey>)
    requires forall s | s in subjects :: ExpansionFor(p.request, p.request.roots, s).Ok?
    ensures ExpansionForSubjects(p.request, subjects).Ok?
    ensures ExpansionForSubjects(p.request, subjects).value == DirectSuggests <==>
      exists s :: s in subjects && Wanted(p, s) == DirectSuggests
  {
    if subjects != [] {
      assert subjects[0] in subjects;
      ExpansionOfSubjects(p, subjects[1..]);
    }
  }

  function Seen(c: Candidate, subjects: seq<SolverKey>): seq<(nat, string)> {
    if subjects == [] then []
    else
      var occurrences := ApplicableOccurrences(c, subjects[0]);
      seq(|occurrences|, i requires 0 <= i < |occurrences| => (occurrences[i].rank, occurrences[i].repository))
        + Seen(c, subjects[1..])
  }

  function CompareSeen(a: (nat, string), b: (nat, string)): Order {
    CompareNat(a.0, b.0).Then(CompareText(a.1, b.1))
  }

  // The repositories where some subject sees the candidate, best rank first.
  function Repositories(c: Candidate, subjects: seq<SolverKey>): seq<string> {
    Second(DedupBy(SortBy(Seen(c, subjects), CompareSeen), (a: (nat, string), b: (nat, string)) => a.1 == b.1))
  }

  function Second(pairs: seq<(nat, string)>): (names: seq<string>)
    ensures |names| == |pairs| && forall i | 0 <= i < |pairs| :: names[i] == pairs[i].1
  {
    seq(|pairs|, i requires 0 <= i < |pairs| => pairs[i].1)
  }

  ghost predicate NoRepeats(names: seq<string>) {
    forall i, j | 0 <= i < j < |names| :: names[i] != names[j]
  }

  function Projected(p: Problem, e: Entry): Result<ResolvedPackage, Failure> {
    match ExpansionForSubjects(p.request, e.subjects)
    case Err(error) => Err(LoadFailure(error))
    case Ok(expansion) =>
      Ok(ResolvedPackage(e.subject, e.candidate.release, Edges(e.candidate.release.dependencies, expansion),
        Repositories(e.candidate, e.subjects)))
  }

  lemma SeenOrdering()
    ensures Ordering(CompareSeen)
    ensures forall a, b :: CompareSeen(a, b) == Equal <==> a == b
  {
    var ranks := (a: (nat, string), b: (nat, string)) => CompareNats([a.0], [b.0]);
    var names := (a: (nat, string), b: (nat, string)) => CompareText(a.1, b.1);
    OrderingByNats((a: (nat, string)) => [a.0], ranks);
    OrderingByText((a: (nat, string)) => a.1, names);
    OrderingThen(ranks, names, CompareSeen);
    forall a: (nat, string), b: (nat, string)
      ensures CompareSeen(a, b) == Equal <==> a == b
    {
      CompareTextFlip(a.1, b.1);
      assert a == (a.0, a.1) && b == (b.0, b.1);
    }
  }

  lemma {:induction false} DedupCongruent<T(!new)>(kept: T, rest: seq<T>, one: (T, T) -> bool, other: (T, T) -> bool)
    requires forall a, b | a in [kept] + rest && b in [kept] + rest :: one(a, b) == other(a, b)
    ensures DedupAfter(kept, rest, one) == DedupAfter(kept, rest, other)
    decreases |rest|
  {
    if rest != [] {
      assert rest[0] in [kept] + rest && kept in [kept] + rest;
      assert forall a | a in [rest[0]] + rest[1..] || a in [kept] + rest[1..] :: a in [kept] + rest;
      DedupCongruent(kept, rest[1..], one, other);
      DedupCongruent(rest[0], rest[1..], one, other);
    }
  }

  ghost predicate SeenBy(c: Candidate, subjects: seq<SolverKey>, x: (nat, string)) {
    exists s, o :: s in subjects && o in ApplicableOccurrences(c, s) && x == (o.rank, o.repository)
  }

  lemma {:induction false} SeenMembers(c: Candidate, subjects: seq<SolverKey>, x: (nat, string))
    ensures x in Seen(c, subjects) <==> SeenBy(c, subjects, x)
  {
    if subjects != [] {
      SeenMembers(c, subjects[1..], x);
      var occurrences := ApplicableOccurrences(c, subjects[0]);
      var first := seq(|occurrences|, i requires 0 <= i < |occurrences| => (occurrences[i].rank,
        occurrences[i].repository));
      assert Seen(c, subjects) == first + Seen(c, subjects[1..]);
      assert forall s :: s in subjects <==> s == subjects[0] || s in subjects[1..];
      if x in first {
        var i :| 0 <= i < |first| && first[i] == x;
        assert occurrences[i] in occurrences;
      }
      if SeenBy(c, subjects, x) {
        var s, o :| s in subjects && o in ApplicableOccurrences(c, s) && x == (o.rank, o.repository);
        if s == subjects[0] {
          var i :| 0 <= i < |occurrences| && occurrences[i] == o;
          assert first[i] == x;
        }
      }
    }
  }

  lemma SeenAt(c: Candidate, subjects: seq<SolverKey>, x: (nat, string)) returns (i: nat)
    requires SeenBy(c, subjects, x)
    ensures i < |c.occurrences| && x == (c.occurrences[i].rank, c.occurrences[i].repository)
  {
    var s, o :| s in subjects && o in ApplicableOccurrences(c, s) && x == (o.rank, o.repository);
    FilterMembers(c.occurrences, (o: Occurrence) => OccurrenceApplies(o, s));
    i :| 0 <= i < |c.occurrences| && c.occurrences[i] == o;
  }

  // In a valid candidate a repository has one rank.
  lemma SeenOnce(c: Candidate, subjects: seq<SolverKey>, x: (nat, string), y: (nat, string))
    requires Valid(c) && SeenBy(c, subjects, x) && SeenBy(c, subjects, y) && x.1 == y.1
    ensures x == y
  {
    var i := SeenAt(c, subjects, x);
    var j := SeenAt(c, subjects, y);
    SameRepositorySameIndex(c.occurrences, i, j);
  }

  // Every repository that some subject sees is listed once.
  lemma RepositoriesFacts(c: Candidate, subjects: seq<SolverKey>, name: string)
    requires Valid(c)
    ensures name in Repositories(c, subjects) <==> SeenAs(c, subjects, name)
    ensures NoRepeats(Repositories(c, subjects))
  {
    var seen := Seen(c, subjects);
    var sorted := SortBy(seen, CompareSeen);
    var byName := (a: (nat, string), b: (nat, string)) => a.1 == b.1;
    var whole := (a: (nat, string), b: (nat, string)) => a == b;
    SeenOrdering();
    SortSorted(seen, CompareSeen);
    SortElements(seen, CompareSeen);
    forall a, b | a in sorted && b in sorted
      ensures byName(a, b) == whole(a, b)
    {
      SeenMembers(c, subjects, a);
      SeenMembers(c, subjects, b);
      if a.1 == b.1 {
        SeenOnce(c, subjects, a, b);
      }
    }
    DedupSame(sorted, byName, whole);
    DedupOfSorted(sorted, CompareSeen, whole);
    ListedRepositories(c, subjects, sorted, DedupBy(sorted, whole), name);
  }

  lemma DedupSame<T(!new)>(s: seq<T>, one: (T, T) -> bool, other: (T, T) -> bool)
    requires forall a, b | a in s && b in s :: one(a, b) == other(a, b)
    ensures DedupBy(s, one) == DedupBy(s, other)
  {
    if s != [] {
      assert s == [s[0]] + s[1..];
      DedupCongruent(s[0], s[1..], one, other);
    }
  }

  ghost predicate SeenAs(c: Candidate, subjects: seq<SolverKey>, name: string) {
    exists s, o :: s in subjects && o in ApplicableOccurrences(c, s) && o.repository == name
  }

  lemma ListedRepositories(c: Candidate, subjects: seq<SolverKey>, sorted: seq<(nat, string)>,
    visible: seq<(nat, string)>, name: string)
    requires Valid(c) && Repositories(c, subjects) == Second(visible)
    requires forall x :: x in sorted <==> x in Seen(c, subjects)
    requires StrictlySorted(visible, CompareSeen) && forall x | x in visible :: x in sorted
    requires forall x | x in sorted :: exists y :: y in visible && CompareSeen(y, x) == Equal
    ensures name in Repositories(c, subjects) <==> SeenAs(c, subjects, name)
    ensures NoRepeats(Repositories(c, subjects))
  {
    SeenOrdering();
    forall x
      ensures x in visible <==> SeenBy(c, subjects, x)
    {
      SeenMembers(c, subjects, x);
    }
    NamesSeen(c, subjects, visible, name);
    SeenNamesDiffer(c, subjects, visible);
  }

  lemma NamesSeen(c: Candidate, subjects: seq<SolverKey>, visible: seq<(nat, string)>, name: string)
    requires forall x :: x in visible <==> SeenBy(c, subjects, x)
    ensures name in Second(visible) <==> SeenAs(c, subjects, name)
  {
    var names := Second(visible);
    if name in names {
      var i :| 0 <= i < |names| && names[i] == name;
      assert visible[i] in visible;
      var s, o :| s in subjects && o in ApplicableOccurrences(c, s) && visible[i] == (o.rank, o.repository);
    }
    if SeenAs(c, subjects, name) {
      var s, o :| s in subjects && o in ApplicableOccurrences(c, s) && o.repository == name;
      var x := (o.rank, o.repository);
      assert SeenBy(c, subjects, x);
      var i :| 0 <= i < |visible| && visible[i] == x;
      assert names[i] == name;
    }
  }

  lemma SeenNamesDiffer(c: Candidate, subjects: seq<SolverKey>, visible: seq<(nat, string)>)
    requires Valid(c) && StrictlySorted(visible, CompareSeen)
    requires forall x :: x in visible <==> SeenBy(c, subjects, x)
    ensures NoRepeats(Second(visible))
  {
    var names := Second(visible);
    forall i, j | 0 <= i < j < |names|
      ensures names[i] != names[j]
    {
      assert visible[i] in visible && visible[j] in visible;
      assert CompareSeen(visible[i], visible[j]) == Less;
      if names[i] == names[j] {
        SeenOnce(c, subjects, visible[i], visible[j]);
        SeenOrdering();
      }
    }
  }

  // ------------------------------------------------------------------ projection

  ghost predicate OfName(choice: Choice, name: string, s: SolverKey) {
    s in choice && choice[s].release.identity.name == name
  }

  // What one resolved package says about the choice.
  ghost predicate PackageOf(p: Problem, choice: Choice, r: ResolvedPackage) {
    && !r.release.IsRBase()
    && OfName(choice, r.Name(), r.subject)
    && (forall s | OfName(choice, r.Name(), s) ::
      CompareSubjects(p, r.subject, s) != Greater && SameRelease(r.release, choice[s].release))
    && EdgesOf(p, choice, r)
    && NoRepeats(r.repositories)
    && (forall repository :: repository in r.repositories <==> SeenIn(choice, r.Name(), repository))
  }

  // Suggestions are promoted when some subject of the name wants them.
  ghost predicate EdgesOf(p: Problem, choice: Choice, r: ResolvedPackage) {
    r.edges == Edges(r.release.dependencies, if AnyWants(p, choice, r.Name()) then DirectSuggests else HardOnly)
  }

  ghost predicate AnyWants(p: Problem, choice: Choice, name: string) {
    exists s :: OfName(choice, name, s) && Wanted(p, s) == DirectSuggests
  }

  ghost predicate SeenIn(choice: Choice, name: string, repository: string) {
    exists s, o :: OfName(choice, name, s) && o in ApplicableOccurrences(choice[s], s) && o.repository == repository
  }

  // One release up to version spelling.
  predicate SameRelease(a: Release, b: Release) {
    && SameIdentity(a.identity, b.identity)
    && a.version.Same(b.version)
    && a.metadata == b.metadata
    && a.publication == b.publication
    && CanonDependencies(a.dependencies) == CanonDependencies(b.dependencies)
    && a.distributions == b.distributions
  }

  // The resolution lists every chosen name that R does not supply, once, by name.
  ghost predicate Reports(p: Problem, choice: Choice, resolved: seq<ResolvedPackage>) {
    && StrictlySorted(resolved, CompareNames)
    && (forall r | r in resolved :: PackageOf(p, choice, r))
    && (forall s | s in choice && !choice[s].release.IsRBase() :: Lists(resolved, choice[s].release.identity.name))
  }

  ghost predicate Lists(resolved: seq<ResolvedPackage>, name: string) {
    exists r :: r in resolved && r.Name() == name
  }

  function CompareNames(a: ResolvedPackage, b: ResolvedPackage): Order {
    CompareText(a.Name(), b.Name())
  }

  lemma ApplicableSameFacts(c: Candidate, d: Candidate, s: SolverKey)
    requires SameFacts(c, d)
    ensures ApplicableOccurrences(c, s) == ApplicableOccurrences(d, s)
  {
    assert CanonProvenance(c.release.identity.provenance) == CanonProvenance(d.release.identity.provenance);
  }

  // An entry whose subjects are all the subjects of its name.
  ghost predicate Complete(p: Problem, choice: Choice, name: string, e: Entry) {
    && Valid(e.candidate) && !e.candidate.release.IsRBase() && e.candidate.release.identity.name == name
    && e.subject in e.subjects
    && (forall s :: s in e.subjects <==> OfName(choice, name, s))
    && (forall s | OfName(choice, name, s) ::
      SameFacts(e.candidate, choice[s]) && CompareSubjects(p, e.subject, s) != Greater)
  }

  lemma CompleteEntry(p: Problem, choice: Choice, done: set<SolverKey>, name: string, e: Entry)
    requires choice.Keys <= done && Describes(p, choice, done, name, e)
    ensures Complete(p, choice, name, e)
  {
    forall s
      ensures s in e.subjects <==> OfName(choice, name, s)
    {
      assert Chosen(choice, done, name, s) <==> OfName(choice, name, s);
    }
  }

  // A complete entry projects to a package of the choice.
  lemma ProjectedFacts(p: Problem, choice: Choice, name: string, e: Entry, r: Result<ResolvedPackage, Failure>)
    requires Complete(p, choice, name, e) && r == Projected(p, e)
    requires forall s | s in choice :: ExpansionFor(p.request, p.request.roots, s).Ok?
    ensures r.Ok? && r.value.Name() == name && PackageOf(p, choice, r.value)
  {
    ProjectedEdges(p, choice, name, e, r);
    forall repository
      ensures repository in Repositories(e.candidate, e.subjects) <==> SeenIn(choice, name, repository)
    {
      RepositoriesFacts(e.candidate, e.subjects, repository);
      SeenOfEntry(choice, name, e, repository);
    }
    RepositoriesFacts(e.candidate, e.subjects, "");
    forall s | OfName(choice, name, s)
      ensures SameRelease(e.candidate.release, choice[s].release)
    {
      assert SameFacts(e.candidate, choice[s]);
    }
  }

  lemma ProjectedEdges(p: Problem, choice: Choice, name: string, e: Entry, r: Result<ResolvedPackage, Failure>)
    requires Complete(p, choice, name, e) && r == Projected(p, e)
    requires forall s | s in choice :: ExpansionFor(p.request, p.request.roots, s).Ok?
    ensures r.Ok? && EdgesOf(p, choice, r.value) && r.value.release == e.candidate.release &&
      r.value.subject == e.subject
    ensures r.value.repositories == Repositories(e.candidate, e.subjects)
  {
    ExpansionOfSubjects(p, e.subjects);
    assert AnyWants(p, choice, name) <==> exists s :: s in e.subjects && Wanted(p, s) == DirectSuggests;
  }

  lemma SeenOfEntry(choice: Choice, name: string, e: Entry, repository: string)
    requires forall s :: s in e.subjects <==> OfName(choice, name, s)
    requires forall s | OfName(choice, name, s) :: SameFacts(e.candidate, choice[s])
    ensures SeenIn(choice, name, repository) <==> SeenAs(e.candidate, e.subjects, repository)
  {
    forall s | s in e.subjects
      ensures ApplicableOccurrences(e.candidate, s) == ApplicableOccurrences(choice[s], s)
    {
      ApplicableSameFacts(e.candidate, choice[s], s);
    }
  }

  // One entry of the selection.
  function CollectedEntry(p: Problem, t: Tables, entries: Entries, package: PackageId,
    version: SolverVersion): Result<Entries, Failure> {
    if package.Subject? && package.key != RKey && version.CandidateVersion? then
      match CandidateFor(t, package.key, version.id)
      case Err(error) => Err(LoadFailure(error))
      case Ok(c) => Collected(p, entries, package.key, c)
    else Ok(entries)
  }

  function CollectAll(p: Problem, t: Tables, entries: Entries, selection: Selection,
    order: seq<PackageId>): Result<Entries, Failure>
    requires forall package | package in order :: package in selection
    decreases |order|
  {
    if order == [] then Ok(entries)
    else
      var next :- CollectedEntry(p, t, entries, order[0], selection[order[0]]);
      CollectAll(p, t, next, selection, order[1..])
  }

  // Gathers the selected candidates by installed name, in the order of the selection.
  method Collect(provider: Provider, selection: Selection, order: seq<PackageId>) returns (r: Result<Entries, Failure>)
    requires provider.Valid() && forall package | package in order :: package in selection
    requires forall s | Subject(s) in selection && s != RKey :: s in provider.cache
    modifies provider
    ensures provider.Valid() && provider.State() == old(provider.State())
    ensures r == CollectAll(provider.problem, provider.State(), map[], selection, order)
  {
    ghost var p, t := provider.problem, provider.State();
    var entries: Entries := map[];
    assert order[0..] == order;
    for i := 0 to |order|
      invariant provider.Valid() && provider.State() == t
      invariant forall package | package in order[i..] :: package in selection
      invariant CollectAll(p, t, map[], selection, order) == CollectAll(p, t, entries, selection, order[i..])
    {
      assert order[i..][1..] == order[i + 1..] && order[i] in order[i..];
      var next := CollectEntry(provider, entries, order[i], selection[order[i]]);
      if next.Err? {
        return Err(next.error);
      }
      entries := next.value;
    }
    return Ok(entries);
  }

  method CollectEntry(provider: Provider, entries: Entries, package: PackageId, version: SolverVersion)
    returns (r: Result<Entries, Failure>)
    requires provider.Valid() && (package.Subject? && package.key != RKey ==> package.key in provider.cache)
    modifies provider
    ensures provider.Valid() && provider.State() == old(provider.State())
    ensures r == CollectedEntry(provider.problem, provider.State(), entries, package, version)
  {
    if !package.Subject? || package.key == RKey || !version.CandidateVersion? {
      return Ok(entries);
    }
    var c := provider.CandidateForId(package.key, version.id);
    if c.Err? {
      return Err(LoadFailure(c.error));
    }
    return Collected(provider.problem, entries, package.key, c.value);
  }

  function ProjectAll(p: Problem, entries: Entries, names: seq<string>): Result<seq<ResolvedPackage>, Failure>
    requires forall name | name in names :: name in entries
  {
    if names == [] then Ok([])
    else
      var first :- Projected(p, entries[names[0]]);
      var rest :- ProjectAll(p, entries, names[1..]);
      Ok([first] + rest)
  }

  // The names of a map in their own order.
  ghost predicate Enumerates(names: seq<string>, entries: Entries) {
    && (forall name :: name in names <==> name in entries)
    && StrictlySorted(names, CompareText)
  }

  method ListNames(entries: Entries) returns (names: seq<string>)
    ensures Enumerates(names, entries)
  {
    var rest := entries.Keys;
    var found: seq<string> := [];
    while rest != {}
      invariant rest <= entries.Keys
      invariant forall name :: name in found <==> name in entries && name !in rest
      invariant DistinctBy(found, (name: string) => name)
      decreases |rest|
    {
      var name :| name in rest;
      found := found + [name];
      rest := rest - {name};
    }
    names := SortBy(found, CompareText);
    OrderingByText((name: string) => name, CompareText);
    SortElements(found, CompareText);
    SortSorted(found, CompareText);
    SortDistinct(found, (name: string) => name, CompareText);
    StrictText(names);
  }

  lemma StrictText(names: seq<string>)
    requires Sorted(names, CompareText) && DistinctBy(names, (name: string) => name)
    ensures StrictlySorted(names, CompareText)
  {
    var same := (name: string) => name;
    forall i, j | 0 <= i < j < |names|
      ensures CompareText(names[i], names[j]) == Less
    {
      assert same(names[i]) != same(names[j]);
      CompareTextFlip(names[i], names[j]);
    }
  }

  method ProjectEntries(p: Problem, entries: Entries, names: seq<string>)
    returns (r: Result<seq<ResolvedPackage>, Failure>)
    requires forall name | name in names :: name in entries
    ensures r == ProjectAll(p, entries, names)
  {
    var found: seq<ResolvedPackage> := [];
    assert names[0..] == names;
    assert ProjectAll(p, entries, names) == Behind(found, ProjectAll(p, entries, names));
    for i := 0 to |names|
      invariant forall name | name in names[i..] :: name in entries
      invariant ProjectAll(p, entries, names) == Behind(found, ProjectAll(p, entries, names[i..]))
    {
      assert names[i..][1..] == names[i + 1..] && names[i] in names[i..];
      var package := Projected(p, entries[names[i]]);
      if package.Err? {
        return Err(package.error);
      }
      RestAppended(p, entries, names[i..], found, package.value);
      found := found + [package.value];
    }
    assert found + [] == found;
    return Ok(found);
  }

  function Behind(found: seq<ResolvedPackage>,
    r: Result<seq<ResolvedPackage>, Failure>): (all: Result<seq<ResolvedPackage>, Failure>)
    ensures found == [] ==> all == r
  {
    match r
    case Ok(rest) => assert [] + rest == rest; Ok(found + rest)
    case Err(_) => r
  }

  lemma RestAppended(p: Problem, entries: Entries, names: seq<string>, found: seq<ResolvedPackage>,
    first: ResolvedPackage)
    requires names != [] && (forall name | name in names :: name in entries) &&
      Projected(p, entries[names[0]]) == Ok(first)
    ensures Behind(found, ProjectAll(p, entries, names)) == Behind(found + [first], ProjectAll(p, entries, names[1..]))
  {
    var rest := ProjectAll(p, entries, names[1..]);
    if rest.Ok? {
      assert found + ([first] + rest.value) == (found + [first]) + rest.value;
    }
  }

  // What `solve` returns for a selection listed in some order.
  ghost predicate Outcome(p: Problem, t: Tables, selection: Selection, order: seq<PackageId>,
    r: Result<seq<ResolvedPackage>, Failure>)
    requires forall package | package in order :: package in selection
  {
    match CollectAll(p, t, map[], selection, order)
    case Err(error) => r == Err(error)
    case Ok(entries) => exists names :: Enumerates(names, entries) && OutcomeOf(p, entries, names, r)
  }

  ghost predicate OutcomeOf(p: Problem, entries: Entries, names: seq<string>, r: Result<seq<ResolvedPackage>, Failure>)
    requires forall name | name in names :: name in entries
  {
    match ProjectAll(p, entries, names)
    case Err(error) => r == Err(error)
    case Ok(found) => r == Ok(SortBy(found, CompareNames))
  }

  // `solve`, once the solver has answered.
  method Solve(provider: Provider, selection: Selection, order: seq<PackageId>)
    returns (r: Result<seq<ResolvedPackage>, Failure>)
    requires provider.Valid() && forall package | package in order :: package in selection
    requires forall s | Subject(s) in selection && s != RKey :: s in provider.cache
    modifies provider
    ensures provider.Valid() && provider.State() == old(provider.State())
    ensures Outcome(provider.problem, provider.State(), selection, order, r)
  {
    var entries := Collect(provider, selection, order);
    if entries.Err? {
      return Err(entries.error);
    }
    var names := ListNames(entries.value);
    var found := ProjectEntries(provider.problem, entries.value, names);
    if found.Err? {
      r := Err(found.error);
    } else {
      r := Ok(SortBy(found.value, CompareNames));
    }
    assert OutcomeOf(provider.problem, entries.value, names, r);
  }

  // ----------------------------------------------------------- on solutions

  // The subjects among the first entries of the selection.
  function Passed(order: seq<PackageId>): set<SolverKey> {
    set package | package in order && package.Subject? && package.key != RKey :: package.key
  }

  // Selected subjects find their candidates in the tables.
  ghost predicate Finds(t: Tables, selection: Selection, choice: Choice) {
    forall s | Subject(s) in selection && s != RKey ::
      && s in choice && selection[Subject(s)].CandidateVersion?
      && CandidateFor(t, s, selection[Subject(s)].id) == Ok(choice[s])
  }

  lemma SolutionFinds(p: Problem, t: Tables, selection: Selection)
    requires ValidTables(p, t) && Solution(p, t, selection)
    ensures Finds(t, selection, ChoiceOf(t, selection))
  {
    forall s | Subject(s) in selection && s != RKey
      ensures VisibleIn(t, selection, s) && s in ChoiceOf(t, selection)
    {
      assert s in Subjects(selection);
      SubjectChooses(p, t, selection, s);
    }
  }

  lemma EntryKeeps(p: Problem, t: Tables, selection: Selection, choice: Choice, done: set<SolverKey>, entries: Entries,
      package: PackageId, r: Result<Entries, Failure>)
    requires Finds(t, selection, choice) && Uniform(choice) && package in selection
    requires Collection(p, choice, done, entries)
    requires package.Subject? ==> package.key !in done
    requires r == CollectedEntry(p, t, entries, package, selection[package])
    ensures r.Ok? && Collection(p, choice, done + Passed([package]), r.value)
  {
    hide Uniform, Collection;
    if package.Subject? && package.key != RKey {
      var s := package.key;
      CollectedKeeps(p, choice, done, entries, s, r);
      assert package in [package] && Passed([package]) == {s};
    } else {
      assert Passed([package]) == {};
      assert done + {} == done;
    }
  }

  lemma {:induction false} CollectAllKeeps(p: Problem, t: Tables, selection: Selection, choice: Choice,
    done: set<SolverKey>, entries: Entries, order: seq<PackageId>)
    requires Finds(t, selection, choice) && Uniform(choice) && Collection(p, choice, done, entries)
    requires forall package | package in order :: package in selection && (package.Subject? ==> package.key !in done)
    requires forall i, j | 0 <= i < j < |order| :: order[i] != order[j]
    ensures CollectAll(p, t, entries, selection, order).Ok?
    ensures Collection(p, choice, done + Passed(order), CollectAll(p, t, entries, selection, order).value)
    decreases |order|
  {
    hide CollectedEntry, Collection, Finds, Uniform;
    if order == [] {
      assert done + Passed(order) == done;
    } else {
      assert order[0] in order;
      var next := CollectedEntry(p, t, entries, order[0], selection[order[0]]);
      EntryKeeps(p, t, selection, choice, done, entries, order[0], next);
      PassedFirst(order);
      CollectAllKeeps(p, t, selection, choice, done + Passed([order[0]]), next.value, order[1..]);
      assert done + Passed([order[0]]) + Passed(order[1..]) == done + Passed(order);
    }
  }

  lemma PassedFirst(order: seq<PackageId>)
    requires order != [] && forall i, j | 0 <= i < j < |order| :: order[i] != order[j]
    ensures Passed(order) == Passed([order[0]]) + Passed(order[1..])
    ensures forall package | package in order[1..] && package.Subject? :: package.key !in Passed([order[0]])
  {
    assert order == [order[0]] + order[1..];
    forall package | package in order[1..]
      ensures package != order[0]
    {
      var j :| 0 <= j < |order[1..]| && order[1..][j] == package;
      assert order[j + 1] == package;
    }
  }

  lemma {:induction false} ProjectAllAt(p: Problem, entries: Entries, names: seq<string>)
    requires forall name | name in names :: name in entries && Projected(p, entries[name]).Ok?
    ensures ProjectAll(p, entries, names).Ok? && |ProjectAll(p, entries, names).value| == |names|
    ensures forall i | 0 <= i < |names| :: Projected(p, entries[names[i]]) == Ok(ProjectAll(p, entries, names).value[i])
  {
    if names != [] {
      assert names[0] in names;
      ProjectAllAt(p, entries, names[1..]);
    }
  }

  // Every entry of a collection projects to a package of the choice.
  lemma EntryProjects(p: Problem, choice: Choice, done: set<SolverKey>, entries: Entries, name: string)
    requires Collection(p, choice, done, entries) && choice.Keys <= done && name in entries
    requires forall s | s in choice :: ExpansionFor(p.request, p.request.roots, s).Ok?
    ensures Projected(p, entries[name]).Ok? && Projected(p, entries[name]).value.Name() == name
    ensures PackageOf(p, choice, Projected(p, entries[name]).value)
  {
    CompleteEntry(p, choice, done, name, entries[name]);
    ProjectedFacts(p, choice, name, entries[name], Projected(p, entries[name]));
  }

  lemma AllProject(p: Problem, choice: Choice, done: set<SolverKey>, entries: Entries, names: seq<string>)
    requires Collection(p, choice, done, entries) && choice.Keys <= done
    requires forall s | s in choice :: ExpansionFor(p.request, p.request.roots, s).Ok?
    requires forall name | name in names :: name in entries
    ensures ProjectAll(p, entries, names).Ok? && |ProjectAll(p, entries, names).value| == |names|
    ensures forall i | 0 <= i < |names| :: Projected(p, entries[names[i]]) == Ok(ProjectAll(p, entries, names).value[i])
  {
    forall name | name in names
      ensures Projected(p, entries[name]).Ok?
    {
      EntryProjects(p, choice, done, entries, name);
    }
    ProjectAllAt(p, entries, names);
  }

  ghost predicate NamedAs(found: seq<ResolvedPackage>, names: seq<string>) {
    |found| == |names| && forall i | 0 <= i < |names| :: found[i].Name() == names[i]
  }

  ghost predicate AllOf(p: Problem, choice: Choice, found: seq<ResolvedPackage>) {
    forall r | r in found :: PackageOf(p, choice, r)
  }

  lemma NamesProjected(p: Problem, choice: Choice, done: set<SolverKey>, entries: Entries, names: seq<string>,
    found: seq<ResolvedPackage>)
    requires Collection(p, choice, done, entries) && choice.Keys <= done && |found| == |names|
    requires forall s | s in choice :: ExpansionFor(p.request, p.request.roots, s).Ok?
    requires forall i | 0 <= i < |names| :: names[i] in entries && Projected(p, entries[names[i]]) == Ok(found[i])
    ensures NamedAs(found, names)
  {
    forall i | 0 <= i < |names|
      ensures found[i].Name() == names[i]
    {
      EntryProjects(p, choice, done, entries, names[i]);
    }
  }

  lemma PackagesProjected(p: Problem, choice: Choice, done: set<SolverKey>, entries: Entries, names: seq<string>,
    found: seq<ResolvedPackage>)
    requires Collection(p, choice, done, entries) && choice.Keys <= done && |found| == |names|
    requires forall s | s in choice :: ExpansionFor(p.request, p.request.roots, s).Ok?
    requires forall i | 0 <= i < |names| :: names[i] in entries && Projected(p, entries[names[i]]) == Ok(found[i])
    ensures AllOf(p, choice, found)
  {
    forall r | r in found
      ensures PackageOf(p, choice, r)
    {
      var i :| 0 <= i < |found| && found[i] == r;
      EntryProjects(p, choice, done, entries, names[i]);
    }
  }

  lemma StrictlyNamed(names: seq<string>, found: seq<ResolvedPackage>)
    requires StrictlySorted(names, CompareText) && NamedAs(found, names)
    ensures StrictlySorted(found, CompareNames) && SortBy(found, CompareNames) == found
    ensures forall name | name in names :: Lists(found, name)
  {
    SortOfSorted(found, CompareNames);
    forall name | name in names
      ensures Lists(found, name)
    {
      var i :| 0 <= i < |names| && names[i] == name;
      assert found[i] in found && found[i].Name() == name;
    }
  }

  lemma ClosedExpansions(p: Problem, choice: Choice)
    requires Closed(p, choice)
    ensures forall s | s in choice :: ExpansionFor(p.request, p.request.roots, s).Ok?
  {
    RootsKnown(p, choice);
    forall s | s in choice
      ensures ExpansionFor(p.request, p.request.roots, s).Ok?
    {
      ExpansionKnown(p.request, p.request.roots, s);
    }
  }

  lemma SubjectsPassed(selection: Selection, order: seq<PackageId>)
    requires forall package :: package in order <==> package in selection
    ensures Passed(order) == Subjects(selection)
  {
  }

  // On a solution, in whatever order it is listed, every error branch is unreachable:
  // no name conflict, no failed merge, no lost candidate. The resolution reports the
  // closed choice that the solution stands for.
  lemma SolutionIsReported(p: Problem, t: Tables, selection: Selection, order: seq<PackageId>,
    r: Result<seq<ResolvedPackage>, Failure>)
    requires p.Sound() && ValidTables(p, t) && Solution(p, t, selection)
    requires (forall package :: package in order <==> package in selection) && forall i, j | 0 <= i < j < |order| ::
      order[i] != order[j]
    requires Outcome(p, t, selection, order, r)
    ensures r.Ok? && Closed(p, ChoiceOf(t, selection)) && Reports(p, ChoiceOf(t, selection), r.value)
  {
    var choice := ChoiceOf(t, selection);
    SolutionIsClosed(p, t, selection);
    SolutionIsUniform(p, t, selection);
    SolutionFinds(p, t, selection);
    CollectAllKeeps(p, t, selection, choice, {}, map[], order);
    SubjectsPassed(selection, order);
    ClosedExpansions(p, choice);
    CollectionIsReported(p, choice, {} + Passed(order), CollectAll(p, t, map[], selection, order).value, r);
  }

  lemma CollectionIsReported(p: Problem, choice: Choice, done: set<SolverKey>, entries: Entries,
    r: Result<seq<ResolvedPackage>, Failure>)
    requires Collection(p, choice, done, entries) && choice.Keys <= done
    requires forall s | s in choice :: ExpansionFor(p.request, p.request.roots, s).Ok?
    requires exists names :: Enumerates(names, entries) && OutcomeOf(p, entries, names, r)
    ensures r.Ok? && Reports(p, choice, r.value)
  {
    var names :| Enumerates(names, entries) && OutcomeOf(p, entries, names, r);
    AllProject(p, choice, done, entries, names);
    NamedIsReported(p, choice, done, entries, names, ProjectAll(p, entries, names).value);
  }

  // Every chosen name that R does not supply is among the names.
  ghost predicate NamesAll(choice: Choice, names: seq<string>) {
    forall s | s in choice && !choice[s].release.IsRBase() :: choice[s].release.identity.name in names
  }

  lemma NamesCollected(p: Problem, choice: Choice, done: set<SolverKey>, entries: Entries, names: seq<string>)
    requires Collection(p, choice, done, entries) && choice.Keys <= done && Enumerates(names, entries)
    ensures NamesAll(choice, names)
  {
    forall s | s in choice && !choice[s].release.IsRBase()
      ensures choice[s].release.identity.name in names
    {
      assert s in done;
    }
  }

  lemma NamedReports(p: Problem, choice: Choice, names: seq<string>, found: seq<ResolvedPackage>)
    requires StrictlySorted(names, CompareText) && NamedAs(found, names)
    requires AllOf(p, choice, found) && NamesAll(choice, names)
    ensures Reports(p, choice, SortBy(found, CompareNames))
  {
    StrictlyNamed(names, found);
    forall s | s in choice && !choice[s].release.IsRBase()
      ensures Lists(found, choice[s].release.identity.name)
    {
      assert choice[s].release.identity.name in names;
    }
  }

  lemma NamedIsReported(p: Problem, choice: Choice, done: set<SolverKey>, entries: Entries, names: seq<string>,
    found: seq<ResolvedPackage>)
    requires Collection(p, choice, done, entries) && choice.Keys <= done && Enumerates(names, entries) &&
      |found| == |names|
    requires forall s | s in choice :: ExpansionFor(p.request, p.request.roots, s).Ok?
    requires forall i | 0 <= i < |names| :: Projected(p, entries[names[i]]) == Ok(found[i])
    ensures Reports(p, choice, SortBy(found, CompareNames))
  {
    hide Collection, PackageOf, Projected, Reports;
    NamesProjected(p, choice, done, entries, names, found);
    PackagesProjected(p, choice, done, entries, names, found);
    NamesCollected(p, choice, done, entries, names);
    NamedReports(p, choice, names, found);
  }
}
