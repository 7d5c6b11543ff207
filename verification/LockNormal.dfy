/**
 `Lockfile::new` accepts exactly the acceptable locks and returns a normal form that
 does not depend on how packages and edges were listed.
 */
module LockNormal {
  import opened Prelude
  import opened Text
  import opened Versions
  import opened Domain
  import opened Requests
  import opened Locks

  // ------------------------------------------------------------------ orderings

  function FirstText(p: Provenance): string {
    match p
    case RBasePackage(_) => ""
    case RegistryRelease(namespace, _) => namespace
    case GitCommit(repository, _, _) => repository
    case BioconductorRelease(namespace, _, _) => namespace
    case ImmutableSource(scheme, _) => scheme
  }

  function SecondText(p: Provenance): string {
    match p
    case GitCommit(_, commit, _) => commit
    case BioconductorRelease(_, release, _) => release
    case ImmutableSource(_, digest) => digest
    case _ => ""
  }

  function LastKey(p: Provenance): seq<nat> {
    match p
    case RBasePackage(v) => v.Key()
    case RegistryRelease(_, v) => v.Key()
    case GitCommit(_, _, None) => []
    case GitCommit(_, _, Some(subdirectory)) => [1] + Codes(subdirectory)
    case BioconductorRelease(_, _, v) => v.Key()
    case ImmutableSource(_, _) => []
  }

  function ChainIdentity(a: ReleaseIdentity, b: ReleaseIdentity): Order {
    CompareText(a.name, b.name)
      .Then(CompareNats([ProvenanceRank(a.provenance)], [ProvenanceRank(b.provenance)]))
      .Then(CompareText(FirstText(a.provenance), FirstText(b.provenance)))
      .Then(CompareText(SecondText(a.provenance), SecondText(b.provenance)))
      .Then(CompareNats(LastKey(a.provenance), LastKey(b.provenance)))
  }

  lemma OptionalChain(a: Option<string>, b: Option<string>)
    ensures CompareOptional(a, b) ==
      CompareNats(if a.None? then [] else [1] + Codes(a.value), if b.None? then [] else [1] + Codes(b.value))
  {
    if a.Some? && b.Some? {
      assert ([1] + Codes(a.value))[1..] == Codes(a.value) && ([1] + Codes(b.value))[1..] == Codes(b.value);
    }
  }

  // Comparing identities compares five keys in turn.
  lemma IdentityChain(a: ReleaseIdentity, b: ReleaseIdentity)
    ensures CompareIdentity(a, b) == ChainIdentity(a, b)
  {
    var p, q := a.provenance, b.provenance;
    CompareTextFlip("", "");
    CompareSingletons(ProvenanceRank(p), ProvenanceRank(q));
    if p.GitCommit? && q.GitCommit? {
      OptionalChain(p.subdirectory, q.subdirectory);
    }
  }

  lemma IdentityOrdering()
    ensures Ordering(CompareIdentity)
    ensures forall a, b :: CompareIdentity(a, b) == Equal <==> SameIdentity(a, b)
  {
    var names := (a: ReleaseIdentity, b: ReleaseIdentity) => CompareText(a.name, b.name);
    var ranks := (a: ReleaseIdentity, b: ReleaseIdentity) => CompareNats([ProvenanceRank(a.provenance)],
      [ProvenanceRank(b.provenance)]);
    var firsts := (a: ReleaseIdentity, b: ReleaseIdentity) => CompareText(FirstText(a.provenance),
      FirstText(b.provenance));
    var seconds := (a: ReleaseIdentity, b: ReleaseIdentity) => CompareText(SecondText(a.provenance),
      SecondText(b.provenance));
    var lasts := (a: ReleaseIdentity, b: ReleaseIdentity) => CompareNats(LastKey(a.provenance), LastKey(b.provenance));
    OrderingByText((a: ReleaseIdentity) => a.name, names);
    OrderingByNats((a: ReleaseIdentity) => [ProvenanceRank(a.provenance)], ranks);
    OrderingByText((a: ReleaseIdentity) => FirstText(a.provenance), firsts);
    OrderingByText((a: ReleaseIdentity) => SecondText(a.provenance), seconds);
    OrderingByNats((a: ReleaseIdentity) => LastKey(a.provenance), lasts);
    var two := (a: ReleaseIdentity, b: ReleaseIdentity) => names(a, b).Then(ranks(a, b));
    var three := (a: ReleaseIdentity, b: ReleaseIdentity) => two(a, b).Then(firsts(a, b));
    var four := (a: ReleaseIdentity, b: ReleaseIdentity) => three(a, b).Then(seconds(a, b));
    OrderingThen(names, ranks, two);
    OrderingThen(two, firsts, three);
    OrderingThen(three, seconds, four);
    forall a, b
      ensures CompareIdentity(a, b) == four(a, b).Then(lasts(a, b))
      ensures CompareIdentity(a, b) == Equal <==> SameIdentity(a, b)
    {
      IdentityChain(a, b);
      IdentityTies(a, b);
    }
    OrderingThen(four, lasts, CompareIdentity);
  }

  lemma IdentityTies(a: ReleaseIdentity, b: ReleaseIdentity)
    ensures ChainIdentity(a, b) == Equal <==> SameIdentity(a, b)
  {
    var p, q := a.provenance, b.provenance;
    CompareTextFlip(a.name, b.name);
    CompareTextFlip(FirstText(p), FirstText(q));
    CompareTextFlip(SecondText(p), SecondText(q));
    CompareNatsFlip(LastKey(p), LastKey(q));
    CompareNatsFlip([ProvenanceRank(p)], [ProvenanceRank(q)]);
    assert [ProvenanceRank(p)] == [ProvenanceRank(q)] ==> [ProvenanceRank(p)][0] == [ProvenanceRank(q)][0];
    if ProvenanceRank(p) == ProvenanceRank(q) {
      KeysDecide(p, q);
    }
  }

  lemma KeysDecide(p: Provenance, q: Provenance)
    requires ProvenanceRank(p) == ProvenanceRank(q)
    ensures FirstText(p) == FirstText(q) && SecondText(p) == SecondText(q) && LastKey(p) == LastKey(q) <==>
      CanonProvenance(p) == CanonProvenance(q)
  {
    if p.GitCommit? && p.subdirectory.Some? && q.subdirectory.Some? {
      CodesInjective(p.subdirectory.value, q.subdirectory.value);
      assert ([1] + Codes(p.subdirectory.value))[1..] == Codes(p.subdirectory.value);
      assert ([1] + Codes(q.subdirectory.value))[1..] == Codes(q.subdirectory.value);
    } else if p.RBasePackage? {
      SameKeys(p.rVersion, q.rVersion);
    } else if p.RegistryRelease? || p.BioconductorRelease? {
      SameKeys(p.version, q.version);
    }
  }

  lemma SameKeys(v: RPackageVersion, w: RPackageVersion)
    ensures v.Key() == w.Key() <==> Canon(v) == Canon(w)
  {
    CanonIsSame(v, w);
    SameIsKeyEquality(v, w);
  }

  lemma PackageOrdering()
    ensures Ordering(ComparePackages)
    ensures forall a, b :: ComparePackages(a, b) == Equal <==> SameIdentity(a.identity, b.identity)
  {
    IdentityOrdering();
    forall a, b
      ensures ComparePackages(a, b) == ComparePackages(b, a).Flip()
    {
      assert CompareIdentity(a.identity, b.identity) == CompareIdentity(b.identity, a.identity).Flip();
    }
    forall a, b, c | ComparePackages(a, b) != Greater && ComparePackages(b, c) != Greater
      ensures ComparePackages(a, c) != Greater
    {
      assert CompareIdentity(a.identity, b.identity) != Greater && CompareIdentity(b.identity, c.identity) != Greater;
    }
  }

  // Ordering cannot see version spelling.
  lemma CanonCompares(a: LockedPackage, b: LockedPackage)
    ensures ComparePackages(CanonPackage(a), CanonPackage(b)) == ComparePackages(a, b)
  {
    var p, q := a.identity.provenance, b.identity.provenance;
    IdentityChain(a.identity, b.identity);
    IdentityChain(CanonIdentity(a.identity), CanonIdentity(b.identity));
    CanonKeepsKeys(p);
    CanonKeepsKeys(q);
  }

  lemma CanonKeepsKeys(p: Provenance)
    ensures ProvenanceRank(CanonProvenance(p)) == ProvenanceRank(p)
    ensures FirstText(CanonProvenance(p)) == FirstText(p) && SecondText(CanonProvenance(p)) == SecondText(p)
    ensures LastKey(CanonProvenance(p)) == LastKey(p)
  {
    match p
    case RBasePackage(v) => CanonIsSame(v, v);
    case RegistryRelease(_, v) => CanonIsSame(v, v);
    case BioconductorRelease(_, _, v) => CanonIsSame(v, v);
    case _ =>
  }

  // ------------------------------------------------------------- edges, clauses

  lemma EdgeOrdering()
    ensures Ordering(CompareEdges)
    ensures forall a, b :: CompareEdges(a, b) == Equal <==> a == b
  {
    var names := (a: LockedEdge, b: LockedEdge) => CompareText(a.package, b.package);
    var kinds := (a: LockedEdge, b: LockedEdge) => CompareNats([KindRank(a.kind)], [KindRank(b.kind)]);
    OrderingByText((a: LockedEdge) => a.package, names);
    OrderingByNats((a: LockedEdge) => [KindRank(a.kind)], kinds);
    OrderingThen(names, kinds, CompareEdges);
    forall a: LockedEdge, b: LockedEdge
      ensures CompareEdges(a, b) == Equal <==> a == b
    {
      CompareTextFlip(a.package, b.package);
    }
  }

  // Canonical edges are the edges once each, in order.
  lemma CanonicalEdgesFacts(edges: seq<LockedEdge>)
    ensures StrictlySorted(CanonicalEdges(edges), CompareEdges)
    ensures forall e :: e in CanonicalEdges(edges) <==> e in edges
  {
    var sorted := SortBy(edges, CompareEdges);
    EdgeOrdering();
    SortElements(edges, CompareEdges);
    SortSorted(edges, CompareEdges);
    DedupOfSorted(sorted, CompareEdges, (a: LockedEdge, b: LockedEdge) => a == b);
  }

  lemma CanonicalEdgesDecide(a: seq<LockedEdge>, b: seq<LockedEdge>)
    ensures CanonicalEdges(a) == CanonicalEdges(b) <==> forall e :: e in a <==> e in b
  {
    CanonicalEdgesFacts(a);
    CanonicalEdgesFacts(b);
    EdgeOrdering();
    if forall e :: e in a <==> e in b {
      StrictlySortedUnique(CanonicalEdges(a), CanonicalEdges(b), CompareEdges);
    }
  }

  lemma TidyTwice(p: LockedPackage)
    ensures Tidy(Tidy(p)) == Tidy(p) && CheckPackage(Tidy(p)) == CheckPackage(p)
  {
    CanonicalEdgesFacts(p.dependencies);
    CanonicalEdgesDecide(CanonicalEdges(p.dependencies), p.dependencies);
  }

  lemma RelationOrdering()
    ensures Ordering(CompareRelations) && Ordering(CompareClauses)
    ensures forall a, b :: CompareRelations(a, b) == Equal <==> a.op == b.op && a.version.Same(b.version)
  {
    var ranks := (a: VersionClause, b: VersionClause) => CompareNats([RelationRank(a.op)], [RelationRank(b.op)]);
    var versions := (a: VersionClause, b: VersionClause) => a.version.Compare(b.version);
    var texts := (a: VersionClause, b: VersionClause) => CompareText(a.version.raw, b.version.raw);
    OrderingByNats((a: VersionClause) => [RelationRank(a.op)], ranks);
    OrderingByNats((a: VersionClause) => a.version.Key(), versions);
    OrderingByText((a: VersionClause) => a.version.raw, texts);
    OrderingThen(ranks, versions, CompareRelations);
    OrderingThen(CompareRelations, texts, CompareClauses);
  }

  lemma SortedByRelation(clauses: seq<VersionClause>)
    ensures Sorted(SortBy(clauses, CompareClauses), CompareRelations)
  {
    RelationOrdering();
    SortSorted(clauses, CompareClauses);
    var sorted := SortBy(clauses, CompareClauses);
    forall i, j | 0 <= i < j < |sorted|
      ensures CompareRelations(sorted[i], sorted[j]) != Greater
    {
      assert CompareClauses(sorted[i], sorted[j]) != Greater;
    }
  }

  // Canonical clauses are one of each clause, up to spelling, in order.
  lemma CanonicalClausesFacts(c: VersionConstraint)
    ensures StrictlySorted(CanonicalConstraint(c).clauses, CompareRelations)
    ensures forall x | x in CanonicalConstraint(c).clauses :: x in c.clauses
    ensures forall x {:trigger RepresentedBy(CanonicalConstraint(c).clauses, x, SameClause)} ::
      x in c.clauses ==> RepresentedBy(CanonicalConstraint(c).clauses, x, SameClause)
  {
    SortedByRelation(c.clauses);
    SortElements(c.clauses, CompareClauses);
    RelationOrdering();
    DedupRepresents(c.clauses, SortBy(c.clauses, CompareClauses), CanonicalConstraint(c).clauses, CompareRelations,
      SameClause);
  }

  // Canonicalising a constraint does not change what satisfies it.
  lemma CanonicalMeansTheSame(c: VersionConstraint, v: RPackageVersion)
    ensures CanonicalConstraint(c).Satisfies(v) <==> c.Satisfies(v)
  {
    CanonicalClausesFacts(c);
    SameMeaning(c.clauses, CanonicalConstraint(c).clauses, v);
  }

  lemma SameMeaning(own: seq<VersionClause>, canonical: seq<VersionClause>, v: RPackageVersion)
    requires forall x | x in canonical :: x in own
    requires forall x {:trigger RepresentedBy(canonical, x, SameClause)} :: x in own ==>
      RepresentedBy(canonical, x, SameClause)
    ensures VersionConstraint(canonical).Satisfies(v) <==> VersionConstraint(own).Satisfies(v)
  {
    if VersionConstraint(own).Satisfies(v) {
      forall i | 0 <= i < |canonical|
        ensures canonical[i].Accepts(v)
      {
        assert canonical[i] in canonical;
        var k :| 0 <= k < |own| && own[k] == canonical[i];
      }
    }
    if VersionConstraint(canonical).Satisfies(v) {
      forall i | 0 <= i < |own|
        ensures own[i].Accepts(v)
      {
        assert own[i] in own && RepresentedBy(canonical, own[i], SameClause);
        var y :| y in canonical && SameClause(y, own[i]);
        var k :| 0 <= k < |canonical| && canonical[k] == y;
        SameClauseAccepts(y, own[i], v);
      }
    }
  }

  lemma SameClauseAccepts(a: VersionClause, b: VersionClause, v: RPackageVersion)
    requires SameClause(a, b)
    ensures a.Accepts(v) <==> b.Accepts(v)
  {
    SameIsKeyEquality(a.version, b.version);
  }

  lemma CanonicalTwice(c: VersionConstraint)
    ensures CanonicalConstraint(CanonicalConstraint(c)) == CanonicalConstraint(c)
  {
    var clauses := CanonicalConstraint(c).clauses;
    CanonicalClausesFacts(c);
    RelationOrdering();
    forall i, j | 0 <= i < j < |clauses|
      ensures CompareClauses(clauses[i], clauses[j]) != Greater && !SameClause(clauses[i], clauses[j])
    {
      assert CompareRelations(clauses[i], clauses[j]) == Less;
    }
    SortOfSorted(clauses, CompareClauses);
    DedupOfStrict(clauses, SameClause);
  }

  // -------------------------------------------------------------- acceptable locks

  // The same record with its edges in another order or repeated.
  ghost predicate Reordered(p: LockedPackage, q: LockedPackage) {
    p.(dependencies := []) == q.(dependencies := []) && forall e :: e in p.dependencies <==> e in q.dependencies
  }

  lemma ReorderedIsTidy(p: LockedPackage, q: LockedPackage)
    ensures Reordered(p, q) <==> Tidy(p) == Tidy(q)
  {
    CanonicalEdgesDecide(p.dependencies, q.dependencies);
    assert Tidy(p) == Tidy(q) ==> Tidy(p).(dependencies := []) == Tidy(q).(dependencies := []);
  }

  ghost predicate EdgesSelected(p: LockedPackage, ps: seq<LockedPackage>) {
    forall e | e in p.dependencies :: e.package in NamesOf(ps)
  }

  // What a lock has to be, without regard to how it is listed.
  ghost predicate Acceptable(ps: seq<LockedPackage>) {
    && (forall p | p in ps :: Proper(p, ps))
    && OneRecordEach(ps) && OneIdentityEach(ps)
  }

  // A record that passes its own checks and whose edges lead to records.
  ghost predicate Proper(p: LockedPackage, ps: seq<LockedPackage>) {
    CheckPackage(p).None? && EdgesSelected(p, ps)
  }

  ghost predicate OneRecordEach(ps: seq<LockedPackage>) {
    forall p, q | p in ps && q in ps && SameIdentity(p.identity, q.identity) :: SamePackage(Tidy(p), Tidy(q))
  }

  ghost predicate OneIdentityEach(ps: seq<LockedPackage>) {
    forall p, q | p in ps && q in ps && p.identity.name == q.identity.name :: SameIdentity(p.identity, q.identity)
  }

  // One record for each identity, by identity.
  ghost predicate NormalForm(n: seq<LockedPackage>, ps: seq<LockedPackage>) {
    && StrictlySorted(n, ComparePackages)
    && (forall m | m in n :: Originates(m, ps))
    && (forall p | p in ps :: Kept(Tidy(p), n))
  }

  ghost predicate Originates(m: LockedPackage, ps: seq<LockedPackage>) {
    exists p :: p in ps && m == Tidy(p)
  }

  ghost predicate Kept(p: LockedPackage, n: seq<LockedPackage>) {
    exists m :: m in n && SameIdentity(m.identity, p.identity) && SamePackage(m, p)
  }

  lemma {:induction false} CheckAllFacts(ps: seq<LockedPackage>)
    ensures CheckAll(ps).None? <==> forall p | p in ps :: CheckPackage(p).None?
  {
    if ps != [] {
      CheckAllFacts(ps[1..]);
      assert forall p :: p in ps <==> p == ps[0] || p in ps[1..];
    }
  }

  lemma {:induction false} NamesTakenFacts(taken: map<string, ReleaseIdentity>, ps: seq<LockedPackage>)
    ensures NamesTaken(taken, ps).None? <==>
      && (forall p | p in ps && p.identity.name in taken :: SameIdentity(taken[p.identity.name], p.identity))
      && OneIdentityEach(ps)
    decreases |ps|
  {
    if ps != [] {
      var name := ps[0].identity.name;
      NamesTakenFacts(taken[name := ps[0].identity], ps[1..]);
      assert forall p :: p in ps <==> p == ps[0] || p in ps[1..];
    }
  }

  lemma {:induction false} DanglingInFacts(selected: set<string>, edges: seq<LockedEdge>)
    ensures DanglingIn(selected, edges).None? <==> forall e | e in edges :: e.package in selected
  {
    if edges != [] {
      DanglingInFacts(selected, edges[1..]);
      assert forall e :: e in edges <==> e == edges[0] || e in edges[1..];
    }
  }

  lemma {:induction false} DanglingFacts(selected: set<string>, ps: seq<LockedPackage>)
    ensures Dangling(selected, ps).None? <==>
      forall p | p in ps :: forall e | e in p.dependencies :: e.package in selected
  {
    if ps != [] {
      DanglingInFacts(selected, ps[0].dependencies);
      DanglingFacts(selected, ps[1..]);
      assert forall p :: p in ps <==> p == ps[0] || p in ps[1..];
    }
  }

  lemma CheckGraphFacts(ps: seq<LockedPackage>)
    ensures CheckGraph(ps).None? <==>
      && OneIdentityEach(ps)
      && (forall p | p in ps :: EdgesSelected(p, ps))
  {
    NamesTakenFacts(map[], ps);
    DanglingFacts(NamesOf(ps), ps);
  }

  // ----------------------------------------------------------- dropping repetitions

  // Kept packages in strict order, none above what is to come.
  ghost predicate Keeping(kept: seq<LockedPackage>, rest: seq<LockedPackage>) {
    && StrictlySorted(kept, ComparePackages) && Sorted(rest, ComparePackages)
    && (kept != [] ==> forall i | 0 <= i < |rest| :: ComparePackages(kept[|kept| - 1], rest[i]) != Greater)
  }

  lemma KeepingNext(kept: seq<LockedPackage>, rest: seq<LockedPackage>)
    requires rest != [] && Keeping(kept, rest)
    ensures Keeping(kept, rest[1..])
    ensures kept == [] || !SameIdentity(kept[|kept| - 1].identity, rest[0].identity) ==>
      Keeping(kept + [rest[0]], rest[1..])
  {
    PackageOrdering();
    forall i | 0 <= i < |rest[1..]|
      ensures ComparePackages(rest[0], rest[1..][i]) != Greater
    {
      assert rest[1..][i] == rest[i + 1];
    }
    if kept != [] && !SameIdentity(kept[|kept| - 1].identity, rest[0].identity) {
      forall i | 0 <= i < |kept|
        ensures ComparePackages(kept[i], rest[0]) == Less
      {
        Tied(kept[i], kept[|kept| - 1], rest[0], ComparePackages);
      }
    }
  }

  ghost predicate Agreeing(ps: seq<LockedPackage>) {
    forall p, q | p in ps && q in ps && SameIdentity(p.identity, q.identity) :: SamePackage(p, q)
  }

  // One record of each identity among the given packages.
  ghost predicate Selects(n: seq<LockedPackage>, all: seq<LockedPackage>) {
    && StrictlySorted(n, ComparePackages)
    && (forall m | m in n :: m in all)
    && (forall p | p in all :: Kept(p, n))
  }

  lemma SelectsWithRepeat(n: seq<LockedPackage>, all: seq<LockedPackage>, more: seq<LockedPackage>, last: LockedPackage,
    x: LockedPackage)
    requires Selects(n, all) && last in all && SameIdentity(last.identity, x.identity) && SamePackage(last, x)
    requires forall p :: p in more <==> p in all || p == x
    ensures Selects(n, more)
  {
    KeptAlike(n, last, x);
    forall p | p in more
      ensures Kept(p, n)
    {
      assert p in all || p == x;
    }
  }

  lemma KeptAlike(n: seq<LockedPackage>, last: LockedPackage, x: LockedPackage)
    requires Kept(last, n) && SameIdentity(last.identity, x.identity) && SamePackage(last, x)
    ensures Kept(x, n)
  {
    var m :| m in n && SameIdentity(m.identity, last.identity) && SamePackage(m, last);
    assert SameIdentity(m.identity, x.identity) && SamePackage(m, x);
  }

  lemma SelectsItself(kept: seq<LockedPackage>)
    requires StrictlySorted(kept, ComparePackages)
    ensures Selects(kept, kept)
  {
    forall p | p in kept
      ensures Kept(p, kept)
    {
      assert SameIdentity(p.identity, p.identity) && SamePackage(p, p);
    }
  }

  // Dropping repetitions keeps one record of each identity, and fails exactly when
  // two records of one identity differ.
  lemma {:induction false} UnrepeatedFacts(kept: seq<LockedPackage>, rest: seq<LockedPackage>)
    requires Keeping(kept, rest)
    ensures Agreeing(kept + rest) ==> Unrepeated(kept, rest).Ok?
    ensures Unrepeated(kept, rest).Ok? ==> Selects(Unrepeated(kept, rest).value, kept + rest)
    decreases |rest|
  {
    if rest == [] {
      assert kept + rest == kept;
      SelectsItself(kept);
    } else {
      KeepingNext(kept, rest);
      var x := rest[0];
      if kept != [] && SameIdentity(kept[|kept| - 1].identity, x.identity) {
        var last := kept[|kept| - 1];
        RestOfRepeat(kept, rest, last, x);
        if SamePackage(last, x) {
          UnrepeatedFacts(kept, rest[1..]);
          if Unrepeated(kept, rest[1..]).Ok? {
            SelectsWithRepeat(Unrepeated(kept, rest[1..]).value, kept + rest[1..], kept + rest, last, x);
          }
        }
      } else {
        assert (kept + [x]) + rest[1..] == kept + rest;
        UnrepeatedFacts(kept + [x], rest[1..]);
      }
    }
  }

  lemma RestOfRepeat(kept: seq<LockedPackage>, rest: seq<LockedPackage>, last: LockedPackage, x: LockedPackage)
    requires kept != [] && rest != [] && last == kept[|kept| - 1] && x == rest[0] &&
      SameIdentity(last.identity, x.identity)
    ensures last in kept + rest[1..] && forall p :: p in kept + rest <==> p in kept + rest[1..] || p == x
    ensures Agreeing(kept + rest) ==> SamePackage(last, x) && Agreeing(kept + rest[1..])
  {
    assert rest == [x] + rest[1..];
    assert last in kept + rest && x in kept + rest;
  }

  // In strict order an identity occurs once.
  lemma StrictIsSingle(n: seq<LockedPackage>, a: LockedPackage, b: LockedPackage)
    requires StrictlySorted(n, ComparePackages) && a in n && b in n && SameIdentity(a.identity, b.identity)
    ensures a == b
  {
    PackageOrdering();
    var i :| 0 <= i < |n| && n[i] == a;
    var j :| 0 <= j < |n| && n[j] == b;
    TiedIndices(n, ComparePackages, i, j);
  }

  lemma TiedIndices<T(!new)>(n: seq<T>, cmp: (T, T) -> Order, i: nat, j: nat)
    requires Ordering(cmp) && StrictlySorted(n, cmp) && i < |n| && j < |n| && cmp(n[i], n[j]) == Equal
    ensures i == j
  {
    assert cmp(n[i], n[j]) == cmp(n[j], n[i]).Flip();
  }

  lemma KeptAgree(n: seq<LockedPackage>, ps: seq<LockedPackage>)
    requires StrictlySorted(n, ComparePackages) && forall p | p in ps :: Kept(p, n)
    ensures Agreeing(ps)
  {
    forall p, q | p in ps && q in ps && SameIdentity(p.identity, q.identity)
      ensures SamePackage(p, q)
    {
      var a :| a in n && SameIdentity(a.identity, p.identity) && SamePackage(a, p);
      var b :| b in n && SameIdentity(b.identity, q.identity) && SamePackage(b, q);
      StrictIsSingle(n, a, b);
    }
  }

  lemma SortedTidied(ps: seq<LockedPackage>)
    ensures Sorted(SortBy(TidyAll(ps), ComparePackages), ComparePackages)
    ensures forall m :: m in SortBy(TidyAll(ps), ComparePackages) <==> Originates(m, ps)
  {
    PackageOrdering();
    SortSorted(TidyAll(ps), ComparePackages);
    SortElements(TidyAll(ps), ComparePackages);
    forall m
      ensures m in TidyAll(ps) <==> Originates(m, ps)
    {
      if m in TidyAll(ps) {
        var i :| 0 <= i < |ps| && TidyAll(ps)[i] == m;
        assert ps[i] in ps;
      }
      if Originates(m, ps) {
        var p :| p in ps && m == Tidy(p);
        var i :| 0 <= i < |ps| && ps[i] == p;
        assert TidyAll(ps)[i] == m;
      }
    }
  }

  // The graph conditions look the same before and after normalising.
  lemma GraphOfNormalForm(n: seq<LockedPackage>, ps: seq<LockedPackage>)
    requires NormalForm(n, ps)
    ensures CheckGraph(n).None? <==>
      && OneIdentityEach(ps)
      && (forall p | p in ps :: EdgesSelected(p, ps))
  {
    CheckGraphFacts(n);
    SameNames(n, ps);
    OneIdentityEither(n, ps);
    EdgesEither(n, ps);
  }

  lemma SameNames(n: seq<LockedPackage>, ps: seq<LockedPackage>)
    requires NormalForm(n, ps)
    ensures NamesOf(n) == NamesOf(ps)
  {
    forall p | p in ps
      ensures p.identity.name in NamesOf(n)
    {
      assert Kept(Tidy(p), n);
    }
    forall m | m in n
      ensures m.identity.name in NamesOf(ps)
    {
      assert Originates(m, ps);
    }
  }

  lemma OneIdentityEither(n: seq<LockedPackage>, ps: seq<LockedPackage>)
    requires NormalForm(n, ps)
    ensures OneIdentityEach(n) <==> OneIdentityEach(ps)
  {
    if OneIdentityEach(n) {
      forall p, q | p in ps && q in ps && p.identity.name == q.identity.name
        ensures SameIdentity(p.identity, q.identity)
      {
        assert Kept(Tidy(p), n) && Kept(Tidy(q), n);
        var a :| a in n && SameIdentity(a.identity, Tidy(p).identity) && SamePackage(a, Tidy(p));
        var b :| b in n && SameIdentity(b.identity, Tidy(q).identity) && SamePackage(b, Tidy(q));
      }
    }
    if OneIdentityEach(ps) {
      forall a, b | a in n && b in n && a.identity.name == b.identity.name
        ensures SameIdentity(a.identity, b.identity)
      {
        assert Originates(a, ps) && Originates(b, ps);
        var p :| p in ps && a == Tidy(p);
        var q :| q in ps && b == Tidy(q);
      }
    }
  }

  lemma EdgesEither(n: seq<LockedPackage>, ps: seq<LockedPackage>)
    requires NormalForm(n, ps)
    ensures (forall m | m in n :: EdgesSelected(m, n)) <==> (forall p | p in ps :: EdgesSelected(p, ps))
  {
    SameNames(n, ps);
    if forall m | m in n :: EdgesSelected(m, n) {
      forall p | p in ps
        ensures EdgesSelected(p, ps)
      {
        assert Kept(Tidy(p), n);
        var m :| m in n && SameIdentity(m.identity, Tidy(p).identity) && SamePackage(m, Tidy(p));
        assert m.dependencies == Tidy(p).dependencies;
        CanonicalEdgesFacts(p.dependencies);
      }
    }
    if forall p | p in ps :: EdgesSelected(p, ps) {
      forall m | m in n
        ensures EdgesSelected(m, n)
      {
        assert Originates(m, ps);
        var p :| p in ps && m == Tidy(p);
        CanonicalEdgesFacts(p.dependencies);
      }
    }
  }

  // Normalising succeeds exactly on acceptable locks and gives their normal form.
  lemma NormalizedWhen(ps: seq<LockedPackage>, r: Result<seq<LockedPackage>, LockError>)
    requires r == Normalized(ps)
    ensures r.Ok? <==> Acceptable(ps)
    ensures r.Ok? ==> NormalForm(r.value, ps) && CheckGraph(r.value).None?
  {
    var n := Unrepeated([], SortBy(TidyAll(ps), ComparePackages));
    NormalizedParts(ps, n, r);
    CheckAllFacts(ps);
    SortedTidied(ps);
    UnrepeatedTidied(ps, SortBy(TidyAll(ps), ComparePackages), n);
    if n.Ok? {
      GraphOfNormalForm(n.value, ps);
    }
  }

  lemma NormalizedParts(ps: seq<LockedPackage>, n: Result<seq<LockedPackage>, LockError>,
    r: Result<seq<LockedPackage>, LockError>)
    requires r == Normalized(ps) && n == Unrepeated([], SortBy(TidyAll(ps), ComparePackages))
    ensures r.Ok? <==> CheckAll(ps).None? && n.Ok? && CheckGraph(n.value).None?
    ensures r.Ok? ==> r == n
  {
  }

  lemma UnrepeatedTidied(ps: seq<LockedPackage>, sorted: seq<LockedPackage>, n: Result<seq<LockedPackage>, LockError>)
    requires Sorted(sorted, ComparePackages) && (forall m :: m in sorted <==> Originates(m, ps)) &&
      n == Unrepeated([], sorted)
    ensures n.Ok? <==> OneRecordEach(ps)
    ensures n.Ok? ==> NormalForm(n.value, ps)
  {
    AgreeingTidied(ps, sorted);
    UnrepeatedSorted(sorted, n);
    if n.Ok? {
      NormalFormOf(n.value, sorted, ps);
    }
  }

  lemma UnrepeatedSorted(sorted: seq<LockedPackage>, n: Result<seq<LockedPackage>, LockError>)
    requires Sorted(sorted, ComparePackages) && n == Unrepeated([], sorted)
    ensures n.Ok? <==> Agreeing(sorted)
    ensures n.Ok? ==> Selects(n.value, sorted)
  {
    assert [] + sorted == sorted;
    UnrepeatedFacts([], sorted);
    if n.Ok? {
      KeptAgree(n.value, sorted);
    }
  }

  lemma AgreeingTidied(ps: seq<LockedPackage>, sorted: seq<LockedPackage>)
    requires forall m :: m in sorted <==> Originates(m, ps)
    ensures Agreeing(sorted) <==> OneRecordEach(ps)
  {
    forall p | p in ps
      ensures Tidy(p) in sorted
    {
      assert Originates(Tidy(p), ps);
    }
    if OneRecordEach(ps) {
      forall a, b | a in sorted && b in sorted && SameIdentity(a.identity, b.identity)
        ensures SamePackage(a, b)
      {
        assert Originates(a, ps) && Originates(b, ps);
        var p :| p in ps && a == Tidy(p);
        var q :| q in ps && b == Tidy(q);
      }
    }
  }

  lemma NormalFormOf(n: seq<LockedPackage>, sorted: seq<LockedPackage>, ps: seq<LockedPackage>)
    requires StrictlySorted(n, ComparePackages)
    requires (forall m | m in n :: m in sorted) && forall p | p in sorted :: Kept(p, n)
    requires forall m :: m in sorted <==> Originates(m, ps)
    ensures NormalForm(n, ps)
  {
    forall p | p in ps
      ensures Kept(Tidy(p), n)
    {
      assert Originates(Tidy(p), ps);
    }
  }

  // ------------------------------------------------------------- the main results

  lemma {:induction false} NoConflictingPair(n: seq<LockedPackage>)
    requires forall i | 0 < i < |n| :: !SameIdentity(n[i - 1].identity, n[i].identity)
    ensures ConflictingPair(n).None?
  {
    if |n| >= 2 {
      assert !SameIdentity(n[1 - 1].identity, n[1].identity);
      forall i | 0 < i < |n[1..]|
        ensures !SameIdentity(n[1..][i - 1].identity, n[1..][i].identity)
      {
        assert !SameIdentity(n[(i + 1) - 1].identity, n[i + 1].identity);
      }
      NoConflictingPair(n[1..]);
    }
  }

  lemma StrictNeighbours(n: seq<LockedPackage>)
    requires StrictlySorted(n, ComparePackages)
    ensures SortBy(n, ComparePackages) == n
    ensures forall i | 0 < i < |n| :: !SameIdentity(n[i - 1].identity, n[i].identity)
  {
    PackageOrdering();
    SortOfSorted(n, ComparePackages);
    forall i | 0 < i < |n|
      ensures !SameIdentity(n[i - 1].identity, n[i].identity)
    {
      assert ComparePackages(n[i - 1], n[i]) == Less;
    }
  }

  lemma NormalFormChecked(n: seq<LockedPackage>, ps: seq<LockedPackage>)
    requires NormalForm(n, ps) && forall p | p in ps :: CheckPackage(p).None?
    ensures CheckAll(n).None?
    ensures forall m | m in n :: m == Tidy(m)
  {
    CheckAllFacts(n);
    forall m | m in n
      ensures CheckPackage(m).None? && m == Tidy(m)
    {
      assert Originates(m, ps);
      var p :| p in ps && m == Tidy(p);
      TidyTwice(p);
    }
  }

  // After normalising, the only check that can fail is the R requirement.
  lemma ValidateNormal(lock: Lockfile, ps: seq<LockedPackage>)
    requires Acceptable(ps) && NormalForm(lock.resolution.packages, ps) && CheckGraph(lock.resolution.packages).None?
    ensures ValidateContents(lock).None? <==> lock.rRequirement.Satisfies(lock.resolution.rVersion)
  {
    var n := lock.resolution.packages;
    StrictNeighbours(n);
    NormalFormChecked(n, ps);
    NoConflictingPair(n);
  }

  // A lock is accepted exactly when its packages are acceptable and its R meets its
  // own requirement.
  lemma AcceptedWhen(intent: string, rRequirement: VersionConstraint, resolution: LockedResolution,
    r: Result<Lockfile, LockError>)
    requires r == NewLock(intent, rRequirement, resolution)
    ensures r.Ok? <==> Acceptable(resolution.packages) && rRequirement.Satisfies(resolution.rVersion)
    ensures r.Ok? ==> NormalForm(r.value.resolution.packages, resolution.packages)
    ensures r.Ok? ==> CheckGraph(r.value.resolution.packages).None?
  {
    var n := Normalized(resolution.packages);
    NormalizedWhen(resolution.packages, n);
    CanonicalMeansTheSame(rRequirement, resolution.rVersion);
    if n.Ok? {
      ValidateNormal(Lockfile(intent, CanonicalConstraint(rRequirement), resolution.(packages := n.value)),
        resolution.packages);
    }
  }

  // Normalising a normal form changes nothing.
  lemma NormalizedAgain(n: seq<LockedPackage>, ps: seq<LockedPackage>)
    requires Acceptable(ps) && NormalForm(n, ps) && CheckGraph(n).None?
    ensures Normalized(n) == Ok(n)
  {
    NormalFormChecked(n, ps);
    StrictNeighbours(n);
    TidiedAlready(n);
    UnrepeatedStrict([], n);
    assert [] + n == n;
    NormalizedParts(n, Ok(n), Normalized(n));
  }

  lemma TidiedAlready(n: seq<LockedPackage>)
    requires forall m | m in n :: m == Tidy(m)
    ensures TidyAll(n) == n
  {
    forall i | 0 <= i < |n|
      ensures TidyAll(n)[i] == n[i]
    {
      assert n[i] in n;
    }
  }

  lemma {:induction false} UnrepeatedStrict(kept: seq<LockedPackage>, rest: seq<LockedPackage>)
    requires forall i | 0 < i < |kept + rest| :: !SameIdentity((kept + rest)[i - 1].identity, (kept + rest)[i].identity)
    ensures Unrepeated(kept, rest) == Ok(kept + rest)
    decreases |rest|
  {
    if rest == [] {
      assert kept + rest == kept;
    } else {
      assert (kept + [rest[0]]) + rest[1..] == kept + rest;
      if kept != [] {
        assert (kept + rest)[|kept| - 1] == kept[|kept| - 1] && (kept + rest)[|kept|] == rest[0];
      }
      UnrepeatedStrict(kept + [rest[0]], rest[1..]);
    }
  }

  // `Lockfile::new` is idempotent: what it returns, it returns again unchanged.
  lemma NewLockIsIdempotent(intent: string, rRequirement: VersionConstraint, resolution: LockedResolution)
    requires NewLock(intent, rRequirement, resolution).Ok?
    ensures var lock := NewLock(intent, rRequirement, resolution).value;
      NewLock(lock.intent, lock.rRequirement, lock.resolution) == Ok(lock)
  {
    var lock := NewLock(intent, rRequirement, resolution).value;
    AcceptedWhen(intent, rRequirement, resolution, Ok(lock));
    NormalizedAgain(lock.resolution.packages, resolution.packages);
    CanonicalTwice(rRequirement);
  }

  // What `Lockfile::new` returns passes the check for canonical resolutions.
  lemma NewLockIsCanonical(intent: string, rRequirement: VersionConstraint, resolution: LockedResolution)
    requires NewLock(intent, rRequirement, resolution).Ok?
    ensures CanonicalResolution(NewLock(intent, rRequirement, resolution).value.resolution)
  {
    var lock := NewLock(intent, rRequirement, resolution).value;
    var n := lock.resolution.packages;
    AcceptedWhen(intent, rRequirement, resolution, Ok(lock));
    StrictNeighbours(n);
    forall k, i | 0 <= k < |n| && 0 < i < |n[k].dependencies|
      ensures CompareEdges(n[k].dependencies[i - 1], n[k].dependencies[i]) == Less
    {
      assert n[k] in n && Originates(n[k], resolution.packages);
      var p :| p in resolution.packages && n[k] == Tidy(p);
      CanonicalEdgesFacts(p.dependencies);
    }
  }

  // Every package of one list is a package of the other up to the order of its edges.
  ghost predicate ListedAmong(ps: seq<LockedPackage>, qs: seq<LockedPackage>) {
    forall p {:trigger Listed(p, qs)} :: p in ps ==> Listed(p, qs)
  }

  ghost predicate Listed(p: LockedPackage, qs: seq<LockedPackage>) {
    exists q :: q in qs && Reordered(p, q)
  }

  lemma AmongOriginates(ps: seq<LockedPackage>, qs: seq<LockedPackage>, p: LockedPackage) returns (q: LockedPackage)
    requires ListedAmong(ps, qs) && p in ps
    ensures q in qs && Tidy(q) == Tidy(p)
  {
    assert Listed(p, qs);
    q :| q in qs && Reordered(p, q);
    ReorderedIsTidy(p, q);
  }

  lemma AcceptableAmong(ps: seq<LockedPackage>, qs: seq<LockedPackage>)
    requires ListedAmong(ps, qs) && ListedAmong(qs, ps) && Acceptable(ps)
    ensures Acceptable(qs)
  {
    forall q | q in qs
      ensures Proper(q, qs)
    {
      ProperAmong(ps, qs, q);
    }
    RecordsAmong(ps, qs);
  }

  lemma ProperAmong(ps: seq<LockedPackage>, qs: seq<LockedPackage>, q: LockedPackage)
    requires ListedAmong(ps, qs) && ListedAmong(qs, ps) && q in qs && forall p | p in ps :: Proper(p, ps)
    ensures Proper(q, qs)
  {
    var p := AmongOriginates(qs, ps, q);
    assert Proper(p, ps);
    CheckedAlike(p, q);
    SelectedAlike(p, q, ps, qs);
  }

  lemma RecordsAmong(ps: seq<LockedPackage>, qs: seq<LockedPackage>)
    requires ListedAmong(qs, ps) && OneRecordEach(ps) && OneIdentityEach(ps)
    ensures OneRecordEach(qs) && OneIdentityEach(qs)
  {
    forall a, b | a in qs && b in qs
      ensures SameIdentity(a.identity, b.identity) ==> SamePackage(Tidy(a), Tidy(b))
      ensures a.identity.name == b.identity.name ==> SameIdentity(a.identity, b.identity)
    {
      var p := AmongOriginates(qs, ps, a);
      var q := AmongOriginates(qs, ps, b);
      assert p.identity == Tidy(p).identity == a.identity && q.identity == Tidy(q).identity == b.identity;
      assert SameIdentity(p.identity, q.identity) ==> SamePackage(Tidy(p), Tidy(q));
    }
  }

  lemma CheckedAlike(p: LockedPackage, q: LockedPackage)
    requires Tidy(p) == Tidy(q)
    ensures CheckPackage(p) == CheckPackage(q)
  {
    TidyTwice(p);
    TidyTwice(q);
  }

  lemma SelectedAlike(p: LockedPackage, q: LockedPackage, ps: seq<LockedPackage>, qs: seq<LockedPackage>)
    requires Tidy(p) == Tidy(q) && EdgesSelected(p, ps) && ListedAmong(ps, qs)
    ensures EdgesSelected(q, qs)
  {
    CanonicalEdgesDecide(p.dependencies, q.dependencies);
    assert CanonicalEdges(p.dependencies) == Tidy(p).dependencies == Tidy(q).dependencies ==
      CanonicalEdges(q.dependencies);
    NamesAmong(ps, qs);
  }

  lemma NamesAmong(ps: seq<LockedPackage>, qs: seq<LockedPackage>)
    requires ListedAmong(ps, qs)
    ensures NamesOf(ps) <= NamesOf(qs)
  {
    forall p | p in ps
      ensures p.identity.name in NamesOf(qs)
    {
      var q := AmongOriginates(ps, qs, p);
      assert Tidy(q).identity == q.identity;
    }
  }

  // What one list kept, the other kept as well, up to version spelling.
  lemma KeptElsewhere(x: LockedPackage, ps: seq<LockedPackage>, m: seq<LockedPackage>, qs: seq<LockedPackage>)
    returns (j: nat)
    requires Originates(x, ps) && ListedAmong(ps, qs) && forall q | q in qs :: Kept(Tidy(q), m)
    ensures j < |m| && SamePackage(m[j], x)
  {
    var p :| p in ps && x == Tidy(p);
    var q := AmongOriginates(ps, qs, p);
    var y :| y in m && SameIdentity(y.identity, Tidy(q).identity) && SamePackage(y, Tidy(q));
    j :| 0 <= j < |m| && m[j] == y;
  }

  lemma KeptAmong(n: seq<LockedPackage>, ps: seq<LockedPackage>, m: seq<LockedPackage>, qs: seq<LockedPackage>)
    requires NormalForm(n, ps) && NormalForm(m, qs) && ListedAmong(ps, qs)
    ensures forall x | x in CanonPackages(n) :: x in CanonPackages(m)
  {
    forall x | x in CanonPackages(n)
      ensures x in CanonPackages(m)
    {
      var i :| 0 <= i < |n| && CanonPackages(n)[i] == x;
      assert n[i] in n;
      var j := KeptElsewhere(n[i], ps, m, qs);
      assert CanonPackages(m)[j] == x;
    }
  }

  lemma CanonStrict(n: seq<LockedPackage>)
    requires StrictlySorted(n, ComparePackages)
    ensures StrictlySorted(CanonPackages(n), ComparePackages)
  {
    var c := CanonPackages(n);
    forall i, j | 0 <= i < j < |c|
      ensures ComparePackages(c[i], c[j]) == Less
    {
      CanonCompares(n[i], n[j]);
    }
  }

  // Locks that list the same packages in any order, with any repetition and any order
  // or repetition of edges, are both accepted with equal packages or both refused.
  lemma NewLockIgnoresListing(intent: string, rRequirement: VersionConstraint, one: LockedResolution,
    other: LockedResolution, r: Result<Lockfile, LockError>, s: Result<Lockfile, LockError>)
    requires other == one.(packages := other.packages)
    requires ListedAmong(one.packages, other.packages) && ListedAmong(other.packages, one.packages)
    requires r == NewLock(intent, rRequirement, one) && s == NewLock(intent, rRequirement, other)
    ensures r.Ok? <==> s.Ok?
    ensures r.Ok? ==> r.value.rRequirement == s.value.rRequirement
    ensures r.Ok? ==> CanonPackages(r.value.resolution.packages) == CanonPackages(s.value.resolution.packages)
    ensures r.Ok? ==> r.value.resolution.(packages := []) == s.value.resolution.(packages := [])
  {
    AcceptedWhen(intent, rRequirement, one, r);
    AcceptedWhen(intent, rRequirement, other, s);
    if Acceptable(one.packages) {
      AcceptableAmong(one.packages, other.packages);
    }
    if Acceptable(other.packages) {
      AcceptableAmong(other.packages, one.packages);
    }
    if r.Ok? {
      var n, m := r.value.resolution.packages, s.value.resolution.packages;
      KeptAmong(n, one.packages, m, other.packages);
      KeptAmong(m, other.packages, n, one.packages);
      CanonStrict(n);
      CanonStrict(m);
      PackageOrdering();
      StrictlySortedUnique(CanonPackages(n), CanonPackages(m), ComparePackages);
    }
  }

  // ------------------------------------------------------------ canonical resolutions

  lemma CanonicalIsStrict(ps: seq<LockedPackage>)
    requires CanonPackages(SortBy(ps, ComparePackages)) == CanonPackages(ps)
    requires forall i | 0 < i < |ps| :: !SameIdentity(ps[i - 1].identity, ps[i].identity)
    ensures StrictlySorted(ps, ComparePackages)
  {
    PackageOrdering();
    var sorted := SortBy(ps, ComparePackages);
    SortSorted(ps, ComparePackages);
    SortElements(ps, ComparePackages);
    forall i, j | 0 <= i < j < |ps|
      ensures ComparePackages(ps[i], ps[j]) != Greater
    {
      assert CanonPackages(sorted)[i] == CanonPackages(ps)[i] && CanonPackages(sorted)[j] == CanonPackages(ps)[j];
      CanonCompares(ps[i], ps[j]);
      CanonCompares(sorted[i], sorted[j]);
    }
    StrictFromNeighbours(ps, ComparePackages);
  }

  lemma StrictFromNeighbours<T(!new)>(s: seq<T>, cmp: (T, T) -> Order)
    requires Ordering(cmp) && Sorted(s, cmp) && forall i | 0 < i < |s| :: cmp(s[i - 1], s[i]) != Equal
    ensures StrictlySorted(s, cmp)
  {
    forall i, j | 0 <= i < j < |s|
      ensures cmp(s[i], s[j]) == Less
    {
      assert cmp(s[(i + 1) - 1], s[i + 1]) != Equal && cmp(s[i], s[i + 1]) != Greater;
      if i + 1 < j {
        Tied(s[i], s[i + 1], s[j], cmp);
      }
    }
  }

  lemma CanonicalIsTidy(resolution: LockedResolution, p: LockedPackage)
    requires CanonicalResolution(resolution) && p in resolution.packages
    ensures p == Tidy(p)
  {
    var k :| 0 <= k < |resolution.packages| && resolution.packages[k] == p;
    EdgeOrdering();
    forall i, j | 0 <= i < j < |p.dependencies|
      ensures CompareEdges(p.dependencies[i], p.dependencies[j]) == Less
    {
      EdgesInOrder(resolution, k, i, j);
    }
    CanonicalEdgesFacts(p.dependencies);
    StrictlySortedUnique(p.dependencies, CanonicalEdges(p.dependencies), CompareEdges);
  }

  lemma {:induction false} EdgesInOrder(resolution: LockedResolution, k: nat, i: nat, j: nat)
    requires CanonicalResolution(resolution) && k < |resolution.packages|
    requires i < j < |resolution.packages[k].dependencies|
    ensures CompareEdges(resolution.packages[k].dependencies[i], resolution.packages[k].dependencies[j]) == Less
    decreases j
  {
    var edges := resolution.packages[k].dependencies;
    assert CompareEdges(edges[j - 1], edges[j]) == Less;
    if i < j - 1 {
      EdgesInOrder(resolution, k, i, j - 1);
      EdgeOrdering();
      assert CompareEdges(edges[i], edges[j - 1]) == Less;
    }
  }
}
