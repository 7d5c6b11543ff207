/**
 Merging candidates is a partial join: it succeeds exactly on consistent facts,
 returns their least upper bound, and so cannot depend on arrival order.
 */
module CandidateMerge {
  import opened Prelude
  import opened Versions
  import opened Domain
  import opened Distributions
  import opened Candidates

  // ----------------------------------------------------------- one merge

  lemma {:induction false} ProjectedEvidence(occurrences: seq<Occurrence>, release: Release)
    ensures FirstUnprojected(occurrences, release) == None <==>
      forall x | x in EvidenceOf(occurrences) :: x.1 in release.distributions
  {
    if occurrences != [] {
      ProjectedEvidence(occurrences[1..], release);
      var o := occurrences[0];
      if !AllProjected(o, release) {
        var i :| 0 <= i < |o.distributions| && o.distributions[i] !in release.distributions;
        assert (o.repository, o.distributions[i]) in EvidenceOf(occurrences);
      } else {
        forall x | x in Tagged(o.repository, o.distributions)
          ensures x.1 in release.distributions
        {
          var i :| 0 <= i < |o.distributions| && o.distributions[i] == x.1;
        }
      }
    }
  }

  lemma ListedEvidence(occurrences: seq<Occurrence>, d: Distribution)
    ensures Listed(d, occurrences) <==> exists r :: (r, d) in EvidenceOf(occurrences)
  {
    if Listed(d, occurrences) {
      var i :| 0 <= i < |occurrences| && d in occurrences[i].distributions;
      EvidenceMember(occurrences, i, d);
    }
    if r :| (r, d) in EvidenceOf(occurrences) {
      var i := EvidenceOrigin(occurrences, (r, d));
    }
  }

  // Whether the checks after grouping pass, in terms of facts.
  ghost predicate Backed(f: Facts) {
    && (f.exposure == 0 ==> f.heads != {})
    && (forall x | x in f.evidence :: x.1 in f.distributions)
    && (f.exposure == 0 ==> forall d | d in f.distributions :: exists r :: (r, d) in f.evidence)
  }

  lemma ValidatedIsBacked(c: Candidate)
    ensures Validated(c) == Ok(c) <==> Backed(FactsOf(c))
    ensures Validated(c).Ok? ==> Validated(c) == Ok(c)
  {
    ProjectedEvidence(c.occurrences, c.release);
    var f := FactsOf(c);
    forall d
      ensures Listed(d, c.occurrences) <==> exists r :: (r, d) in f.evidence
    {
      ListedEvidence(c.occurrences, d);
    }
    assert c.occurrences != [] ==> HeadOf(c.occurrences[0]) in f.heads;
    if c.exposure == NoExposure && exists i | 0 <= i < |c.release.distributions| ::
      !Listed(c.release.distributions[i], c.occurrences) {
      var i :| 0 <= i < |c.release.distributions| && !Listed(c.release.distributions[i], c.occurrences);
      assert c.release.distributions[i] in f.distributions;
    }
  }

  lemma BackedJoin(f: Facts, g: Facts)
    requires Backed(f) && Backed(g)
    ensures Backed(f.Join(g))
  {
    var j := f.Join(g);
    if j.exposure == 0 {
      forall d | d in j.distributions
        ensures exists r :: (r, d) in j.evidence
      {
        if d in f.distributions {
          var r :| (r, d) in f.evidence;
          assert (r, d) in j.evidence;
        } else {
          var r :| (r, d) in g.evidence;
          assert (r, d) in j.evidence;
        }
      }
    }
  }

  lemma ReleasesMerge(a: Release, b: Release)
    requires SameIdentity(a.identity, b.identity)
    ensures MergeReleases(a, b).Ok? <==>
      CoreOf(a) == CoreOf(b) && (a.publication.Some? && b.publication.Some? ==> a.publication == b.publication)
    ensures MergeReleases(a, b).Ok? ==>
      var m := MergeReleases(a, b).value;
      && CoreOf(m) == CoreOf(a) && m.identity == a.identity
      && m.publication == (if a.publication.Some? then a.publication else b.publication)
      && m.distributions == Canonicalize(PushNew(a.distributions, b.distributions))
  {
    CanonIsSame(a.version, b.version);
  }

  lemma ValidKnowledge(c: Candidate)
    requires Valid(c)
    ensures OneHead(FactsOf(c).heads) && FactsOf(c).Functional() && Backed(FactsOf(c))
  {
    ValidatedIsBacked(c);
    forall x, y | x in HeadsOf(c.occurrences) && y in HeadsOf(c.occurrences) && x.repository == y.repository
      ensures x == y
    {
      var i := HeadOrigin(c.occurrences, x);
      var j := HeadOrigin(c.occurrences, y);
      SameRepositorySameIndex(c.occurrences, i, j);
    }
  }

  lemma SameRepositorySameIndex(occurrences: seq<Occurrence>, i: nat, j: nat)
    requires DistinctBy(occurrences, (o: Occurrence) => o.repository)
    requires i < |occurrences| && j < |occurrences| && occurrences[i].repository == occurrences[j].repository
    ensures i == j
  {
    var repository := (o: Occurrence) => o.repository;
    assert repository(occurrences[i]) == repository(occurrences[j]);
  }

  // The unvalidated result of merging two candidates.
  function Combined(a: Candidate, b: Candidate): Candidate
    requires MergeReleases(a.release, b.release).Ok?
  {
    Candidate(MergeReleases(a.release, b.release).value, MergedExposure(a.exposure, b.exposure),
      a.occurrences + b.occurrences)
  }

  // What a candidate with the parts of a merge knows.
  lemma JoinedParts(a: Candidate, b: Candidate, m: Candidate)
    requires CoreOf(a.release) == CoreOf(b.release) == CoreOf(m.release)
    requires a.release.publication.Some? && b.release.publication.Some? ==>
      a.release.publication == b.release.publication
    requires m.release.publication == (if a.release.publication.Some? then a.release.publication
      else b.release.publication)
    requires m.exposure == MergedExposure(a.exposure, b.exposure)
    requires (set d | d in m.release.distributions) == (set d | d in a.release.distributions) +
      (set d | d in b.release.distributions)
    requires HeadsOf(m.occurrences) == HeadsOf(a.occurrences) + HeadsOf(b.occurrences)
    requires EvidenceOf(m.occurrences) == EvidenceOf(a.occurrences) + EvidenceOf(b.occurrences)
    ensures FactsOf(m) == FactsOf(a).Join(FactsOf(b))
  {
  }

  lemma CombinedParts(a: Candidate, b: Candidate, m: Candidate, merged: seq<Distribution>)
    requires Valid(a) && Valid(b)
    requires merged == Canonicalize(PushNew(a.release.distributions, b.release.distributions))
    requires m.release.distributions == merged && m.occurrences == a.occurrences + b.occurrences
    ensures CanonicalList(merged) && AllSized(merged) && Orderly(m.occurrences)
    ensures (set d | d in merged) == (set d | d in a.release.distributions) + (set d | d in b.release.distributions)
    ensures HeadsOf(m.occurrences) == HeadsOf(a.occurrences) + HeadsOf(b.occurrences)
    ensures EvidenceOf(m.occurrences) == EvidenceOf(a.occurrences) + EvidenceOf(b.occurrences)
  {
    HeadsOfConcat(a.occurrences, b.occurrences);
    MergedDistributionsFacts(a.release.distributions, b.release.distributions);
    SizedMembers(a.release.distributions, b.release.distributions, merged);
    assert forall o | o in m.occurrences :: o in a.occurrences || o in b.occurrences;
  }

  // `m` has the parts that `merge` puts together before it normalises.
  ghost predicate Assembled(a: Candidate, b: Candidate, m: Candidate) {
    && CoreOf(a.release) == CoreOf(b.release) == CoreOf(m.release)
    && (a.release.publication.Some? && b.release.publication.Some? ==> a.release.publication == b.release.publication)
    && m.release.publication == (if a.release.publication.Some? then a.release.publication else b.release.publication)
    && m.release.identity == a.release.identity
    && m.release.distributions == Canonicalize(PushNew(a.release.distributions, b.release.distributions))
    && m.exposure == MergedExposure(a.exposure, b.exposure)
    && m.occurrences == a.occurrences + b.occurrences
  }

  lemma CombinedIsAssembled(a: Candidate, b: Candidate)
    requires SameIdentity(a.release.identity, b.release.identity) && MergeReleases(a.release, b.release).Ok?
    ensures Assembled(a, b, Combined(a, b))
  {
    ReleasesMerge(a.release, b.release);
  }

  lemma AssembledFacts(a: Candidate, b: Candidate, m: Candidate)
    requires Valid(a) && Valid(b) && Assembled(a, b, m)
    ensures FactsOf(m) == FactsOf(a).Join(FactsOf(b))
    ensures CanonicalList(m.release.distributions) && AllSized(m.release.distributions) && Orderly(m.occurrences)
  {
    CombinedParts(a, b, m, m.release.distributions);
    JoinedParts(a, b, m);
  }

  lemma AssembledExposure(a: Candidate, b: Candidate, m: Candidate)
    requires a.exposure == RuntimeInstalled ==> a.release.IsRBase()
    requires b.exposure == RuntimeInstalled ==> b.release.IsRBase()
    requires CanonIdentity(a.release.identity) == CanonIdentity(b.release.identity)
    requires m.release.identity == a.release.identity && m.exposure == MergedExposure(a.exposure, b.exposure)
    ensures m.exposure == RuntimeInstalled ==> m.release.IsRBase()
  {
    assert CanonProvenance(a.release.identity.provenance) == CanonProvenance(b.release.identity.provenance);
  }

  lemma SizedMembers(own: seq<Distribution>, incoming: seq<Distribution>, merged: seq<Distribution>)
    requires AllSized(own) && AllSized(incoming)
    requires forall d :: d in merged <==> d in own || d in incoming
    ensures AllSized(merged)
    ensures (set d | d in merged) == (set d | d in own) + (set d | d in incoming)
  {
  }

  // Building a candidate from parts succeeds exactly when only a base package is
  // installed with the runtime, each repository says one thing, and occurrences and
  // release list the same distributions; the result is valid and knows the same.
  lemma NormalizedFacts(c: Candidate, n: Result<Candidate, CandidateError>)
    requires CanonicalList(c.release.distributions) && AllSized(c.release.distributions) && Orderly(c.occurrences)
    requires n == Normalized(c)
    ensures n.Ok? <==>
      (c.exposure == RuntimeInstalled ==> c.release.IsRBase()) && OneHead(HeadsOf(c.occurrences)) && Backed(FactsOf(c))
    ensures n.Ok? ==> Valid(n.value) && FactsOf(n.value) == FactsOf(c) && n.value.release == c.release
  {
    hide HeadsOf, Backed, SortBy, GroupAll, Orderly, CanonicalList, AllSized, OneHead;
    NormalizedOccurrences(c.occurrences);
    var grouped := GroupAll([], SortBy(c.occurrences, CompareForGrouping));
    if grouped.Ok? {
      var kept := c.(occurrences := SortBy(grouped.value, CompareForKeeping));
      assert FactsOf(kept) == FactsOf(c);
      ValidatedIsBacked(kept);
    }
  }

  lemma MergeUnfolded(a: Candidate, b: Candidate)
    ensures Merge(a, b).Ok? ==>
      SameIdentity(a.release.identity, b.release.identity) && MergeReleases(a.release, b.release).Ok?
    ensures SameIdentity(a.release.identity, b.release.identity) && MergeReleases(a.release, b.release).Ok? ==>
      Merge(a, b) == Normalized(Combined(a, b))
  {
  }

  lemma MergesIntoJoin(a: Candidate, b: Candidate, f: Facts, g: Facts, n: Result<Candidate, CandidateError>)
    requires Valid(a) && Valid(b) && f == FactsOf(a) && g == FactsOf(b)
    requires SameIdentity(a.release.identity, b.release.identity) && MergeReleases(a.release, b.release).Ok?
    requires n == Normalized(Combined(a, b))
    ensures f.core == g.core
    ensures n.Ok? <==> OneHead(f.Join(g).heads)
    ensures n.Ok? ==>
      Valid(n.value) && FactsOf(n.value) == f.Join(g) && n.value.release.identity == a.release.identity
  {
    ReleasesMerge(a.release, b.release);
    ValidKnowledge(a);
    ValidKnowledge(b);
    var m := Combined(a, b);
    CombinedIsAssembled(a, b);
    AssembledFacts(a, b, m);
    AssembledExposure(a, b, m);
    BackedJoin(f, g);
    NormalizedFacts(m, n);
    assert HeadsOf(m.occurrences) == FactsOf(m).heads;
  }

  lemma ReleasesConsistent(a: Candidate, b: Candidate, f: Facts, g: Facts)
    requires f == FactsOf(a) && g == FactsOf(b)
    ensures f.core == g.core && AtMostOne(f.publications + g.publications) <==>
      SameIdentity(a.release.identity, b.release.identity) && MergeReleases(a.release, b.release).Ok?
  {
    if SameIdentity(a.release.identity, b.release.identity) {
      ReleasesMerge(a.release, b.release);
      PublicationsAgree(a.release.publication, b.release.publication, f.publications, g.publications);
    } else {
      assert f.core.identity != g.core.identity;
    }
  }

  ghost predicate AtMostOne(dates: set<int>) {
    forall p, q | p in dates && q in dates :: p == q
  }

  lemma PublicationsAgree(a: Option<int>, b: Option<int>, own: set<int>, incoming: set<int>)
    requires own == if a.Some? then {a.value} else {}
    requires incoming == if b.Some? then {b.value} else {}
    ensures AtMostOne(own + incoming) <==> (a.Some? && b.Some? ==> a == b)
  {
    assert a.Some? ==> a == Some(a.value);
    assert b.Some? ==> b == Some(b.value);
    forall p, q | p in own + incoming && q in own + incoming && (a.Some? && b.Some? ==> a == b)
      ensures p == q
    {
      assert p in own || p in incoming;
      assert q in own || q in incoming;
    }
    if a.Some? && b.Some? {
      var p, q := a.value, b.value;
      assert p in own + incoming && q in own + incoming;
      assert AtMostOne(own + incoming) ==> p == q;
      assert p == q <==> a == b;
    }
  }

  // Two valid candidates merge exactly when their facts are consistent, and the
  // merge is valid and knows exactly the join of what they know.
  lemma MergeIsJoin(a: Candidate, b: Candidate, m: Result<Candidate, CandidateError>)
    requires Valid(a) && Valid(b) && m == Merge(a, b)
    ensures m.Ok? <==> FactsOf(a).Consistent(FactsOf(b))
    ensures m.Ok? ==>
      Valid(m.value) && FactsOf(m.value) == FactsOf(a).Join(FactsOf(b)) &&
        m.value.release.identity == a.release.identity
  {
    var f, g := FactsOf(a), FactsOf(b);
    MergeUnfolded(a, b);
    ReleasesConsistent(a, b, f, g);
    if SameIdentity(a.release.identity, b.release.identity) && MergeReleases(a.release, b.release).Ok? {
      MergesIntoJoin(a, b, f, g, m);
    }
  }

  // A valid candidate is determined by its facts, up to version spelling.
  lemma FactsDetermine(a: Candidate, b: Candidate)
    requires Valid(a) && Valid(b) && FactsOf(a) == FactsOf(b)
    ensures SameFacts(a, b)
  {
    CanonIsSame(a.release.version, b.release.version);
    assert forall d :: d in a.release.distributions <==> d in FactsOf(a).distributions;
    assert forall d :: d in b.release.distributions <==> d in FactsOf(b).distributions;
    CanonicalListDecided(a.release.distributions, b.release.distributions);
    OccurrencesCovered(a, b);
    OccurrencesCovered(b, a);
    OccurrenceOrders();
    StrictKeeping(a.occurrences);
    StrictKeeping(b.occurrences);
    StrictlySortedUnique(a.occurrences, b.occurrences, CompareForKeeping);
    assert a.release.publication.Some? ==> a.release.publication.value in FactsOf(b).publications;
    assert b.release.publication.Some? ==> b.release.publication.value in FactsOf(a).publications;
  }

  lemma StrictKeeping(occurrences: seq<Occurrence>)
    requires DistinctBy(occurrences, (o: Occurrence) => o.repository) && Sorted(occurrences, CompareForKeeping)
    ensures StrictlySorted(occurrences, CompareForKeeping)
  {
    var repository := (o: Occurrence) => o.repository;
    forall i, j | 0 <= i < j < |occurrences|
      ensures CompareForKeeping(occurrences[i], occurrences[j]) == Less
    {
      assert repository(occurrences[i]) != repository(occurrences[j]);
      OtherRepository(occurrences[i], occurrences[j]);
    }
  }

  lemma OtherRepository(o: Occurrence, p: Occurrence)
    requires o.repository != p.repository
    ensures CompareForKeeping(o, p) != Equal
  {
    CompareTextFlip(o.repository, p.repository);
  }

  lemma OccurrencesCovered(a: Candidate, b: Candidate)
    requires Valid(a) && Valid(b)
    requires HeadsOf(a.occurrences) == HeadsOf(b.occurrences) && EvidenceOf(a.occurrences) == EvidenceOf(b.occurrences)
    ensures forall o | o in a.occurrences :: o in b.occurrences
  {
    forall o | o in a.occurrences
      ensures o in b.occurrences
    {
      var i :| 0 <= i < |a.occurrences| && a.occurrences[i] == o;
      HeadMember(a.occurrences, i);
      var j := HeadOrigin(b.occurrences, HeadOf(o));
      SameEvidence(a.occurrences, i, b.occurrences, j);
      SameEvidence(b.occurrences, j, a.occurrences, i);
      assert b.occurrences[j] in b.occurrences;
      CanonicalListDecided(o.distributions, b.occurrences[j].distributions);
      assert o == b.occurrences[j];
    }
  }

  lemma SameEvidence(a: seq<Occurrence>, i: nat, b: seq<Occurrence>, j: nat)
    requires i < |a| && j < |b| && a[i].repository == b[j].repository
    requires EvidenceOf(a) == EvidenceOf(b) && DistinctBy(b, (o: Occurrence) => o.repository)
    ensures forall d | d in a[i].distributions :: d in b[j].distributions
  {
    forall d | d in a[i].distributions
      ensures d in b[j].distributions
    {
      EvidenceMember(a, i, d);
      var k := EvidenceOrigin(b, (a[i].repository, d));
      SameRepositorySameIndex(b, j, k);
    }
  }

  // Merging a candidate with one that knows the same changes nothing.
  lemma MergeIsIdempotent(a: Candidate, b: Candidate, m: Result<Candidate, CandidateError>)
    requires Valid(a) && Valid(b) && SameFacts(a, b) && m == Merge(a, b)
    ensures m.Ok? && Valid(m.value) && SameFacts(m.value, a)
  {
    SameFactsAreFacts(a, b);
    ValidKnowledge(a);
    MergeIsJoin(a, b, m);
    JoinWithItself(FactsOf(a), FactsOf(b));
    KnowsTheSame(m.value, a);
  }

  lemma JoinWithItself(f: Facts, g: Facts)
    requires f == g && f.Functional()
    ensures f.Consistent(g) && f.Join(g) == f
  {
    assert f.Join(g) == f;
  }

  lemma KnowsTheSame(m: Candidate, a: Candidate)
    requires Valid(m) && Valid(a) && FactsOf(m) == FactsOf(a)
    ensures SameFacts(m, a)
  {
    FactsDetermine(m, a);
  }

  lemma MergeIsCommutative(a: Candidate, b: Candidate, ab: Result<Candidate, CandidateError>,
    ba: Result<Candidate, CandidateError>)
    requires Valid(a) && Valid(b) && ab == Merge(a, b) && ba == Merge(b, a)
    ensures ab.Ok? <==> ba.Ok?
    ensures ab.Ok? ==> SameFacts(ab.value, ba.value)
  {
    MergeIsJoin(a, b, ab);
    MergeIsJoin(b, a, ba);
    JoinCommutes(FactsOf(a), FactsOf(b));
    if ab.Ok? {
      KnowsTheSame(ab.value, ba.value);
    }
  }

  lemma JoinCommutes(f: Facts, g: Facts)
    ensures f.Consistent(g) <==> g.Consistent(f)
    ensures f.core == g.core ==> f.Join(g) == g.Join(f)
  {
    if f.core == g.core {
      assert f.Join(g) == g.Join(f);
    }
  }

  // Merging left to right and right to left fail together or agree.
  lemma MergeIsAssociative(a: Candidate, b: Candidate, c: Candidate,
      ab: Result<Candidate, CandidateError>, bc: Result<Candidate, CandidateError>,
      left: Result<Candidate, CandidateError>, right: Result<Candidate, CandidateError>)
    requires Valid(a) && Valid(b) && Valid(c)
    requires ab == Merge(a, b) && bc == Merge(b, c)
    requires left == if ab.Ok? then Merge(ab.value, c) else ab
    requires right == if bc.Ok? then Merge(a, bc.value) else bc
    ensures left.Ok? <==> right.Ok?
    ensures left.Ok? ==> SameFacts(left.value, right.value)
  {
    MergeIsJoin(a, b, ab);
    MergeIsJoin(b, c, bc);
    if ab.Ok? {
      MergeIsJoin(ab.value, c, left);
    }
    if bc.Ok? {
      MergeIsJoin(a, bc.value, right);
    }
    JoinAssociates(FactsOf(a), FactsOf(b), FactsOf(c));
    if left.Ok? {
      KnowsTheSame(left.value, right.value);
    }
  }

  lemma JoinAssociates(f: Facts, g: Facts, h: Facts)
    ensures f.Consistent(g) && f.Join(g).Consistent(h) <==> g.Consistent(h) && f.Consistent(g.Join(h))
    ensures f.Join(g).Join(h) == f.Join(g.Join(h))
  {
    var all := f.Join(g).Join(h);
    assert all == f.Join(g.Join(h));
    if f.core == g.core == h.core && all.Functional() {
      FunctionalBelow(f.Join(g), all);
      FunctionalBelow(g.Join(h), all);
    }
  }

  lemma FunctionalBelow(f: Facts, g: Facts)
    requires f.Below(g) && g.Functional()
    ensures f.Functional()
  {
  }

  lemma SameFactsAreFacts(a: Candidate, b: Candidate)
    requires SameFacts(a, b)
    ensures FactsOf(a) == FactsOf(b)
  {
    CanonIsSame(a.release.version, b.release.version);
  }

  // --------------------------------------------------------------- the union

  function KeyOf(c: Candidate): ReleaseIdentity {
    CanonIdentity(c.release.identity)
  }

  type Union = map<ReleaseIdentity, Candidate>

  function Inserted(union: Union, c: Candidate): Result<Union, CandidateError> {
    if KeyOf(c) in union then
      var merged :- Merge(union[KeyOf(c)], c);
      Ok(union[KeyOf(merged) := merged])
    else Ok(union[KeyOf(c) := c])
  }

  // `from_candidates`, in arrival order.
  function FromCandidates(cs: seq<Candidate>): Result<Union, CandidateError> {
    if cs == [] then Ok(map[])
    else
      var before :- FromCandidates(cs[..|cs| - 1]);
      Inserted(before, cs[|cs| - 1])
  }

  class PreparedCandidateSet {
    var candidates: Union

    constructor ()
      ensures candidates == map[]
    {
      candidates := map[];
    }

    method Insert(c: Candidate) returns (fault: Option<CandidateError>)
      modifies this
      ensures match Inserted(old(candidates), c)
        case Ok(union) => fault == None && candidates == union
        case Err(error) => fault == Some(error) && candidates == old(candidates)
    {
      var key := KeyOf(c);
      if key in candidates {
        var merged := Merge(candidates[key], c);
        if merged.Err? {
          return Some(merged.error);
        }
        candidates := candidates[KeyOf(merged.value) := merged.value];
      } else {
        candidates := candidates[key := c];
      }
      return None;
    }

    method InsertAll(cs: seq<Candidate>) returns (fault: Option<CandidateError>)
      requires candidates == map[]
      modifies this
      ensures match FromCandidates(cs)
        case Ok(union) => fault == None && candidates == union
        case Err(_) => fault.Some?
    {
      for i := 0 to |cs|
        invariant FromCandidates(cs[..i]) == Ok(candidates)
      {
        assert cs[..i + 1][..i] == cs[..i];
        fault := Insert(cs[i]);
        if fault.Some? {
          FailedPrefix(cs, i + 1);
          return;
        }
      }
      assert cs[..|cs|] == cs;
      return None;
    }
  }

  lemma {:induction false} FailedPrefix(cs: seq<Candidate>, n: nat)
    requires n <= |cs| && FromCandidates(cs[..n]).Err?
    ensures FromCandidates(cs).Err?
    decreases |cs|
  {
    if n == |cs| {
      assert cs[..n] == cs;
    } else {
      assert cs[..|cs| - 1][..n] == cs[..n];
      FailedPrefix(cs[..|cs| - 1], n);
    }
  }

  ghost predicate Member(c: Candidate, cs: seq<Candidate>, key: ReleaseIdentity) {
    c in cs && KeyOf(c) == key
  }

  ghost predicate ConsistentWith(cs: seq<Candidate>, c: Candidate) {
    forall d | Member(d, cs, KeyOf(c)) :: FactsOf(d).Consistent(FactsOf(c))
  }

  // Any two members of one identity are consistent.
  ghost predicate PairwiseConsistent(cs: seq<Candidate>) {
    forall c | c in cs :: ConsistentWith(cs, c)
  }

  // The facts know what some member of the identity knows, and nothing else.
  ghost predicate Gathered(f: Facts, cs: seq<Candidate>, key: ReleaseIdentity) {
    && (forall c | Member(c, cs, key) :: FactsOf(c).Below(f))
    && (forall p | p in f.publications :: exists c :: Member(c, cs, key) && p in FactsOf(c).publications)
    && (forall d | d in f.distributions :: exists c :: Member(c, cs, key) && d in FactsOf(c).distributions)
    && (forall x | x in f.heads :: exists c :: Member(c, cs, key) && x in FactsOf(c).heads)
    && (forall e | e in f.evidence :: exists c :: Member(c, cs, key) && e in FactsOf(c).evidence)
    && (exists c :: Member(c, cs, key) && f.exposure == FactsOf(c).exposure)
  }

  // Gathered facts are the least upper bound of the members' facts.
  lemma GatheredIsLeast(f: Facts, cs: seq<Candidate>, key: ReleaseIdentity, g: Facts)
    requires Gathered(f, cs, key)
    requires forall c | Member(c, cs, key) :: FactsOf(c).Below(g)
    ensures f.Below(g)
  {
    forall p | p in f.publications
      ensures p in g.publications
    {
      var c :| Member(c, cs, key) && p in FactsOf(c).publications;
    }
    forall d | d in f.distributions
      ensures d in g.distributions
    {
      var c :| Member(c, cs, key) && d in FactsOf(c).distributions;
    }
    forall x | x in f.heads
      ensures x in g.heads
    {
      var c :| Member(c, cs, key) && x in FactsOf(c).heads;
    }
    forall e | e in f.evidence
      ensures e in g.evidence
    {
      var c :| Member(c, cs, key) && e in FactsOf(c).evidence;
    }
    var c :| Member(c, cs, key) && f.exposure == FactsOf(c).exposure;
    assert FactsOf(c).Below(g) && FactsOf(c).Below(f);
  }

  // One entry per identity, knowing exactly what the members of that identity know.
  ghost predicate Gathering(union: Union, cs: seq<Candidate>) {
    && (forall c | c in cs :: KeyOf(c) in union)
    && (forall k | k in union :: Valid(union[k]) && KeyOf(union[k]) == k && Gathered(FactsOf(union[k]), cs, k))
  }

  // Gathered facts are consistent with a newcomer exactly when every member is.
  lemma ConsistentWithGathered(f: Facts, cs: seq<Candidate>, c: Candidate)
    requires Gathered(f, cs, KeyOf(c)) && f.Functional() && FactsOf(c).Functional()
    ensures f.Consistent(FactsOf(c)) <==> ConsistentWith(cs, c)
  {
    var g := FactsOf(c);
    if f.Consistent(g) {
      GatheredBounds(f, cs, c, g);
    }
    if ConsistentWith(cs, c) {
      AgreesOnDates(f, cs, c);
      AgreesOnHeads(f, cs, c);
      GatheredCore(f, cs, c);
      FunctionalJoin(f, g);
    }
  }

  lemma GatheredBounds(f: Facts, cs: seq<Candidate>, c: Candidate, g: Facts)
    requires Gathered(f, cs, KeyOf(c)) && g == FactsOf(c) && f.Consistent(g)
    ensures ConsistentWith(cs, c)
  {
    forall d | Member(d, cs, KeyOf(c))
      ensures FactsOf(d).Consistent(g)
    {
      JoinsBelow(FactsOf(d), f, g);
    }
  }

  lemma JoinsBelow(d: Facts, f: Facts, g: Facts)
    requires d.Below(f) && f.Consistent(g)
    ensures d.Consistent(g)
  {
    FunctionalBelow(d.Join(g), f.Join(g));
  }

  lemma GatheredCore(f: Facts, cs: seq<Candidate>, c: Candidate)
    requires Gathered(f, cs, KeyOf(c)) && ConsistentWith(cs, c)
    ensures f.core == FactsOf(c).core
  {
    var d :| Member(d, cs, KeyOf(c)) && f.exposure == FactsOf(d).exposure;
    assert FactsOf(d).Below(f) && FactsOf(d).Consistent(FactsOf(c));
  }

  lemma FunctionalJoin(f: Facts, g: Facts)
    requires f.Functional() && g.Functional() && f.core == g.core
    requires forall p, q | p in f.publications && q in g.publications :: p == q
    requires forall x, y | x in f.heads && y in g.heads && x.repository == y.repository :: x == y
    ensures f.Consistent(g)
  {
    var j := f.Join(g);
    forall x, y | x in j.heads && y in j.heads && x.repository == y.repository
      ensures x == y
    {
      assert x in f.heads || x in g.heads;
      assert y in f.heads || y in g.heads;
    }
    forall p, q | p in j.publications && q in j.publications
      ensures p == q
    {
      assert p in f.publications || p in g.publications;
      assert q in f.publications || q in g.publications;
    }
  }

  lemma AgreesOnDates(f: Facts, cs: seq<Candidate>, c: Candidate)
    requires Gathered(f, cs, KeyOf(c)) && f.Functional() && ConsistentWith(cs, c)
    ensures forall p, q | p in f.publications && q in FactsOf(c).publications :: p == q
  {
    forall p, q | p in f.publications && q in FactsOf(c).publications
      ensures p == q
    {
      var d :| Member(d, cs, KeyOf(c)) && p in FactsOf(d).publications;
      assert p in FactsOf(d).Join(FactsOf(c)).publications && q in FactsOf(d).Join(FactsOf(c)).publications;
    }
  }

  lemma AgreesOnHeads(f: Facts, cs: seq<Candidate>, c: Candidate)
    requires Gathered(f, cs, KeyOf(c)) && f.Functional() && ConsistentWith(cs, c)
    ensures forall x, y | x in f.heads && y in FactsOf(c).heads && x.repository == y.repository :: x == y
  {
    forall x, y | x in f.heads && y in FactsOf(c).heads && x.repository == y.repository
      ensures x == y
    {
      var d :| Member(d, cs, KeyOf(c)) && x in FactsOf(d).heads;
      assert x in FactsOf(d).Join(FactsOf(c)).heads && y in FactsOf(d).Join(FactsOf(c)).heads;
    }
  }

  lemma MemberAppended(cs: seq<Candidate>, c: Candidate, key: ReleaseIdentity)
    ensures forall d :: Member(d, cs + [c], key) <==> Member(d, cs, key) || (d == c && KeyOf(c) == key)
  {
  }

  lemma PairwiseAppended(cs: seq<Candidate>, c: Candidate)
    requires FactsOf(c).Functional()
    ensures PairwiseConsistent(cs + [c]) <==> PairwiseConsistent(cs) && ConsistentWith(cs, c)
  {
    assert c in cs + [c];
    MemberAppended(cs, c, KeyOf(c));
    JoinWithItself(FactsOf(c), FactsOf(c));
    assert ConsistentWith(cs + [c], c) <==> ConsistentWith(cs, c);
    forall d | d in cs
      ensures ConsistentWith(cs + [c], d) <==>
        ConsistentWith(cs, d) && (KeyOf(c) == KeyOf(d) ==> FactsOf(c).Consistent(FactsOf(d)))
    {
      MemberAppended(cs, c, KeyOf(d));
    }
    forall d | Member(d, cs, KeyOf(c))
      ensures FactsOf(c).Consistent(FactsOf(d)) <==> FactsOf(d).Consistent(FactsOf(c))
    {
      JoinCommutes(FactsOf(c), FactsOf(d));
    }
    if PairwiseConsistent(cs + [c]) {
      assert forall d | d in cs :: d in cs + [c] && ConsistentWith(cs + [c], d);
    }
    if PairwiseConsistent(cs) && ConsistentWith(cs, c) {
      forall d | d in cs + [c]
        ensures ConsistentWith(cs + [c], d)
      {
        if d in cs && KeyOf(c) == KeyOf(d) {
          assert Member(d, cs, KeyOf(c));
        }
      }
    }
  }

  lemma GatheredOther(f: Facts, cs: seq<Candidate>, c: Candidate, key: ReleaseIdentity)
    requires Gathered(f, cs, key) && KeyOf(c) != key
    ensures Gathered(f, cs + [c], key)
  {
    MemberAppended(cs, c, key);
  }

  lemma GatheredFirst(cs: seq<Candidate>, c: Candidate)
    requires forall d | d in cs :: KeyOf(d) != KeyOf(c)
    ensures Gathered(FactsOf(c), cs + [c], KeyOf(c))
  {
    MemberAppended(cs, c, KeyOf(c));
    assert Member(c, cs + [c], KeyOf(c));
  }

  lemma GatheredMore(f: Facts, cs: seq<Candidate>, c: Candidate, j: Facts)
    requires Gathered(f, cs, KeyOf(c)) && f.core == FactsOf(c).core && j == f.Join(FactsOf(c))
    ensures Gathered(j, cs + [c], KeyOf(c))
  {
    var key := KeyOf(c);
    MemberAppended(cs, c, key);
    assert Member(c, cs + [c], key);
    forall d | Member(d, cs + [c], key)
      ensures FactsOf(d).Below(j)
    {
      if d != c {
        assert FactsOf(d).Below(f);
      }
    }
    if j.exposure == f.exposure {
      var d :| Member(d, cs, key) && f.exposure == FactsOf(d).exposure;
      assert Member(d, cs + [c], key);
    }
  }

  // Storing an entry that knows what the newcomer's identity now knows.
  lemma StoredGathers(union: Union, cs: seq<Candidate>, c: Candidate, m: Candidate)
    requires Gathering(union, cs) && Valid(m) && KeyOf(m) == KeyOf(c)
    requires Gathered(FactsOf(m), cs + [c], KeyOf(c))
    ensures Gathering(union[KeyOf(c) := m], cs + [c])
  {
    var next := union[KeyOf(c) := m];
    forall q | q in next
      ensures Valid(next[q]) && KeyOf(next[q]) == q && Gathered(FactsOf(next[q]), cs + [c], q)
    {
      if q != KeyOf(c) {
        GatheredOther(FactsOf(union[q]), cs, c, q);
      }
    }
  }

  lemma MergedGathers(union: Union, cs: seq<Candidate>, c: Candidate, own: Candidate,
    merged: Result<Candidate, CandidateError>)
    requires Gathering(union, cs) && Valid(c)
    requires KeyOf(c) in union && own == union[KeyOf(c)] && merged == Merge(own, c)
    ensures merged.Ok? <==> ConsistentWith(cs, c)
    ensures merged.Ok? ==> KeyOf(merged.value) == KeyOf(c) && Gathering(union[KeyOf(c) := merged.value], cs + [c])
  {
    ValidKnowledge(c);
    ValidKnowledge(own);
    MergeIsJoin(own, c, merged);
    ConsistentWithGathered(FactsOf(own), cs, c);
    if merged.Ok? {
      GatheredMore(FactsOf(own), cs, c, FactsOf(merged.value));
      StoredGathers(union, cs, c, merged.value);
    }
  }

  lemma FirstGathers(union: Union, cs: seq<Candidate>, c: Candidate)
    requires Gathering(union, cs) && Valid(c) && KeyOf(c) !in union
    ensures ConsistentWith(cs, c) && Gathering(union[KeyOf(c) := c], cs + [c])
  {
    GatheredFirst(cs, c);
    StoredGathers(union, cs, c, c);
  }

  lemma InsertedGathers(union: Union, cs: seq<Candidate>, c: Candidate, r: Result<Union, CandidateError>)
    requires Gathering(union, cs) && Valid(c) && r == Inserted(union, c)
    ensures r.Ok? <==> ConsistentWith(cs, c)
    ensures r.Ok? ==> Gathering(r.value, cs + [c])
  {
    if KeyOf(c) in union {
      var own := union[KeyOf(c)];
      MergedGathers(union, cs, c, own, Merge(own, c));
    } else {
      FirstGathers(union, cs, c);
    }
  }

  // Collecting candidates succeeds exactly when members of one identity are
  // pairwise consistent, and then holds the least upper bound of each identity.
  lemma {:induction false} FromCandidatesGathers(cs: seq<Candidate>)
    requires forall c | c in cs :: Valid(c)
    ensures FromCandidates(cs).Ok? <==> PairwiseConsistent(cs)
    ensures FromCandidates(cs).Ok? ==> Gathering(FromCandidates(cs).value, cs)
    decreases |cs|
  {
    if cs != [] {
      var front, c := cs[..|cs| - 1], cs[|cs| - 1];
      assert cs == front + [c];
      FromCandidatesGathers(front);
      ValidKnowledge(c);
      PairwiseAppended(front, c);
      if FromCandidates(front).Ok? {
        InsertedGathers(FromCandidates(front).value, front, c, FromCandidates(cs));
      }
    }
  }

  // Every arrival order, with any repetition, gives every identity the same facts.
  lemma ArrivalOrderIrrelevant(cs: seq<Candidate>, ds: seq<Candidate>, k: ReleaseIdentity)
    requires forall c | c in cs :: Valid(c)
    requires forall c :: c in cs <==> c in ds
    ensures FromCandidates(cs).Ok? <==> FromCandidates(ds).Ok?
    ensures FromCandidates(cs).Ok? ==>
      var (u, v) := (FromCandidates(cs).value, FromCandidates(ds).value);
      (k in u <==> k in v) && (k in u ==> SameFacts(u[k], v[k]))
  {
    FromCandidatesGathers(cs);
    FromCandidatesGathers(ds);
    SamePairs(cs, ds);
    SamePairs(ds, cs);
    if FromCandidates(cs).Ok? {
      var u, v := FromCandidates(cs).value, FromCandidates(ds).value;
      KeyCovered(u, v, cs, ds, k);
      KeyCovered(v, u, ds, cs, k);
      if k in u {
        SameGathering(u, v, cs, ds, k);
      }
    }
  }

  lemma SamePairs(cs: seq<Candidate>, ds: seq<Candidate>)
    requires forall c :: c in cs <==> c in ds
    ensures PairwiseConsistent(cs) ==> PairwiseConsistent(ds)
  {
    if PairwiseConsistent(cs) {
      forall c | c in ds
        ensures ConsistentWith(ds, c)
      {
        assert c in cs;
        forall d | Member(d, ds, KeyOf(c))
          ensures FactsOf(d).Consistent(FactsOf(c))
        {
          assert Member(d, cs, KeyOf(c));
        }
      }
    }
  }

  lemma KeyCovered(u: Union, v: Union, cs: seq<Candidate>, ds: seq<Candidate>, k: ReleaseIdentity)
    requires Gathering(u, cs) && Gathering(v, ds)
    requires forall c :: c in cs <==> c in ds
    ensures k in u ==> k in v
  {
    if k in u {
      assert Gathered(FactsOf(u[k]), cs, k);
      var c :| Member(c, cs, k) && FactsOf(u[k]).exposure == FactsOf(c).exposure;
      assert c in ds;
    }
  }

  lemma SameGathering(u: Union, v: Union, cs: seq<Candidate>, ds: seq<Candidate>, k: ReleaseIdentity)
    requires Gathering(u, cs) && Gathering(v, ds) && k in u && k in v
    requires forall c :: c in cs <==> c in ds
    ensures SameFacts(u[k], v[k])
  {
    assert forall d :: Member(d, cs, k) <==> Member(d, ds, k);
    GatheredIsLeast(FactsOf(u[k]), cs, k, FactsOf(v[k]));
    GatheredIsLeast(FactsOf(v[k]), ds, k, FactsOf(u[k]));
    BelowIsAntisymmetric(FactsOf(u[k]), FactsOf(v[k]));
    KnowsTheSame(u[k], v[k]);
  }
}
