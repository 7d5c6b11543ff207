/**
 Which interrupted publications the next run completes, and which are refused for
 ever. A run may leave nothing, a publication that is complete up to its marker, or
 temporaries that no later run can use; the last are described exactly.
 */
module CrashRecovery {
  import opened Prelude
  import opened Versions
  import opened Domain
  import opened Publication
  import opened Transactions
  import opened CrashSafety

  // -------------------------------------------------------- checks that pass

  // A request of well-formed values that passes validation, with intact cache objects.
  ghost predicate Admissible(h: Host, requested: seq<Artifact>) {
    && InputsValid(requested)
    && CachesValid(h, requested)
    && forall a | a in requested :: WellTyped(a)
  }

  lemma StateMatchesTx(h: Host, p: Pending, requested: seq<Artifact>)
    requires GoodFor(h, p, requested)
    ensures StateMatches(p.state, p.Tx(), requested)
  {
  }

  lemma NamesBoundThroughout(h: Host, p: Pending, requested: seq<Artifact>)
    requires GoodFor(h, p, requested)
    ensures NamesBound(p.Marked(), p.Tx()) && NamesBound(p.Exposed(), p.Tx()) && NamesBound(p.Stated(), p.Tx())
  {
    assert |map[p.names.staging := p.tree]| == 1;
  }

  lemma StateFoundThroughout(h: Host, p: Pending, requested: seq<Artifact>)
    requires StateMatches(p.state, p.Tx(), requested)
    ensures CheckStateFor(p.Marked(), p.Tx(), requested) == None
    ensures CheckStateFor(p.Exposed(), p.Tx(), requested) == None
    ensures CheckStateFor(p.Stated(), p.Tx(), requested) == None
  {
    assert |map[p.names.state := Whole(p.state)]| == 1;
  }

  lemma MarkedAccepted(h: Host, p: Pending, requested: seq<Artifact>)
    requires GoodFor(h, p, requested)
    ensures CheckMarked(h, p.Marked(), requested) == Ok(p.Tx())
    ensures CheckMarked(h, p.Exposed(), requested) == Ok(p.Tx())
    ensures CheckMarked(h, p.Stated(), requested) == Ok(p.Tx())
  {
    StateMatchesTx(h, p, requested);
    NamesBoundThroughout(h, p, requested);
    StateFoundThroughout(h, p, requested);
    forall d | d == p.Marked() || d == p.Exposed() || d == p.Stated()
      ensures d.marker.Some? && CheckMarked(h, d, requested) == Ok(p.Tx())
    {
      assert TreeToCheck(d, p.Tx()) == p.tree;
    }
  }

  lemma PreparedAccepted(h: Host, p: Pending, requested: seq<Artifact>, m: string)
    requires GoodFor(h, p, requested)
    ensures CheckOrphans(h, p.Prepared(), requested) == Ok(p.Tx())
    ensures CheckOrphans(h, p.Prepared().(markerTemps := map[m := Whole(p.Tx())]), requested) == Ok(p.Tx())
  {
    SingletonKeys(p, m);
  }

  lemma SingletonKeys(p: Pending, m: string)
    ensures |p.Prepared().stateTemps| == 1 && OnlyKey(p.Prepared().stateTemps) == p.names.state
    ensures |p.Prepared().stagings| == 1 && OnlyKey(p.Prepared().stagings) == p.names.staging
    ensures |map[m := Whole(p.Tx())]| == 1 && OnlyKey(map[m := Whole(p.Tx())]) == m
    ensures var torn: map<string, Slot<Transaction>> := map[m := Torn]; |torn| == 1 && OnlyKey(torn) == m
  {
    assert |map[p.names.staging := p.tree]| == 1;
    assert |map[p.names.state := Whole(p.state)]| == 1;
    assert |map[m := Whole(p.Tx())]| == 1;
    var torn: map<string, Slot<Transaction>> := map[m := Torn];
    assert |torn| == 1;
  }

  // -------------------------------------------------------------- the way on

  lemma StepsOn(p: Pending)
    ensures Adopt(p.Prepared(), p.Tx()) == p.Marked()
    ensures Expose(p.Marked(), p.Tx()) == p.Exposed()
    ensures Expose(p.Exposed(), p.Tx()) == p.Exposed() && Expose(p.Stated(), p.Tx()) == p.Stated()
    ensures CommitState(p.Exposed(), p.Tx()) == p.Stated() && CommitState(p.Stated(), p.Tx()) == p.Stated()
    ensures p.Stated().(marker := None) == p.Committed()
  {
  }

  lemma MarkedResumes(h: Host, p: Pending, requested: seq<Artifact>, d: Directory, d': Directory, out: Outcome<()>,
    smooth: bool)
    requires GoodFor(h, p, requested)
    requires d == p.Marked() || d == p.Exposed() || d == p.Stated()
    requires d.marker.Some? && RecoveredMarked(h, requested, d, d', out, smooth)
    ensures (out == Done(()) && d' == p.Committed()) || (!smooth && out.Interrupted() && p.Resumable(d'))
  {
    MarkedAccepted(h, p, requested);
    StepsOn(p);
  }

  // The same where no marker is in place yet.
  lemma PreparedResumes(h: Host, p: Pending, requested: seq<Artifact>, m: string, d: Directory, d': Directory,
    out: Outcome<()>, smooth: bool)
    requires GoodFor(h, p, requested)
    requires d == p.Prepared() || exists k :: d == p.Prepared().(markerTemps := map[k := Whole(p.Tx())])
    requires Recovered(h, requested, m, d, d', out, smooth)
    ensures (out == Done(()) && d' == p.Committed())
         || (!smooth && out.Interrupted() && (p.Resumable(d') || p.TornMarker(d')))
  {
    PreparedAccepted(h, p, requested, m);
    if d != p.Prepared() {
      var k :| d == p.Prepared().(markerTemps := map[k := Whole(p.Tx())]);
      PreparedAccepted(h, p, requested, k);
    }
    assert CheckOrphans(h, d, requested) == Ok(p.Tx()) && Adopt(d, p.Tx()) == p.Marked();
    if RecoveredMarked(h, requested, p.Marked(), d', out, smooth) {
      MarkedResumes(h, p, requested, p.Marked(), d', out, smooth);
    } else {
      CutAdoption(p, m, d, d');
    }
  }

  lemma CutAdoption(p: Pending, m: string, d: Directory, d': Directory)
    requires d == p.Prepared() || exists k :: d == p.Prepared().(markerTemps := map[k := Whole(p.Tx())])
    requires AdoptionCut(m, d, d', p.Tx())
    ensures p.Resumable(d') || p.TornMarker(d')
  {
    if d' == Adopt(d, p.Tx()) {
      assert d' == p.Marked();
    } else if d' != d {
      assert d == p.Prepared() by {
        if k :| d == p.Prepared().(markerTemps := map[k := Whole(p.Tx())]) {
          assert k in d.markerTemps;
        }
      }
    }
  }

  // A recovery of a resumable publication for the same request finishes it, or is
  // interrupted with the publication still resumable, or dies writing the marker.
  lemma RecoveryResumes(h: Host, p: Pending, requested: seq<Artifact>, m: string, d: Directory, d': Directory,
    out: Outcome<()>, smooth: bool)
    requires GoodFor(h, p, requested) && p.Resumable(d)
    requires Recovered(h, requested, m, d, d', out, smooth)
    ensures (out == Done(()) && d' == p.Committed())
         || (!smooth && out.Interrupted() && (p.Resumable(d') || p.TornMarker(d')))
  {
    if d.marker.Some? {
      MarkedResumes(h, p, requested, d, d', out, smooth);
    } else if d != p.Committed() {
      PreparedResumes(h, p, requested, m, d, d', out, smooth);
    }
  }

  // ---------------------------------------------------- the no-op path accepts

  lemma {:induction false} FindRecordFinds(records: seq<Record>, identity: string, sha256: string, i: nat)
    requires i < |records| && records[i].identity == identity && records[i].sha256 == sha256
    ensures var found := FindRecord(records, identity, sha256);
      found.Some? && found.value in records && found.value.identity == identity && found.value.sha256 == sha256
  {
    if !(records[0].identity == identity && records[0].sha256 == sha256) {
      FindRecordFinds(records[1..], identity, sha256, i - 1);
    }
  }

  lemma SameKeySameIndex(canonical: seq<Artifact>, i: nat, j: nat)
    requires DistinctBy(canonical, (a: Artifact) => a.Package())
    requires i < |canonical| && j < |canonical|
    requires WellTyped(canonical[i]) && WellTyped(canonical[j])
    requires IdentityKey(canonical[i].identity) == IdentityKey(canonical[j].identity)
    ensures i == j
  {
    IdentityKeyNamesPackage(canonical[i]);
    IdentityKeyNamesPackage(canonical[j]);
    var package := (a: Artifact) => a.Package();
    assert package(canonical[i]) == package(canonical[j]);
  }

  lemma RecordIdentity(records: seq<Record>, requested: seq<Artifact>, i: nat)
    requires RecordsMatch(records, requested) && i < |records|
    ensures |records| == |CanonicalArtifacts(requested)|
    ensures records[i].identity == IdentityKey(CanonicalArtifacts(requested)[i].identity)
  {
    assert RecordMatches(records[i], CanonicalArtifacts(requested)[i]);
  }

  // The record found by identity and digest is the artifact's own: identity keys
  // name their package, and packages are distinct.
  lemma FoundRecordMatches(h: Host, records: seq<Record>, requested: seq<Artifact>, i: nat)
    requires Admissible(h, requested) && RecordsMatch(records, requested) && i < |records|
    ensures FindRecord(records, records[i].identity, records[i].sha256) == Some(records[i])
  {
    var canonical := CanonicalArtifacts(requested);
    FindRecordFinds(records, records[i].identity, records[i].sha256, i);
    var found := FindRecord(records, records[i].identity, records[i].sha256).value;
    var j :| 0 <= j < |records| && records[j] == found;
    assert i == j by {
      CanonicalOrder(requested);
      CanonicalDistinct(requested);
      RecordIdentity(records, requested, i);
      RecordIdentity(records, requested, j);
      assert canonical[j] in canonical && canonical[i] in canonical;
      SameKeySameIndex(canonical, i, j);
    }
  }

  lemma RecordOf(h: Host, records: seq<Record>, requested: seq<Artifact>, a: Artifact) returns (record: Record)
    requires Admissible(h, requested) && RecordsMatch(records, requested) && a in requested
    ensures record in records && RecordMatches(record, a) && CacheObjectValid(h, a)
    ensures FindRecord(records, IdentityKey(a.identity), a.sha256) == Some(record)
  {
    CanonicalOrder(requested);
    var k :| 0 <= k < |requested| && requested[k] == a;
    assert CacheObjectValid(h, requested[k]);
    var i :| 0 <= i < |CanonicalArtifacts(requested)| && CanonicalArtifacts(requested)[i] == a;
    FoundRecordMatches(h, records, requested, i);
    record := records[i];
    assert RecordMatches(records[i], CanonicalArtifacts(requested)[i]);
  }

  lemma ExistingAccepted(h: Host, p: Pending, requested: seq<Artifact>, a: Artifact)
    requires GoodFor(h, p, requested) && Admissible(h, requested) && a in requested
    ensures CheckExisting(h, p.state, a, Some(p.tree)) == None
  {
    var record := RecordOf(h, p.state.records, requested, a);
    var i :| 0 <= i < |p.state.records| && p.state.records[i] == record;
    assert RecordPresent(h, p.tree.contrib, p.state.records[i]);
    assert (CONTRIB + a.Destination())[|CONTRIB|..] == a.Destination();
  }

  lemma {:induction false} AllExistingAccepted(h: Host, p: Pending, requested: seq<Artifact>, rest: seq<Artifact>)
    requires GoodFor(h, p, requested) && Admissible(h, requested)
    requires forall a | a in rest :: a in requested
    ensures CheckAllExisting(h, p.state, rest, Some(p.tree)) == None
  {
    if rest != [] {
      ExistingAccepted(h, p, requested, rest[0]);
      AllExistingAccepted(h, p, requested, rest[1..]);
    }
  }

  // The same request over its committed publication is a validated no-op.
  lemma CommittedAccepted(h: Host, p: Pending, requested: seq<Artifact>)
    requires GoodFor(h, p, requested) && Admissible(h, requested)
    ensures CheckCommitted(h, p.Committed(), requested) == Ok(p.state)
  {
    CanonicalOrder(requested);
    AllExistingAccepted(h, p, requested, requested);
  }

  // ------------------------------------------------------------ one more run

  lemma RunResumes(h: Host, p: Pending, requested: seq<Artifact>, names: Names, d: Directory, d': Directory,
    out: Outcome<State>, smooth: bool)
    requires GoodFor(h, p, requested) && Admissible(h, requested)
    requires p.Resumable(d) && Ran(h, requested, names, d, d', out, smooth)
    ensures (out == Done(p.state) && d' == p.Committed())
         || (!smooth && out.Interrupted() && (p.Resumable(d') || p.TornMarker(d')))
  {
    hide GoodFor, Recovered;
    var middle, recovery :|
      && Recovered(h, requested, names.marker, d, middle, recovery, smooth)
      && AfterRecovery(h, requested, names, middle, recovery, d', out, smooth);
    RecoveryResumes(h, p, requested, names.marker, d, middle, recovery, smooth);
    CommittedAccepted(h, p, requested);
  }

  // Temporaries that cannot be bound are refused, and nothing changes.
  lemma UnboundIsRefused(h: Host, requested: seq<Artifact>, names: Names, d: Directory, d': Directory,
    out: Outcome<State>, smooth: bool)
    requires d.marker.None? && !Quiet(d) && CheckOrphans(h, d, requested).Err?
    requires Ran(h, requested, names, d, d', out, smooth)
    ensures d' == d && out.Failed? && !out.Interrupted()
  {
    if InputsValid(requested) {
      var middle, recovery :|
        && Recovered(h, requested, names.marker, d, middle, recovery, smooth)
        && AfterRecovery(h, requested, names, middle, recovery, d', out, smooth);
    }
  }

  // A marker temporary that was cut short is refused by every later run of every
  // request, and nothing changes any more.
  lemma TornMarkerRefused(h: Host, p: Pending, requested: seq<Artifact>, names: Names, d: Directory, d': Directory,
    out: Outcome<State>, smooth: bool)
    requires p.TornMarker(d) && Ran(h, requested, names, d, d', out, smooth)
    ensures d' == d && out.Failed? && !out.Interrupted()
  {
    var m :| d == p.Prepared().(markerTemps := map[m := Torn]);
    SingletonKeys(p, m);
    UnboundIsRefused(h, requested, names, d, d', out, smooth);
  }

  // Temporaries left before the state temporary was complete, or whose staging tree
  // is gone, are refused by every later run, whatever the digests.
  lemma UnpreparedRefused(h: Host, p: Pending, requested: seq<Artifact>, names: Names, d: Directory, d': Directory,
    out: Outcome<State>, smooth: bool)
    requires p.Debris(d) && !Quiet(d)
    requires d.stagings == map[] || d.stateTemps == map[] || p.names.state !in d.stateTemps ||
      d.stateTemps[p.names.state] == Torn
    requires Ran(h, requested, names, d, d', out, smooth)
    ensures d' == d && out.Failed? && !out.Interrupted()
  {
    assert CheckOrphans(h, d, requested) == Err(TransactionConflict);
    UnboundIsRefused(h, requested, names, d, d', out, smooth);
  }

  lemma HalfMarkedIsTorn(p: Pending)
    ensures p.PreparedIn(p.HalfMarked()) && p.TornMarker(p.HalfMarked())
  {
    assert p.HalfMarked() == p.Prepared().(markerTemps := map[p.names.marker := Torn]);
  }

  // A plan that lets a number of steps happen and then kills the process.
  function DeathAfter(steps: nat): (plan: seq<Fault>)
    ensures DiesAfter(plan, steps) && !Smooth(plan)
  {
    var plan := seq(steps, _ => Proceed) + [Crash];
    assert plan[steps] in plan;
    plan
  }

  // The code does stop there: a run of any request that can be built, when the process
  // dies between creating and filling the marker temporary, leaves a complete staging
  // tree and state temporary beside a marker temporary that is cut short.
  method TornMarkerCanHappen(h: Host, requested: seq<Artifact>, names: Names, packages: Bytes)
    returns (w: Workspace, out: Outcome<State>)
    requires InputsValid(requested) && CachesValid(h, CanonicalArtifacts(requested))
    requires WritePackages(h, CanonicalArtifacts(requested)) == Some(packages)
    ensures fresh(w) && w.host == h && out == Crashed
    ensures var p := PendingFor(h, requested, names, packages);
      w.View() == p.HalfMarked() && p.PreparedIn(w.View()) && p.TornMarker(w.View())
    ensures Ran(h, requested, names, EMPTY, w.View(), out, false)
  {
    w := new Workspace(h);
    w.plan := DeathAfter(2 * |CanonicalArtifacts(requested)| + 7);
    out := w.Materialize(requested, names);
    HalfMarkedIsTorn(PendingFor(h, requested, names, packages));
  }

  // ---------------------------------------------------- what no run can use

  // Distinct contents have distinct digests.
  ghost predicate CollisionFree(h: Host) {
    forall a, b :: h.sha(a) == h.sha(b) ==> a == b
  }

  // Records and index digest determine a valid tree.
  lemma ContentsDetermine(h: Host, tree: Tree, other: Tree, records: seq<Record>, index: string)
    requires CollisionFree(h)
    requires ValidContents(h, tree, records, index) && ValidContents(h, other, records, index)
    ensures tree == other
  {
    forall name | name in tree.contrib
      ensures tree.contrib[name] == other.contrib[name]
    {
      if name != INDEX {
        var i :| 0 <= i < |records| && CONTRIB <= records[i].destination && ContribName(records[i]) == name;
        assert RecordPresent(h, tree.contrib, records[i]) && RecordPresent(h, other.contrib, records[i]);
      }
    }
  }

  // Temporaries of a run that do not make up its publication, or a torn marker.
  ghost predicate Stuck(p: Pending, d: Directory) {
    p.TornMarker(d) || (p.Debris(d) && !Quiet(d) && !p.Resumable(d))
  }

  // The only temporaries that can be bound are those that make up the publication.
  lemma BoundIsResumable(h: Host, p: Pending, requested: seq<Artifact>, d: Directory)
    requires CollisionFree(h) && ValidContents(h, p.tree, p.state.records, p.state.index)
    requires p.Debris(d) && CheckOrphans(h, d, requested).Ok?
    ensures p.Resumable(d)
  {
    hide ValidContents, CollisionFree, OnlyKey;
    var stateName, staging := OnlyKey(d.stateTemps), OnlyKey(d.stagings);
    assert stateName == p.names.state && staging == p.names.staging;
    assert d.stateTemps == map[p.names.state := Whole(p.state)];
    ContentsDetermine(h, d.stagings[staging], p.tree, p.state.records, p.state.index);
    assert d.stagings == map[p.names.staging := p.tree];
    assert CheckOrphans(h, d, requested) == Ok(p.Tx());
    if d.markerTemps == map[] {
      assert d == p.Prepared();
    } else {
      var m := OnlyKey(d.markerTemps);
      assert d.markerTemps == map[m := Whole(p.Tx())];
      assert d == p.Prepared().(markerTemps := map[m := Whole(p.Tx())]);
    }
  }

  // Stuck temporaries are refused by every later run of every request, and nothing
  // changes any more.
  lemma StuckIsRefused(h: Host, p: Pending, requested: seq<Artifact>, names: Names, d: Directory, d': Directory,
    out: Outcome<State>, smooth: bool)
    requires CollisionFree(h) && ValidContents(h, p.tree, p.state.records, p.state.index)
    requires Stuck(p, d) && Ran(h, requested, names, d, d', out, smooth)
    ensures d' == d && out.Failed? && !out.Interrupted()
  {
    if p.TornMarker(d) {
      TornMarkerRefused(h, p, requested, names, d, d', out, smooth);
    } else {
      if CheckOrphans(h, d, requested).Ok? {
        BoundIsResumable(h, p, requested, d);
      }
      UnboundIsRefused(h, requested, names, d, d', out, smooth);
    }
  }

  // What a run leaves before its marker is in place is completed by the next
  // undisturbed run of the request exactly when it makes up the publication.
  lemma DebrisDecided(h: Host, p: Pending, requested: seq<Artifact>, names: Names, d: Directory, d': Directory,
    out: Outcome<State>)
    requires CollisionFree(h) && GoodFor(h, p, requested) && Admissible(h, requested)
    requires p.Debris(d) && !Quiet(d) && Ran(h, requested, names, d, d', out, true)
    ensures p.Resumable(d) <==> out == Done(p.state)
    ensures d' == if p.Resumable(d) then p.Committed() else d
    ensures !p.Resumable(d) ==> out.Failed?
  {
    if p.Resumable(d) {
      RunResumes(h, p, requested, names, d, d', out, true);
    } else {
      StuckIsRefused(h, p, requested, names, d, d', out, true);
    }
  }

  // Once the staging tree and state temporary are complete, any number of
  // interrupted runs of the same request leave the publication resumable or stuck
  // on a torn marker temporary.
  lemma {:induction false} InterruptedRunsResume(h: Host, p: Pending, requested: seq<Artifact>, ds: seq<Directory>,
    runs: seq<Run>)
    requires GoodFor(h, p, requested) && Admissible(h, requested)
    requires History(h, ds, runs) && (forall i | 0 <= i < |runs| :: runs[i].requested == requested)
    requires p.Resumable(ds[0]) || p.TornMarker(ds[0])
    ensures p.Resumable(ds[|runs|]) || p.TornMarker(ds[|runs|])
  {
    hide GoodFor, Admissible, Ran;
    if runs != [] {
      var n := |runs| - 1;
      assert Ran(h, runs[n].requested, runs[n].names, ds[n], ds[n + 1], runs[n].outcome, runs[n].smooth);
      InterruptedRunsResume(h, p, requested, ds[..n + 1], runs[..n]);
      if p.Resumable(ds[n]) {
        RunResumes(h, p, requested, runs[n].names, ds[n], ds[n + 1], runs[n].outcome, runs[n].smooth);
      } else {
        TornMarkerRefused(h, p, requested, runs[n].names, ds[n], ds[n + 1], runs[n].outcome, runs[n].smooth);
      }
    }
  }

  // An undisturbed run from an empty directory publishes the pending publication.
  lemma UndisturbedRun(h: Host, requested: seq<Artifact>, names: Names, packages: Bytes, d': Directory,
    out: Outcome<State>)
    requires InputsValid(requested) && CachesValid(h, CanonicalArtifacts(requested))
    requires WritePackages(h, CanonicalArtifacts(requested)) == Some(packages)
    requires Ran(h, requested, names, EMPTY, d', out, true)
    ensures var p := PendingFor(h, requested, names, packages); out == Done(p.state) && d' == p.Committed()
  {
  }

  // What a first run leaves when it is stopped after its staging tree and state
  // temporary are complete is resumable, or ends in a torn marker temporary.
  lemma StoppedAfterPreparation(h: Host, requested: seq<Artifact>, names: Names, packages: Bytes, d': Directory,
    out: Outcome<State>, smooth: bool)
    requires InputsValid(requested) && CachesValid(h, CanonicalArtifacts(requested))
    requires WritePackages(h, CanonicalArtifacts(requested)) == Some(packages)
    requires Ran(h, requested, names, EMPTY, d', out, smooth)
    ensures var p := PendingFor(h, requested, names, packages);
      d'.marker.Some? || d'.state.Some? || p.PreparedIn(d') ==> p.Resumable(d') || p.TornMarker(d')
  {
    var p := PendingFor(h, requested, names, packages);
    if p.PreparedIn(d') && p.Debris(d') {
      PreparedDebris(p, d');
    }
  }

  lemma PreparedDebris(p: Pending, d: Directory)
    requires p.PreparedIn(d) && p.Debris(d)
    ensures p.Resumable(d) || p.TornMarker(d)
  {
    if d.markerTemps == map[] {
      assert d == p.Prepared();
    } else {
      var m := p.names.marker;
      assert d.markerTemps.Keys == {m} by {
        assert forall k | k in d.markerTemps :: k == m;
        assert d.markerTemps.Keys != {};
      }
      assert d.markerTemps == map[m := d.markerTemps[m]];
      assert d == p.Prepared().(markerTemps := map[m := d.markerTemps[m]]);
    }
  }

  // An admissible request plans a good publication under any generated names.
  lemma AdmissibleIsGood(h: Host, requested: seq<Artifact>, names: Names, packages: Bytes)
    requires Admissible(h, requested) && Generated(names) && WritePackages(h, requested) == Some(packages)
    ensures CachesValid(h, CanonicalArtifacts(requested))
    ensures WritePackages(h, CanonicalArtifacts(requested)) == Some(packages)
    ensures GoodFor(h, PendingFor(h, requested, names, packages), requested)
  {
    CanonicalOrder(requested);
    IndexOfCanonical(h, requested);
    forall i | 0 <= i < |CanonicalArtifacts(requested)|
      ensures CacheObjectValid(h, CanonicalArtifacts(requested)[i])
    {
      assert CanonicalArtifacts(requested)[i] in requested;
      var k :| 0 <= k < |requested| && requested[k] == CanonicalArtifacts(requested)[i];
    }
    GeneratedAreSafe(names);
    PlannedIsGood(h, requested, names, packages);
  }

  lemma FirstRunPrepares(h: Host, requested: seq<Artifact>, names: Names, packages: Bytes, d': Directory,
    out: Outcome<State>, smooth: bool)
    requires Admissible(h, requested) && Generated(names)
    requires WritePackages(h, requested) == Some(packages)
    requires Ran(h, requested, names, EMPTY, d', out, smooth)
    ensures GoodFor(h, PendingFor(h, requested, names, packages), requested)
    ensures var p := PendingFor(h, requested, names, packages);
      d'.marker.Some? || d'.state.Some? || p.PreparedIn(d') ==> p.Resumable(d') || p.TornMarker(d')
  {
    AdmissibleIsGood(h, requested, names, packages);
    StoppedAfterPreparation(h, requested, names, packages, d', out, smooth);
  }

  lemma LastRunCompletes(h: Host, p: Pending, requested: seq<Artifact>, names: Names, d: Directory, d': Directory,
    out: Outcome<State>)
    requires GoodFor(h, p, requested) && Admissible(h, requested)
    requires p.Resumable(d) || p.TornMarker(d)
    requires Ran(h, requested, names, d, d', out, true)
    ensures if p.TornMarker(d) then d' == d && out.Failed? else d' == p.Committed() && out == Done(p.state)
  {
    if p.TornMarker(d) {
      TornMarkerRefused(h, p, requested, names, d, d', out, true);
    } else {
      RunResumes(h, p, requested, names, d, d', out, true);
    }
  }

  // What lies between the first run and the last.
  lemma LaterHistory(h: Host, ds: seq<Directory>, runs: seq<Run>)
    requires |runs| >= 2 && History(h, ds, runs)
    ensures History(h, ds[1..|runs|], runs[1..|runs| - 1])
  {
    var laterDs, laterRuns := ds[1..|runs|], runs[1..|runs| - 1];
    forall i | 0 <= i < |laterRuns|
      ensures Ran(h, laterRuns[i].requested, laterRuns[i].names, laterDs[i], laterDs[i + 1], laterRuns[i].outcome,
        laterRuns[i].smooth)
    {
      assert Ran(h, runs[i + 1].requested, runs[i + 1].names, ds[i + 1], ds[i + 1 + 1], runs[i + 1].outcome,
        runs[i + 1].smooth);
    }
  }

  // The recovery theorem. A first run is stopped once its staging tree and state
  // temporary are complete; further runs of the same request are stopped anywhere;
  // then one run is left alone. Unless some run died between creating and filling
  // the marker temporary, the last run ends with the state and repository of the
  // undisturbed run and no temporaries; otherwise it is refused.
  lemma CrashedPublicationCompletes(h: Host, p: Pending, requested: seq<Artifact>, packages: Bytes, ds: seq<Directory>,
    runs: seq<Run>)
    requires Admissible(h, requested) && WritePackages(h, requested) == Some(packages)
    requires |runs| >= 2 && History(h, ds, runs) && ds[0] == EMPTY
    requires forall i | 0 <= i < |runs| :: runs[i].requested == requested
    requires Generated(runs[0].names) && runs[|runs| - 1].smooth
    requires p == PendingFor(h, requested, runs[0].names, packages)
    requires ds[1].marker.Some? || ds[1].state.Some? || p.PreparedIn(ds[1])
    ensures if p.TornMarker(ds[|runs| - 1])
      then ds[|runs|] == ds[|runs| - 1] && runs[|runs| - 1].outcome.Failed?
      else ds[|runs|] == p.Committed() && runs[|runs| - 1].outcome == Done(p.state)
  {
    var n, first, last := |runs|, runs[0], runs[|runs| - 1];
    assert Ran(h, runs[0].requested, runs[0].names, ds[0], ds[0 + 1], runs[0].outcome, runs[0].smooth);
    FirstRunPrepares(h, requested, first.names, packages, ds[1], first.outcome, first.smooth);
    LaterHistory(h, ds, runs);
    InterruptedRunsResume(h, p, requested, ds[1..n], runs[1..n - 1]);
    assert ds[1..n][|runs[1..n - 1]|] == ds[n - 1];
    assert Ran(h, runs[n - 1].requested, runs[n - 1].names, ds[n - 1], ds[n - 1 + 1], runs[n - 1].outcome,
      runs[n - 1].smooth);
    LastRunCompletes(h, p, requested, last.names, ds[n - 1], ds[n], last.outcome);
  }

  // ---------------------------------------------- every history of one request

  // What runs of the request can leave under these names.
  ghost predicate Left(h: Host, requested: seq<Artifact>, packages: Bytes, d: Directory, names: Names) {
    var p := PendingFor(h, requested, names, packages);
    Generated(names) && (d == EMPTY || p.Resumable(d) || Stuck(p, d))
  }

  ghost predicate StuckUnder(h: Host, requested: seq<Artifact>, packages: Bytes, d: Directory, names: Names) {
    Generated(names) && Stuck(PendingFor(h, requested, names, packages), d)
  }

  lemma FreshRunLeaves(h: Host, requested: seq<Artifact>, names: Names, packages: Bytes, d': Directory,
    out: Outcome<State>, smooth: bool)
    requires Admissible(h, requested) && Generated(names) && WritePackages(h, requested) == Some(packages)
    requires Ran(h, requested, names, EMPTY, d', out, smooth)
    ensures Left(h, requested, packages, d', names)
  {
    AdmissibleIsGood(h, requested, names, packages);
    var p := PendingFor(h, requested, names, packages);
    if p.Debris(d') && Quiet(d') {
      assert d' == EMPTY;
    }
  }

  // One more run of the request, stopped anywhere.
  lemma RunLeaves(h: Host, requested: seq<Artifact>, packages: Bytes, d: Directory, before: Names, run: Run,
    d': Directory) returns (after: Names)
    requires CollisionFree(h) && Admissible(h, requested) && WritePackages(h, requested) == Some(packages)
    requires Left(h, requested, packages, d, before) && Generated(run.names)
    requires Ran(h, requested, run.names, d, d', run.outcome, run.smooth)
    ensures Left(h, requested, packages, d', after)
  {
    var p := PendingFor(h, requested, before, packages);
    AdmissibleIsGood(h, requested, before, packages);
    if d == EMPTY {
      FreshRunLeaves(h, requested, run.names, packages, d', run.outcome, run.smooth);
      after := run.names;
    } else {
      if p.Resumable(d) {
        RunResumes(h, p, requested, run.names, d, d', run.outcome, run.smooth);
      } else {
        StuckIsRefused(h, p, requested, run.names, d, d', run.outcome, run.smooth);
      }
      after := before;
    }
  }

  ghost predicate RunsOf(requested: seq<Artifact>, runs: seq<Run>) {
    forall i | 0 <= i < |runs| :: runs[i].requested == requested && Generated(runs[i].names)
  }

  lemma {:induction false} HistoryLeaves(h: Host, requested: seq<Artifact>, packages: Bytes, ds: seq<Directory>,
    runs: seq<Run>, n: nat) returns (names: Names)
    requires CollisionFree(h) && Admissible(h, requested) && WritePackages(h, requested) == Some(packages)
    requires History(h, ds, runs) && RunsOf(requested, runs) && ds[0] == EMPTY && n <= |runs|
    ensures Left(h, requested, packages, ds[n], names)
  {
    if n == 0 {
      names := NamesOf("", "", "");
      assert IsNonce("") && Generated(names);
    } else {
      var before := HistoryLeaves(h, requested, packages, ds, runs, n - 1);
      var run := runs[n - 1];
      assert Ran(h, run.requested, run.names, ds[n - 1], ds[n - 1 + 1], run.outcome, run.smooth);
      names := RunLeaves(h, requested, packages, ds[n - 1], before, run, ds[n]);
    }
  }

  // The directory that a publication of the request ends in.
  function Published(h: Host, requested: seq<Artifact>, packages: Bytes): Directory {
    PendingFor(h, requested, NamesOf("", "", ""), packages).Committed()
  }

  lemma UndisturbedCompletes(h: Host, requested: seq<Artifact>, packages: Bytes, d: Directory, before: Names, run: Run,
    d': Directory)
    requires Admissible(h, requested) && WritePackages(h, requested) == Some(packages)
    requires Left(h, requested, packages, d, before) && Generated(run.names) && run.smooth
    requires !Stuck(PendingFor(h, requested, before, packages), d)
    requires Ran(h, requested, run.names, d, d', run.outcome, true)
    ensures d' == Published(h, requested, packages) && run.outcome.Done?
  {
    if d == EMPTY {
      AdmissibleIsGood(h, requested, run.names, packages);
      UndisturbedRun(h, requested, run.names, packages, d', run.outcome);
    } else {
      AdmissibleIsGood(h, requested, before, packages);
      RunResumes(h, PendingFor(h, requested, before, packages), requested, run.names, d, d', run.outcome, true);
    }
  }

  // From an empty directory, after any number of runs of one request stopped anywhere:
  // an undisturbed run publishes the request, leaving nothing else behind, unless it
  // finds stuck temporaries, and then it is refused and changes nothing.
  lemma PublicationDecided(h: Host, requested: seq<Artifact>, packages: Bytes, ds: seq<Directory>, runs: seq<Run>)
    requires CollisionFree(h) && Admissible(h, requested) && WritePackages(h, requested) == Some(packages)
    requires History(h, ds, runs) && RunsOf(requested, runs) && ds[0] == EMPTY
    requires |runs| >= 1 && runs[|runs| - 1].smooth
    ensures var (last, found) := (runs[|runs| - 1], ds[|runs| - 1]);
      if exists names :: StuckUnder(h, requested, packages, found, names)
      then ds[|runs|] == found && last.outcome.Failed?
      else ds[|runs|] == Published(h, requested, packages) && last.outcome.Done?
  {
    var n := |runs| - 1;
    var last, found := runs[n], ds[n];
    assert Ran(h, last.requested, last.names, ds[n], ds[n + 1], last.outcome, last.smooth);
    if names :| StuckUnder(h, requested, packages, found, names) {
      AdmissibleIsGood(h, requested, names, packages);
      var p := PendingFor(h, requested, names, packages);
      StuckIsRefused(h, p, requested, last.names, found, ds[n + 1], last.outcome, last.smooth);
    } else {
      var names := HistoryLeaves(h, requested, packages, ds, runs, n);
      assert !StuckUnder(h, requested, packages, found, names);
      UndisturbedCompletes(h, requested, packages, found, names, last, ds[n + 1]);
    }
  }
}
