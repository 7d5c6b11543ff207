/**
 What publication guarantees over every sequence of runs: committed state is backed
 by a repository and never changes, checks precede publication, and exactly which
 interrupted runs the next run completes.
 */
module CrashSafety {
  import opened Prelude
  import opened Versions
  import opened Domain
  import opened Publication
  import opened Transactions

  // A committed state file is readable and describes the published repository.
  ghost predicate Safe(h: Host, d: Directory) {
    d.state.Some? ==>
      && d.state.value.Whole?
      && d.repository.Some?
      && ValidContents(h, d.repository.value, d.state.value.value.records, d.state.value.value.index)
  }

  // The pending publication is what the request asks for, and its tree is intact.
  ghost predicate GoodFor(h: Host, p: Pending, requested: seq<Artifact>) {
    && p.state.schema == 2
    && RecordsMatch(p.state.records, requested)
    && CheckIndexDigest(h, p.state.index, requested) == None
    && ValidContents(h, p.tree, p.state.records, p.state.index)
    && SafeNames(p.names)
  }

  // ------------------------------------------------- what a run builds is valid

  lemma {:induction false} ContribForFacts(artifacts: seq<Artifact>)
    requires DistinctBy(artifacts, (a: Artifact) => a.Destination())
    ensures forall i | 0 <= i < |artifacts| && artifacts[i].cached.Some? ::
      artifacts[i].Destination() in ContribFor(artifacts)
      && ContribFor(artifacts)[artifacts[i].Destination()] == Regular(artifacts[i].cached.value)
    ensures ContribFor(artifacts).Keys == set i | 0 <= i < |artifacts| :: artifacts[i].Destination()
  {
    if artifacts != [] {
      var front := artifacts[..|artifacts| - 1];
      ContribForFacts(front);
      assert forall i | 0 <= i < |front| :: front[i] == artifacts[i];
    }
  }

  lemma CanonicalDistinct(requested: seq<Artifact>)
    requires InputsValid(requested)
    ensures DistinctBy(CanonicalArtifacts(requested), (a: Artifact) => a.Destination())
    ensures DistinctBy(CanonicalArtifacts(requested), (a: Artifact) => a.Package())
  {
    SortDistinct(requested, (a: Artifact) => a.Destination(), CompareArtifacts);
    SortDistinct(requested, (a: Artifact) => a.Package(), CompareArtifacts);
  }

  lemma DestinationOfRecord(a: Artifact, how: Method)
    ensures CONTRIB <= RecordFor(a, how).destination
    ensures ContribName(RecordFor(a, how)) == a.Destination()
  {
    assert (CONTRIB + a.Destination())[|CONTRIB|..] == a.Destination();
  }

  lemma DestinationIsNotIndex(a: Artifact)
    ensures a.Destination() != INDEX
  {
    assert a.Destination()[|a.Destination()| - 1] == 'z' && INDEX[|INDEX| - 1] == 'S';
  }

  lemma PlannedRecord(h: Host, artifacts: seq<Artifact>, packages: Bytes, i: nat, record: Record)
    requires DistinctBy(artifacts, (a: Artifact) => a.Destination()) && CachesValid(h, artifacts) && i < |artifacts|
    requires CONTRIB <= record.destination && ContribName(record) == artifacts[i].Destination()
    requires record.size == artifacts[i].size && record.sha256 == artifacts[i].sha256
    ensures RecordPresent(h, ContribFor(artifacts)[INDEX := Regular(packages)], record)
  {
    hide DistinctBy, ContribFor, ContribName;
    ContribForFacts(artifacts);
    DestinationIsNotIndex(artifacts[i]);
    assert CacheObjectValid(h, artifacts[i]);
  }

  lemma PlannedContentsValid(h: Host, requested: seq<Artifact>, names: Names, packages: Bytes)
    requires InputsValid(requested) && CachesValid(h, CanonicalArtifacts(requested))
    ensures var p := PendingFor(h, requested, names, packages);
      ValidContents(h, p.tree, p.state.records, p.state.index)
  {
    hide CanonicalArtifacts, ContribFor, InputsValid, CachesValid, RecordPresent, ContribName;
    var artifacts, p := CanonicalArtifacts(requested), PendingFor(h, requested, names, packages);
    CanonicalDistinct(requested);
    ContribForFacts(artifacts);
    forall i | 0 <= i < |artifacts|
      ensures CONTRIB <= p.state.records[i].destination
      ensures ContribName(p.state.records[i]) == artifacts[i].Destination()
      ensures RecordPresent(h, p.tree.contrib, p.state.records[i])
    {
      DestinationOfRecord(artifacts[i], h.how(artifacts[i]));
      PlannedRecord(h, artifacts, packages, i, p.state.records[i]);
    }
    assert ContribNames(p.state.records) == ContribFor(artifacts).Keys;
  }

  lemma PlannedIsGood(h: Host, requested: seq<Artifact>, names: Names, packages: Bytes)
    requires InputsValid(requested) && CachesValid(h, CanonicalArtifacts(requested)) && SafeNames(names)
    requires WritePackages(h, CanonicalArtifacts(requested)) == Some(packages)
    ensures GoodFor(h, PendingFor(h, requested, names, packages), requested)
  {
    PlannedContentsValid(h, requested, names, packages);
    IndexOfCanonical(h, requested);
  }

  // --------------------------------------------------------------- safety

  lemma MarkedCheckFacts(h: Host, d: Directory, requested: seq<Artifact>)
    requires d.marker.Some? && CheckMarked(h, d, requested).Ok?
    ensures var tx := CheckMarked(h, d, requested).value;
      && RecordsMatch(tx.records, requested)
      && CheckIndexDigest(h, tx.index, requested) == None
      && (d.repository.Some? <==> tx.staging !in d.stagings)
      && ValidContents(h, if d.repository.Some? then d.repository.value
        else d.stagings[tx.staging], tx.records, tx.index)
      && (tx.stateTemp in d.stateTemps && d.state.None? ==>
            d.stateTemps[tx.stateTemp].Whole? && StateMatches(d.stateTemps[tx.stateTemp].value, tx, requested))
  {
  }

  lemma MarkedKeepsSafe(h: Host, requested: seq<Artifact>, d: Directory, d': Directory, out: Outcome<()>, smooth: bool)
    requires d.marker.Some? && RecoveredMarked(h, requested, d, d', out, smooth) && Safe(h, d)
    ensures Safe(h, d')
    ensures d.state.Some? ==> d'.state == d.state && d'.repository == d.repository
  {
    if CheckMarked(h, d, requested).Ok? {
      MarkedCheckFacts(h, d, requested);
    }
  }

  lemma RecoveryKeepsSafe(h: Host, requested: seq<Artifact>, m: string, d: Directory, d': Directory, out: Outcome<()>,
    smooth: bool)
    requires Recovered(h, requested, m, d, d', out, smooth) && Safe(h, d)
    ensures Safe(h, d')
    ensures d.state.Some? ==> d'.state == d.state && d'.repository == d.repository
  {
    hide CheckMarked, CheckOrphans, ValidContents;
    if d.marker.Some? {
      MarkedKeepsSafe(h, requested, d, d', out, smooth);
    } else if !Quiet(d) && CheckOrphans(h, d, requested).Ok? {
      var tx := CheckOrphans(h, d, requested).value;
      if RecoveredMarked(h, requested, Adopt(d, tx), d', out, smooth) {
        MarkedKeepsSafe(h, requested, Adopt(d, tx), d', out, smooth);
      }
    }
  }

  lemma PendingSafe(h: Host, p: Pending, d: Directory)
    requires ValidContents(h, p.tree, p.state.records, p.state.index)
    requires p.Resumable(d) || p.Debris(d)
    ensures Safe(h, d)
  {
    ResumableState(p, d);
  }

  lemma ResumableState(p: Pending, d: Directory)
    requires p.Resumable(d) || p.Debris(d)
    ensures d.state.Some? ==> d.state == Some(Whole(p.state)) && d.repository == Some(p.tree)
  {
  }

  lemma DebrisSafe(h: Host, p: Pending, d: Directory)
    requires p.Debris(d)
    ensures Safe(h, d)
  {
  }

  lemma BuildKeepsSafe(h: Host, requested: seq<Artifact>, names: Names, d: Directory, d': Directory,
    out: Outcome<State>, smooth: bool)
    requires InputsValid(requested) && Built(h, requested, names, d, d', out, smooth) && d.state.None?
    ensures Safe(h, d')
  {
    var index := WritePackages(h, CanonicalArtifacts(requested));
    if index.Some? {
      var p := PendingFor(h, requested, names, index.value);
      if p.Debris(d') {
        DebrisSafe(h, p, d');
      } else {
        PlannedContentsValid(h, requested, names, index.value);
        PendingSafe(h, p, d');
      }
    }
  }

  // One run keeps committed state backed by its repository, and changes neither
  // once there is committed state.
  lemma RunKeepsSafe(h: Host, requested: seq<Artifact>, names: Names, d: Directory, d': Directory, out: Outcome<State>,
    smooth: bool)
    requires Ran(h, requested, names, d, d', out, smooth) && Safe(h, d)
    ensures Safe(h, d')
    ensures d.state.Some? ==> d'.state == d.state && d'.repository == d.repository
  {
    hide Recovered, Safe, InputsValid;
    if InputsValid(requested) {
      var middle, recovery :|
        && Recovered(h, requested, names.marker, d, middle, recovery, smooth)
        && AfterRecovery(h, requested, names, middle, recovery, d', out, smooth);
      RecoveryKeepsSafe(h, requested, names.marker, d, middle, recovery, smooth);
      if recovery.Done? && middle.state.None? && middle.repository.None? {
        BuildKeepsSafe(h, requested, names, middle, d', out, smooth);
      }
    }
  }

  // One run of a history, with everything that may differ from run to run.
  datatype Run = Run(requested: seq<Artifact>, names: Names, smooth: bool, outcome: Outcome<State>)

  // A sequence of runs, each starting from the directory the previous one left.
  ghost predicate History(h: Host, ds: seq<Directory>, runs: seq<Run>) {
    && |ds| == |runs| + 1
    && forall i | 0 <= i < |runs| ::
         Ran(h, runs[i].requested, runs[i].names, ds[i], ds[i + 1], runs[i].outcome, runs[i].smooth)
  }

  // State that is committed in d is still there in d', and so is its repository.
  ghost predicate Stays(d: Directory, d': Directory) {
    d.state.Some? ==> d'.state == d.state && d'.repository == d.repository
  }

  lemma OneRunStays(h: Host, ds: seq<Directory>, runs: seq<Run>, j: nat)
    requires History(h, ds, runs) && j < |runs| && Safe(h, ds[j])
    ensures Safe(h, ds[j + 1]) && Stays(ds[j], ds[j + 1])
  {
    var run := runs[j];
    assert Ran(h, run.requested, run.names, ds[j], ds[j + 1], run.outcome, run.smooth);
    RunKeepsSafe(h, run.requested, run.names, ds[j], ds[j + 1], run.outcome, run.smooth);
  }

  // A safe directory is followed by a safe one that keeps what is committed.
  ghost predicate Steady(h: Host, ds: seq<Directory>, k: nat)
    requires k + 1 < |ds|
  {
    Safe(h, ds[k]) ==> Safe(h, ds[k + 1]) && Stays(ds[k], ds[k + 1])
  }

  lemma {:induction false} SteadyThroughout(h: Host, ds: seq<Directory>, j: nat)
    requires ds != [] && Safe(h, ds[0]) && j < |ds| && forall k | 0 <= k < |ds| - 1 :: Steady(h, ds, k)
    ensures Safe(h, ds[j])
  {
    if j > 0 {
      SteadyThroughout(h, ds, j - 1);
      assert Steady(h, ds, j - 1);
    }
  }

  lemma {:induction false} StaysThroughout(h: Host, ds: seq<Directory>, i: nat, j: nat)
    requires i <= j < |ds| && Safe(h, ds[0]) && forall k | 0 <= k < |ds| - 1 :: Steady(h, ds, k)
    ensures Stays(ds[i], ds[j])
    decreases j - i
  {
    if i < j {
      StaysThroughout(h, ds, i, j - 1);
      SteadyThroughout(h, ds, j - 1);
      assert Steady(h, ds, j - 1);
    }
  }

  // Over any sequence of runs with any requests, each stopped anywhere: committed
  // state always describes the repository, and once committed neither changes.
  lemma {:induction false} CommittedStateIsForever(h: Host, ds: seq<Directory>, runs: seq<Run>, i: nat, j: nat)
    requires History(h, ds, runs) && Safe(h, ds[0]) && i <= j < |ds|
    ensures Safe(h, ds[i]) && Safe(h, ds[j]) && Stays(ds[i], ds[j])
  {
    forall k | 0 <= k < |ds| - 1
      ensures Steady(h, ds, k)
    {
      if Safe(h, ds[k]) {
        OneRunStays(h, ds, runs, k);
      }
    }
    SteadyThroughout(h, ds, i);
    SteadyThroughout(h, ds, j);
    StaysThroughout(h, ds, i, j);
  }

  lemma MarkedConflict(h: Host, requested: seq<Artifact>, d: Directory, d': Directory, out: Outcome<()>, smooth: bool)
    requires d.marker.Some? && RecoveredMarked(h, requested, d, d', out, smooth)
    requires out.Failed? && out.error != Io
    ensures d' == d
  {
    assert !out.Interrupted();
  }

  // A conflict reported by recovery leaves the state file and the repository as
  // they were, in any directory whatsoever.
  lemma ConflictChangesNothing(h: Host, requested: seq<Artifact>, m: string, d: Directory, d': Directory,
    out: Outcome<()>, smooth: bool)
    requires Recovered(h, requested, m, d, d', out, smooth) && out.Failed? && out.error != Io
    ensures d'.state == d.state && d'.repository == d.repository
    ensures d'.stateTemps == d.stateTemps && d'.stagings == d.stagings
  {
    if d.marker.Some? {
      MarkedConflict(h, requested, d, d', out, smooth);
    } else if !Quiet(d) && CheckOrphans(h, d, requested).Ok? {
      var bound := Adopt(d, CheckOrphans(h, d, requested).value);
      assert !out.Interrupted();
      MarkedConflict(h, requested, bound, d', out, smooth);
    }
  }

  // The repository is validated content of the request, and so is a state that was
  // committed on the way from d to d'.
  ghost predicate PublishedFor(h: Host, requested: seq<Artifact>, d: Directory, d': Directory, tx: Transaction) {
    && RecordsMatch(tx.records, requested)
    && CheckIndexDigest(h, tx.index, requested) == None
    && d'.repository.Some?
    && ValidContents(h, d'.repository.value, tx.records, tx.index)
    && (d'.state != d.state ==>
          d.state.None? && d'.state == Some(Whole(State(2, tx.index, tx.records))))
  }

  lemma MarkedPublishesTheRequest(h: Host, requested: seq<Artifact>, d: Directory, d': Directory, out: Outcome<()>,
    smooth: bool)
    requires d.marker.Some? && RecoveredMarked(h, requested, d, d', out, smooth)
    ensures d'.repository != d.repository || d'.state != d.state ==>
      CheckMarked(h, d, requested).Ok? && PublishedFor(h, requested, d, d', CheckMarked(h, d, requested).value)
    ensures d.repository.Some? ==> d'.repository == d.repository
  {
    if CheckMarked(h, d, requested).Ok? {
      MarkedCheckFacts(h, d, requested);
    }
  }

  // A repository that recovery publishes was first validated against records and an
  // index digest that match the request, and a state that it commits describes it.
  lemma RecoveryPublishesTheRequest(h: Host, requested: seq<Artifact>, m: string, d: Directory, d': Directory,
    out: Outcome<()>, smooth: bool)
    requires Recovered(h, requested, m, d, d', out, smooth)
    ensures d'.repository != d.repository || d'.state != d.state ==>
      exists tx :: PublishedFor(h, requested, d, d', tx)
    ensures d.repository.Some? ==> d'.repository == d.repository
  {
    if d.marker.Some? {
      MarkedPublishesTheRequest(h, requested, d, d', out, smooth);
    } else if !Quiet(d) && CheckOrphans(h, d, requested).Ok? {
      var bound := Adopt(d, CheckOrphans(h, d, requested).value);
      if RecoveredMarked(h, requested, bound, d', out, smooth) {
        MarkedPublishesTheRequest(h, requested, bound, d', out, smooth);
        if d'.repository != d.repository || d'.state != d.state {
          assert PublishedFor(h, requested, d, d', CheckMarked(h, bound, requested).value);
        }
      }
    }
  }
}
