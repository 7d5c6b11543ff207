/**
 Materializing a selection into `.rsolve`, and recovering what a stopped run left.

 Every write, rename and removal is one step. A fault plan decides for each step
 whether it happens, fails with an I/O error, or never happens because the process
 dies; a crash keeps all earlier steps. The process lock makes runs sequential.
 */
module Transactions {
  import opened Prelude
  import opened Text
  import opened Versions
  import opened Domain
  import opened Publication

  datatype Fault = Proceed | IoFailure | Crash

  datatype Outcome<+T> = Done(value: T) | Failed(error: Error) | Crashed {
    // Stopped by the surroundings rather than by a check.
    predicate Interrupted() {
      this == Crashed || this == Failed(Io)
    }
  }

  // The temporary names one run generates.
  datatype Names = Names(marker: string, state: string, staging: string)

  function NamesOf(markerNonce: string, stateNonce: string, stagingNonce: string): Names {
    Names(MARKER_PREFIX + markerNonce, STATE_PREFIX + stateNonce, STAGING_PREFIX + stagingNonce)
  }

  // A nonce is a process id, a hyphen and a time.
  predicate IsNonce(nonce: string) {
    forall c | c in nonce :: IsDigit(c) || c == '-'
  }

  ghost predicate Generated(names: Names) {
    exists m, s, g :: IsNonce(m) && IsNonce(s) && IsNonce(g) && names == NamesOf(m, s, g)
  }

  predicate SafeNames(names: Names) {
    SafeTempName(names.state, STATE_PREFIX) && SafeTempName(names.staging, STAGING_PREFIX)
  }

  lemma PrefixedIsSafe(prefix: string, nonce: string)
    requires IsNonce(nonce) && |prefix| > 2 && '/' !in prefix && '\\' !in prefix
    ensures SafeTempName(prefix + nonce, prefix)
  {
    assert forall c | c in prefix + nonce :: c in prefix || c in nonce;
  }

  lemma StatePrefixIsSafe()
    ensures |STATE_PREFIX| > 2 && '/' !in STATE_PREFIX && '\\' !in STATE_PREFIX
  {
  }

  lemma StagingPrefixIsSafe()
    ensures |STAGING_PREFIX| > 2 && '/' !in STAGING_PREFIX && '\\' !in STAGING_PREFIX
  {
  }

  // The names a run generates pass the checks that a later run makes.
  lemma GeneratedAreSafe(names: Names)
    requires Generated(names)
    ensures SafeNames(names)
  {
    var m, s, g :| IsNonce(m) && IsNonce(s) && IsNonce(g) && names == NamesOf(m, s, g);
    assert SafeTempName(names.state, STATE_PREFIX) by {
      StatePrefixIsSafe();
      PrefixedIsSafe(STATE_PREFIX, s);
    }
    assert SafeTempName(names.staging, STAGING_PREFIX) by {
      StagingPrefixIsSafe();
      PrefixedIsSafe(STAGING_PREFIX, g);
    }
  }

  ghost predicate Smooth(plan: seq<Fault>) {
    forall f | f in plan :: f == Proceed
  }

  // The next n steps happen.
  ghost predicate Calm(plan: seq<Fault>, n: nat) {
    n <= |plan| && forall i | 0 <= i < n :: plan[i] == Proceed
  }

  // The process dies after n steps.
  ghost predicate DiesAfter(plan: seq<Fault>, n: nat) {
    Calm(plan, n) && n < |plan| && plan[n] == Crash
  }

  lemma CalmOn(plan: seq<Fault>, n: nat, k: nat)
    requires Calm(plan, n) && k <= n
    ensures Calm(plan, k) && Calm(plan[k..], n - k) && plan[k..][n - k..] == plan[n..]
  {
  }

  lemma CalmNext(plan: seq<Fault>, n: nat, k: nat)
    requires Calm(plan, n) && k + 2 <= n
    ensures Calm(plan[k..], 2) && plan[k..][2..] == plan[k + 2..]
  {
  }

  // ------------------------------------------------ the states of a publication

  // What one run publishes, and the temporary names that bind it.
  datatype Pending = Pending(state: State, tree: Tree, names: Names) {
    function Tx(): Transaction {
      Transaction(2, state.index, names.state, names.staging, state.records)
    }

    function Prepared(): Directory {
      Directory(None, map[], None, map[names.state := Whole(state)], map[names.staging := tree], None)
    }

    // The marker temporary of the run was created, but not filled.
    function HalfMarked(): Directory {
      Prepared().(markerTemps := map[names.marker := Torn])
    }

    function Marked(): Directory {
      Prepared().(marker := Some(Whole(Tx())))
    }

    function Exposed(): Directory {
      Marked().(stagings := map[], repository := Some(tree))
    }

    function Stated(): Directory {
      Exposed().(stateTemps := map[], state := Some(Whole(state)))
    }

    function Committed(): Directory {
      Stated().(marker := None)
    }

    // The staging tree and the state temporary are complete, and whatever has
    // been written of the marker is complete as well.
    ghost predicate Resumable(d: Directory) {
      || d == Prepared()
      || (exists m :: d == Prepared().(markerTemps := map[m := Whole(Tx())]))
      || d == Marked() || d == Exposed() || d == Stated() || d == Committed()
    }

    // As above, but the run died while writing the marker temporary.
    ghost predicate TornMarker(d: Directory) {
      exists m :: d == Prepared().(markerTemps := map[m := Torn])
    }

    // What a run can leave before its marker is in place: some of its own
    // temporaries, the staging tree in any condition.
    ghost predicate Debris(d: Directory) {
      && d.marker == None && d.state == None && d.repository == None
      && (forall m | m in d.markerTemps :: m == names.marker && d.markerTemps[m] in {Torn, Whole(Tx())})
      && (forall s | s in d.stateTemps :: s == names.state && d.stateTemps[s] in {Torn, Whole(state)})
      && (forall g | g in d.stagings :: g == names.staging)
    }

    ghost predicate PreparedIn(d: Directory) {
      d.stagings == map[names.staging := tree] && d.stateTemps == map[names.state := Whole(state)]
    }
  }

  function ContribFor(artifacts: seq<Artifact>): map<string, Node> {
    if artifacts == [] then map[]
    else
      var last := artifacts[|artifacts| - 1];
      ContribFor(artifacts[..|artifacts| - 1])[last.Destination() :=
        if last.cached.Some? then Regular(last.cached.value) else Irregular]
  }

  function RecordsFor(h: Host, artifacts: seq<Artifact>): (records: seq<Record>)
    ensures |records| == |artifacts|
    ensures forall i | 0 <= i < |records| :: records[i] == RecordFor(artifacts[i], h.how(artifacts[i]))
  {
    seq(|artifacts|, i requires 0 <= i < |artifacts| => RecordFor(artifacts[i], h.how(artifacts[i])))
  }

  lemma ContribOfOneMore(artifacts: seq<Artifact>, i: nat)
    requires i < |artifacts| && artifacts[i].cached.Some?
    ensures ContribFor(artifacts[..i + 1]) ==
      ContribFor(artifacts[..i])[artifacts[i].Destination() := Regular(artifacts[i].cached.value)]
  {
    assert artifacts[..i + 1][..i] == artifacts[..i];
  }

  // What an undisturbed run of the request publishes.
  function PendingFor(h: Host, requested: seq<Artifact>, names: Names, packages: Bytes): Pending {
    var artifacts := CanonicalArtifacts(requested);
    Pending(
      State(2, h.sha(packages), RecordsFor(h, artifacts)),
      Tree(true, ContribFor(artifacts)[INDEX := Regular(packages)]),
      names)
  }

  // A run with intact cache objects dies between creating and filling its marker
  // temporary: after two steps for staging, two for each artifact, two for the index,
  // two for the state temporary and the creation itself.
  ghost predicate DiesInMarker(h: Host, requested: seq<Artifact>, plan: seq<Fault>) {
    CachesValid(h, CanonicalArtifacts(requested)) && DiesAfter(plan, 2 * |CanonicalArtifacts(requested)| + 7)
  }

  // What such a run leaves, if the request has an index.
  ghost predicate LeftHalfMarked(h: Host, requested: seq<Artifact>, names: Names, d: Directory, out: Outcome<State>) {
    match WritePackages(h, CanonicalArtifacts(requested))
    case None => true
    case Some(packages) => out == Crashed && d == PendingFor(h, requested, names, packages).HalfMarked()
  }

  ghost predicate CachesValid(h: Host, artifacts: seq<Artifact>) {
    forall i | 0 <= i < |artifacts| :: CacheObjectValid(h, artifacts[i])
  }

  // ------------------------------------------------------ what a run may do

  function Expose(d: Directory, tx: Transaction): Directory {
    if d.repository.None? && tx.staging in d.stagings
    then d.(repository := Some(d.stagings[tx.staging]), stagings := d.stagings - {tx.staging})
    else d
  }

  function CommitState(d: Directory, tx: Transaction): Directory {
    if tx.stateTemp !in d.stateTemps then d
    else if d.state.Some? then d.(stateTemps := d.stateTemps - {tx.stateTemp})
    else d.(state := Some(d.stateTemps[tx.stateTemp]), stateTemps := d.stateTemps - {tx.stateTemp})
  }

  // `recover` with a marker in place.
  ghost predicate RecoveredMarked(h: Host, requested: seq<Artifact>, d: Directory, d': Directory, out: Outcome<()>,
    smooth: bool)
    requires d.marker.Some?
  {
    match CheckMarked(h, d, requested)
    case Err(error) => d' == d && out == Failed(error)
    case Ok(tx) =>
      var exposed := Expose(d, tx);
      var stated := CommitState(exposed, tx);
      var finished := stated.(marker := None);
      || (out == Done(()) && d' == finished)
      || (!smooth && out.Interrupted() && d' in {d, exposed, stated, finished})
  }

  function Adopt(d: Directory, tx: Transaction): Directory {
    d.(marker := Some(Whole(tx)), markerTemps := map[])
  }

  // `recover` from any directory.
  ghost predicate Recovered(h: Host, requested: seq<Artifact>, m: string, d: Directory, d': Directory, out: Outcome<()>,
    smooth: bool) {
    if d.marker.Some? then RecoveredMarked(h, requested, d, d', out, smooth)
    else if Quiet(d) then d' == d && out == Done(())
    else match CheckOrphans(h, d, requested)
      case Err(error) => d' == d && out == Failed(error)
      case Ok(tx) =>
        || RecoveredMarked(h, requested, Adopt(d, tx), d', out, smooth)
        || (!smooth && out.Interrupted() && AdoptionCut(m, d, d', tx))
  }

  // An adoption stopped before its marker was in place, or just after.
  ghost predicate AdoptionCut(m: string, d: Directory, d': Directory, tx: Transaction) {
    || d' == d || d' == Adopt(d, tx)
    || (d.markerTemps == map[] && (d' == d.(markerTemps := map[m := Torn]) ||
      d' == d.(markerTemps := map[m := Whole(tx)])))
  }

  // Building and publishing when nothing is there yet.
  ghost predicate Built(h: Host, requested: seq<Artifact>, names: Names, d: Directory, d': Directory,
    out: Outcome<State>, smooth: bool) {
    match WritePackages(h, CanonicalArtifacts(requested))
    case None => d' == d && out == Failed(PackagesError)
    case Some(packages) =>
      BuiltAs(PendingFor(h, requested, names, packages), CachesValid(h, CanonicalArtifacts(requested)), d, d', out,
        smooth)
  }

  // What building a publication may lead to; `valid` says whether the cache objects are.
  ghost predicate BuiltAs(p: Pending, valid: bool, d: Directory, d': Directory, out: Outcome<State>, smooth: bool) {
    || (out == Done(p.state) && d' == p.Committed() && valid)
    || (!valid && out == Failed(InvalidCacheObject) && p.Debris(d') && Unwritten(d') && (smooth ==> d' == d))
    || (!smooth && out.Interrupted() && p.Debris(d') && (valid || Unwritten(d')))
    || (!smooth && out.Interrupted() && p.Resumable(d') && valid)
  }

  lemma BuiltIndexed(h: Host, requested: seq<Artifact>, names: Names, packages: Bytes, d: Directory,
    out: Outcome<State>, plan: seq<Fault>)
    requires WritePackages(h, CanonicalArtifacts(requested)) == Some(packages)
    requires var p := PendingFor(h, requested, names, packages);
      && BuiltAs(p, CachesValid(h, CanonicalArtifacts(requested)), EMPTY, d, out, Smooth(plan))
      && (DiesInMarker(h, requested, plan) ==> out == Crashed && d == p.HalfMarked())
    ensures Built(h, requested, names, EMPTY, d, out, Smooth(plan))
    ensures DiesInMarker(h, requested, plan) ==> LeftHalfMarked(h, requested, names, d, out)
  {
  }

  // Nothing but staging has been written.
  ghost predicate Unwritten(d: Directory) {
    d.stateTemps == map[] && d.markerTemps == map[]
  }

  ghost predicate AfterRecovery(h: Host, requested: seq<Artifact>, names: Names, d: Directory, recovery: Outcome<()>,
    d': Directory, out: Outcome<State>, smooth: bool) {
    match recovery
    case Failed(error) => d' == d && out == Failed(error)
    case Crashed => d' == d && out == Crashed
    case Done(_) =>
      if d.state.Some? then
        d' == d && out == (match CheckCommitted(h, d,
          requested) case Ok(state) => Done(state) case Err(error) => Failed(error))
      else if d.repository.Some? then d' == d && out == Failed(ExistingConflict)
      else Built(h, requested, names, d, d', out, smooth)
  }

  // One run of `materialize`.
  ghost predicate Ran(h: Host, requested: seq<Artifact>, names: Names, d: Directory, d': Directory, out: Outcome<State>,
    smooth: bool) {
    if !InputsValid(requested) then d' == d && out.Failed? && !out.Interrupted()
    else exists middle, recovery ::
      && Recovered(h, requested, names.marker, d, middle, recovery, smooth)
      && AfterRecovery(h, requested, names, middle, recovery, d', out, smooth)
  }

  // ------------------------------------------------------------ the workspace

  function Stopped<T>(f: Fault): Outcome<T>
    requires f != Proceed
  {
    if f == Crash then Crashed else Failed(Io)
  }

  // A recovery that succeeds leaves no temporaries and no marker.
  lemma RecoveryCleans(h: Host, requested: seq<Artifact>, m: string, d: Directory, d': Directory, out: Outcome<()>,
    smooth: bool)
    requires Recovered(h, requested, m, d, d', out, smooth) && out.Done?
    ensures Quiet(d') && d'.marker.None?
    ensures d' == d || d'.repository.Some?
  {
    if d.marker.Some? {
      MarkedRecoveryCleans(h, requested, d, d', out, smooth);
    } else if !Quiet(d) {
      var tx := CheckOrphans(h, d, requested).value;
      MarkedRecoveryCleans(h, requested, Adopt(d, tx), d', out, smooth);
    }
  }

  lemma MarkedRecoveryCleans(h: Host, requested: seq<Artifact>, d: Directory, d': Directory, out: Outcome<()>,
    smooth: bool)
    requires d.marker.Some? && RecoveredMarked(h, requested, d, d', out, smooth) && out.Done?
    ensures Quiet(d') && d'.marker.None? && d'.repository.Some?
  {
    var tx := CheckMarked(h, d, requested).value;
    if d.stateTemps != map[] {
      SingletonMap(d.stateTemps, tx.stateTemp);
      assert d.stateTemps - {tx.stateTemp} == map[];
    }
    if d.stagings != map[] {
      SingletonMap(d.stagings, tx.staging);
      assert d.stagings - {tx.staging} == map[];
    }
  }

  class Workspace {
    const host: Host
    var plan: seq<Fault>
    var marker: Option<Slot<Transaction>>
    var markerTemps: map<string, Slot<Transaction>>
    var state: Option<Slot<State>>
    var stateTemps: map<string, Slot<State>>
    var stagings: map<string, Tree>
    var repository: Option<Tree>

    constructor (host: Host)
      ensures View() == EMPTY && plan == [] && this.host == host
    {
      this.host := host;
      plan := [];
      marker, markerTemps, state, stateTemps, stagings, repository := None, map[], None, map[], map[], None;
    }

    function View(): Directory
      reads this
    {
      Directory(marker, markerTemps, state, stateTemps, stagings, repository)
    }

    method Step() returns (f: Fault)
      modifies this`plan
      ensures old(Smooth(plan)) ==> f == Proceed && Smooth(plan)
      ensures old(plan) == [] ==> f == Proceed && plan == []
      ensures old(plan) != [] ==> f == old(plan[0]) && plan == old(plan[1..])
    {
      if plan == [] {
        f := Proceed;
      } else {
        assert plan[0] in plan && forall g | g in plan[1..] :: g in plan;
        f := plan[0];
        plan := plan[1..];
      }
    }

    method WriteMarkerTemp(name: string, tx: Transaction) returns (f: Fault)
      requires name !in markerTemps
      modifies this`plan, this`markerTemps
      ensures old(Smooth(plan)) ==> f == Proceed && Smooth(plan)
      ensures f == Proceed ==> markerTemps == old(markerTemps)[name := Whole(tx)]
      ensures f != Proceed ==> markerTemps == old(markerTemps) || markerTemps == old(markerTemps)[name := Torn]
      ensures DiesAfter(old(plan), 1) ==> f == Crash && markerTemps == old(markerTemps)[name := Torn]
    {
      f := Step();
      if f != Proceed {
        return;
      }
      markerTemps := markerTemps[name := Torn];
      f := Step();
      if f == Proceed {
        markerTemps := markerTemps[name := Whole(tx)];
      } else if f == IoFailure {
        f := RemoveMarkerTemp(name);
        f := if f == Crash then Crash else IoFailure;
      }
    }

    method WriteStateTemp(name: string, value: State) returns (f: Fault)
      requires name !in stateTemps
      modifies this`plan, this`stateTemps
      ensures old(Smooth(plan)) ==> f == Proceed && Smooth(plan)
      ensures f == Proceed ==> stateTemps == old(stateTemps)[name := Whole(value)]
      ensures f != Proceed ==> stateTemps == old(stateTemps) || stateTemps == old(stateTemps)[name := Torn]
      ensures Calm(old(plan), 2) ==> f == Proceed && plan == old(plan[2..])
    {
      f := Step();
      if f != Proceed {
        return;
      }
      stateTemps := stateTemps[name := Torn];
      f := Step();
      if f == Proceed {
        stateTemps := stateTemps[name := Whole(value)];
      } else if f == IoFailure {
        f := RemoveStateTemp(name);
        f := if f == Crash then Crash else IoFailure;
      }
    }

    method RemoveMarkerTemp(name: string) returns (f: Fault)
      modifies this`plan, this`markerTemps
      ensures old(Smooth(plan)) ==> f == Proceed && Smooth(plan)
      ensures markerTemps == if f == Proceed then old(markerTemps) - {name} else old(markerTemps)
    {
      f := Step();
      if f == Proceed {
        markerTemps := markerTemps - {name};
      }
    }

    method RemoveStateTemp(name: string) returns (f: Fault)
      modifies this`plan, this`stateTemps
      ensures old(Smooth(plan)) ==> f == Proceed && Smooth(plan)
      ensures stateTemps == if f == Proceed then old(stateTemps) - {name} else old(stateTemps)
    {
      f := Step();
      if f == Proceed {
        stateTemps := stateTemps - {name};
      }
    }

    // Removing a tree is not atomic: an interrupted removal leaves any remainder.
    method RemoveStaging(name: string) returns (f: Fault)
      modifies this`plan, this`stagings
      ensures old(Smooth(plan)) ==> f == Proceed && Smooth(plan)
      ensures f == Proceed ==> stagings == old(stagings) - {name}
      ensures f != Proceed ==> stagings.Keys <= old(stagings).Keys + {name}
    {
      f := Step();
      if f == Proceed {
        stagings := stagings - {name};
      } else {
        var remainder: Tree := *;
        stagings := stagings[name := remainder];
      }
    }

    // Reads the object in chunks, counting and hashing as it goes.
    method VerifyCacheObject(a: Artifact) returns (valid: bool)
      ensures valid <==> CacheObjectValid(host, a)
    {
      if a.cached.None? {
        return false;
      }
      var content := a.cached.value;
      var size, hashed := 0, "";
      while size < |content|
        invariant size <= |content| && hashed == content[..size]
      {
        var chunk := if |content| - size < 65536 then |content| - size else 65536;
        hashed := hashed + content[size..size + chunk];
        size := size + chunk;
      }
      assert content[..size] == content;
      valid := size == a.size && host.sha(hashed) == a.sha256;
    }

    // Renames the marker temporary into place, writing it first when there is none.
    method PlaceMarker(m: string, tx: Transaction) returns (f: Fault)
      modifies this`plan, this`marker, this`markerTemps
      ensures old(Smooth(plan)) ==> f == Proceed && Smooth(plan)
      ensures f == Proceed ==> marker == Some(Whole(tx)) && markerTemps == map[]
      ensures f != Proceed ==>
        || (marker == Some(Whole(tx)) && markerTemps == map[])
        || (marker == old(marker) && markerTemps == old(markerTemps))
        || (marker == old(marker) && old(markerTemps) == map[] && markerTemps == map[m := Torn])
        || (marker == old(marker) && old(markerTemps) == map[] && markerTemps == map[m := Whole(tx)])
    {
      if markerTemps == map[] {
        f := WriteMarkerTemp(m, tx);
        if f != Proceed {
          return;
        }
      }
      f := Step();
      if f == Proceed {
        marker, markerTemps := Some(Whole(tx)), map[];
        f := Step();
      }
    }

    // Binds temporaries that no marker names, by putting a marker in place.
    method Reconstruct(requested: seq<Artifact>, m: string) returns (out: Outcome<bool>)
      requires marker.None?
      modifies this`plan, this`marker, this`markerTemps
      ensures old(Smooth(plan)) ==> Smooth(plan)
      ensures Quiet(old(View())) ==> out == Done(false) && View() == old(View()) && plan == old(plan)
      ensures !Quiet(old(View())) ==>
        match CheckOrphans(host, old(View()), requested)
        case Err(error) => out == Failed(error) && View() == old(View())
        case Ok(tx) =>
          || (out == Done(true) && View() == Adopt(old(View()), tx))
          || (!old(Smooth(plan)) && out.Interrupted() && AdoptionCut(m, old(View()), View(), tx))
    {
      ghost var d := View();
      if Quiet(View()) {
        return Done(false);
      }
      var checked := CheckOrphans(host, View(), requested);
      if checked.Err? {
        return Failed(checked.error);
      }
      var f := PlaceMarker(m, checked.value);
      assert f != Proceed ==> AdoptionCut(m, d, View(), checked.value);
      out := if f == Proceed then Done(true) else Stopped(f);
    }

    // Exposes the staging tree, unless a repository is there already.
    method PublishRepository(tx: Transaction) returns (f: Fault)
      requires repository.None? ==> tx.staging in stagings
      modifies this`plan, this`repository, this`stagings
      ensures old(Smooth(plan)) ==> f == Proceed && Smooth(plan)
      ensures View() == Expose(old(View()), tx) || (f != Proceed && View() == old(View()))
    {
      if repository.Some? {
        return Proceed;
      }
      f := Step();
      if f == Proceed {
        repository, stagings := Some(stagings[tx.staging]), stagings - {tx.staging};
        f := Step();
      }
    }

    // Moves the state temporary into place, or drops it when the state is there.
    method PublishState(tx: Transaction) returns (f: Fault)
      modifies this`plan, this`state, this`stateTemps
      ensures old(Smooth(plan)) ==> f == Proceed && Smooth(plan)
      ensures View() == CommitState(old(View()), tx) || (f != Proceed && View() == old(View()))
    {
      if tx.stateTemp !in stateTemps {
        return Proceed;
      }
      f := Step();
      if f == Proceed {
        if state.Some? {
          stateTemps := stateTemps - {tx.stateTemp};
        } else {
          state, stateTemps := Some(stateTemps[tx.stateTemp]), stateTemps - {tx.stateTemp};
          f := Step();
        }
      }
    }

    method RemoveMarker() returns (f: Fault)
      modifies this`plan, this`marker
      ensures old(Smooth(plan)) ==> f == Proceed && Smooth(plan)
      ensures marker == None || (f != Proceed && marker == old(marker))
    {
      f := Step();
      if f == Proceed {
        marker := None;
        f := Step();
      }
    }

    method RecoverMarked(requested: seq<Artifact>) returns (out: Outcome<()>)
      requires marker.Some?
      modifies this
      ensures RecoveredMarked(host, requested, old(View()), View(), out, old(Smooth(plan)))
      ensures old(Smooth(plan)) ==> Smooth(plan)
    {
      var checked := CheckMarked(host, View(), requested);
      if checked.Err? {
        return Failed(checked.error);
      }
      var tx := checked.value;
      var f := PublishRepository(tx);
      if f != Proceed {
        return Stopped(f);
      }
      f := PublishState(tx);
      if f != Proceed {
        return Stopped(f);
      }
      f := RemoveMarker();
      if f != Proceed {
        return Stopped(f);
      }
      return Done(());
    }

    // `recover`: without a marker it first tries to put one in place, then calls
    // itself; the measure allows that once.
    method Recover(requested: seq<Artifact>, m: string) returns (out: Outcome<()>)
      modifies this
      ensures Recovered(host, requested, m, old(View()), View(), out, old(Smooth(plan)))
      ensures old(Smooth(plan)) ==> Smooth(plan)
      ensures old(marker.None? && Quiet(View())) ==> plan == old(plan)
      decreases if marker.None? then 1 else 0
    {
      if marker.Some? {
        out := RecoverMarked(requested);
        return;
      }
      var reconstructed := Reconstruct(requested, m);
      match reconstructed
      case Failed(error) => return Failed(error);
      case Crashed => return Crashed;
      case Done(again) =>
        if !again {
          return Done(());
        }
        out := Recover(requested, m);
    }

    // Copies one verified cache object into the staging tree.
    method CopyArchive(g: string, contrib: map<string, Node>, selected: Artifact)
      returns (r: Outcome<map<string, Node>>)
      requires stagings == map[g := Tree(true, contrib)]
      modifies this`plan, this`stagings
      ensures old(Smooth(plan)) ==> Smooth(plan) && !r.Interrupted()
      ensures stagings.Keys == {g}
      ensures r.Done? ==> CacheObjectValid(host, selected) && stagings == map[g := Tree(true, r.value)]
      ensures r.Done? ==> r.value == contrib[selected.Destination() := Regular(selected.cached.value)]
      ensures !r.Done? ==>
        r.Interrupted() || (r == Failed(InvalidCacheObject) && !CacheObjectValid(host, selected))
      ensures Calm(old(plan), 2) && CacheObjectValid(host, selected) ==> r.Done? && plan == old(plan[2..])
    {
      var valid := VerifyCacheObject(selected);
      if !valid {
        return Failed(InvalidCacheObject);
      }
      var f := Step();
      if f != Proceed {
        return Stopped(f);
      }
      var written: Bytes := *;
      stagings := map[g := Tree(true, contrib[selected.Destination() := Regular(written)])];
      f := Step();
      if f != Proceed {
        return Stopped(f);
      }
      var longer := contrib[selected.Destination() := Regular(selected.cached.value)];
      stagings := map[g := Tree(true, longer)];
      return Done(longer);
    }

    // Creates the staging tree and its directories.
    method OpenStaging(g: string) returns (f: Fault)
      requires stagings == map[]
      modifies this`plan, this`stagings
      ensures old(Smooth(plan)) ==> f == Proceed && Smooth(plan)
      ensures stagings.Keys <= {g}
      ensures f == Proceed ==> stagings == map[g := Tree(true, map[])]
      ensures Calm(old(plan), 2) ==> f == Proceed && plan == old(plan[2..])
    {
      f := Step();
      if f != Proceed {
        return;
      }
      stagings := map[g := Tree(false, map[])];
      f := Step();
      if f == Proceed {
        stagings := map[g := Tree(true, map[])];
      }
    }

    // Fills a new staging tree with every verified cache object.
    method MaterializeFiles(g: string, artifacts: seq<Artifact>) returns (r: Outcome<()>)
      requires stagings == map[]
      modifies this`plan, this`stagings
      ensures old(Smooth(plan)) ==> Smooth(plan) && !r.Interrupted()
      ensures stagings.Keys <= {g}
      ensures r.Done? ==> CachesValid(host, artifacts) && stagings == map[g := Tree(true, ContribFor(artifacts))]
      ensures !r.Done? ==> r.Interrupted() || (r == Failed(InvalidCacheObject) && !CachesValid(host, artifacts))
      ensures Calm(old(plan), 2 * |artifacts| + 2) && CachesValid(host, artifacts) ==>
        r.Done? && plan == old(plan[2 * |artifacts| + 2..])
    {
      if Calm(plan, 2 * |artifacts| + 2) {
        CalmOn(plan, 2 * |artifacts| + 2, 2);
      }
      var f := OpenStaging(g);
      if f != Proceed {
        return Stopped(f);
      }
      r := CopyArchives(g, artifacts);
    }

    // Copies every verified cache object. A file is created before it is filled.
    method CopyArchives(g: string, artifacts: seq<Artifact>) returns (r: Outcome<()>)
      requires stagings == map[g := Tree(true, map[])]
      modifies this`plan, this`stagings
      ensures old(Smooth(plan)) ==> Smooth(plan) && !r.Interrupted()
      ensures stagings.Keys == {g}
      ensures r.Done? ==> CachesValid(host, artifacts) && stagings == map[g := Tree(true, ContribFor(artifacts))]
      ensures !r.Done? ==> r.Interrupted() || (r == Failed(InvalidCacheObject) && !CachesValid(host, artifacts))
      ensures Calm(old(plan), 2 * |artifacts|) && CachesValid(host, artifacts) ==>
        r.Done? && plan == old(plan[2 * |artifacts|..])
    {
      var contrib: map<string, Node> := map[];
      for i := 0 to |artifacts|
        invariant old(Smooth(plan)) ==> Smooth(plan)
        invariant contrib == ContribFor(artifacts[..i]) && stagings == map[g := Tree(true, contrib)]
        invariant forall k | 0 <= k < i :: CacheObjectValid(host, artifacts[k])
        invariant Calm(old(plan), 2 * |artifacts|) ==> plan == old(plan)[2 * i..]
      {
        if Calm(old(plan), 2 * |artifacts|) {
          CalmNext(old(plan), 2 * |artifacts|, 2 * i);
        }
        var copied := CopyArchive(g, contrib, artifacts[i]);
        match copied
        case Failed(error) => return Failed(error);
        case Crashed => return Crashed;
        case Done(longer) => contrib := longer;
        ContribOfOneMore(artifacts, i);
      }
      assert artifacts[..|artifacts|] == artifacts;
      return Done(());
    }

    method Abandon(g: string, why: Outcome<()>) returns (out: Outcome<State>)
      requires why.Failed? && stagings.Keys <= {g}
      modifies this`plan, this`stagings
      ensures old(Smooth(plan)) ==> Smooth(plan) && stagings == map[]
      ensures stagings.Keys <= {g}
      ensures out == Failed(why.error) || (!old(Smooth(plan)) && out == Crashed)
    {
      var f := RemoveStaging(g);
      if f == Crash {
        return Crashed;
      }
      return Failed(why.error);
    }

    // Drops the state temporary and the staging tree after an I/O error, ignoring
    // further errors.
    method Discard(p: Pending) returns (out: Outcome<()>)
      requires p.Debris(View())
      modifies this`plan, this`stateTemps, this`stagings
      ensures p.Debris(View()) && out.Interrupted()
    {
      var f := RemoveStateTemp(p.names.state);
      if f == Crash {
        return Crashed;
      }
      f := RemoveStaging(p.names.staging);
      return if f == Crash then Crashed else Failed(Io);
    }

    // Puts the marker in place once the state temporary is written.
    method PrepareMarker(p: Pending) returns (out: Outcome<()>)
      requires View() == p.Prepared()
      modifies this
      ensures old(Smooth(plan)) ==> out == Done(()) && Smooth(plan)
      ensures out == Done(()) ==> View() == p.Marked()
      ensures out != Done(()) ==> out.Interrupted() && (p.Debris(View()) || p.Resumable(View()))
      ensures DiesAfter(old(plan), 1) ==> out == Crashed && View() == p.HalfMarked()
    {
      var f := WriteMarkerTemp(p.names.marker, p.Tx());
      if f == Proceed {
        f := Step();
        if f == Proceed {
          marker, markerTemps := Some(Whole(p.Tx())), map[];
          assert View() == p.Marked();
          f := Step();
          return if f == Proceed then Done(()) else Stopped(f);
        }
        if f == IoFailure {
          var g := RemoveMarkerTemp(p.names.marker);
          f := if g == Crash then Crash else IoFailure;
        }
      }
      assert p.Debris(View());
      if f == Crash {
        return Crashed;
      }
      out := Discard(p);
    }

    // Writes the state temporary and the marker temporary and puts the marker in
    // place, cleaning up after an I/O error as far as that succeeds.
    method Prepare(p: Pending) returns (out: Outcome<()>)
      requires View() == EMPTY.(stagings := map[p.names.staging := p.tree])
      modifies this
      ensures old(Smooth(plan)) ==> out == Done(()) && Smooth(plan)
      ensures out == Done(()) ==> View() == p.Marked()
      ensures out != Done(()) ==> out.Interrupted() && (p.Debris(View()) || p.Resumable(View()))
      ensures DiesAfter(old(plan), 3) ==> out == Crashed && View() == p.HalfMarked()
    {
      if DiesAfter(plan, 3) {
        CalmOn(plan, 3, 2);
      }
      var f := WriteStateTemp(p.names.state, p.state);
      if f == Proceed {
        out := PrepareMarker(p);
        return;
      }
      if f == IoFailure {
        f := RemoveStaging(p.names.staging);
      }
      return if f == Crash then Crashed else Failed(Io);
    }

    // Exposes the repository, then the state, then drops the marker.
    method PublishPrepared(p: Pending) returns (out: Outcome<State>)
      requires View() == p.Marked()
      modifies this
      ensures old(Smooth(plan)) ==> out.Done? && Smooth(plan)
      ensures out.Done? ==> out == Done(p.state) && View() == p.Committed()
      ensures !out.Done? ==> out.Interrupted() && p.Resumable(View())
    {
      var f := Step();
      if f != Proceed {
        return Stopped(f);
      }
      repository, stagings := Some(p.tree), map[];
      assert View() == p.Exposed();
      f := Step();
      if f != Proceed {
        return Stopped(f);
      }
      f := Step();
      if f != Proceed {
        return Stopped(f);
      }
      state, stateTemps := Some(Whole(p.state)), map[];
      assert View() == p.Stated();
      f := Step();
      if f != Proceed {
        return Stopped(f);
      }
      f := RemoveMarker();
      if f != Proceed {
        return Stopped(f);
      }
      return Done(p.state);
    }

    // Writes the index into the staging tree, then syncs it with its directories.
    method WriteIndex(g: string, contrib: map<string, Node>, packages: Bytes) returns (f: Fault)
      modifies this`plan, this`stagings
      ensures old(Smooth(plan)) ==> f == Proceed && Smooth(plan)
      ensures stagings.Keys == {g}
      ensures f == Proceed ==> stagings == map[g := Tree(true, contrib[INDEX := Regular(packages)])]
      ensures Calm(old(plan), 2) ==> f == Proceed && plan == old(plan[2..])
    {
      f := Step();
      var written: Bytes := *;
      stagings := map[g := Tree(true, contrib[INDEX := Regular(written)])];
      if f == Proceed {
        stagings := map[g := Tree(true, contrib[INDEX := Regular(packages)])];
        f := Step();
      }
    }

    // Fills the staging tree with the archives and the index.
    method Stage(g: string, artifacts: seq<Artifact>, packages: Bytes) returns (r: Outcome<()>)
      requires stagings == map[]
      modifies this`plan, this`stagings
      ensures old(Smooth(plan)) ==> Smooth(plan) && !r.Interrupted()
      ensures stagings.Keys <= {g}
      ensures r.Done? ==>
        CachesValid(host, artifacts)
        && stagings == map[g := Tree(true, ContribFor(artifacts)[INDEX := Regular(packages)])]
      ensures !r.Done? ==> r.Interrupted() || (r == Failed(InvalidCacheObject) && !CachesValid(host, artifacts))
      ensures Calm(old(plan), 2 * |artifacts| + 4) && CachesValid(host, artifacts) ==>
        r.Done? && plan == old(plan[2 * |artifacts| + 4..])
    {
      if Calm(plan, 2 * |artifacts| + 4) {
        CalmOn(plan, 2 * |artifacts| + 4, 2 * |artifacts| + 2);
      }
      r := MaterializeFiles(g, artifacts);
      if r.Done? {
        var f := WriteIndex(g, ContribFor(artifacts), packages);
        r := if f == Proceed then Done(()) else Stopped(f);
      }
    }

    // Binds and publishes a complete staging tree.
    method Publish(p: Pending) returns (out: Outcome<State>)
      requires View() == EMPTY.(stagings := map[p.names.staging := p.tree])
      modifies this
      ensures old(Smooth(plan)) ==> out.Done? && Smooth(plan)
      ensures out.Done? ==> out == Done(p.state) && View() == p.Committed()
      ensures !out.Done? ==> out.Interrupted() && (p.Debris(View()) || p.Resumable(View()))
      ensures DiesAfter(old(plan), 3) ==> out == Crashed && View() == p.HalfMarked()
    {
      var r := Prepare(p);
      match r
      case Failed(error) => return Failed(error);
      case Crashed => return Crashed;
      case Done(_) => out := PublishPrepared(p);
    }

    // Builds and publishes p from its artifacts.
    method BuildPending(p: Pending, artifacts: seq<Artifact>, packages: Bytes) returns (out: Outcome<State>)
      requires View() == EMPTY && p.tree == Tree(true, ContribFor(artifacts)[INDEX := Regular(packages)])
      modifies this
      ensures BuiltAs(p, CachesValid(host, artifacts), EMPTY, View(), out, old(Smooth(plan)))
      ensures old(Smooth(plan)) ==> Smooth(plan)
      ensures CachesValid(host, artifacts) && DiesAfter(old(plan), 2 * |artifacts| + 7) ==>
        out == Crashed && View() == p.HalfMarked()
    {
      if DiesAfter(plan, 2 * |artifacts| + 7) {
        CalmOn(plan, 2 * |artifacts| + 7, 2 * |artifacts| + 4);
      }
      var r := Stage(p.names.staging, artifacts, packages);
      if r == Crashed {
        return Crashed;
      }
      if r.Failed? {
        out := Abandon(p.names.staging, r);
        return;
      }
      out := Publish(p);
    }

    method Build(requested: seq<Artifact>, names: Names) returns (out: Outcome<State>)
      requires View() == EMPTY
      modifies this
      ensures Built(host, requested, names, EMPTY, View(), out, old(Smooth(plan)))
      ensures old(Smooth(plan)) ==> Smooth(plan)
      ensures DiesInMarker(host, requested, old(plan)) ==> LeftHalfMarked(host, requested, names, View(), out)
    {
      var artifacts := CanonicalArtifacts(requested);
      var index := WritePackages(host, artifacts);
      if index.None? {
        return Failed(PackagesError);
      }
      var p := PendingFor(host, requested, names, index.value);
      out := BuildPending(p, artifacts, index.value);
      BuiltIndexed(host, requested, names, index.value, View(), out, old(plan));
    }

    method Materialize(requested: seq<Artifact>, names: Names) returns (out: Outcome<State>)
      modifies this
      ensures Ran(host, requested, names, old(View()), View(), out, old(Smooth(plan)))
      ensures old(Smooth(plan)) ==> Smooth(plan)
      ensures old(View()) == EMPTY && InputsValid(requested) && DiesInMarker(host, requested, old(plan)) ==>
        LeftHalfMarked(host, requested, names, View(), out)
    {
      var fault := ValidateInputs(requested);
      if fault.Some? {
        return Failed(fault.value);
      }
      ghost var d, smooth := View(), Smooth(plan);
      var recovery := Recover(requested, names.marker);
      ghost var middle := View();
      if recovery.Failed? {
        out := Failed(recovery.error);
      } else if recovery == Crashed {
        out := Crashed;
      } else {
        RecoveryCleans(host, requested, names.marker, d, middle, recovery, smooth);
        if state.Some? {
          var checked := CheckCommitted(host, View(), requested);
          out := match checked case Ok(value) => Done(value) case Err(error) => Failed(error);
        } else if repository.Some? {
          out := Failed(ExistingConflict);
        } else {
          out := Build(requested, names);
        }
      }
      assert AfterRecovery(host, requested, names, middle, recovery, View(), out, smooth);
    }
  }
}
