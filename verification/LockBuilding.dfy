/** The loops behind `Lockfile::new`, which rewrite the package list in place. */
module LockBuilding {
  import opened Prelude
  import opened Versions
  import opened Domain
  import opened Requests
  import opened Locks

  lemma {:induction false} CheckAllSplit(ps: seq<LockedPackage>, i: nat)
    requires i < |ps| && CheckAll(ps) == CheckAll(ps[i..])
    ensures CheckPackage(ps[i]).Some? ==> CheckAll(ps) == CheckPackage(ps[i])
    ensures CheckPackage(ps[i]).None? ==> CheckAll(ps) == CheckAll(ps[i + 1..])
  {
    assert ps[i..][0] == ps[i] && ps[i..][1..] == ps[i + 1..];
  }

  class LockContents {
    var packages: seq<LockedPackage>

    constructor (packages: seq<LockedPackage>)
      ensures this.packages == packages
    {
      this.packages := packages;
    }

    // Validates every record and puts its edges in canonical order.
    method CheckAndTidy() returns (fault: Option<LockError>)
      modifies this
      ensures fault == CheckAll(old(packages))
      ensures fault.None? ==> packages == TidyAll(old(packages))
    {
      ghost var start := packages;
      assert start[0..] == start;
      for i := 0 to |packages|
        invariant |packages| == |start|
        invariant forall k | 0 <= k < i :: packages[k] == Tidy(start[k])
        invariant forall k | i <= k < |start| :: packages[k] == start[k]
        invariant CheckAll(start) == CheckAll(start[i..])
      {
        CheckAllSplit(start, i);
        var broken := ValidatePackage(packages[i]);
        if broken.Some? {
          return broken;
        }
        broken := ValidateVisible(packages[i]);
        if broken.Some? {
          return broken;
        }
        packages := packages[i := Tidy(packages[i])];
      }
      return None;
    }

    method DropRepeats() returns (fault: Option<LockError>)
      modifies this
      ensures match Unrepeated([], SortBy(old(packages), ComparePackages))
        case Ok(unique) => fault.None? && packages == unique
        case Err(error) => fault == Some(error)
    {
      var sorted := SortBy(packages, ComparePackages);
      var unique: seq<LockedPackage> := [];
      assert sorted[0..] == sorted;
      for i := 0 to |sorted|
        invariant Unrepeated([], sorted) == Unrepeated(unique, sorted[i..])
      {
        assert sorted[i..][1..] == sorted[i + 1..];
        if unique != [] && SameIdentity(unique[|unique| - 1].identity, sorted[i].identity) {
          if !SamePackage(unique[|unique| - 1], sorted[i]) {
            return Some(ConflictingMetadata(sorted[i].identity.name));
          }
        } else {
          unique := unique + [sorted[i]];
        }
      }
      packages := unique;
      return None;
    }

    // `ensure_installed_names`.
    method EnsureInstalledNames() returns (fault: Option<LockError>)
      ensures fault == NamesTaken(map[], packages)
    {
      var taken: map<string, ReleaseIdentity> := map[];
      assert packages[0..] == packages;
      for i := 0 to |packages|
        invariant NamesTaken(map[], packages) == NamesTaken(taken, packages[i..])
      {
        assert packages[i..][1..] == packages[i + 1..];
        var name := packages[i].identity.name;
        if name in taken && !SameIdentity(taken[name], packages[i].identity) {
          return Some(InstalledNameConflict(name));
        }
        taken := taken[name := packages[i].identity];
      }
      return None;
    }

    // `ensure_dependencies_exist`.
    method EnsureDependenciesExist() returns (fault: Option<LockError>)
      ensures fault == Dangling(NamesOf(packages), packages)
    {
      var selected := NamesOf(packages);
      assert packages[0..] == packages;
      for i := 0 to |packages|
        invariant Dangling(selected, packages) == Dangling(selected, packages[i..])
      {
        assert packages[i..][1..] == packages[i + 1..];
        var edges := packages[i].dependencies;
        assert edges[0..] == edges;
        for k := 0 to |edges|
          invariant DanglingIn(selected, edges) == DanglingIn(selected, edges[k..])
        {
          assert edges[k..][1..] == edges[k + 1..];
          if edges[k].package !in selected {
            return Some(DanglingDependency(packages[i].identity.name, edges[k].package));
          }
        }
      }
      return None;
    }

    // `normalize_contents`.
    method NormalizeContents() returns (fault: Option<LockError>)
      modifies this
      ensures match Locks.Normalized(old(packages))
        case Ok(normal) => fault.None? && packages == normal
        case Err(error) => fault == Some(error)
    {
      fault := CheckAndTidy();
      if fault.Some? {
        return;
      }
      fault := DropRepeats();
      if fault.Some? {
        return;
      }
      fault := EnsureInstalledNames();
      if fault.Some? {
        return;
      }
      fault := EnsureDependenciesExist();
    }
  }
}
