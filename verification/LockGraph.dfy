/**
 Consuming a lock: it succeeds exactly when the lock fits the request, and then its
 packages are the dependency closure of the roots that R does not supply.
 */
module LockGraph {
  import opened Prelude
  import opened Versions
  import opened Domain
  import opened Requests
  import opened Locks
  import opened LockNormal

  type ByName = map<string, LockedPackage>

  // --------------------------------------------------------------- reachability

  ghost predicate Leads(byName: ByName, from: string, to: string) {
    from in byName && to in byName && exists e :: e in byName[from].dependencies && e.package == to
  }

  ghost predicate Path(byName: ByName, path: seq<string>) {
    && path != [] && (forall k | 0 <= k < |path| :: path[k] in byName)
    && forall k | 0 < k < |path| :: Leads(byName, path[k - 1], path[k])
  }

  ghost predicate Connects(byName: ByName, path: seq<string>, from: string, to: string) {
    Path(byName, path) && path[0] == from && path[|path| - 1] == to
  }

  ghost predicate Reaches(byName: ByName, from: string, to: string) {
    exists path :: Connects(byName, path, from, to)
  }

  lemma ReachesItself(byName: ByName, name: string)
    requires name in byName
    ensures Reaches(byName, name, name)
  {
    assert Connects(byName, [name], name, name);
  }

  lemma ReachesThrough(byName: ByName, from: string, next: string, to: string)
    requires Leads(byName, from, next) && Reaches(byName, next, to)
    ensures Reaches(byName, from, to)
  {
    var path :| Connects(byName, path, next, to);
    var longer := [from] + path;
    forall k | 0 < k < |longer|
      ensures Leads(byName, longer[k - 1], longer[k])
    {
      if k > 1 {
        assert Leads(byName, path[(k - 1) - 1], path[k - 1]);
      }
    }
    assert Connects(byName, longer, from, to);
  }

  // Edges from these names stay within those.
  ghost predicate ClosedIn(byName: ByName, names: set<string>, among: set<string>) {
    forall n, m | n in names && Leads(byName, n, m) :: m in among
  }

  // A closed set with a name in it holds everything the name reaches.
  lemma {:induction false} ClosedHolds(byName: ByName, closed: set<string>, path: seq<string>)
    requires ClosedIn(byName, closed, closed) && Path(byName, path) && path[0] in closed
    ensures path[|path| - 1] in closed
    decreases |path|
  {
    if |path| > 1 {
      assert Leads(byName, path[1 - 1], path[1]);
      forall k | 0 < k < |path[1..]|
        ensures Leads(byName, path[1..][k - 1], path[1..][k])
      {
        assert Leads(byName, path[(k + 1) - 1], path[k + 1]);
      }
      ClosedHolds(byName, closed, path[1..]);
    }
  }

  ghost predicate Indexed(byName: ByName) {
    forall n | n in byName :: byName[n].identity.name == n
  }

  // The edge from n to m leads out of the index.
  ghost predicate DanglesAt(byName: ByName, n: string, m: string) {
    n in byName && m !in byName && exists e :: e in byName[n].dependencies && e.package == m
  }

  ghost predicate Dangles(byName: ByName, n: string) {
    exists m :: DanglesAt(byName, n, m)
  }

  // What marking from a package leaves behind.
  ghost predicate Marked(byName: ByName, start: string, before: set<string>, after: set<string>) {
    && before <= after && start in after
    && (forall n | n in after && n !in before :: Reaches(byName, start, n))
    && ClosedIn(byName, after - before, after)
  }

  class Marker {
    var reachable: set<string>

    constructor ()
      ensures reachable == {}
    {
      reachable := {};
    }

    // `mark_reachable`: a depth-first search that visits each package once, cycles or not.
    method MarkReachable(package: LockedPackage, byName: ByName) returns (fault: Option<LockError>)
      requires Indexed(byName) && package.identity.name in byName && byName[package.identity.name] == package
      requires reachable <= byName.Keys
      modifies this
      ensures old(reachable) <= reachable <= byName.Keys
      ensures fault.None? ==> Marked(byName, package.identity.name, old(reachable), reachable)
      ensures fault.Some? ==> exists n, m ::
        fault == Some(DanglingDependency(n, m)) && Reaches(byName, package.identity.name, n) && DanglesAt(byName, n, m)
      decreases |byName.Keys - reachable|
    {
      var name := package.identity.name;
      if name in reachable {
        return None;
      }
      ghost var before := reachable;
      ReachesItself(byName, name);
      Remaining(byName.Keys, reachable, reachable + {name}, name);
      reachable := reachable + {name};
      for i := 0 to |package.dependencies|
        invariant before + {name} <= reachable <= byName.Keys
        invariant forall n | n in reachable && n !in before :: Reaches(byName, name, n)
        invariant ClosedIn(byName, reachable - before - {name}, reachable)
        invariant forall k | 0 <= k < i :: package.dependencies[k].package in reachable
      {
        var dependency := package.dependencies[i].package;
        assert package.dependencies[i] in package.dependencies;
        if dependency !in byName {
          assert DanglesAt(byName, name, dependency);
          return Some(DanglingDependency(name, dependency));
        }
        assert Leads(byName, name, dependency);
        ghost var middle := reachable;
        Fewer(byName.Keys, before, middle, name);
        fault := MarkReachable(byName[dependency], byName);
        if fault.Some? {
          DanglesFurther(byName, name, dependency, fault);
          return;
        }
        MarkedFurther(byName, name, dependency, before, middle, reachable);
      }
      ClosedAtEnd(byName, name, package, before, reachable);
      return None;
    }
  }

  lemma Remaining(all: set<string>, before: set<string>, after: set<string>, name: string)
    requires name in all && name !in before && after == before + {name}
    ensures |all - after| < |all - before|
  {
    assert all - before == (all - after) + {name};
  }

  lemma Fewer(all: set<string>, before: set<string>, middle: set<string>, name: string)
    requires name in all && name !in before && before + {name} <= middle
    ensures |all - middle| < |all - before|
  {
    assert all - middle <= all - (before + {name});
    Smaller(all - middle, all - (before + {name}));
    Remaining(all, before, before + {name}, name);
  }

  lemma Smaller(a: set<string>, b: set<string>)
    requires a <= b
    ensures |a| <= |b|
  {
    assert b == a + (b - a);
  }

  lemma DanglesFurther(byName: ByName, name: string, dependency: string, fault: Option<LockError>)
    requires Leads(byName, name, dependency)
    requires exists n, m ::
      fault == Some(DanglingDependency(n, m)) && Reaches(byName, dependency, n) && DanglesAt(byName, n, m)
    ensures exists n, m ::
      fault == Some(DanglingDependency(n, m)) && Reaches(byName, name, n) && DanglesAt(byName, n, m)
  {
    var n, m :|
      fault == Some(DanglingDependency(n, m)) && Reaches(byName, dependency, n) && DanglesAt(byName, n, m);
    ReachesThrough(byName, name, dependency, n);
  }

  lemma MarkedFurther(byName: ByName, name: string, dependency: string, before: set<string>, middle: set<string>,
    after: set<string>)
    requires Leads(byName, name, dependency) && Marked(byName, dependency, middle, after) && before <= middle
    requires forall n | n in middle && n !in before :: Reaches(byName, name, n)
    requires ClosedIn(byName, middle - before - {name}, middle)
    ensures forall n | n in after && n !in before :: Reaches(byName, name, n)
    ensures ClosedIn(byName, after - before - {name}, after)
  {
    forall n | n in after && n !in before
      ensures Reaches(byName, name, n)
    {
      if n !in middle {
        ReachesThrough(byName, name, dependency, n);
      }
    }
    forall n, m | n in after - before - {name} && Leads(byName, n, m)
      ensures m in after
    {
      if n in middle {
        assert n in middle - before - {name};
      } else {
        assert n in after - middle;
      }
    }
  }

  lemma ClosedAtEnd(byName: ByName, name: string, package: LockedPackage, before: set<string>, after: set<string>)
    requires name in byName && byName[name] == package
    requires ClosedIn(byName, after - before - {name}, after)
    requires forall k | 0 <= k < |package.dependencies| :: package.dependencies[k].package in after
    ensures ClosedIn(byName, after - before, after)
  {
    forall n, m | n in after - before && Leads(byName, n, m)
      ensures m in after
    {
      if n == name {
        var e :| e in package.dependencies && e.package == m;
      } else {
        assert n in after - before - {name};
      }
    }
  }

  // Marking from nothing finds exactly what the package reaches.
  lemma MarkedFromNothing(byName: ByName, start: string, after: set<string>, n: string)
    requires Marked(byName, start, {}, after)
    ensures n in after <==> Reaches(byName, start, n)
  {
    if Reaches(byName, start, n) {
      assert after - {} == after;
      var path :| Connects(byName, path, start, n);
      ClosedHolds(byName, after, path);
    }
  }

  // ------------------------------------------------------------- consuming a lock

  const R_BASE_PACKAGE_NAMES: seq<string> :=
    ["base", "compiler", "datasets", "graphics", "grDevices", "grid", "methods",
     "parallel", "splines", "stats", "stats4", "tcltk", "tools", "utils"]

  predicate IsRBaseName(name: string) {
    name == "R" || name in R_BASE_PACKAGE_NAMES
  }

  datatype RootCheck = RootCheck(
    name: string, constraint: VersionConstraint, repository: Option<string>, runtimeProvided: bool,
      directSource: bool) {
    // R itself supplies this root.
    predicate Supplied() {
      runtimeProvided && IsRBaseName(name)
    }
  }

  datatype RepositorySpec = RepositorySpec(id: string, allowed: string -> bool)

  datatype ConsumeError =
    | InvalidLock(error: LockError)
    | TargetMismatch
    | EnvironmentMismatch
    | RMismatch
    | UnknownVisibleRepository(name: string, repository: string)
    | VisibleRepositoryPackageNotAllowed(name: string, repository: string)
    | VisibleRepositoryOrderMismatch(name: string)
    | DirectRootMissing(name: string)
    | DirectRootVersionMismatch(name: string)
    | RootRepositoryNotVisible(name: string, repository: string)
    | UnreachablePackage(name: string)
    | NoVisibleRepository(name: string)

  datatype ConsumedGraph = ConsumedGraph(rVersion: RPackageVersion, environment: string, cutoff: Option<int>,
    packages: seq<LockedPackage>)

  // Later packages of a name would replace earlier ones.
  function Index(ps: seq<LockedPackage>): ByName {
    if ps == [] then map[] else Index(ps[..|ps| - 1])[ps[|ps| - 1].identity.name := ps[|ps| - 1]]
  }

  lemma {:induction false} IndexFacts(ps: seq<LockedPackage>)
    ensures Index(ps).Keys == NamesOf(ps) && Indexed(Index(ps))
    ensures forall n | n in Index(ps) :: Index(ps)[n] in ps
  {
    if ps != [] {
      IndexFacts(ps[..|ps| - 1]);
      assert ps == ps[..|ps| - 1] + [ps[|ps| - 1]];
    }
  }

  // The first configured repository of an identifier.
  function FirstSpec(specs: seq<RepositorySpec>, id: string): Option<RepositorySpec> {
    if specs == [] then None
    else if specs[0].id == id then Some(specs[0])
    else FirstSpec(specs[1..], id)
  }

  // The place of the last configured repository of an identifier.
  function RankOf(specs: seq<RepositorySpec>, id: string): Option<nat> {
    if specs == [] then None
    else if specs[|specs| - 1].id == id then Some(|specs| - 1)
    else RankOf(specs[..|specs| - 1], id)
  }

  lemma {:induction false} RankedWhenConfigured(specs: seq<RepositorySpec>, id: string)
    ensures RankOf(specs, id).Some? <==> exists k :: 0 <= k < |specs| && specs[k].id == id
    ensures FirstSpec(specs, id).Some? <==> exists k :: 0 <= k < |specs| && specs[k].id == id
    decreases |specs|
  {
    if specs != [] {
      RankedInFront(specs, id);
      if specs[0].id != id {
        RankedWhenConfigured(specs[1..], id);
        if k :| 0 <= k < |specs| && specs[k].id == id {
          assert specs[1..][k - 1].id == id;
        }
      }
    }
  }

  lemma {:induction false} RankedInFront(specs: seq<RepositorySpec>, id: string)
    ensures RankOf(specs, id).Some? <==> exists k :: 0 <= k < |specs| && specs[k].id == id
    decreases |specs|
  {
    if specs != [] {
      var front := specs[..|specs| - 1];
      RankedInFront(front, id);
      if specs[|specs| - 1].id != id {
        if k :| 0 <= k < |specs| && specs[k].id == id {
          assert front[k].id == id;
        }
      }
    }
  }

  // Every repository of the package is configured, lets it in, and they are in the
  // order of the configuration.
  ghost predicate VisibleFits(p: LockedPackage, specs: seq<RepositorySpec>) {
    && (forall k | 0 <= k < |p.visible| ::
          FirstSpec(specs, p.visible[k]).Some? && FirstSpec(specs, p.visible[k]).value.allowed(p.identity.name))
    && (forall k | 0 < k < |p.visible| :: Ranked(specs, p.visible[k - 1], p.visible[k]))
  }

  predicate Ranked(specs: seq<RepositorySpec>, a: string, b: string) {
    RankOf(specs, a).Some? && RankOf(specs, b).Some? && RankOf(specs, a).value < RankOf(specs, b).value
  }

  method CheckVisible(p: LockedPackage, specs: seq<RepositorySpec>) returns (fault: Option<ConsumeError>)
    ensures fault.None? <==> VisibleFits(p, specs)
  {
    var visible := p.visible;
    for k := 0 to |visible|
      invariant forall j | 0 <= j < k :: FirstSpec(specs, visible[j]).Some?
    {
      if FirstSpec(specs, visible[k]).None? {
        return Some(UnknownVisibleRepository(p.identity.name, visible[k]));
      }
    }
    for k := 0 to |visible|
      invariant forall j | 0 <= j < k :: FirstSpec(specs, visible[j]).value.allowed(p.identity.name)
    {
      if !FirstSpec(specs, visible[k]).value.allowed(p.identity.name) {
        return Some(VisibleRepositoryPackageNotAllowed(p.identity.name, visible[k]));
      }
    }
    var previous: Option<nat> := None;
    for k := 0 to |visible|
      invariant k == 0 ==> previous.None?
      invariant k > 0 ==> previous.Some? && RankOf(specs, visible[k - 1]) == previous
      invariant forall j | 0 < j < k :: Ranked(specs, visible[j - 1], visible[j])
    {
      RankedWhenConfigured(specs, visible[k]);
      var rank := RankOf(specs, visible[k]).value;
      if previous.Some? && previous.value >= rank {
        assert !Ranked(specs, visible[k - 1], visible[k]);
        return Some(VisibleRepositoryOrderMismatch(p.identity.name));
      }
      previous := Some(rank);
    }
    return None;
  }

  ghost predicate RootFits(byName: ByName, rVersion: RPackageVersion, root: RootCheck) {
    if root.Supplied() then root.constraint.Satisfies(rVersion)
    else
      && root.name in byName && root.constraint.Satisfies(byName[root.name].version)
      && (root.repository.Some? ==> root.repository.value in byName[root.name].visible)
  }

  // The dependency closure of the roots that R does not supply.
  ghost predicate Required(byName: ByName, roots: seq<RootCheck>, name: string) {
    exists k :: 0 <= k < |roots| && RequiredBy(byName, roots[k], name)
  }

  ghost predicate RequiredBy(byName: ByName, root: RootCheck, name: string) {
    !root.Supplied() && Reaches(byName, root.name, name)
  }

  method CheckRoot(root: RootCheck, byName: ByName, rVersion: RPackageVersion) returns (fault: Option<ConsumeError>)
    ensures fault.None? <==> RootFits(byName, rVersion, root)
  {
    if root.Supplied() {
      return if root.constraint.Satisfies(rVersion) then None else Some(DirectRootVersionMismatch(root.name));
    }
    if root.name !in byName {
      return Some(DirectRootMissing(root.name));
    }
    if !root.constraint.Satisfies(byName[root.name].version) {
      return Some(DirectRootVersionMismatch(root.name));
    }
    if root.repository.Some? && root.repository.value !in byName[root.name].visible {
      return Some(RootRepositoryNotVisible(root.name, root.repository.value));
    }
    return None;
  }

  ghost predicate ReachedFrom(byName: ByName, roots: seq<RootCheck>, reachable: set<string>) {
    && ClosedIn(byName, reachable, reachable)
    && AllRequired(byName, roots, reachable)
    && (forall k | 0 <= k < |roots| :: RootReached(roots[k], reachable))
  }

  ghost predicate AllRequired(byName: ByName, roots: seq<RootCheck>, reachable: set<string>) {
    forall n | n in reachable :: Required(byName, roots, n)
  }

  ghost predicate RootReached(root: RootCheck, reachable: set<string>) {
    !root.Supplied() ==> root.name in reachable
  }

  lemma RequiredMore(byName: ByName, roots: seq<RootCheck>, root: RootCheck, n: string)
    requires Required(byName, roots, n) || RequiredBy(byName, root, n)
    ensures Required(byName, roots + [root], n)
  {
    var more := roots + [root];
    if Required(byName, roots, n) {
      var k :| 0 <= k < |roots| && RequiredBy(byName, roots[k], n);
      assert RequiredBy(byName, more[k], n);
    } else {
      assert RequiredBy(byName, more[|roots|], n);
    }
  }

  lemma ClosedTogether(byName: ByName, before: set<string>, after: set<string>)
    requires ClosedIn(byName, before, before) && before <= after && ClosedIn(byName, after - before, after)
    ensures ClosedIn(byName, after, after)
  {
    forall n, m | n in after && Leads(byName, n, m)
      ensures m in after
    {
      assert n in before || n in after - before;
    }
  }

  lemma RequiredTogether(byName: ByName, roots: seq<RootCheck>, root: RootCheck, before: set<string>,
    after: set<string>)
    requires AllRequired(byName, roots, before)
    requires forall n | n in after && n !in before :: RequiredBy(byName, root, n)
    ensures AllRequired(byName, roots + [root], after)
  {
    forall n | n in after
      ensures Required(byName, roots + [root], n)
    {
      assert n in before ==> Required(byName, roots, n);
      RequiredMore(byName, roots, root, n);
    }
  }

  lemma ReachedMore(byName: ByName, roots: seq<RootCheck>, root: RootCheck, before: set<string>, after: set<string>)
    requires ReachedFrom(byName, roots, before) && !root.Supplied() && Marked(byName, root.name, before, after)
    ensures ReachedFrom(byName, roots + [root], after)
  {
    ClosedTogether(byName, before, after);
    forall n | n in after && n !in before
      ensures RequiredBy(byName, root, n)
    {
      assert Reaches(byName, root.name, n);
    }
    RequiredTogether(byName, roots, root, before, after);
  }

  lemma ReachedSame(byName: ByName, roots: seq<RootCheck>, root: RootCheck, reachable: set<string>)
    requires ReachedFrom(byName, roots, reachable) && root.Supplied()
    ensures ReachedFrom(byName, roots + [root], reachable)
  {
    RequiredTogether(byName, roots, root, reachable, reachable);
  }

  // What is reached from the roots is exactly their closure.
  lemma ReachedIsRequired(byName: ByName, roots: seq<RootCheck>, reachable: set<string>, n: string)
    requires ReachedFrom(byName, roots, reachable)
    ensures n in reachable <==> Required(byName, roots, n)
  {
    if Required(byName, roots, n) {
      var k :| 0 <= k < |roots| && RequiredBy(byName, roots[k], n);
      var path :| Connects(byName, path, roots[k].name, n);
      assert RootReached(roots[k], reachable);
      ClosedHolds(byName, reachable, path);
    }
  }

  ghost predicate AllFit(byName: ByName, rVersion: RPackageVersion, roots: seq<RootCheck>) {
    forall k | 0 <= k < |roots| :: RootFits(byName, rVersion, roots[k])
  }

  ghost predicate AnyDangles(byName: ByName) {
    exists n :: Dangles(byName, n)
  }

  // One root more.
  method MarkRoot(root: RootCheck, byName: ByName, rVersion: RPackageVersion, marker: Marker,
    ghost before: seq<RootCheck>) returns (fault: Option<ConsumeError>)
    requires Indexed(byName) && marker.reachable <= byName.Keys && ReachedFrom(byName, before, marker.reachable)
    modifies marker
    ensures marker.reachable <= byName.Keys
    ensures fault.None? ==> RootFits(byName, rVersion, root) && ReachedFrom(byName, before + [root], marker.reachable)
    ensures fault.Some? ==> AnyDangles(byName) || !RootFits(byName, rVersion, root)
  {
    fault := CheckRoot(root, byName, rVersion);
    if fault.Some? {
      return;
    }
    if root.Supplied() {
      ReachedSame(byName, before, root, marker.reachable);
      return None;
    }
    ghost var reached := marker.reachable;
    var dangling := marker.MarkReachable(byName[root.name], byName);
    if dangling.Some? {
      ghost var n, m :| Reaches(byName, root.name, n) && DanglesAt(byName, n, m);
      assert Dangles(byName, n);
      return Some(InvalidLock(dangling.value));
    }
    ReachedMore(byName, before, root, reached, marker.reachable);
    return None;
  }

  // Checks every root and marks what it reaches.
  method MarkRoots(roots: seq<RootCheck>, byName: ByName, rVersion: RPackageVersion)
    returns (fault: Option<ConsumeError>, reachable: set<string>)
    requires Indexed(byName)
    ensures fault.None? ==> ReachedFrom(byName, roots, reachable) && AllFit(byName, rVersion, roots)
    ensures fault.Some? ==> AnyDangles(byName) || !AllFit(byName, rVersion, roots)
  {
    var marker := new Marker();
    for i := 0 to |roots|
      invariant fresh(marker) && marker.reachable <= byName.Keys
      invariant ReachedFrom(byName, roots[..i], marker.reachable) && AllFit(byName, rVersion, roots[..i])
    {
      assert roots[..i + 1] == roots[..i] + [roots[i]];
      fault := MarkRoot(roots[i], byName, rVersion, marker, roots[..i]);
      if fault.Some? {
        return fault, {};
      }
    }
    assert roots[..|roots|] == roots;
    return None, marker.reachable;
  }

  // Some configured repository lets the package in, or a root takes it directly.
  ghost predicate Offered(p: LockedPackage, roots: seq<RootCheck>, specs: seq<RepositorySpec>) {
    || (exists k :: 0 <= k < |roots| && roots[k].directSource && roots[k].name == p.identity.name)
    || (exists i, k ::
      0 <= i < |p.visible| && 0 <= k < |specs| && specs[k].id == p.visible[i] && specs[k].allowed(p.identity.name))
  }

  method CheckReached(packages: seq<LockedPackage>, reachable: set<string>, roots: seq<RootCheck>,
    configured: Option<seq<RepositorySpec>>)
      returns (fault: Option<ConsumeError>)
    ensures fault.None? <==> forall p | p in packages ::
      p.identity.name in reachable && (configured.Some? ==> Offered(p, roots, configured.value))
  {
    for i := 0 to |packages|
      invariant forall p | p in packages[..i] ::
        p.identity.name in reachable && (configured.Some? ==> Offered(p, roots, configured.value))
    {
      var p := packages[i];
      assert packages[..i + 1] == packages[..i] + [p] && p in packages;
      if p.identity.name !in reachable {
        return Some(UnreachablePackage(p.identity.name));
      }
      var direct := exists k | 0 <= k < |roots| :: roots[k].directSource && roots[k].name == p.identity.name;
      if configured.Some? && !direct
        && !exists k | 0 <= k < |p.visible| :: LetsIn(configured.value, p.visible[k], p.identity.name)
      {
        NotOffered(p, roots, configured.value);
        return Some(NoVisibleRepository(p.identity.name));
      }
      if configured.Some? && !direct {
        var k :| 0 <= k < |p.visible| && LetsIn(configured.value, p.visible[k], p.identity.name);
        assert Offered(p, roots, configured.value);
      }
    }
    assert packages[..|packages|] == packages;
    return None;
  }

  predicate LetsIn(specs: seq<RepositorySpec>, id: string, name: string) {
    exists k | 0 <= k < |specs| :: specs[k].id == id && specs[k].allowed(name)
  }

  lemma NotOffered(p: LockedPackage, roots: seq<RootCheck>, specs: seq<RepositorySpec>)
    requires !exists k | 0 <= k < |roots| :: roots[k].directSource && roots[k].name == p.identity.name
    requires !exists k | 0 <= k < |p.visible| :: LetsIn(specs, p.visible[k], p.identity.name)
    ensures !Offered(p, roots, specs)
  {
    forall i, k | 0 <= i < |p.visible| && 0 <= k < |specs|
      ensures !(specs[k].id == p.visible[i] && specs[k].allowed(p.identity.name))
    {
      assert !LetsIn(specs, p.visible[i], p.identity.name);
    }
  }

  ghost predicate HoldsRoots(roots: seq<RootCheck>, names: set<string>) {
    forall root | root in roots && !root.Supplied() :: root.name in names
  }

  ghost predicate HoldsEdges(ps: seq<LockedPackage>, names: set<string>) {
    forall p, e | p in ps && p.identity.name in names && e in p.dependencies :: e.package in names
  }

  ghost predicate HoldsClosure(ps: seq<LockedPackage>, roots: seq<RootCheck>, names: set<string>) {
    HoldsRoots(roots, names) && HoldsEdges(ps, names)
  }

  // The least set that holds the roots R does not supply and, with a package, all
  // that its edges name.
  ghost predicate IsClosure(ps: seq<LockedPackage>, roots: seq<RootCheck>, names: set<string>) {
    HoldsClosure(ps, roots, names) && forall other | HoldsClosure(ps, roots, other) :: names <= other
  }

  predicate FitsTarget(lock: Lockfile, target: RPackageVersion, environment: string, rRequirement: VersionConstraint) {
    && ValidateContents(lock).None? && CanonicalResolution(lock.resolution)
    && lock.resolution.rVersion.Same(target) && lock.resolution.environment == environment
    && rRequirement.Satisfies(lock.resolution.rVersion)
  }

  method CheckTarget(lock: Lockfile, target: RPackageVersion, environment: string, rRequirement: VersionConstraint)
    returns (fault: Option<ConsumeError>)
    ensures fault.None? <==> FitsTarget(lock, target, environment, rRequirement)
  {
    var resolution := lock.resolution;
    var invalid := ValidateContents(lock);
    if invalid.Some? {
      return Some(InvalidLock(invalid.value));
    }
    if !CanonicalResolution(resolution) {
      return Some(InvalidLock(NonCanonical));
    }
    if !resolution.rVersion.Same(target) {
      return Some(TargetMismatch);
    }
    if resolution.environment != environment {
      return Some(EnvironmentMismatch);
    }
    return if rRequirement.Satisfies(resolution.rVersion) then None else Some(RMismatch);
  }

  // A valid canonical lock for this target that suits the roots and repositories.
  ghost predicate Fitting(lock: Lockfile, target: RPackageVersion, environment: string,
    rRequirement: VersionConstraint, roots: seq<RootCheck>, configured: Option<seq<RepositorySpec>>) {
    var ps, byName := lock.resolution.packages, Index(lock.resolution.packages);
    && FitsTarget(lock, target, environment, rRequirement)
    && (configured.Some? ==> forall p | p in ps :: VisibleFits(p, configured.value))
    && AllFit(byName, lock.resolution.rVersion, roots)
    && (configured.Some? ==> forall p | p in ps :: Offered(p, roots, configured.value))
  }

  // What a lock has to be to be consumed for these roots and repositories.
  ghost predicate Consumable(lock: Lockfile, target: RPackageVersion, environment: string,
    rRequirement: VersionConstraint, roots: seq<RootCheck>, configured: Option<seq<RepositorySpec>>) {
    && Fitting(lock, target, environment, rRequirement, roots, configured)
    && AllRequired(Index(lock.resolution.packages), roots, NamesOf(lock.resolution.packages))
  }

  // Every edge of a valid lock leads to a locked package.
  lemma EdgesStay(lock: Lockfile)
    requires ValidateContents(lock).None?
    ensures HoldsEdges(lock.resolution.packages, NamesOf(lock.resolution.packages))
  {
    hide SortBy;
    var ps := lock.resolution.packages;
    var sorted := SortBy(ps, ComparePackages);
    SortElements(ps, ComparePackages);
    CheckGraphFacts(sorted);
    assert NamesOf(sorted) == NamesOf(ps);
    forall p, e | p in ps && e in p.dependencies
      ensures e.package in NamesOf(ps)
    {
      assert p in sorted && EdgesSelected(p, sorted);
    }
  }

  lemma NothingDangles(lock: Lockfile)
    requires ValidateContents(lock).None?
    ensures !AnyDangles(Index(lock.resolution.packages))
  {
    var ps := lock.resolution.packages;
    EdgesStay(lock);
    IndexFacts(ps);
    forall n, m
      ensures !DanglesAt(Index(ps), n, m)
    {
      if n in Index(ps) {
        assert Index(ps)[n] in ps && Index(ps)[n].identity.name in NamesOf(ps);
      }
    }
  }

  // Every package was reached exactly when every name is required.
  lemma AllReached(ps: seq<LockedPackage>, roots: seq<RootCheck>, reachable: set<string>)
    requires ReachedFrom(Index(ps), roots, reachable)
    ensures (forall p | p in ps :: p.identity.name in reachable) <==> AllRequired(Index(ps), roots, NamesOf(ps))
  {
    forall n
      ensures n in reachable <==> Required(Index(ps), roots, n)
    {
      ReachedIsRequired(Index(ps), roots, reachable, n);
    }
    assert forall p | p in ps :: p.identity.name in NamesOf(ps);
  }

  method CheckAllVisible(packages: seq<LockedPackage>, configured: Option<seq<RepositorySpec>>)
    returns (fault: Option<ConsumeError>)
    ensures fault.None? <==> (configured.Some? ==> forall p | p in packages :: VisibleFits(p, configured.value))
  {
    if configured.None? {
      return None;
    }
    for i := 0 to |packages|
      invariant forall p | p in packages[..i] :: VisibleFits(p, configured.value)
    {
      assert packages[..i + 1] == packages[..i] + [packages[i]] && packages[i] in packages;
      fault := CheckVisible(packages[i], configured.value);
      if fault.Some? {
        return;
      }
    }
    assert packages[..|packages|] == packages;
    return None;
  }

  // The part of `consume_roots` about roots and what they reach.
  method CheckClosure(lock: Lockfile, roots: seq<RootCheck>, configured: Option<seq<RepositorySpec>>)
    returns (fault: Option<ConsumeError>)
    requires ValidateContents(lock).None?
    ensures var ps := lock.resolution.packages;
      fault.None? <==>
        && AllFit(Index(ps), lock.resolution.rVersion, roots) && AllRequired(Index(ps), roots, NamesOf(ps))
        && (configured.Some? ==> forall p | p in ps :: Offered(p, roots, configured.value))
  {
    var ps := lock.resolution.packages;
    IndexFacts(ps);
    NothingDangles(lock);
    var unfit, reachable := MarkRoots(roots, Index(ps), lock.resolution.rVersion);
    if unfit.Some? {
      return unfit;
    }
    AllReached(ps, roots, reachable);
    fault := CheckReached(ps, reachable, roots, configured);
  }

  // `consume_roots`: succeeds exactly on consumable locks.
  method ConsumeRoots(lock: Lockfile, target: RPackageVersion, environment: string, rRequirement: VersionConstraint,
      roots: seq<RootCheck>, configured: Option<seq<RepositorySpec>>) returns (r: Result<ConsumedGraph, ConsumeError>)
    ensures r.Ok? <==> Consumable(lock, target, environment, rRequirement, roots, configured)
    ensures r.Ok? ==> r.value.packages == lock.resolution.packages && r.value.rVersion == lock.resolution.rVersion
    ensures r.Ok? ==> r.value.environment == lock.resolution.environment && r.value.cutoff == lock.resolution.cutoff
  {
    var resolution := lock.resolution;
    var fault := CheckTarget(lock, target, environment, rRequirement);
    if fault.Some? {
      return Err(fault.value);
    }
    fault := CheckAllVisible(resolution.packages, configured);
    if fault.Some? {
      return Err(fault.value);
    }
    fault := CheckClosure(lock, roots, configured);
    if fault.Some? {
      return Err(fault.value);
    }
    return Ok(ConsumedGraph(resolution.rVersion, resolution.environment, resolution.cutoff, resolution.packages));
  }

  // ------------------------------------------------------------- the closure theorem

  lemma ValidatedIdentities(lock: Lockfile)
    requires ValidateContents(lock).None?
    ensures OneIdentityEach(lock.resolution.packages)
  {
    var ps := lock.resolution.packages;
    SortElements(ps, ComparePackages);
    CheckGraphFacts(SortBy(ps, ComparePackages));
    SameElements(SortBy(ps, ComparePackages), ps);
  }

  lemma SameElements(sorted: seq<LockedPackage>, ps: seq<LockedPackage>)
    requires OneIdentityEach(sorted) && forall p :: p in sorted <==> p in ps
    ensures OneIdentityEach(ps)
  {
    forall p, q | p in ps && q in ps && p.identity.name == q.identity.name
      ensures SameIdentity(p.identity, q.identity)
    {
      assert p in sorted && q in sorted;
    }
  }

  // A consumed lock has one package for each name.
  lemma ConsumedIsIndexed(lock: Lockfile, p: LockedPackage)
    requires ValidateContents(lock).None? && CanonicalResolution(lock.resolution) && p in lock.resolution.packages
    ensures p.identity.name in Index(lock.resolution.packages) && Index(lock.resolution.packages)[p.identity.name] == p
  {
    ValidatedIdentities(lock);
    CanonicalIsStrict(lock.resolution.packages);
    SoleOfName(lock.resolution.packages, p);
  }

  lemma SoleOfName(ps: seq<LockedPackage>, p: LockedPackage)
    requires StrictlySorted(ps, ComparePackages) && OneIdentityEach(ps) && p in ps
    ensures p.identity.name in Index(ps) && Index(ps)[p.identity.name] == p
  {
    IndexFacts(ps);
    assert p.identity.name in NamesOf(ps);
    var q := Index(ps)[p.identity.name];
    assert q in ps && SameIdentity(p.identity, q.identity);
    StrictIsSingle(ps, p, q);
  }

  lemma RequiredIsHeld(ps: seq<LockedPackage>, roots: seq<RootCheck>, name: string, names: set<string>)
    requires Required(Index(ps), roots, name) && HoldsClosure(ps, roots, names)
    ensures name in names
  {
    IndexFacts(ps);
    var k :| 0 <= k < |roots| && RequiredBy(Index(ps), roots[k], name);
    var path :| Connects(Index(ps), path, roots[k].name, name);
    assert roots[k] in roots;
    forall n, m | n in names && Leads(Index(ps), n, m)
      ensures m in names
    {
      var e :| e in Index(ps)[n].dependencies && e.package == m;
      assert Index(ps)[n] in ps;
    }
    ClosedHolds(Index(ps), names, path);
  }

  lemma RequiredFurther(byName: ByName, roots: seq<RootCheck>, name: string, next: string)
    requires Required(byName, roots, name) && Leads(byName, name, next)
    ensures Required(byName, roots, next)
  {
    var k :| 0 <= k < |roots| && RequiredBy(byName, roots[k], name);
    var path :| Connects(byName, path, roots[k].name, name);
    var longer := path + [next];
    forall j | 0 < j < |longer|
      ensures Leads(byName, longer[j - 1], longer[j])
    {
      if j < |path| {
        assert Leads(byName, path[j - 1], path[j]);
      }
    }
    assert Connects(byName, longer, roots[k].name, next);
    assert RequiredBy(byName, roots[k], next);
  }

  lemma FittingHolds(lock: Lockfile, roots: seq<RootCheck>)
    requires ValidateContents(lock).None?
    requires AllFit(Index(lock.resolution.packages), lock.resolution.rVersion, roots)
    ensures HoldsClosure(lock.resolution.packages, roots, NamesOf(lock.resolution.packages))
  {
    EdgesStay(lock);
    IndexFacts(lock.resolution.packages);
  }

  ghost predicate OnePerName(ps: seq<LockedPackage>) {
    forall p | p in ps :: p.identity.name in Index(ps) && Index(ps)[p.identity.name] == p
  }

  // The names with a path from a root hold the roots and all edges.
  lemma RequiredHolds(ps: seq<LockedPackage>, roots: seq<RootCheck>, names: set<string>)
    requires OnePerName(ps) && HoldsClosure(ps, roots, NamesOf(ps))
    requires forall n :: n in names <==> Required(Index(ps), roots, n)
    ensures HoldsClosure(ps, roots, names)
  {
    var byName := Index(ps);
    IndexFacts(ps);
    forall root | root in roots && !root.Supplied()
      ensures root.name in names
    {
      var k :| 0 <= k < |roots| && roots[k] == root;
      ReachesItself(byName, root.name);
      assert RequiredBy(byName, roots[k], root.name);
    }
    forall p, e | p in ps && p.identity.name in names && e in p.dependencies
      ensures e.package in names
    {
      assert p.identity.name in NamesOf(ps);
      assert Leads(byName, p.identity.name, e.package);
      RequiredFurther(byName, roots, p.identity.name, e.package);
    }
  }

  lemma RequiredIsLeast(ps: seq<LockedPackage>, roots: seq<RootCheck>)
    requires OnePerName(ps) && HoldsClosure(ps, roots, NamesOf(ps))
    ensures AllRequired(Index(ps), roots, NamesOf(ps)) <==> IsClosure(ps, roots, NamesOf(ps))
  {
    var all := NamesOf(ps);
    if AllRequired(Index(ps), roots, all) {
      forall other, n | HoldsClosure(ps, roots, other) && n in all
        ensures n in other
      {
        RequiredIsHeld(ps, roots, n, other);
      }
    }
    if IsClosure(ps, roots, all) {
      var required := set n | n in all && Required(Index(ps), roots, n);
      forall n
        ensures n in required <==> Required(Index(ps), roots, n)
      {
        if Required(Index(ps), roots, n) {
          RequiredIsHeld(ps, roots, n, all);
        }
      }
      RequiredHolds(ps, roots, required);
      assert all <= required;
    }
  }

  // A fitting lock is consumed exactly when its names are the dependency closure of
  // the roots that R does not supply: every such root and every edge leads to a locked
  // package, and no smaller set will do.
  lemma ConsumedIsClosure(lock: Lockfile, target: RPackageVersion, environment: string, rRequirement: VersionConstraint,
      roots: seq<RootCheck>, configured: Option<seq<RepositorySpec>>)
    requires Fitting(lock, target, environment, rRequirement, roots, configured)
    ensures Consumable(lock, target, environment, rRequirement, roots, configured) <==>
      IsClosure(lock.resolution.packages, roots, NamesOf(lock.resolution.packages))
  {
    var ps := lock.resolution.packages;
    FittingHolds(lock, roots);
    forall p | p in ps
      ensures p.identity.name in Index(ps) && Index(ps)[p.identity.name] == p
    {
      ConsumedIsIndexed(lock, p);
    }
    RequiredIsLeast(ps, roots);
  }
}
