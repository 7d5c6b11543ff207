/**
 What a project repository holds, the records that describe it, and the checks a
 materialization makes before it trusts either: `materialization.rs`,
 `transaction.rs` and `packages.rs` without their file operations.
 */
module Publication {
  import opened Prelude
  import opened Text
  import opened Versions
  import opened Domain

  type Bytes = string

  datatype Method = Clone | Copy

  // One selected release with the cache object that holds its archive; `cached`
  // is the object's content, or None when it is not a regular file.
  datatype Artifact = Artifact(
    identity: ReleaseIdentity,
    version: RPackageVersion,
    sha256: string,
    size: nat,
    cached: Option<Bytes>) {
    function Package(): string {
      identity.name
    }

    function Destination(): string {
      identity.name + "_" + version.raw + ".tar.gz"
    }
  }

  datatype Record = Record(
    identity: string,
    package: string,
    version: string,
    sha256: string,
    size: nat,
    destination: string,
    how: Method)

  datatype State = State(schema: nat, index: string, records: seq<Record>)

  datatype Transaction = Transaction(
    schema: nat, index: string, stateTemp: string, staging: string, records: seq<Record>)

  // What the surroundings contribute: SHA-256 in hexadecimal, one rendered index
  // paragraph per artifact (None when it cannot be rendered), and whether the
  // file system can clone an object or must copy it.
  datatype Host = Host(sha: Bytes -> string, paragraph: Artifact -> Option<Bytes>, how: Artifact -> Method)

  datatype Error =
    | TransactionConflict
    | ExistingConflict
    | InvalidState
    | InvalidInput
    | DuplicatePackage
    | DuplicateDestination
    | ProvenanceVersionMismatch
    | InvalidCacheObject
    | PackagesError
    | Io

  // ------------------------------------------------------------ the directory

  // A small file: fully written, cut short, or not a regular file.
  datatype Slot<T> = Whole(value: T) | Torn | Special

  datatype Node = Regular(bytes: Bytes) | Irregular

  // A repository tree. `layout` holds when the root contains exactly `src`, and
  // `src` exactly `contrib`; `contrib` lists that directory.
  datatype Tree = Tree(layout: bool, contrib: map<string, Node>) | NotADirectory

  // The names in `.rsolve` that publication uses.
  datatype Directory = Directory(
    marker: Option<Slot<Transaction>>,
    markerTemps: map<string, Slot<Transaction>>,
    state: Option<Slot<State>>,
    stateTemps: map<string, Slot<State>>,
    stagings: map<string, Tree>,
    repository: Option<Tree>)

  const EMPTY := Directory(None, map[], None, map[], map[], None)

  const STATE_PREFIX := ".materialization.toml.partial."
  const MARKER_PREFIX := ".materialization.transaction.toml.partial."
  const STAGING_PREFIX := ".repository.partial."
  const CONTRIB := "repository/src/contrib/"
  const INDEX := "PACKAGES"

  predicate SafeTempName(name: string, prefix: string) {
    name != "" && '/' !in name && '\\' !in name && prefix <= name && name != "." && name != ".."
  }

  predicate Quiet(d: Directory) {
    d.stateTemps == map[] && d.markerTemps == map[] && d.stagings == map[]
  }

  // -------------------------------------------------- canonical order and index

  // The key ends in the package name, set off by the last colon and, for
  // provenances that fix a version, followed by it.
  function IdentityKey(id: ReleaseIdentity): string {
    KeyFront(id.provenance) + ":" + (id.name + KeySuffix(id.provenance))
  }

  function KeyFront(provenance: Provenance): string {
    match provenance
    case RBasePackage(_) => "r-base"
    case RegistryRelease(namespace, _) => "registry:" + namespace + ":"
    case GitCommit(repository, commit, subdirectory) =>
      "git:" + repository + "@" + commit + ":"
      + (match subdirectory case None => "" case Some(value) => value) + ":"
    case BioconductorRelease(namespace, release, _) => "bioconductor:" + namespace + ":" + release + ":"
    case ImmutableSource(scheme, digest) => "immutable:" + scheme + ":" + digest + ":"
  }

  function KeySuffix(provenance: Provenance): string {
    match provenance
    case RBasePackage(v) => "@" + v.raw
    case RegistryRelease(_, v) => "@" + v.raw
    case BioconductorRelease(_, _, v) => "@" + v.raw
    case _ => ""
  }

  function ComparePackage(a: Artifact, b: Artifact): Order {
    CompareText(a.Package(), b.Package())
  }

  function CompareDestination(a: Artifact, b: Artifact): Order {
    CompareText(a.Destination(), b.Destination())
  }

  function CompareIdentityKey(a: Artifact, b: Artifact): Order {
    CompareText(IdentityKey(a.identity), IdentityKey(b.identity))
  }

  function CompareVersion(a: Artifact, b: Artifact): Order {
    a.version.Compare(b.version)
  }

  function CompareArtifacts(a: Artifact, b: Artifact): Order {
    ComparePackage(a, b).Then(CompareDestination(a, b)).Then(CompareIdentityKey(a, b))
  }

  function CompareRows(a: Artifact, b: Artifact): Order {
    ComparePackage(a, b).Then(CompareVersion(a, b))
  }

  function CanonicalArtifacts(artifacts: seq<Artifact>): seq<Artifact> {
    SortBy(artifacts, CompareArtifacts)
  }

  function Paragraphs(h: Host, rows: seq<Artifact>): Option<seq<Bytes>> {
    if rows == [] then Some([])
    else match (h.paragraph(rows[0]), Paragraphs(h, rows[1..]))
      case (Some(first), Some(rest)) => Some([first] + rest)
      case _ => None
  }

  // The PACKAGES index of the artifacts.
  function WritePackages(h: Host, artifacts: seq<Artifact>): Option<Bytes> {
    match Paragraphs(h, SortBy(artifacts, CompareRows))
    case Some(paragraphs) => Some(Join(paragraphs, "\n\n") + "\n")
    case None => None
  }

  ghost predicate UniquePackages(artifacts: seq<Artifact>) {
    forall i, j | 0 <= i < j < |artifacts| :: artifacts[i].Package() != artifacts[j].Package()
  }

  lemma ArtifactOrderings()
    ensures Ordering(CompareArtifacts) && Ordering(CompareRows)
  {
    OrderingByText((a: Artifact) => a.Package(), ComparePackage);
    OrderingByText((a: Artifact) => a.Destination(), CompareDestination);
    OrderingByText((a: Artifact) => IdentityKey(a.identity), CompareIdentityKey);
    OrderingByNats((a: Artifact) => a.version.Key(), CompareVersion);
    OrderingThen(ComparePackage, CompareVersion, CompareRows);
    var first := (a: Artifact, b: Artifact) => ComparePackage(a, b).Then(CompareDestination(a, b));
    OrderingThen(ComparePackage, CompareDestination, first);
    OrderingThen(first, CompareIdentityKey, CompareArtifacts);
  }

  // Artifacts of distinct packages have one order by package, however they are
  // listed and whatever breaks ties.
  lemma CanonicalOrder(artifacts: seq<Artifact>)
    requires UniquePackages(artifacts)
    ensures multiset(CanonicalArtifacts(artifacts)) == multiset(artifacts)
    ensures |CanonicalArtifacts(artifacts)| == |artifacts|
    ensures forall a :: a in CanonicalArtifacts(artifacts) <==> a in artifacts
    ensures SortBy(CanonicalArtifacts(artifacts), CompareRows) == SortBy(artifacts, CompareRows)
  {
    ArtifactOrderings();
    var canonical := CanonicalArtifacts(artifacts);
    SortElements(artifacts, CompareArtifacts);
    SortElements(canonical, CompareRows);
    SortElements(artifacts, CompareRows);
    SortSorted(canonical, CompareRows);
    SortSorted(artifacts, CompareRows);
    var rows := SortBy(artifacts, CompareRows);
    forall a, b | a in SortBy(canonical, CompareRows) && b in SortBy(canonical, CompareRows) &&
      CompareRows(a, b) == Equal
      ensures a == b
    {
      CompareTextFlip(a.Package(), b.Package());
      var i :| 0 <= i < |artifacts| && artifacts[i] == a;
      var j :| 0 <= j < |artifacts| && artifacts[j] == b;
    }
    SortedArrangementUnique(SortBy(canonical, CompareRows), rows, CompareRows);
  }

  // The index does not depend on the order in which a selection is listed.
  lemma IndexOfCanonical(h: Host, artifacts: seq<Artifact>)
    requires UniquePackages(artifacts)
    ensures WritePackages(h, CanonicalArtifacts(artifacts)) == WritePackages(h, artifacts)
  {
    CanonicalOrder(artifacts);
  }

  // ------------------------------------------------------------------- checks

  function RecordFor(a: Artifact, how: Method): Record {
    Record(IdentityKey(a.identity), a.Package(), a.version.raw, a.sha256, a.size, CONTRIB + a.Destination(), how)
  }

  predicate RecordMatches(record: Record, a: Artifact) {
    record == RecordFor(a, record.how)
  }

  predicate RecordsMatch(records: seq<Record>, requested: seq<Artifact>) {
    var canonical := CanonicalArtifacts(requested);
    |records| == |canonical| && forall i | 0 <= i < |records| && i < |canonical| ::
      RecordMatches(records[i], canonical[i])
  }

  predicate StateMatches(state: State, tx: Transaction, requested: seq<Artifact>) {
    state.schema == 2 && state.index == tx.index && state.records == tx.records
    && RecordsMatch(state.records, requested)
  }

  function ContribName(record: Record): (name: string)
    requires CONTRIB <= record.destination
  {
    record.destination[|CONTRIB|..]
  }

  function ContribNames(records: seq<Record>): set<string> {
    set i | 0 <= i < |records| && CONTRIB <= records[i].destination :: ContribName(records[i])
  }

  predicate RecordPresent(h: Host, contrib: map<string, Node>, record: Record) {
    && CONTRIB <= record.destination
    && ContribName(record) in contrib
    && contrib[ContribName(record)].Regular?
    && |contrib[ContribName(record)].bytes| == record.size
    && h.sha(contrib[ContribName(record)].bytes) == record.sha256
  }

  // `validate_repository_contents`: the tree holds the recorded archives, the
  // index with the recorded digest, and nothing else.
  predicate ValidContents(h: Host, tree: Tree, records: seq<Record>, index: string) {
    && tree.Tree?
    && tree.layout
    && tree.contrib.Keys == ContribNames(records) + {INDEX}
    && (forall i | 0 <= i < |records| :: RecordPresent(h, tree.contrib, records[i]))
    && tree.contrib[INDEX].Regular?
    && h.sha(tree.contrib[INDEX].bytes) == index
  }

  function CheckIndexDigest(h: Host, index: string, requested: seq<Artifact>): Option<Error> {
    match WritePackages(h, requested)
    case None => Some(PackagesError)
    case Some(packages) => if h.sha(packages) != index then Some(TransactionConflict) else None
  }

  // The state named by a marker, when its temporary file must still be there.
  function CheckStateTemp(d: Directory, tx: Transaction, requested: seq<Artifact>): Option<Error> {
    if |d.stateTemps| != 1 || tx.stateTemp !in d.stateTemps || d.stateTemps[tx.stateTemp] == Special then
      Some(TransactionConflict)
    else if d.stateTemps[tx.stateTemp] == Torn then Some(TransactionConflict)
    else if !StateMatches(d.stateTemps[tx.stateTemp].value, tx, requested) then Some(TransactionConflict)
    else if d.state == Some(Torn) then Some(InvalidState)
    else if d.state.Some? && d.state.value != d.stateTemps[tx.stateTemp] then Some(TransactionConflict)
    else None
  }

  // The names in a marker are safe and bind exactly one of staging and repository.
  predicate NamesBound(d: Directory, tx: Transaction) {
    && SafeTempName(tx.stateTemp, STATE_PREFIX)
    && SafeTempName(tx.staging, STAGING_PREFIX)
    && |d.stagings| <= 1
    && (d.stagings == map[] || tx.staging in d.stagings)
    && d.repository.Some? != (tx.staging in d.stagings)
    && d.state != Some(Special)
  }

  // The committed state, or the state temporary that must still be there.
  function CheckStateFor(d: Directory, tx: Transaction, requested: seq<Artifact>): Option<Error> {
    if d.state.Some? && d.stateTemps == map[] then
      if d.state.value == Torn then Some(InvalidState)
      else if d.state.value == Special || !StateMatches(d.state.value.value, tx, requested)
        then Some(TransactionConflict)
      else None
    else CheckStateTemp(d, tx, requested)
  }

  // The tree a marker vouches for: published already, or still staged.
  function TreeToCheck(d: Directory, tx: Transaction): Tree {
    if d.repository.Some? then d.repository.value
    else if tx.staging in d.stagings then d.stagings[tx.staging]
    else NotADirectory
  }

  function CheckContents(h: Host, tree: Tree, tx: Transaction): Result<Transaction, Error> {
    if ValidContents(h, tree, tx.records, tx.index) then Ok(tx) else Err(TransactionConflict)
  }

  // Everything `recover` validates once a marker exists, before it changes
  // either publication name.
  function CheckMarked(h: Host, d: Directory, requested: seq<Artifact>): Result<Transaction, Error>
    requires d.marker.Some?
  {
    if d.marker.value == Special then Err(TransactionConflict)
    else if d.markerTemps != map[] then Err(TransactionConflict)
    else if d.marker.value == Torn then Err(InvalidState)
    else
      var tx := d.marker.value.value;
      if tx.schema != 2 || !RecordsMatch(tx.records, requested) then Err(TransactionConflict)
      else match CheckIndexDigest(h, tx.index, requested)
        case Some(error) => Err(error)
        case None =>
          if !NamesBound(d, tx) then Err(TransactionConflict)
          else match CheckStateFor(d, tx, requested)
            case Some(error) => Err(error)
            case None => CheckContents(h, TreeToCheck(d, tx), tx)
  }

  // Everything `reconstruct` validates about temporaries that no marker binds.
  function CheckOrphans(h: Host, d: Directory, requested: seq<Artifact>): Result<Transaction, Error> {
    if |d.stateTemps| != 1 || |d.stagings| != 1 || |d.markerTemps| > 1 then Err(TransactionConflict)
    else
      var stateName, staging := OnlyKey(d.stateTemps), OnlyKey(d.stagings);
      if d.stateTemps[stateName] == Special || d.stagings[staging] == NotADirectory then Err(TransactionConflict)
      else if d.stateTemps[stateName] == Torn then Err(TransactionConflict)
      else
        var state := d.stateTemps[stateName].value;
        if state.schema != 2 || !RecordsMatch(state.records, requested) then Err(TransactionConflict)
        else
          var bound := Transaction(2, state.index, stateName, staging, state.records);
          var candidate :=
            if d.markerTemps == map[] then Ok(bound)
            else
              var marker := d.markerTemps[OnlyKey(d.markerTemps)];
              if marker == Special then Err(TransactionConflict)
              else if marker == Torn then Err(InvalidState)
              else if marker.value != bound then Err(TransactionConflict)
              else Ok(bound);
          if candidate.Err? then candidate
          else match CheckIndexDigest(h, bound.index, requested)
            case Some(error) => Err(error)
            case None =>
              CheckContents(h, d.stagings[staging], bound)
  }

  // ------------------------------------------------------- an existing state

  // The first record with the given identity and digest.
  function FindRecord(records: seq<Record>, identity: string, sha256: string): Option<Record> {
    if records == [] then None
    else if records[0].identity == identity && records[0].sha256 == sha256 then Some(records[0])
    else FindRecord(records[1..], identity, sha256)
  }

  predicate CacheObjectValid(h: Host, a: Artifact) {
    a.cached.Some? && |a.cached.value| == a.size && h.sha(a.cached.value) == a.sha256
  }

  // `validate_existing_state` for one artifact.
  function CheckExisting(h: Host, state: State, a: Artifact, repository: Option<Tree>): Option<Error> {
    match FindRecord(state.records, IdentityKey(a.identity), a.sha256)
    case None => Some(ExistingConflict)
    case Some(record) =>
      if !RecordMatches(record, a) then Some(ExistingConflict)
      else if !CacheObjectValid(h, a) then Some(InvalidCacheObject)
      else if !(repository.Some? && repository.value.Tree?
             && a.Destination() in repository.value.contrib
             && repository.value.contrib[a.Destination()].Regular?
             && h.sha(repository.value.contrib[a.Destination()].bytes) == a.sha256)
      then Some(ExistingConflict)
      else None
  }

  function CheckAllExisting(h: Host, state: State, artifacts: seq<Artifact>, repository: Option<Tree>): Option<Error> {
    if artifacts == [] then None
    else match CheckExisting(h, state, artifacts[0], repository)
      case Some(error) => Some(error)
      case None => CheckAllExisting(h, state, artifacts[1..], repository)
  }

  // The no-op path of `materialize` when a state file exists.
  function CheckCommitted(h: Host, d: Directory, requested: seq<Artifact>): Result<State, Error>
    requires d.state.Some?
  {
    if !d.state.value.Whole? then Err(InvalidState)
    else
      var state := d.state.value.value;
      if state.schema != 2 || |state.records| != |requested| then Err(InvalidState)
      else match CheckAllExisting(h, state, requested, d.repository)
        case Some(error) => Err(error)
        case None =>
          match WritePackages(h, requested)
          case None => Err(PackagesError)
          case Some(packages) =>
            if h.sha(packages) != state.index then Err(ExistingConflict)
            else if d.repository.Some? && ValidContents(h, d.repository.value, state.records, state.index)
              then Ok(state)
            else Err(TransactionConflict)
  }

  // --------------------------------------------------------------- the request

  predicate SafeComponent(value: string) {
    value != "" && value != "." && value != ".."
    && forall c | c in value :: IsAlphanumeric(c) || c == '.' || c == '-' || c == '_'
  }

  // A provenance that fixes a version must agree with the selected one.
  predicate ProvenanceAgrees(a: Artifact) {
    match a.identity.provenance
    case RegistryRelease(_, v) => v.Same(a.version)
    case BioconductorRelease(_, _, v) => v.Same(a.version)
    case RBasePackage(v) => v.Same(a.version)
    case _ => true
  }

  predicate InputAcceptable(a: Artifact) {
    SafeComponent(a.Package()) && SafeComponent(a.version.raw) && ProvenanceAgrees(a) && a.size != 0
  }

  ghost predicate InputsValid(artifacts: seq<Artifact>) {
    && (forall i | 0 <= i < |artifacts| :: InputAcceptable(artifacts[i]))
    && UniquePackages(artifacts)
    && (forall i, j | 0 <= i < j < |artifacts| :: artifacts[i].Destination() != artifacts[j].Destination())
  }

  // Why an artifact is refused that comes after acceptable ones.
  ghost function FaultAfter(before: seq<Artifact>, a: Artifact): Option<Error> {
    if !SafeComponent(a.Package()) || !SafeComponent(a.version.raw) then Some(InvalidInput)
    else if !ProvenanceAgrees(a) then Some(ProvenanceVersionMismatch)
    else if a.Destination() in Destinations(before) then Some(DuplicateDestination)
    else if a.Package() in Packages(before) then Some(DuplicatePackage)
    else if a.size == 0 then Some(InvalidInput)
    else None
  }

  ghost function Destinations(artifacts: seq<Artifact>): set<string> {
    set a | a in artifacts :: a.Destination()
  }

  ghost function Packages(artifacts: seq<Artifact>): set<string> {
    set a | a in artifacts :: a.Package()
  }

  // The fault of the first artifact that cannot be accepted after those before it.
  ghost predicate FirstFault(artifacts: seq<Artifact>, error: Error) {
    exists i :: 0 <= i < |artifacts| && InputsValid(artifacts[..i])
      && FaultAfter(artifacts[..i], artifacts[i]) == Some(error)
  }

  lemma ValidFurther(before: seq<Artifact>, a: Artifact)
    requires InputsValid(before)
    ensures InputsValid(before + [a]) <==> FaultAfter(before, a).None?
  {
    var longer := before + [a];
    assert longer[|before|] == a && forall i | 0 <= i < |before| :: longer[i] == before[i] && before[i] in before;
    if InputsValid(longer) {
      assert InputAcceptable(longer[|before|]);
    }
  }

  lemma ValidInFront(artifacts: seq<Artifact>, i: nat)
    requires i <= |artifacts| && InputsValid(artifacts)
    ensures InputsValid(artifacts[..i])
  {
  }

  // The checks on one artifact, against the names taken so far.
  method CheckInput(selected: Artifact, packages: set<string>, destinations: set<string>, ghost before: seq<Artifact>)
    returns (fault: Option<Error>)
    requires packages == Packages(before) && destinations == Destinations(before)
    ensures fault == FaultAfter(before, selected)
  {
    if !SafeComponent(selected.Package()) || !SafeComponent(selected.version.raw) {
      return Some(InvalidInput);
    }
    if !ProvenanceAgrees(selected) {
      return Some(ProvenanceVersionMismatch);
    }
    if selected.Destination() in destinations {
      return Some(DuplicateDestination);
    }
    if selected.Package() in packages {
      return Some(DuplicatePackage);
    }
    if selected.size == 0 {
      return Some(InvalidInput);
    }
    return None;
  }

  method ValidateInputs(artifacts: seq<Artifact>) returns (fault: Option<Error>)
    ensures fault.None? <==> InputsValid(artifacts)
    ensures fault.Some? ==> FirstFault(artifacts, fault.value)
    ensures fault != Some(Io)
  {
    var packages: set<string>, destinations: set<string> := {}, {};
    for i := 0 to |artifacts|
      invariant packages == Packages(artifacts[..i]) && destinations == Destinations(artifacts[..i])
      invariant InputsValid(artifacts[..i])
    {
      assert artifacts[..i + 1] == artifacts[..i] + [artifacts[i]];
      ValidFurther(artifacts[..i], artifacts[i]);
      fault := CheckInput(artifacts[i], packages, destinations, artifacts[..i]);
      if fault.Some? {
        if InputsValid(artifacts) {
          ValidInFront(artifacts, i + 1);
        }
        return;
      }
      destinations := destinations + {artifacts[i].Destination()};
      packages := packages + {artifacts[i].Package()};
    }
    assert artifacts[..|artifacts|] == artifacts;
    return None;
  }

  // The values Rust's types guarantee for an artifact.
  ghost predicate WellTyped(a: Artifact) {
    && ValidPackageName(a.Package())
    && a.version.Valid()
    && match a.identity.provenance
       case RegistryRelease(_, v) => v.Valid()
       case BioconductorRelease(_, _, v) => v.Valid()
       case RBasePackage(v) => v.Valid()
       case _ => true
  }

  // --------------------------------------------- identity keys name a package

  function AfterLastColon(s: string): string {
    if ':' !in s then s else AfterLastColon(s[1..])
  }

  function BeforeAt(s: string): string {
    if s == "" || s[0] == '@' then "" else [s[0]] + BeforeAt(s[1..])
  }

  lemma {:induction false} TailAfterColon(front: string, tail: string)
    requires ':' !in tail
    ensures AfterLastColon(front + ":" + tail) == tail
  {
    var s := front + ":" + tail;
    assert s[|front|] == ':';
    if front == "" {
      assert s[1..] == tail;
    } else {
      TailAfterColon(front[1..], tail);
      assert s[1..] == front[1..] + ":" + tail;
    }
  }

  lemma {:induction false} NameBeforeAt(name: string, rest: string)
    requires '@' !in name
    ensures BeforeAt(name) == name && BeforeAt(name + "@" + rest) == name
  {
    if name == "" {
    } else {
      assert name[0] in name;
      NameBeforeAt(name[1..], rest);
      assert (name + "@" + rest)[1..] == name[1..] + "@" + rest;
      assert [name[0]] + name[1..] == name;
    }
  }

  lemma PackageOfKey(front: string, name: string, suffix: string)
    requires ':' !in name && ':' !in suffix && '@' !in name
    requires suffix == "" || suffix[0] == '@'
    ensures BeforeAt(AfterLastColon(front + ":" + (name + suffix))) == name
  {
    TailAfterColon(front, name + suffix);
    BeforeSuffix(name, suffix);
  }

  lemma BeforeSuffix(name: string, suffix: string)
    requires '@' !in name
    requires suffix == "" || suffix[0] == '@'
    ensures BeforeAt(name + suffix) == name
  {
    if suffix == "" {
      NameBeforeAt(name, "");
      assert name + suffix == name;
    } else {
      NameBeforeAt(name, suffix[1..]);
      assert name + suffix == name + "@" + suffix[1..];
    }
  }

  lemma SuffixHasNoColon(a: Artifact)
    requires WellTyped(a)
    ensures ':' !in KeySuffix(a.identity.provenance)
  {
    match a.identity.provenance
    case RBasePackage(v) => ValidSpelling(v.raw, 1);
    case RegistryRelease(_, v) => ValidSpelling(v.raw, 1);
    case BioconductorRelease(_, _, v) => ValidSpelling(v.raw, 1);
    case _ =>
  }

  // The package name can be read back from an identity key of any provenance.
  lemma IdentityKeyNamesPackage(a: Artifact)
    requires WellTyped(a)
    ensures BeforeAt(AfterLastColon(IdentityKey(a.identity))) == a.Package()
  {
    SuffixHasNoColon(a);
    PackageOfKey(KeyFront(a.identity.provenance), a.Package(), KeySuffix(a.identity.provenance));
  }
}
