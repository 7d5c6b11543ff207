/**
 The wire records of a lock. Versions inside provenance are dropped and rebuilt from
 the package version; the published spelling is folded into it and recovered.
 The TOML text around the records is not modelled.
 */
module Wire {
  import opened Prelude
  import opened Text
  import opened Versions
  import opened Domain
  import opened Requests
  import opened Locks
  import opened LockNormal
  import opened ConstraintText

  datatype WireSource =
    | RegistrySource(namespace: string)
    | BioconductorSource(namespace: string, release: string)
    | GitSource(repository: string, commit: string, subdirectory: Option<string>)
    | ImmutableRecord(scheme: string, digest: string)

  datatype WireGit = WireGit(url: string, selector: string, value: Option<string>, subdirectory: Option<string>,
    constraint: string)

  datatype WirePackage = WirePackage(
    name: string, version: string, source: WireSource, digest: string,
    dependencies: seq<(string, string)>, visible: seq<string>, requested: Option<WireGit>)

  datatype WireLock = WireLock(
    version: nat, rVersion: string, intent: string, rRequirement: string, environment: string,
    cutoff: Option<string>, packages: seq<WirePackage>)

  datatype WireError =
    | UnsupportedSchema(version: nat)
    | InvalidIdentity
    | NonCanonicalVersion
    | InvalidField(field: string)
    | DomainError(error: LockError)

  const SCHEMA_VERSION: nat := 1

  // Constructors of text types defined elsewhere: the text they store, if they accept.
  datatype Types = Types(
    namespace: string -> Option<string>,
    release: string -> Option<string>,
    url: string -> Option<string>,
    subdirectory: string -> Option<string>,
    scheme: string -> Option<string>,
    digest: string -> Option<string>,
    repository: string -> Option<string>,
    environment: string -> Option<string>,
    selectorAllowed: string -> bool,
    showDate: int -> string,
    readDate: string -> Option<int>)

  function Field<T>(value: Option<T>, name: string): Result<T, WireError> {
    match value
    case Some(v) => Ok(v)
    case None => Err(InvalidField(name))
  }

  function OptionalField(read: string -> Option<string>, value: Option<string>, name: string): Result<Option<string>,
    WireError> {
    match value
    case None => Ok(None)
    case Some(text) =>
      var v :- Field(read(text), name);
      Ok(Some(v))
  }

  // ------------------------------------------------------------------- encoding

  function EncodeProvenance(p: Provenance): Result<WireSource, WireError> {
    match p
    case RegistryRelease(namespace, _) => Ok(RegistrySource(namespace))
    case BioconductorRelease(namespace, release, _) => Ok(BioconductorSource(namespace, release))
    case GitCommit(repository, commit, subdirectory) => Ok(GitSource(repository, commit, subdirectory))
    case ImmutableSource(scheme, digest) => Ok(ImmutableRecord(scheme, digest))
    case RBasePackage(_) => Err(InvalidIdentity)
  }

  function EncodeKind(kind: EffectiveKind): string {
    match kind
    case EffectiveDepends => "depends"
    case EffectiveImports => "imports"
    case EffectiveLinkingTo => "linking-to"
    case PromotedSuggests => "promoted-suggests"
  }

  function EncodeSelector(selector: GitSelector): (string, Option<string>) {
    match selector
    case DefaultBranch => ("default-branch", None)
    case Branch(name) => ("branch", Some(name))
    case Tag(name) => ("tag", Some(name))
    case Rev(name) => ("rev", Some(name))
  }

  function EncodeRequested(source: LockedGitSource): WireGit {
    var (kind, value) := EncodeSelector(source.selector);
    WireGit(source.url, kind, value, source.subdirectory, RenderConstraint(source.constraint))
  }

  function EncodeEdges(edges: seq<LockedEdge>): (wire: seq<(string, string)>)
    ensures |wire| == |edges| && forall i | 0 <= i < |edges| :: wire[i] == (EncodeKind(edges[i].kind), edges[i].package)
  {
    seq(|edges|, i requires 0 <= i < |edges| => (EncodeKind(edges[i].kind), edges[i].package))
  }

  function EncodePackage(p: LockedPackage, selected: set<string>): Result<WirePackage, WireError> {
    var source :- EncodeProvenance(p.identity.provenance);
    Ok(WirePackage(
      p.identity.name,
      if p.published.Some? then p.published.value else VersionText(p.version),
      source,
      p.digest,
      EncodeEdges(Filter(p.dependencies, (e: LockedEdge) => e.package in selected)),
      p.visible,
      if p.source.Some? then Some(EncodeRequested(p.source.value)) else None))
  }

  function EncodePackages(ps: seq<LockedPackage>, selected: set<string>): Result<seq<WirePackage>, WireError> {
    if ps == [] then Ok([])
    else
      var first :- EncodePackage(ps[0], selected);
      var rest :- EncodePackages(ps[1..], selected);
      Ok([first] + rest)
  }

  // `to_toml`, up to the text layer. The lock is normalised again first.
  function Encode(t: Types, lock: Lockfile): Result<WireLock, WireError> {
    match NewLock(lock.intent, lock.rRequirement, lock.resolution)
    case Err(error) => Err(DomainError(error))
    case Ok(normal) =>
      var packages :- EncodePackages(normal.resolution.packages, NamesOf(normal.resolution.packages));
      Ok(WireLock(
        SCHEMA_VERSION,
        VersionText(normal.resolution.rVersion),
        normal.intent,
        RenderConstraint(normal.rRequirement),
        normal.resolution.environment,
        if normal.resolution.cutoff.Some? then Some(t.showDate(normal.resolution.cutoff.value)) else None,
        packages))
  }

  // ------------------------------------------------------------------- decoding

  function DecodeProvenance(t: Types, source: WireSource, version: RPackageVersion): Result<Provenance, WireError> {
    match source
    case RegistrySource(text) =>
      var namespace :- Field(t.namespace(text), "source.namespace");
      Ok(RegistryRelease(namespace, version))
    case BioconductorSource(text, releaseText) =>
      var namespace :- Field(t.namespace(text), "source.namespace");
      var release :- Field(t.release(releaseText), "source.release");
      Ok(BioconductorRelease(namespace, release, version))
    case GitSource(urlText, commitText, subdirectoryText) =>
      var url :- Field(t.url(urlText), "source.repository");
      var commit :- Field(ParseCommit(commitText), "source.commit");
      var subdirectory :- OptionalField(t.subdirectory, subdirectoryText, "source.subdirectory");
      Ok(GitCommit(url, commit, subdirectory))
    case ImmutableRecord(schemeText, digestText) =>
      var scheme :- Field(t.scheme(schemeText), "source.scheme");
      var digest :- Field(t.digest(digestText), "source.digest");
      Ok(Provenance.ImmutableSource(scheme, digest))
  }

  function DecodeKind(text: string): Option<EffectiveKind> {
    if text == "depends" then Some(EffectiveDepends)
    else if text == "imports" then Some(EffectiveImports)
    else if text == "linking-to" then Some(EffectiveLinkingTo)
    else if text == "promoted-suggests" then Some(PromotedSuggests)
    else None
  }

  function DecodeEdges(wire: seq<(string, string)>): Result<seq<LockedEdge>, WireError> {
    if wire == [] then Ok([])
    else
      var kind :- Field(DecodeKind(wire[0].0), "package.dependencies.kind");
      if !ValidPackageName(wire[0].1) then Err(InvalidField("package.dependencies.package"))
      else
        var rest :- DecodeEdges(wire[1..]);
        Ok([LockedEdge(kind, wire[0].1)] + rest)
  }

  function DecodeTexts(read: string -> Option<string>, texts: seq<string>, name: string): Result<seq<string>,
    WireError> {
    if texts == [] then Ok([])
    else
      var first :- Field(read(texts[0]), name);
      var rest :- DecodeTexts(read, texts[1..], name);
      Ok([first] + rest)
  }

  function DecodeSelector(t: Types, kind: string, value: Option<string>): Result<GitSelector, WireError> {
    if kind == "default-branch" && value.None? then Ok(DefaultBranch)
    else if (kind == "branch" || kind == "tag" || kind == "rev") && value.Some? then
      if !t.selectorAllowed(value.value) then Err(InvalidField("package.requested-git-source.selector"))
      else Ok(if kind == "branch" then Branch(value.value) else if kind == "tag" then Tag(value.value)
        else Rev(value.value))
    else Err(InvalidField("package.requested-git-source.selector"))
  }

  function DecodeRequested(t: Types, wire: WireGit): Result<LockedGitSource, WireError> {
    var selector :- DecodeSelector(t, wire.selector, wire.value);
    var url :- Field(t.url(wire.url), "package.requested-git-source.url");
    var subdirectory :- OptionalField(t.subdirectory, wire.subdirectory, "package.requested-git-source.subdirectory");
    match ParseConstraint(wire.constraint, 2)
    case Err(_) => Err(InvalidField("package.requested-git-source.version-constraint"))
    case Ok(constraint) =>
      if RenderConstraint(constraint) != wire.constraint
        then Err(InvalidField("package.requested-git-source.version-constraint"))
      else Ok(LockedGitSource(url, selector, subdirectory, constraint))
  }

  // The fields that are read after name, version and provenance.
  function DecodeFields(t: Types, wire: WirePackage, version: RPackageVersion,
    provenance: Provenance): (r: Result<LockedPackage, WireError>)
    ensures r.Ok? ==> r.value.identity == ReleaseIdentity(wire.name, provenance) && r.value.version == version
    ensures r.Ok? ==> r.value.published == (if VersionText(version) != wire.version then Some(wire.version) else None)
  {
    var digest :- Field(t.digest(wire.digest), "metadata-sha256");
    var dependencies :- DecodeEdges(wire.dependencies);
    var visible :- DecodeTexts(t.repository, wire.visible, "package.visible-repository-ids");
    var requested :- if wire.requested.None? then Ok(None) else (
      var source :- DecodeRequested(t, wire.requested.value);
      Ok(Some(source)));
    Ok(LockedPackage(
      ReleaseIdentity(wire.name, provenance),
      version,
      if VersionText(version) != wire.version then Some(wire.version) else None,
      dependencies, visible, digest, requested))
  }

  function DecodePackage(t: Types, wire: WirePackage): Result<LockedPackage, WireError> {
    if !ValidPackageName(wire.name) then Err(InvalidField("package.name"))
    else match ParseSpec(wire.version, 2)
      case Err(_) => Err(InvalidField("package.version"))
      case Ok(version) =>
        var provenance :- DecodeProvenance(t, wire.source, version);
        DecodeFields(t, wire, version, provenance)
  }

  function DecodePackages(t: Types, wire: seq<WirePackage>): Result<seq<LockedPackage>, WireError> {
    if wire == [] then Ok([])
    else
      var first :- DecodePackage(t, wire[0]);
      var rest :- DecodePackages(t, wire[1..]);
      Ok([first] + rest)
  }

  function DecodeRVersion(text: string): Result<RPackageVersion, WireError> {
    match ParseSpec(text, 1)
    case Err(_) => Err(InvalidField("r-version"))
    case Ok(version) => if VersionText(version) != text then Err(NonCanonicalVersion) else Ok(version)
  }

  // `decode_resolution`.
  function DecodeResolution(t: Types, wire: WireLock)
    : (r: Result<(LockedResolution, string, VersionConstraint), WireError>)
    ensures r.Ok? ==> DecodePackages(t, wire.packages) == Ok(r.value.0.packages)
  {
    var rVersion :- DecodeRVersion(wire.rVersion);
    match ParseConstraint(wire.rRequirement, 1)
    case Err(_) => Err(InvalidField("r-requirement"))
    case Ok(rRequirement) =>
      if RenderConstraint(rRequirement) != wire.rRequirement then Err(InvalidField("r-requirement"))
      else
        var intent :- Field(t.digest(wire.intent), "resolution-intent-sha256");
        var packages :- DecodePackages(t, wire.packages);
        var cutoff :- if wire.cutoff.None? then Ok(None) else (
          var date :- Field(t.readDate(wire.cutoff.value), "publication-cutoff");
          Ok(Some(date)));
        var environment :- Field(t.environment(wire.environment), "environment");
        Ok((LockedResolution(rVersion, environment, cutoff, packages), intent, rRequirement))
  }

  // `from_toml`, up to the text layer.
  function Decode(t: Types, wire: WireLock): Result<Lockfile, WireError> {
    if wire.version != SCHEMA_VERSION then Err(UnsupportedSchema(wire.version))
    else
      var (resolution, intent, rRequirement) :- DecodeResolution(t, wire);
      if !CanonicalResolution(resolution) then Err(DomainError(NonCanonical))
      else NewLockOrDomain(intent, rRequirement, resolution)
  }

  // ---------------------------------------------------------- well-typed packages

  ghost predicate Stored(read: string -> Option<string>, text: string) {
    read(text) == Some(text)
  }

  ghost predicate ProvenanceTyped(t: Types, p: Provenance) {
    match p
    case RegistryRelease(namespace, _) => Stored(t.namespace, namespace)
    case BioconductorRelease(namespace, release, _) => Stored(t.namespace, namespace) && Stored(t.release, release)
    case GitCommit(repository, commit, subdirectory) =>
      Stored(t.url, repository) && Stored(ParseCommit, commit) &&
        (subdirectory.Some? ==> Stored(t.subdirectory, subdirectory.value))
    case ImmutableSource(scheme, digest) => Stored(t.scheme, scheme) && Stored(t.digest, digest)
    case RBasePackage(_) => true
  }

  // A requested source as manifests make them: a canonical constraint on versions with
  // at least two components, and an allowed selector.
  ghost predicate RequestTyped(t: Types, source: LockedGitSource) {
    && Stored(t.url, source.url) && (source.subdirectory.Some? ==> Stored(t.subdirectory, source.subdirectory.value))
    && (source.selector.DefaultBranch? || t.selectorAllowed(source.selector.name))
    && AllWellFormed(source.constraint.clauses, 2)
    && CanonConstraint(CanonicalConstraint(source.constraint)) == CanonConstraint(source.constraint)
  }

  // Every field holds what its type can hold.
  ghost predicate Typed(t: Types, p: LockedPackage) {
    && ValidPackageName(p.identity.name) && WellFormed(p.version)
    && ProvenanceTyped(t, p.identity.provenance) && Stored(t.digest, p.digest)
    && (forall e | e in p.dependencies :: ValidPackageName(e.package))
    && (forall v | v in p.visible :: Stored(t.repository, v))
    && (p.source.Some? ==> RequestTyped(t, p.source.value))
  }

  // Either the version has two components, or a published spelling is kept that is
  // not itself canonical.
  predicate Encodable(p: LockedPackage) {
    || (p.version.components.Valid() && |p.version.All()| >= 2)
    || (p.published.Some? && ParseSpec(p.published.value, 2).Ok?
        && VersionText(ParseSpec(p.published.value, 2).value) != p.published.value)
  }

  // ------------------------------------------------------------ round trip of parts

  lemma KindRoundTrip(kind: EffectiveKind)
    ensures DecodeKind(EncodeKind(kind)) == Some(kind)
  {
  }

  lemma SelectorRoundTrip(t: Types, selector: GitSelector)
    requires selector.DefaultBranch? || t.selectorAllowed(selector.name)
    ensures DecodeSelector(t, EncodeSelector(selector).0, EncodeSelector(selector).1) == Ok(selector)
  {
  }

  lemma {:induction false} EdgesRoundTrip(edges: seq<LockedEdge>)
    requires forall e | e in edges :: ValidPackageName(e.package)
    ensures DecodeEdges(EncodeEdges(edges)) == Ok(edges)
  {
    if edges != [] {
      assert edges[0] in edges && EncodeEdges(edges)[1..] == EncodeEdges(edges[1..]);
      KindRoundTrip(edges[0].kind);
      EdgesRoundTrip(edges[1..]);
      assert [edges[0]] + edges[1..] == edges;
    }
  }

  lemma {:induction false} TextsRoundTrip(read: string -> Option<string>, texts: seq<string>, name: string)
    requires forall v | v in texts :: Stored(read, v)
    ensures DecodeTexts(read, texts, name) == Ok(texts)
  {
    if texts != [] {
      assert texts[0] in texts;
      TextsRoundTrip(read, texts[1..], name);
      assert [texts[0]] + texts[1..] == texts;
    }
  }

  lemma {:induction false} NothingFiltered(edges: seq<LockedEdge>, selected: set<string>)
    requires forall e | e in edges :: e.package in selected
    ensures Filter(edges, (e: LockedEdge) => e.package in selected) == edges
  {
    if edges != [] {
      assert edges[0] in edges;
      NothingFiltered(edges[1..], selected);
      assert [edges[0]] + edges[1..] == edges;
      SameFilter(edges[1..], (e: LockedEdge) => e.package in selected, (e: LockedEdge) => e.package in selected);
    }
  }

  lemma {:induction false} SameFilter<T(!new)>(s: seq<T>, one: T -> bool, other: T -> bool)
    requires forall x | x in s :: one(x) == other(x)
    ensures Filter(s, one) == Filter(s, other)
  {
    if s != [] {
      assert s[0] in s;
      SameFilter(s[1..], one, other);
    }
  }

  // Provenance comes back with the version that was read.
  lemma ProvenanceRoundTrip(t: Types, p: Provenance, version: RPackageVersion)
    requires ProvenanceTyped(t, p) && !p.RBasePackage?
    requires p.RegistryRelease? || p.BioconductorRelease? ==> p.version.Same(version)
    ensures EncodeProvenance(p).Ok?
    ensures DecodeProvenance(t, EncodeProvenance(p).value, version).Ok?
    ensures CanonProvenance(DecodeProvenance(t, EncodeProvenance(p).value, version).value) == CanonProvenance(p)
  {
    if p.RegistryRelease? || p.BioconductorRelease? {
      CanonIsSame(p.version, version);
    }
  }

  lemma RequestRoundTrip(t: Types, source: LockedGitSource)
    requires RequestTyped(t, source)
    ensures DecodeRequested(t, EncodeRequested(source)).Ok?
    ensures CanonGit(DecodeRequested(t, EncodeRequested(source)).value) == CanonGit(source)
  {
    SelectorRoundTrip(t, source.selector);
    ConstraintRoundTrip(source.constraint, 2);
  }

  function WireVersion(p: LockedPackage): string {
    if p.published.Some? then p.published.value else VersionText(p.version)
  }

  // Reading the version text gives an equal version and the same published spelling.
  predicate ReadsBack(p: LockedPackage, text: string) {
    var parsed := ParseSpec(text, 2);
    parsed.Ok? && parsed.value.Same(p.version) &&
      p.published == (if VersionText(parsed.value) != text then Some(text) else None)
  }

  lemma VersionRoundTrip(p: LockedPackage)
    requires WellFormed(p.version) && (p.published.Some? ==> PublishedAgrees(p, p.published.value))
    ensures Encodable(p) <==> ReadsBack(p, WireVersion(p))
  {
    var text := WireVersion(p);
    var parsed := ParseSpec(text, 2);
    CanonicalVersionParses(p.version, 2);
    if parsed.Ok? {
      ParsedIsWellFormed(text, 2);
      CanonicalVersionDecides(parsed.value, p.version);
    }
    if p.published.None? && |p.version.All()| < 2 {
      ShortTextFails(p.version);
    }
  }

  // A single component cannot be read back as a package version.
  lemma ShortTextFails(v: RPackageVersion)
    requires WellFormed(v) && |v.All()| < 2
    ensures ParseSpec(VersionText(v), 2).Err?
  {
    ShortenFacts(v.All());
    SpellingsSplit(v.All());
    SpellingsParse(v.All(), 0);
  }

  // ------------------------------------------------------------ round trip of packages

  lemma EncodedParts(p: LockedPackage, selected: set<string>)
    requires !p.identity.provenance.RBasePackage? && forall e | e in p.dependencies :: e.package in selected
    ensures EncodePackage(p, selected) == Ok(WirePackage(
      p.identity.name, WireVersion(p), EncodeProvenance(p.identity.provenance).value, p.digest,
        EncodeEdges(p.dependencies), p.visible,
      if p.source.Some? then Some(EncodeRequested(p.source.value)) else None))
  {
    NothingFiltered(p.dependencies, selected);
  }

  // A validated package comes back equal exactly when it is encodable.
  lemma PackageRoundTrip(t: Types, p: LockedPackage, selected: set<string>, w: WirePackage)
    requires Typed(t, p) && CheckPackage(p).None? && forall e | e in p.dependencies :: e.package in selected
    requires EncodePackage(p, selected) == Ok(w)
    ensures Encodable(p) <==> DecodePackage(t, w).Ok? && SamePackage(DecodePackage(t, w).value, p)
  {
    EncodedParts(p, selected);
    VersionRoundTrip(p);
    EdgesRoundTrip(p.dependencies);
    TextsRoundTrip(t.repository, p.visible, "package.visible-repository-ids");
    if p.source.Some? {
      RequestRoundTrip(t, p.source.value);
    }
    var parsed := ParseSpec(w.version, 2);
    if parsed.Ok? {
      CanonIsSame(parsed.value, p.version);
      if parsed.value.Same(p.version) {
        SameVersionProvenance(t, p, parsed.value);
      }
      DecodedVersion(t, w, parsed.value);
    }
  }

  lemma SameVersionProvenance(t: Types, p: LockedPackage, version: RPackageVersion)
    requires Typed(t, p) && CheckPackage(p).None? && version.Same(p.version)
    ensures EncodeProvenance(p.identity.provenance).Ok?
    ensures DecodeProvenance(t, EncodeProvenance(p.identity.provenance).value, version).Ok?
    ensures CanonProvenance(DecodeProvenance(t, EncodeProvenance(p.identity.provenance).value, version).value)
      == CanonProvenance(p.identity.provenance)
  {
    var provenance := p.identity.provenance;
    if provenance.RegistryRelease? || provenance.BioconductorRelease? {
      SameIsKeyEquality(provenance.version, p.version);
      SameIsKeyEquality(version, p.version);
      SameIsKeyEquality(provenance.version, version);
    }
    ProvenanceRoundTrip(t, provenance, version);
  }

  lemma DecodedVersion(t: Types, w: WirePackage, version: RPackageVersion)
    requires ParseSpec(w.version, 2) == Ok(version)
    ensures DecodePackage(t, w).Ok? ==>
      var q := DecodePackage(t, w).value;
      q.version == version && q.published == (if VersionText(version) != w.version then Some(w.version) else None)
  {
  }

  // What was read is itself a valid package.
  lemma DecodedIsChecked(t: Types, p: LockedPackage, w: WirePackage, q: LockedPackage)
    requires CheckPackage(p).None? && DecodePackage(t, w) == Ok(q) && SamePackage(q, p)
    ensures CheckPackage(q).None?
  {
    hide ParseSpec;
    var version := ParseSpec(w.version, 2).value;
    DecodedVersion(t, w, version);
    DecodedProvenance(t, w, q);
    assert CanonPackage(q).identity.provenance == CanonPackage(p).identity.provenance;
    assert CanonPackage(q).visible == CanonPackage(p).visible;
    SameIsKeyEquality(version, version);
    if q.source.Some? {
      SourceStillAgrees(p, q);
    }
  }

  lemma DecodedProvenance(t: Types, w: WirePackage, q: LockedPackage)
    requires DecodePackage(t, w) == Ok(q)
    ensures q.identity.provenance.RegistryRelease? || q.identity.provenance.BioconductorRelease? ==>
      q.identity.provenance.version == q.version
  {
    ProvenanceVersion(t, w.source, ParseSpec(w.version, 2).value);
  }

  lemma ProvenanceVersion(t: Types, source: WireSource, version: RPackageVersion)
    requires DecodeProvenance(t, source, version).Ok?
    ensures var p := DecodeProvenance(t, source, version).value;
      p.RegistryRelease? || p.BioconductorRelease? ==> p.version == version
  {
  }

  lemma SourceStillAgrees(p: LockedPackage, q: LockedPackage)
    requires SamePackage(q, p) && q.source.Some? && p.source.Some? && SourceAgrees(p, p.source.value)
    ensures SourceAgrees(q, q.source.value)
  {
    assert CanonPackage(q).identity == CanonPackage(p).identity && CanonPackage(q).version == CanonPackage(p).version;
    assert CanonPackage(q).source == CanonPackage(p).source;
    SatisfiesUpToSpelling(q.source.value.constraint, p.source.value.constraint, q.version, p.version);
  }

  // --------------------------------------------------------------- round trip of locks

  ghost predicate AllTyped(t: Types, ps: seq<LockedPackage>, selected: set<string>) {
    forall i | 0 <= i < |ps| :: PackageReady(t, ps[i], selected)
  }

  ghost predicate PackageReady(t: Types, p: LockedPackage, selected: set<string>) {
    Typed(t, p) && Encodable(p) && CheckPackage(p).None? && forall e | e in p.dependencies :: e.package in selected
  }

  ghost predicate Recovered(qs: seq<LockedPackage>, ps: seq<LockedPackage>) {
    |qs| == |ps| && forall i | 0 <= i < |ps| :: SamePackage(qs[i], ps[i]) && CheckPackage(qs[i]).None?
  }

  lemma RecoveredMore(q: LockedPackage, qs: seq<LockedPackage>, ps: seq<LockedPackage>)
    requires ps != [] && Recovered(qs, ps[1..]) && SamePackage(q, ps[0]) && CheckPackage(q).None?
    ensures Recovered([q] + qs, ps)
  {
  }

  lemma {:induction false} PackagesRoundTrip(t: Types, ps: seq<LockedPackage>, selected: set<string>)
    requires AllTyped(t, ps, selected)
    ensures EncodePackages(ps, selected).Ok? && DecodePackages(t, EncodePackages(ps, selected).value).Ok?
    ensures Recovered(DecodePackages(t, EncodePackages(ps, selected).value).value, ps)
  {
    if ps != [] {
      PackageRecovered(t, ps[0], selected);
      PackagesRoundTrip(t, ps[1..], selected);
      var w, ws := EncodePackage(ps[0], selected).value, EncodePackages(ps[1..], selected).value;
      assert ([w] + ws)[0] == w && ([w] + ws)[1..] == ws;
      RecoveredMore(DecodePackage(t, w).value, DecodePackages(t, ws).value, ps);
    }
  }

  lemma PackageRecovered(t: Types, p: LockedPackage, selected: set<string>)
    requires PackageReady(t, p, selected)
    ensures EncodePackage(p, selected).Ok? && DecodePackage(t, EncodePackage(p, selected).value).Ok?
    ensures var q := DecodePackage(t, EncodePackage(p, selected).value).value;
      SamePackage(q, p) && CheckPackage(q).None?
  {
    EncodedParts(p, selected);
    var w := EncodePackage(p, selected).value;
    PackageRoundTrip(t, p, selected, w);
    DecodedIsChecked(t, p, w, DecodePackage(t, w).value);
  }

  lemma RecoveredCanon(qs: seq<LockedPackage>, ps: seq<LockedPackage>)
    requires Recovered(qs, ps)
    ensures CanonPackages(qs) == CanonPackages(ps)
    ensures forall i | 0 <= i < |ps| ::
      qs[i].dependencies == ps[i].dependencies && qs[i].identity.name == ps[i].identity.name
  {
    forall i | 0 <= i < |ps|
      ensures CanonPackages(qs)[i] == CanonPackages(ps)[i]
      ensures qs[i].dependencies == ps[i].dependencies && qs[i].identity.name == ps[i].identity.name
    {
      assert SamePackage(qs[i], ps[i]);
      assert CanonPackage(qs[i]).dependencies == CanonPackage(ps[i]).dependencies;
      assert CanonPackage(qs[i]).identity.name == CanonPackage(ps[i]).identity.name;
    }
  }

  // Recovered packages are in normal form when the original ones are.
  lemma RecoveredIsNormal(qs: seq<LockedPackage>, ps: seq<LockedPackage>)
    requires Recovered(qs, ps) && StrictlySorted(ps, ComparePackages) && CheckGraph(ps).None?
    requires forall p | p in ps :: p == Tidy(p)
    ensures Acceptable(qs) && NormalForm(qs, qs) && CheckGraph(qs).None?
  {
    RecoveredCanon(qs, ps);
    StrictRecovered(qs, ps);
    TidyRecovered(qs, ps);
    GraphRecovered(qs, ps);
    NormalOfItself(qs);
  }

  lemma StrictRecovered(qs: seq<LockedPackage>, ps: seq<LockedPackage>)
    requires Recovered(qs, ps) && StrictlySorted(ps, ComparePackages)
    ensures StrictlySorted(qs, ComparePackages)
  {
    forall i, j | 0 <= i < j < |qs|
      ensures ComparePackages(qs[i], qs[j]) == Less
    {
      assert SamePackage(qs[i], ps[i]) && SamePackage(qs[j], ps[j]);
      CanonCompares(qs[i], qs[j]);
      CanonCompares(ps[i], ps[j]);
    }
  }

  lemma TidyRecovered(qs: seq<LockedPackage>, ps: seq<LockedPackage>)
    requires Recovered(qs, ps) && forall p | p in ps :: p == Tidy(p)
    ensures forall q | q in qs :: q == Tidy(q)
  {
    RecoveredCanon(qs, ps);
    forall q | q in qs
      ensures q == Tidy(q)
    {
      var i :| 0 <= i < |qs| && qs[i] == q;
      assert ps[i] in ps && ps[i].dependencies == Tidy(ps[i]).dependencies;
    }
  }

  lemma IdentityRecovered(qs: seq<LockedPackage>, ps: seq<LockedPackage>, a: LockedPackage, b: LockedPackage)
    requires Recovered(qs, ps) && OneIdentityEach(ps)
    requires a in qs && b in qs && a.identity.name == b.identity.name
    ensures SameIdentity(a.identity, b.identity)
  {
    var i :| 0 <= i < |qs| && qs[i] == a;
    var j :| 0 <= j < |qs| && qs[j] == b;
    assert ps[i] in ps && ps[j] in ps;
    assert SamePackage(qs[i], ps[i]) && SamePackage(qs[j], ps[j]);
    assert CanonPackage(a).identity == CanonPackage(ps[i]).identity &&
      CanonPackage(b).identity == CanonPackage(ps[j]).identity;
  }

  lemma ProperRecovered(qs: seq<LockedPackage>, ps: seq<LockedPackage>, q: LockedPackage)
    requires Recovered(qs, ps) && q in qs && forall p | p in ps :: EdgesSelected(p, ps)
    ensures Proper(q, qs)
  {
    RecoveredCanon(qs, ps);
    NamesRecovered(qs, ps);
    var i :| 0 <= i < |qs| && qs[i] == q;
    assert ps[i] in ps && EdgesSelected(ps[i], ps);
  }

  lemma GraphRecovered(qs: seq<LockedPackage>, ps: seq<LockedPackage>)
    requires Recovered(qs, ps) && CheckGraph(ps).None?
    ensures CheckGraph(qs).None? && OneIdentityEach(qs) && forall q | q in qs :: Proper(q, qs)
  {
    CheckGraphFacts(ps);
    CheckGraphFacts(qs);
    forall a, b | a in qs && b in qs && a.identity.name == b.identity.name
      ensures SameIdentity(a.identity, b.identity)
    {
      IdentityRecovered(qs, ps, a, b);
    }
    forall q | q in qs
      ensures Proper(q, qs)
    {
      ProperRecovered(qs, ps, q);
    }
  }

  lemma NamesRecovered(qs: seq<LockedPackage>, ps: seq<LockedPackage>)
    requires Recovered(qs, ps)
    ensures NamesOf(qs) == NamesOf(ps)
  {
    RecoveredCanon(qs, ps);
    forall q | q in qs
      ensures q.identity.name in NamesOf(ps)
    {
      var i :| 0 <= i < |qs| && qs[i] == q;
      assert ps[i] in ps;
    }
    forall p | p in ps
      ensures p.identity.name in NamesOf(qs)
    {
      var i :| 0 <= i < |ps| && ps[i] == p;
      assert qs[i] in qs;
    }
  }

  lemma OneRecordOfStrict(qs: seq<LockedPackage>)
    requires StrictlySorted(qs, ComparePackages)
    ensures OneRecordEach(qs)
  {
    forall a, b | a in qs && b in qs && SameIdentity(a.identity, b.identity)
      ensures SamePackage(Tidy(a), Tidy(b))
    {
      StrictIsSingle(qs, a, b);
    }
  }

  lemma NormalOfItself(qs: seq<LockedPackage>)
    requires StrictlySorted(qs, ComparePackages) && (forall q | q in qs :: q == Tidy(q))
    requires OneIdentityEach(qs) && forall q | q in qs :: Proper(q, qs)
    ensures Acceptable(qs) && NormalForm(qs, qs)
  {
    OneRecordOfStrict(qs);
    forall m | m in qs
      ensures Originates(m, qs) && Kept(Tidy(m), qs)
    {
      KeepsItself(qs, m);
    }
  }

  lemma KeepsItself(qs: seq<LockedPackage>, m: LockedPackage)
    requires m in qs && m == Tidy(m)
    ensures Originates(m, qs) && Kept(Tidy(m), qs)
  {
    assert SameIdentity(m.identity, m.identity) && SamePackage(m, m);
  }

  // A resolution in normal form is canonical and becomes a lock as it is.
  lemma NormalBecomesLock(intent: string, rRequirement: VersionConstraint, resolution: LockedResolution)
    requires Acceptable(resolution.packages) && NormalForm(resolution.packages, resolution.packages)
    requires CheckGraph(resolution.packages).None? && rRequirement.Satisfies(resolution.rVersion)
    ensures NewLock(intent, rRequirement, resolution) ==
      Ok(Lockfile(intent, CanonicalConstraint(rRequirement), resolution))
    ensures CanonicalResolution(resolution)
  {
    var ps := resolution.packages;
    var r := NewLock(intent, rRequirement, resolution);
    NormalizedAgain(ps, ps);
    AcceptedWhen(intent, rRequirement, resolution, r);
    assert resolution.(packages := ps) == resolution;
    NewLockIsCanonical(intent, rRequirement, resolution);
  }

  // Rust's `==` on locks.
  ghost predicate SameLock(a: Lockfile, b: Lockfile) {
    && a.intent == b.intent && CanonConstraint(a.rRequirement) == CanonConstraint(b.rRequirement)
    && a.resolution.rVersion.Same(b.resolution.rVersion) && a.resolution.environment == b.resolution.environment
    && a.resolution.cutoff == b.resolution.cutoff
    && CanonPackages(a.resolution.packages) == CanonPackages(b.resolution.packages)
  }

  // The lock's own fields hold what their types can hold.
  ghost predicate LockTyped(t: Types, lock: Lockfile) {
    && Stored(t.digest, lock.intent) && Stored(t.environment, lock.resolution.environment)
    && (lock.resolution.cutoff.Some? ==> t.readDate(t.showDate(lock.resolution.cutoff.value)) == lock.resolution.cutoff)
    && WellFormed(lock.resolution.rVersion) && AllWellFormed(lock.rRequirement.clauses, 1)
  }

  lemma RVersionRoundTrip(v: RPackageVersion)
    requires WellFormed(v)
    ensures DecodeRVersion(VersionText(v)).Ok? && DecodeRVersion(VersionText(v)).value.Same(v)
  {
    CanonicalVersionParses(v, 1);
    ParsedIsWellFormed(VersionText(v), 1);
  }

  lemma RequirementRoundTrip(c: VersionConstraint)
    requires AllWellFormed(c.clauses, 1) && CanonicalConstraint(c) == c
    ensures var parsed := ParseConstraint(RenderConstraint(c), 1);
      && parsed.Ok? && RenderConstraint(parsed.value) == RenderConstraint(c)
      && CanonConstraint(parsed.value) == CanonConstraint(c) && CanonicalConstraint(parsed.value) == parsed.value
  {
    ConstraintRoundTrip(c, 1);
    ParsedIsCanonical(RenderConstraint(c), 1);
  }

  lemma ParsedIsCanonical(text: string, minimum: nat)
    requires ParseConstraint(text, minimum).Ok?
    ensures CanonicalConstraint(ParseConstraint(text, minimum).value) == ParseConstraint(text, minimum).value
  {
    if text != "" && Strip(text) != "*" {
      CanonicalTwice(VersionConstraint(ParseTerms(SplitOn(text, IsComma), minimum).value));
    }
  }

  // A normal lock, as `Lockfile::new` returns it.
  ghost predicate NormalLock(lock: Lockfile) {
    && StrictlySorted(lock.resolution.packages, ComparePackages) && CheckGraph(lock.resolution.packages).None?
    && (forall p | p in lock.resolution.packages :: p == Tidy(p) && CheckPackage(p).None?)
    && CanonicalConstraint(lock.rRequirement) == lock.rRequirement
    && lock.rRequirement.Satisfies(lock.resolution.rVersion)
  }

  lemma NewLockIsNormal(intent: string, rRequirement: VersionConstraint, resolution: LockedResolution, lock: Lockfile)
    requires NewLock(intent, rRequirement, resolution) == Ok(lock)
    ensures NormalLock(lock)
  {
    var ps := resolution.packages;
    AcceptedWhen(intent, rRequirement, resolution, Ok(lock));
    NormalFormChecked(lock.resolution.packages, ps);
    CheckAllFacts(lock.resolution.packages);
    CanonicalTwice(rRequirement);
    CanonicalMeansTheSame(rRequirement, resolution.rVersion);
  }

  lemma ReadyPackages(t: Types, lock: Lockfile)
    requires NormalLock(lock) && forall p | p in lock.resolution.packages :: Typed(t, p) && Encodable(p)
    ensures AllTyped(t, lock.resolution.packages, NamesOf(lock.resolution.packages))
  {
    var ps := lock.resolution.packages;
    CheckGraphFacts(ps);
    forall i | 0 <= i < |ps|
      ensures PackageReady(t, ps[i], NamesOf(ps))
    {
      assert ps[i] in ps && EdgesSelected(ps[i], ps);
    }
  }

  // The records of a normal lock read back as an equal lock.
  lemma NormalRoundTrip(t: Types, lock: Lockfile, packages: seq<WirePackage>, w: WireLock)
    requires NormalLock(lock) && LockTyped(t, lock) && forall p | p in lock.resolution.packages ::
      Typed(t, p) && Encodable(p)
    requires EncodePackages(lock.resolution.packages, NamesOf(lock.resolution.packages)) == Ok(packages)
    requires w == WireLock(SCHEMA_VERSION, VersionText(lock.resolution.rVersion), lock.intent,
      RenderConstraint(lock.rRequirement),
      lock.resolution.environment,
      if lock.resolution.cutoff.Some? then Some(t.showDate(lock.resolution.cutoff.value)) else None, packages)
    ensures Decode(t, w).Ok? && SameLock(Decode(t, w).value, lock)
  {
    var ps := lock.resolution.packages;
    ReadyPackages(t, lock);
    PackagesRoundTrip(t, ps, NamesOf(ps));
    var qs := DecodePackages(t, packages).value;
    RecoveredIsNormal(qs, ps);
    RecoveredCanon(qs, ps);
    RVersionRoundTrip(lock.resolution.rVersion);
    RequirementRoundTrip(lock.rRequirement);
    var rVersion := DecodeRVersion(w.rVersion).value;
    var rRequirement := ParseConstraint(w.rRequirement, 1).value;
    CanonIsSame(rVersion, lock.resolution.rVersion);
    SatisfiesUpToSpelling(rRequirement, lock.rRequirement, rVersion, lock.resolution.rVersion);
    var resolution := LockedResolution(rVersion, lock.resolution.environment, lock.resolution.cutoff, qs);
    NormalBecomesLock(lock.intent, rRequirement, resolution);
    DecodedLock(t, w, lock, rVersion, rRequirement, qs, resolution);
  }

  lemma DecodedLock(t: Types, w: WireLock, lock: Lockfile, rVersion: RPackageVersion, rRequirement: VersionConstraint,
      qs: seq<LockedPackage>, resolution: LockedResolution)
    requires w.version == SCHEMA_VERSION && DecodeRVersion(w.rVersion) == Ok(rVersion)
    requires ParseConstraint(w.rRequirement, 1) == Ok(rRequirement) && RenderConstraint(rRequirement) == w.rRequirement
    requires w.intent == lock.intent && Stored(t.digest, lock.intent) && DecodePackages(t, w.packages) == Ok(qs)
    requires w.environment == lock.resolution.environment && Stored(t.environment, lock.resolution.environment)
    requires w.cutoff == if lock.resolution.cutoff.Some? then Some(t.showDate(lock.resolution.cutoff.value)) else None
    requires lock.resolution.cutoff.Some? ==>
      t.readDate(t.showDate(lock.resolution.cutoff.value)) == lock.resolution.cutoff
    requires resolution == LockedResolution(rVersion, lock.resolution.environment, lock.resolution.cutoff, qs)
    requires CanonicalResolution(resolution) && NewLock(lock.intent, rRequirement, resolution).Ok?
    ensures Decode(t, w) == NewLockOrDomain(lock.intent, rRequirement, resolution)
  {
  }

  function NewLockOrDomain(intent: string, rRequirement: VersionConstraint,
    resolution: LockedResolution): Result<Lockfile, WireError> {
    match NewLock(intent, rRequirement, resolution)
    case Err(error) => Err(DomainError(error))
    case Ok(lock) => Ok(lock)
  }

  // A canonical resolution becomes a lock as it is.
  lemma CanonicalBecomesLock(intent: string, rRequirement: VersionConstraint, resolution: LockedResolution,
    lock: Lockfile)
    requires CanonicalResolution(resolution) && NewLock(intent, rRequirement, resolution) == Ok(lock)
    ensures lock.resolution == resolution
  {
    var ps := resolution.packages;
    AcceptedWhen(intent, rRequirement, resolution, Ok(lock));
    CanonicalIsStrict(ps);
    forall p | p in ps
      ensures p == Tidy(p)
    {
      CanonicalIsTidy(resolution, p);
    }
    NormalOfItself(ps);
    CheckGraphFacts(ps);
    NormalBecomesLock(intent, rRequirement, resolution);
  }

  lemma {:induction false} EncodedAt(ps: seq<LockedPackage>, selected: set<string>, ws: seq<WirePackage>, i: nat)
    requires EncodePackages(ps, selected) == Ok(ws) && i < |ps|
    ensures |ws| == |ps| && EncodePackage(ps[i], selected) == Ok(ws[i])
  {
    var rest := EncodePackages(ps[1..], selected).value;
    assert ws[1..] == rest;
    if i > 0 {
      EncodedAt(ps[1..], selected, rest, i - 1);
    } else if |ps| > 1 {
      EncodedAt(ps[1..], selected, rest, 0);
    }
  }

  lemma {:induction false} DecodedAt(t: Types, ws: seq<WirePackage>, qs: seq<LockedPackage>, i: nat)
    requires DecodePackages(t, ws) == Ok(qs) && i < |ws|
    ensures |qs| == |ws| && DecodePackage(t, ws[i]) == Ok(qs[i])
  {
    var rest := DecodePackages(t, ws[1..]).value;
    assert qs[1..] == rest;
    if i > 0 {
      DecodedAt(t, ws[1..], rest, i - 1);
    } else if |ws| > 1 {
      DecodedAt(t, ws[1..], rest, 0);
    }
  }

  // What is decoded holds the packages of the records as they are.
  lemma DecodedHolds(t: Types, w: WireLock, lock: Lockfile)
    requires Decode(t, w) == Ok(lock)
    ensures DecodePackages(t, w.packages) == Ok(lock.resolution.packages)
  {
    var resolution, rRequirement := DecodedResolution(t, w, lock);
    CanonicalBecomesLock(lock.intent, rRequirement, resolution, lock);
  }

  lemma DecodedResolution(t: Types, w: WireLock, lock: Lockfile)
    returns (resolution: LockedResolution, rRequirement: VersionConstraint)
    requires Decode(t, w) == Ok(lock)
    ensures DecodePackages(t, w.packages) == Ok(resolution.packages) && CanonicalResolution(resolution)
    ensures NewLock(lock.intent, rRequirement, resolution) == Ok(lock)
  {
    hide DecodePackages, CanonicalResolution, DecodeResolution;
    var decoded := DecodeResolution(t, w).value;
    resolution, rRequirement := decoded.0, decoded.2;
  }

  // A package that came back equal was encodable.
  lemma CameBack(t: Types, ps: seq<LockedPackage>, ws: seq<WirePackage>, qs: seq<LockedPackage>, i: nat)
    requires i < |ps| && Typed(t, ps[i]) && CheckPackage(ps[i]).None? && EdgesSelected(ps[i], ps)
    requires EncodePackages(ps, NamesOf(ps)) == Ok(ws) && DecodePackages(t, ws) == Ok(qs)
    requires CanonPackages(qs) == CanonPackages(ps)
    ensures Encodable(ps[i])
  {
    EncodedAt(ps, NamesOf(ps), ws, i);
    DecodedAt(t, ws, qs, i);
    assert CanonPackages(qs)[i] == CanonPackages(ps)[i];
    PackageRoundTrip(t, ps[i], NamesOf(ps), ws[i]);
  }

  // Encoding a lock and decoding the records gives back the lock that `Lockfile::new`
  // makes of it if and only if every package is encodable: versions of two components
  // or more always are.
  lemma LockRoundTrip(t: Types, lock: Lockfile, normal: Lockfile)
    requires NewLock(lock.intent, lock.rRequirement, lock.resolution) == Ok(normal)
    requires LockTyped(t, normal) && forall p | p in normal.resolution.packages :: Typed(t, p)
    ensures Encode(t, lock).Ok?
    ensures (forall p | p in normal.resolution.packages :: Encodable(p)) <==>
      Decode(t, Encode(t, lock).value).Ok? && SameLock(Decode(t, Encode(t, lock).value).value, normal)
  {
    hide Typed, Decode, NewLock, NamesOf, Encodable, LockTyped;
    var ps := normal.resolution.packages;
    NewLockIsNormal(lock.intent, lock.rRequirement, lock.resolution, normal);
    CheckGraphFacts(ps);
    AllEncode(t, ps, NamesOf(ps));
    var w := Encode(t, lock).value;
    if forall p | p in ps :: Encodable(p) {
      NormalRoundTrip(t, normal, w.packages, w);
    }
    if Decode(t, w).Ok? && SameLock(Decode(t, w).value, normal) {
      DecodedHolds(t, w, Decode(t, w).value);
      forall p | p in ps
        ensures Encodable(p)
      {
        var i :| 0 <= i < |ps| && ps[i] == p;
        CameBack(t, ps, w.packages, Decode(t, w).value.resolution.packages, i);
      }
    }
  }

  // Whatever is valid has records.
  lemma {:induction false} AllEncode(t: Types, ps: seq<LockedPackage>, selected: set<string>)
    requires forall p | p in ps :: Typed(t, p) && CheckPackage(p).None?
    ensures EncodePackages(ps, selected).Ok?
  {
    if ps != [] {
      SameIsKeyEquality(ps[0].version, ps[0].version);
      SameVersionProvenance(t, ps[0], ps[0].version);
      AllEncode(t, ps[1..], selected);
    }
  }
}
