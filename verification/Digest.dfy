/**
 The bytes that feed a release's metadata digest: identity, version and dependencies
 in a canonical encoding that sees neither version spelling nor the order or
 repetition of dependencies and clauses.
 */
module MetadataDigest {
  import opened Prelude
  import opened Versions
  import opened Domain
  import opened Encoding

  const DIGEST_DOMAIN: Bytes := "rsolve.logical-release-metadata\0v1"

  // ------------------------------------------------------------ the encoding

  function Components64(s: seq<u32>): Bytes {
    if s == [] then "" else U64(s[0]) + Components64(s[1..])
  }

  function EncodeVersion(v: RPackageVersion): Bytes {
    U64(|v.Key()|) + Components64(v.Key())
  }

  function EncodeOptional(value: Option<string>): Bytes {
    match value
    case Some(text) => [Byte(1)] + Delimited(text)
    case None => [Byte(0)]
  }

  function EncodeProvenance(p: Provenance): Bytes {
    match p
    case RBasePackage(v) => [Byte(0)] + EncodeVersion(v)
    case RegistryRelease(namespace, v) => [Byte(1)] + (Delimited(namespace) + EncodeVersion(v))
    case GitCommit(repository, commit, subdirectory) =>
      [Byte(2)] + (Delimited(repository) + (Delimited(commit) + EncodeOptional(subdirectory)))
    case BioconductorRelease(namespace, release, v) =>
      [Byte(3)] + (Delimited(namespace) + (Delimited(release) + EncodeVersion(v)))
    case ImmutableSource(scheme, digest) => [Byte(4)] + (Delimited(scheme) + Delimited(digest))
  }

  function EncodeIdentity(id: ReleaseIdentity): Bytes {
    Delimited(id.name) + EncodeProvenance(id.provenance)
  }

  function EncodeSource(source: SourceConstraint): Bytes {
    match source
    case Any => [Byte(0)]
    case Registry(namespace) => [Byte(1)] + Delimited(namespace)
    case Repository(repository) => [Byte(5)] + Delimited(repository)
    case Bioconductor(namespace, release) => [Byte(2)] + (Delimited(namespace) + Delimited(release))
    case Git(url) => [Byte(3)] + Delimited(url)
    case Exact(identity) => [Byte(4)] + EncodeIdentity(identity)
  }

  function KindTag(kind: DependencyKind): nat {
    match kind
    case Depends => 0
    case Imports => 1
    case LinkingTo => 2
    case Suggests => 3
    case Enhances => 4
  }

  function RelationTag(op: RelationOp): nat {
    match op
    case Lt => 0
    case Le => 1
    case Eq => 2
    case Ne => 3
    case Ge => 4
    case Gt => 5
  }

  function EncodeClause(clause: VersionClause): Bytes {
    [Byte(RelationTag(clause.op))] + EncodeVersion(clause.version)
  }

  function EncodeClauses(clauses: seq<VersionClause>): (records: seq<Bytes>)
    ensures |records| == |clauses|
    ensures forall i | 0 <= i < |clauses| :: records[i] == EncodeClause(clauses[i])
  {
    seq(|clauses|, i requires 0 <= i < |clauses| => EncodeClause(clauses[i]))
  }

  function EncodeDependency(d: DeclaredDependency): Bytes {
    [Byte(KindTag(d.kind))] + (Delimited(d.package.name) + (EncodeSource(d.package.source)
      + DelimitedList(SortDedup(EncodeClauses(d.package.constraint.clauses)))))
  }

  function EncodeDependencies(ds: seq<DeclaredDependency>): (records: seq<Bytes>)
    ensures |records| == |ds|
    ensures forall i | 0 <= i < |ds| :: records[i] == EncodeDependency(ds[i])
  {
    seq(|ds|, i requires 0 <= i < |ds| => EncodeDependency(ds[i]))
  }

  // What is hashed.
  function MetadataBytes(id: ReleaseIdentity, v: RPackageVersion, ds: seq<DeclaredDependency>): Bytes {
    Delimited(DIGEST_DOMAIN) + (EncodeIdentity(id) +
      (EncodeVersion(v) + DelimitedList(SortDedup(EncodeDependencies(ds)))))
  }

  // ------------------------------------------------------ the encoder, step by step

  // The growing buffer of `digest.rs`.
  lemma NextComponent(front: Bytes, key: seq<u32>, i: nat)
    requires i < |key|
    ensures front + Components64(key[i..]) == (front + U64(key[i])) + Components64(key[i + 1..])
  {
    assert key[i..][1..] == key[i + 1..];
    ConcatAssociates(front, U64(key[i]), Components64(key[i + 1..]));
  }

  class Encoder {
    var encoded: Bytes

    constructor ()
      ensures encoded == ""
    {
      encoded := "";
    }

    method AppendU64(value: nat)
      modifies this
      ensures encoded == old(encoded) + U64(value)
    {
      encoded := encoded + U64(value);
    }

    method AppendBytes(value: Bytes)
      modifies this
      ensures encoded == old(encoded) + Delimited(value)
    {
      AppendU64(|value|);
      encoded := encoded + value;
      assert encoded == old(encoded) + Delimited(value);
    }

    method AppendTag(tag: nat)
      modifies this
      ensures encoded == old(encoded) + [Byte(tag)]
    {
      encoded := encoded + [Byte(tag)];
    }

    method AppendComponents(components: seq<u32>)
      modifies this
      ensures encoded == old(encoded) + Components64(components)
    {
      assert components[0..] == components;
      for i := 0 to |components|
        invariant encoded + Components64(components[i..]) == old(encoded) + Components64(components)
      {
        NextComponent(encoded, components, i);
        AppendU64(components[i]);
      }
      assert components[|components|..] == [] && encoded + "" == encoded;
    }

    method AppendVersion(v: RPackageVersion)
      modifies this
      requires v.components.Valid()
      ensures encoded == old(encoded) + EncodeVersion(v)
    {
      var count := v.components.CanonicalLen();
      AppendU64(count);
      AppendComponents(v.All()[..count]);
      ConcatAssociates(old(encoded), U64(count), Components64(v.All()[..count]));
    }

    method AppendTagAndVersion(tag: nat, v: RPackageVersion)
      modifies this
      requires v.components.Valid()
      ensures encoded == old(encoded) + ([Byte(tag)] + EncodeVersion(v))
    {
      AppendTag(tag);
      AppendVersion(v);
      ConcatAssociates(old(encoded), [Byte(tag)], EncodeVersion(v));
    }

    method AppendTagAndBytes(tag: nat, value: Bytes)
      modifies this
      ensures encoded == old(encoded) + ([Byte(tag)] + Delimited(value))
    {
      AppendTag(tag);
      AppendBytes(value);
      ConcatAssociates(old(encoded), [Byte(tag)], Delimited(value));
    }

    method AppendOptional(value: Option<string>)
      modifies this
      ensures encoded == old(encoded) + EncodeOptional(value)
    {
      match value
      case Some(text) => AppendTagAndBytes(1, text);
      case None => AppendTag(0);
    }

    method AppendGit(repository: string, commit: string, subdirectory: Option<string>)
      modifies this
      ensures encoded == old(encoded) + EncodeProvenance(GitCommit(repository, commit, subdirectory))
    {
      AppendTag(2);
      AppendBytes(repository);
      AppendBytes(commit);
      AppendOptional(subdirectory);
      Chain4(old(encoded), [Byte(2)], Delimited(repository), Delimited(commit), EncodeOptional(subdirectory));
    }

    method AppendBioconductor(namespace: string, release: string, v: RPackageVersion)
      modifies this
      requires v.components.Valid()
      ensures encoded == old(encoded) + EncodeProvenance(BioconductorRelease(namespace, release, v))
    {
      AppendTag(3);
      AppendBytes(namespace);
      AppendBytes(release);
      AppendVersion(v);
      Chain4(old(encoded), [Byte(3)], Delimited(namespace), Delimited(release), EncodeVersion(v));
    }

    method AppendProvenance(p: Provenance)
      modifies this
      requires ProvenanceReadable(p)
      ensures encoded == old(encoded) + EncodeProvenance(p)
    {
      match p
      case RBasePackage(v) =>
        AppendTagAndVersion(0, v);
      case RegistryRelease(namespace, v) =>
        AppendTag(1);
        AppendBytes(namespace);
        AppendVersion(v);
        Chain3(old(encoded), [Byte(1)], Delimited(namespace), EncodeVersion(v));
      case GitCommit(repository, commit, subdirectory) =>
        AppendGit(repository, commit, subdirectory);
      case BioconductorRelease(namespace, release, v) =>
        AppendBioconductor(namespace, release, v);
      case ImmutableSource(scheme, digest) =>
        AppendTag(4);
        AppendBytes(scheme);
        AppendBytes(digest);
        Chain3(old(encoded), [Byte(4)], Delimited(scheme), Delimited(digest));
    }

    method AppendIdentity(id: ReleaseIdentity)
      modifies this
      requires ProvenanceReadable(id.provenance)
      ensures encoded == old(encoded) + EncodeIdentity(id)
    {
      AppendBytes(id.name);
      AppendProvenance(id.provenance);
      ConcatAssociates(old(encoded), Delimited(id.name), EncodeProvenance(id.provenance));
    }

    method AppendSource(source: SourceConstraint)
      modifies this
      requires source.Exact? ==> ProvenanceReadable(source.identity.provenance)
      ensures encoded == old(encoded) + EncodeSource(source)
    {
      match source
      case Any =>
        AppendTag(0);
      case Registry(namespace) =>
        AppendTagAndBytes(1, namespace);
      case Repository(repository) =>
        AppendTagAndBytes(5, repository);
      case Bioconductor(namespace, release) =>
        AppendTag(2);
        AppendBytes(namespace);
        AppendBytes(release);
        Chain3(old(encoded), [Byte(2)], Delimited(namespace), Delimited(release));
      case Git(url) =>
        AppendTagAndBytes(3, url);
      case Exact(identity) =>
        AppendTag(4);
        AppendIdentity(identity);
        ConcatAssociates(old(encoded), [Byte(4)], EncodeIdentity(identity));
    }

    method AppendList(records: seq<Bytes>)
      modifies this
      ensures encoded == old(encoded) + DelimitedList(records)
    {
      AppendU64(|records|);
      for i := 0 to |records|
        invariant encoded + DelimitedAll(records[i..]) == old(encoded) + DelimitedList(records)
      {
        assert records[i..][1..] == records[i + 1..];
        ConcatAssociates(encoded, Delimited(records[i]), DelimitedAll(records[i + 1..]));
        AppendBytes(records[i]);
      }
      assert records[|records|..] == [];
    }
  }

  predicate ProvenanceReadable(p: Provenance) {
    match p
    case RBasePackage(v) => v.components.Valid()
    case RegistryRelease(_, v) => v.components.Valid()
    case BioconductorRelease(_, _, v) => v.components.Valid()
    case _ => true
  }

  predicate DependencyReadable(d: DeclaredDependency) {
    && (d.package.source.Exact? ==> ProvenanceReadable(d.package.source.identity.provenance))
    && forall i | 0 <= i < |d.package.constraint.clauses| :: d.package.constraint.clauses[i].version.components.Valid()
  }

  method ClauseRecord(clause: VersionClause) returns (record: Bytes)
    requires clause.version.components.Valid()
    ensures record == EncodeClause(clause)
  {
    var encoder := new Encoder();
    encoder.AppendTagAndVersion(RelationTag(clause.op), clause.version);
    record := encoder.encoded;
  }

  method ClauseRecords(clauses: seq<VersionClause>) returns (records: seq<Bytes>)
    requires forall i | 0 <= i < |clauses| :: clauses[i].version.components.Valid()
    ensures records == EncodeClauses(clauses)
  {
    records := [];
    for i := 0 to |clauses|
      invariant |records| == i && forall k | 0 <= k < i :: records[k] == EncodeClause(clauses[k])
    {
      var record := ClauseRecord(clauses[i]);
      records := records + [record];
    }
  }

  method DependencyRecord(d: DeclaredDependency) returns (record: Bytes)
    requires DependencyReadable(d)
    ensures record == EncodeDependency(d)
  {
    var clauses := ClauseRecords(d.package.constraint.clauses);
    var encoder := new Encoder();
    encoder.AppendTag(KindTag(d.kind));
    encoder.AppendBytes(d.package.name);
    encoder.AppendSource(d.package.source);
    encoder.AppendList(SortDedup(clauses));
    record := encoder.encoded;
    Chain4("", [Byte(KindTag(d.kind))], Delimited(d.package.name), EncodeSource(d.package.source),
      DelimitedList(SortDedup(clauses)));
  }

  method DependencyRecords(ds: seq<DeclaredDependency>) returns (records: seq<Bytes>)
    requires forall d | d in ds :: DependencyReadable(d)
    ensures records == EncodeDependencies(ds)
  {
    records := [];
    for i := 0 to |ds|
      invariant |records| == i && forall k | 0 <= k < i :: records[k] == EncodeDependency(ds[k])
    {
      var record := DependencyRecord(ds[i]);
      records := records + [record];
    }
  }

  method Assemble(prefix: Bytes, id: ReleaseIdentity, v: RPackageVersion, records: seq<Bytes>) returns (bytes: Bytes)
    requires ProvenanceReadable(id.provenance) && v.components.Valid()
    ensures bytes == Delimited(prefix) + (EncodeIdentity(id) + (EncodeVersion(v) + DelimitedList(records)))
  {
    var encoder := new Encoder();
    encoder.AppendBytes(prefix);
    encoder.AppendIdentity(id);
    encoder.AppendVersion(v);
    encoder.AppendList(records);
    bytes := encoder.encoded;
    Chain4("", Delimited(prefix), EncodeIdentity(id), EncodeVersion(v), DelimitedList(records));
  }

  // `canonical_metadata_digest`, up to the hash.
  method CanonicalMetadata(id: ReleaseIdentity, v: RPackageVersion, ds: seq<DeclaredDependency>) returns (bytes: Bytes)
    requires ProvenanceReadable(id.provenance) && v.components.Valid()
    requires forall d | d in ds :: DependencyReadable(d)
    ensures bytes == MetadataBytes(id, v, ds)
  {
    var records := DependencyRecords(ds);
    bytes := Assemble(DIGEST_DOMAIN, id, v, SortDedup(records));
  }

  // ------------------------------------------------------------- what it means

  // What a dependency says, without spelling, order or repetition.
  datatype Meaning = Meaning(kind: DependencyKind, name: string, source: SourceConstraint, clauses: set<VersionClause>)

  function MeaningOf(d: DeclaredDependency): Meaning {
    Meaning(d.kind, d.package.name, CanonSource(d.package.source),
      set i | 0 <= i < |d.package.constraint.clauses| :: CanonClause(d.package.constraint.clauses[i]))
  }

  function Meanings(ds: seq<DeclaredDependency>): set<Meaning> {
    set i | 0 <= i < |ds| :: MeaningOf(ds[i])
  }

  // ------------------------------------------------------------ reading it back

  lemma {:induction false} Components64Prefix(a: seq<u32>, s: Bytes, b: seq<u32>, t: Bytes)
    requires |a| == |b| && Components64(a) + s == Components64(b) + t
    ensures a == b && s == t
  {
    if a == [] {
      assert Components64(a) + s == s && Components64(b) + t == t;
    } else {
      ConcatAssociates(U64(a[0]), Components64(a[1..]), s);
      ConcatAssociates(U64(b[0]), Components64(b[1..]), t);
      U64Prefix(a[0], Components64(a[1..]) + s, b[0], Components64(b[1..]) + t);
      Components64Prefix(a[1..], s, b[1..], t);
      assert a == [a[0]] + a[1..] && b == [b[0]] + b[1..];
    }
  }

  lemma {:induction false} Components64Length(a: seq<u32>)
    ensures |Components64(a)| == 8 * |a|
  {
    if a != [] {
      Components64Length(a[1..]);
    }
  }

  lemma VersionPrefix(v: RPackageVersion, s: Bytes, w: RPackageVersion, t: Bytes)
    requires EncodeVersion(v) + s == EncodeVersion(w) + t && |EncodeVersion(v) + s| < U64_LIMIT
    ensures Canon(v) == Canon(w) && s == t
  {
    Components64Length(v.Key());
    Components64Length(w.Key());
    ConcatAssociates(U64(|v.Key()|), Components64(v.Key()), s);
    ConcatAssociates(U64(|w.Key()|), Components64(w.Key()), t);
    U64Prefix(|v.Key()|, Components64(v.Key()) + s, |w.Key()|, Components64(w.Key()) + t);
    Components64Prefix(v.Key(), s, w.Key(), t);
  }

  // One delimited text followed by anything.
  lemma TextPrefix(v: string, s: Bytes, w: string, t: Bytes, all: Bytes)
    requires all == Delimited(v) + s == Delimited(w) + t && |all| < U64_LIMIT
    ensures v == w && s == t && |s| < U64_LIMIT
  {
    DelimitedPrefix(v, s, w, t);
  }

  lemma TagPrefix(m: nat, s: Bytes, n: nat, t: Bytes)
    requires m < 256 && n < 256 && [Byte(m)] + s == [Byte(n)] + t
    ensures m == n && s == t
  {
    ConcatSplit([Byte(m)], s, [Byte(n)], t);
    assert [Byte(m)][0] == [Byte(n)][0];
  }

  lemma OptionalPrefix(a: Option<string>, s: Bytes, b: Option<string>, t: Bytes)
    requires EncodeOptional(a) + s == EncodeOptional(b) + t && |EncodeOptional(a) + s| < U64_LIMIT
    ensures a == b && s == t
  {
    if a.Some? && b.Some? {
      ConcatAssociates([Byte(1)], Delimited(a.value), s);
      ConcatAssociates([Byte(1)], Delimited(b.value), t);
      TagPrefix(1, Delimited(a.value) + s, 1, Delimited(b.value) + t);
      TextPrefix(a.value, s, b.value, t, Delimited(a.value) + s);
    } else if a.None? && b.None? {
      TagPrefix(0, s, 0, t);
    } else if a.Some? {
      ConcatAssociates([Byte(1)], Delimited(a.value), s);
      TagPrefix(1, Delimited(a.value) + s, 0, t);
    } else {
      ConcatAssociates([Byte(1)], Delimited(b.value), t);
      TagPrefix(0, s, 1, Delimited(b.value) + t);
    }
  }

  function ProvenanceTag(p: Provenance): nat {
    match p
    case RBasePackage(_) => 0
    case RegistryRelease(_, _) => 1
    case GitCommit(_, _, _) => 2
    case BioconductorRelease(_, _, _) => 3
    case ImmutableSource(_, _) => 4
  }

  function ProvenanceBody(p: Provenance): Bytes {
    match p
    case RBasePackage(v) => EncodeVersion(v)
    case RegistryRelease(namespace, v) => Delimited(namespace) + EncodeVersion(v)
    case GitCommit(repository, commit, subdirectory) =>
      Delimited(repository) + (Delimited(commit) + EncodeOptional(subdirectory))
    case BioconductorRelease(namespace, release, v) => Delimited(namespace) + (Delimited(release) + EncodeVersion(v))
    case ImmutableSource(scheme, digest) => Delimited(scheme) + Delimited(digest)
  }

  lemma ProvenanceBodyPrefix(p: Provenance, s: Bytes, q: Provenance, t: Bytes)
    requires ProvenanceTag(p) == ProvenanceTag(q)
    requires ProvenanceBody(p) + s == ProvenanceBody(q) + t && |ProvenanceBody(p) + s| < U64_LIMIT
    ensures CanonProvenance(p) == CanonProvenance(q) && s == t
  {
    var all := ProvenanceBody(p) + s;
    match (p, q)
    case (RBasePackage(v), RBasePackage(w)) =>
      VersionPrefix(v, s, w, t);
    case (RegistryRelease(m, v), RegistryRelease(n, w)) =>
      ConcatAssociates(Delimited(m), EncodeVersion(v), s);
      ConcatAssociates(Delimited(n), EncodeVersion(w), t);
      TextPrefix(m, EncodeVersion(v) + s, n, EncodeVersion(w) + t, all);
      VersionPrefix(v, s, w, t);
    case (GitCommit(r, c, d), GitCommit(r', c', d')) =>
      GitPrefix(r, c, d, s, r', c', d', t, all);
    case (BioconductorRelease(m, r, v), BioconductorRelease(n, r', w)) =>
      BioconductorPrefix(m, r, v, s, n, r', w, t, all);
    case (ImmutableSource(m, d), ImmutableSource(n, d')) =>
      ConcatAssociates(Delimited(m), Delimited(d), s);
      ConcatAssociates(Delimited(n), Delimited(d'), t);
      TextPrefix(m, Delimited(d) + s, n, Delimited(d') + t, all);
      TextPrefix(d, s, d', t, Delimited(d) + s);
  }

  lemma GitPrefix(r: string, c: string, d: Option<string>, s: Bytes, r': string, c': string, d': Option<string>,
    t: Bytes, all: Bytes)
    requires all == (Delimited(r) + (Delimited(c) + EncodeOptional(d))) + s
    requires all == (Delimited(r') + (Delimited(c') + EncodeOptional(d'))) + t
    requires |all| < U64_LIMIT
    ensures r == r' && c == c' && d == d' && s == t
  {
    ConcatAssociates(Delimited(r), Delimited(c) + EncodeOptional(d), s);
    ConcatAssociates(Delimited(r'), Delimited(c') + EncodeOptional(d'), t);
    ConcatAssociates(Delimited(c), EncodeOptional(d), s);
    ConcatAssociates(Delimited(c'), EncodeOptional(d'), t);
    TextPrefix(r, Delimited(c) + (EncodeOptional(d) + s), r', Delimited(c') + (EncodeOptional(d') + t), all);
    TextPrefix(c, EncodeOptional(d) + s, c', EncodeOptional(d') + t, Delimited(c) + (EncodeOptional(d) + s));
    OptionalPrefix(d, s, d', t);
  }

  lemma BioconductorPrefix(m: string, r: string, v: RPackageVersion, s: Bytes, n: string, r': string,
    w: RPackageVersion, t: Bytes, all: Bytes)
    requires all == (Delimited(m) + (Delimited(r) + EncodeVersion(v))) + s
    requires all == (Delimited(n) + (Delimited(r') + EncodeVersion(w))) + t
    requires |all| < U64_LIMIT
    ensures m == n && r == r' && Canon(v) == Canon(w) && s == t
  {
    ConcatAssociates(Delimited(m), Delimited(r) + EncodeVersion(v), s);
    ConcatAssociates(Delimited(n), Delimited(r') + EncodeVersion(w), t);
    ConcatAssociates(Delimited(r), EncodeVersion(v), s);
    ConcatAssociates(Delimited(r'), EncodeVersion(w), t);
    TextPrefix(m, Delimited(r) + (EncodeVersion(v) + s), n, Delimited(r') + (EncodeVersion(w) + t), all);
    TextPrefix(r, EncodeVersion(v) + s, r', EncodeVersion(w) + t, Delimited(r) + (EncodeVersion(v) + s));
    VersionPrefix(v, s, w, t);
  }

  lemma IdentityPrefix(a: ReleaseIdentity, s: Bytes, b: ReleaseIdentity, t: Bytes)
    requires EncodeIdentity(a) + s == EncodeIdentity(b) + t && |EncodeIdentity(a) + s| < U64_LIMIT
    ensures CanonIdentity(a) == CanonIdentity(b) && s == t
  {
    var p, q := EncodeProvenance(a.provenance), EncodeProvenance(b.provenance);
    ConcatAssociates(Delimited(a.name), p, s);
    ConcatAssociates(Delimited(b.name), q, t);
    TextPrefix(a.name, p + s, b.name, q + t, EncodeIdentity(a) + s);
    ConcatAssociates([Byte(ProvenanceTag(a.provenance))], ProvenanceBody(a.provenance), s);
    ConcatAssociates([Byte(ProvenanceTag(b.provenance))], ProvenanceBody(b.provenance), t);
    TagPrefix(ProvenanceTag(a.provenance), ProvenanceBody(a.provenance) + s, ProvenanceTag(b.provenance),
      ProvenanceBody(b.provenance) + t);
    ProvenanceBodyPrefix(a.provenance, s, b.provenance, t);
  }

  function SourceTag(source: SourceConstraint): nat {
    match source
    case Any => 0
    case Registry(_) => 1
    case Repository(_) => 5
    case Bioconductor(_, _) => 2
    case Git(_) => 3
    case Exact(_) => 4
  }

  function SourceBody(source: SourceConstraint): Bytes {
    match source
    case Any => ""
    case Registry(namespace) => Delimited(namespace)
    case Repository(repository) => Delimited(repository)
    case Bioconductor(namespace, release) => Delimited(namespace) + Delimited(release)
    case Git(url) => Delimited(url)
    case Exact(identity) => EncodeIdentity(identity)
  }

  lemma SourcePrefix(a: SourceConstraint, s: Bytes, b: SourceConstraint, t: Bytes)
    requires EncodeSource(a) + s == EncodeSource(b) + t && |EncodeSource(a) + s| < U64_LIMIT
    ensures CanonSource(a) == CanonSource(b) && s == t
  {
    assert EncodeSource(a) == [Byte(SourceTag(a))] + SourceBody(a) &&
      EncodeSource(b) == [Byte(SourceTag(b))] + SourceBody(b);
    ConcatAssociates([Byte(SourceTag(a))], SourceBody(a), s);
    ConcatAssociates([Byte(SourceTag(b))], SourceBody(b), t);
    TagPrefix(SourceTag(a), SourceBody(a) + s, SourceTag(b), SourceBody(b) + t);
    SourceBodyPrefix(a, s, b, t);
  }

  lemma SourceBodyPrefix(a: SourceConstraint, s: Bytes, b: SourceConstraint, t: Bytes)
    requires SourceTag(a) == SourceTag(b)
    requires SourceBody(a) + s == SourceBody(b) + t && |SourceBody(a) + s| < U64_LIMIT
    ensures CanonSource(a) == CanonSource(b) && s == t
  {
    var all := SourceBody(a) + s;
    match (a, b)
    case (Any, Any) =>
      assert SourceBody(a) + s == s && SourceBody(b) + t == t;
    case (Registry(m), Registry(n)) => TextPrefix(m, s, n, t, all);
    case (Repository(m), Repository(n)) => TextPrefix(m, s, n, t, all);
    case (Git(m), Git(n)) => TextPrefix(m, s, n, t, all);
    case (Bioconductor(m, r), Bioconductor(n, r')) =>
      ConcatAssociates(Delimited(m), Delimited(r), s);
      ConcatAssociates(Delimited(n), Delimited(r'), t);
      TextPrefix(m, Delimited(r) + s, n, Delimited(r') + t, all);
      TextPrefix(r, s, r', t, Delimited(r) + s);
    case (Exact(x), Exact(y)) => IdentityPrefix(x, s, y, t);
  }

  lemma ClauseDecided(a: VersionClause, b: VersionClause)
    requires |EncodeClause(a)| < U64_LIMIT
    ensures EncodeClause(a) == EncodeClause(b) <==> CanonClause(a) == CanonClause(b)
  {
    CanonIsSame(a.version, b.version);
    if CanonClause(a) == CanonClause(b) {
      SameIsKeyEquality(a.version, b.version);
    }
    if EncodeClause(a) == EncodeClause(b) {
      TagPrefix(RelationTag(a.op), EncodeVersion(a.version), RelationTag(b.op), EncodeVersion(b.version));
      assert EncodeVersion(a.version) + "" == EncodeVersion(a.version) &&
        EncodeVersion(b.version) + "" == EncodeVersion(b.version);
      VersionPrefix(a.version, "", b.version, "");
    }
  }

  // Equal sets of clause encodings are equal sets of clauses.
  lemma ClauseSetsDecided(a: seq<VersionClause>, b: seq<VersionClause>)
    requires forall i | 0 <= i < |a| :: |EncodeClause(a[i])| < U64_LIMIT
    ensures SortDedup(EncodeClauses(a)) == SortDedup(EncodeClauses(b)) <==>
      (set i | 0 <= i < |a| :: CanonClause(a[i])) == (set i | 0 <= i < |b| :: CanonClause(b[i]))
  {
    hide EncodeClause, SortDedup, EncodeClauses, CanonClause;
    SortDedupDecides(EncodeClauses(a), EncodeClauses(b));
    var x, y := set i | 0 <= i < |a| :: CanonClause(a[i]), set i | 0 <= i < |b| :: CanonClause(b[i]);
    if SortDedup(EncodeClauses(a)) == SortDedup(EncodeClauses(b)) {
      forall i | 0 <= i < |a|
        ensures CanonClause(a[i]) in y
      {
        assert EncodeClauses(a)[i] in EncodeClauses(b);
        var j :| 0 <= j < |b| && EncodeClauses(b)[j] == EncodeClauses(a)[i];
        ClauseDecided(a[i], b[j]);
      }
      forall j | 0 <= j < |b|
        ensures CanonClause(b[j]) in x
      {
        assert EncodeClauses(b)[j] in EncodeClauses(a);
        var i :| 0 <= i < |a| && EncodeClauses(a)[i] == EncodeClauses(b)[j];
        ClauseDecided(a[i], b[j]);
      }
    }
    if x == y {
      forall i | 0 <= i < |a|
        ensures EncodeClauses(a)[i] in EncodeClauses(b)
      {
        assert CanonClause(a[i]) in y;
        var j :| 0 <= j < |b| && CanonClause(b[j]) == CanonClause(a[i]);
        ClauseDecided(a[i], b[j]);
        assert EncodeClauses(b)[j] == EncodeClauses(a)[i];
      }
      forall j | 0 <= j < |b|
        ensures EncodeClauses(b)[j] in EncodeClauses(a)
      {
        assert CanonClause(b[j]) in x;
        var i :| 0 <= i < |a| && CanonClause(a[i]) == CanonClause(b[j]);
        ClauseDecided(a[i], b[j]);
        assert EncodeClauses(a)[i] == EncodeClauses(b)[j];
      }
    }
  }

  lemma DependencyDecided(a: DeclaredDependency, b: DeclaredDependency)
    requires |EncodeDependency(a)| < U64_LIMIT && |EncodeDependency(b)| < U64_LIMIT
    ensures EncodeDependency(a) == EncodeDependency(b) <==> MeaningOf(a) == MeaningOf(b)
  {
    hide SortDedup, DelimitedList, Delimited, EncodeSource, EncodeClauses;
    var x, y := SortDedup(EncodeClauses(a.package.constraint.clauses)),
      SortDedup(EncodeClauses(b.package.constraint.clauses));
    ClauseSizes(a);
    ClauseSetsDecided(a.package.constraint.clauses, b.package.constraint.clauses);
    if MeaningOf(a) == MeaningOf(b) {
      SourceUpToSpelling(a.package.source, b.package.source);
    }
    if EncodeDependency(a) == EncodeDependency(b) {
      var all := EncodeDependency(a);
      var s, t := EncodeSource(a.package.source) + DelimitedList(x), EncodeSource(b.package.source) + DelimitedList(y);
      TagPrefix(KindTag(a.kind), Delimited(a.package.name) + s, KindTag(b.kind), Delimited(b.package.name) + t);
      TextPrefix(a.package.name, s, b.package.name, t, Delimited(a.package.name) + s);
      SourcePrefix(a.package.source, DelimitedList(x), b.package.source, DelimitedList(y));
      assert DelimitedList(x) + "" == DelimitedList(x) && DelimitedList(y) + "" == DelimitedList(y);
      DelimitedListPrefix(x, "", y, "");
    }
  }

  lemma ClauseSizes(d: DeclaredDependency)
    requires |EncodeDependency(d)| < U64_LIMIT
    ensures forall i | 0 <= i < |d.package.constraint.clauses| ::
      |EncodeClause(d.package.constraint.clauses[i])| < U64_LIMIT
  {
    var clauses := d.package.constraint.clauses;
    SortDedupFacts(EncodeClauses(clauses));
    DelimitedAllLength(SortDedup(EncodeClauses(clauses)));
    forall i | 0 <= i < |clauses|
      ensures |EncodeClause(clauses[i])| < U64_LIMIT
    {
      assert EncodeClauses(clauses)[i] in SortDedup(EncodeClauses(clauses));
    }
  }

  lemma VersionUpToSpelling(v: RPackageVersion, w: RPackageVersion)
    requires Canon(v) == Canon(w)
    ensures EncodeVersion(v) == EncodeVersion(w)
  {
    CanonIsSame(v, w);
    SameIsKeyEquality(v, w);
  }

  lemma IdentityUpToSpelling(a: ReleaseIdentity, b: ReleaseIdentity)
    requires CanonIdentity(a) == CanonIdentity(b)
    ensures EncodeIdentity(a) == EncodeIdentity(b)
  {
    match (a.provenance, b.provenance)
    case (RBasePackage(v), RBasePackage(w)) => VersionUpToSpelling(v, w);
    case (RegistryRelease(_, v), RegistryRelease(_, w)) => VersionUpToSpelling(v, w);
    case (BioconductorRelease(_, _, v), BioconductorRelease(_, _, w)) => VersionUpToSpelling(v, w);
    case (GitCommit(_, _, _), GitCommit(_, _, _)) =>
    case (ImmutableSource(_, _), ImmutableSource(_, _)) =>
  }

  lemma SourceUpToSpelling(a: SourceConstraint, b: SourceConstraint)
    requires CanonSource(a) == CanonSource(b)
    ensures EncodeSource(a) == EncodeSource(b)
  {
    if a.Exact? {
      IdentityUpToSpelling(a.identity, b.identity);
    }
  }

  // Equal sets of dependency records are equal sets of meanings.
  lemma DependencySetsDecided(a: seq<DeclaredDependency>, b: seq<DeclaredDependency>)
    requires forall d | d in a || d in b :: |EncodeDependency(d)| < U64_LIMIT
    ensures SortDedup(EncodeDependencies(a)) == SortDedup(EncodeDependencies(b)) <==> Meanings(a) == Meanings(b)
  {
    SortDedupDecides(EncodeDependencies(a), EncodeDependencies(b));
    if SortDedup(EncodeDependencies(a)) == SortDedup(EncodeDependencies(b)) {
      MeaningsCovered(a, b);
      MeaningsCovered(b, a);
    }
    if Meanings(a) == Meanings(b) {
      RecordsCovered(a, b);
      RecordsCovered(b, a);
    }
  }

  lemma MeaningsCovered(a: seq<DeclaredDependency>, b: seq<DeclaredDependency>)
    requires forall d | d in a || d in b :: |EncodeDependency(d)| < U64_LIMIT
    requires forall r | r in EncodeDependencies(a) :: r in EncodeDependencies(b)
    ensures Meanings(a) <= Meanings(b)
  {
    forall i | 0 <= i < |a|
      ensures MeaningOf(a[i]) in Meanings(b)
    {
      assert EncodeDependencies(a)[i] in EncodeDependencies(b);
      var j :| 0 <= j < |b| && EncodeDependencies(b)[j] == EncodeDependencies(a)[i];
      DependencyDecided(a[i], b[j]);
    }
  }

  lemma RecordsCovered(a: seq<DeclaredDependency>, b: seq<DeclaredDependency>)
    requires forall d | d in a || d in b :: |EncodeDependency(d)| < U64_LIMIT
    requires Meanings(a) <= Meanings(b)
    ensures forall r | r in EncodeDependencies(a) :: r in EncodeDependencies(b)
  {
    forall i | 0 <= i < |a|
      ensures EncodeDependencies(a)[i] in EncodeDependencies(b)
    {
      assert MeaningOf(a[i]) in Meanings(a);
      var j :| 0 <= j < |b| && MeaningOf(b[j]) == MeaningOf(a[i]);
      DependencyDecided(a[i], b[j]);
      assert EncodeDependencies(b)[j] == EncodeDependencies(a)[i];
    }
  }

  lemma RecordSizes(ds: seq<DeclaredDependency>, bound: nat)
    requires |DelimitedList(SortDedup(EncodeDependencies(ds)))| < bound
    ensures forall d | d in ds :: |EncodeDependency(d)| < bound
  {
    SortDedupFacts(EncodeDependencies(ds));
    DelimitedAllLength(SortDedup(EncodeDependencies(ds)));
    forall d | d in ds
      ensures |EncodeDependency(d)| < bound
    {
      var i :| 0 <= i < |ds| && ds[i] == d;
      assert EncodeDependencies(ds)[i] in SortDedup(EncodeDependencies(ds));
    }
  }

  // Two releases feed the digest the same bytes exactly when their identities and
  // versions are equal up to spelling and their dependencies are equal as sets.
  lemma MetadataBytesDecide(
    a: ReleaseIdentity, v: RPackageVersion, ds: seq<DeclaredDependency>,
    b: ReleaseIdentity, w: RPackageVersion, es: seq<DeclaredDependency>)
    requires |MetadataBytes(a, v, ds)| < U64_LIMIT && |MetadataBytes(b, w, es)| < U64_LIMIT
    ensures MetadataBytes(a, v, ds) == MetadataBytes(b, w, es) <==>
      SameIdentity(a, b) && v.Same(w) && Meanings(ds) == Meanings(es)
  {
    hide EncodeIdentity, SortDedup, EncodeVersion, Meanings, DelimitedList, EncodeDependencies;
    var x, y := SortDedup(EncodeDependencies(ds)), SortDedup(EncodeDependencies(es));
    RecordSizes(ds, U64_LIMIT);
    RecordSizes(es, U64_LIMIT);
    DependencySetsDecided(ds, es);
    CanonIsSame(v, w);
    if SameIdentity(a, b) && v.Same(w) {
      IdentityUpToSpelling(a, b);
      VersionUpToSpelling(v, w);
    }
    if MetadataBytes(a, v, ds) == MetadataBytes(b, w, es) {
      var s, t := EncodeVersion(v) + DelimitedList(x), EncodeVersion(w) + DelimitedList(y);
      TextPrefix(DIGEST_DOMAIN, EncodeIdentity(a) + s, DIGEST_DOMAIN, EncodeIdentity(b) + t, MetadataBytes(a, v, ds));
      IdentityPrefix(a, s, b, t);
      VersionPrefix(v, DelimitedList(x), w, DelimitedList(y));
      assert DelimitedList(x) + "" == DelimitedList(x) && DelimitedList(y) + "" == DelimitedList(y);
      DelimitedListPrefix(x, "", y, "");
    }
  }
}
