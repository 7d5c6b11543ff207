/** Distribution evidence and its canonical order, by an injective byte key. */
module Distributions {
  import opened Prelude
  import opened Encoding

  datatype UpstreamChecksum =
    | Md5(value: string)
    | Sha256(value: string)
    | Other(algorithm: string, value: string)

  datatype SourceArtifact =
    SourceArtifact(locator: string, checksums: seq<UpstreamChecksum>, size: Option<u64>)

  // `fields` lists a sorted map.
  datatype Distribution = Distribution(
    registry: string,
    channel: string,
    snapshot: Option<string>,
    artifacts: seq<SourceArtifact>,
    fields: seq<(string, string)>)

  // ------------------------------------------------------------------ the key

  function ChecksumKey(checksum: UpstreamChecksum): Bytes {
    match checksum
    case Md5(value) => Field(1, value)
    case Sha256(value) => Field(2, value)
    case Other(algorithm, value) => Field(3, algorithm) + Field(4, value)
  }

  function ChecksumKeys(checksums: seq<UpstreamChecksum>): (keys: seq<Bytes>)
    ensures |keys| == |checksums| && forall i | 0 <= i < |checksums| :: keys[i] == ChecksumKey(checksums[i])
  {
    seq(|checksums|, i requires 0 <= i < |checksums| => ChecksumKey(checksums[i]))
  }

  function SizeKey(size: Option<u64>): Bytes {
    match size
    case Some(value) => Field(4, [Byte(1)]) + Field(5, BigEndian(value, 8))
    case None => Field(4, [Byte(0)])
  }

  function SnapshotKey(snapshot: Option<string>): Bytes {
    match snapshot
    case Some(value) => Field(3, [Byte(1)]) + Field(4, value)
    case None => Field(3, [Byte(0)])
  }

  function ArtifactKey(a: SourceArtifact): Bytes {
    Field(0, "Source") + (Field(1, a.locator) + (Field(2, BigEndian(|a.checksums|, 8))
      + (Fields(3, ChecksumKeys(a.checksums)) + SizeKey(a.size))))
  }

  function ArtifactKeys(artifacts: seq<SourceArtifact>): (keys: seq<Bytes>)
    ensures |keys| == |artifacts| && forall i | 0 <= i < |artifacts| :: keys[i] == ArtifactKey(artifacts[i])
  {
    seq(|artifacts|, i requires 0 <= i < |artifacts| => ArtifactKey(artifacts[i]))
  }

  function PairKey(pair: (string, string)): Bytes {
    Field(1, pair.0) + Field(2, pair.1)
  }

  function PairKeys(fields: seq<(string, string)>): (keys: seq<Bytes>)
    ensures |keys| == |fields| && forall i | 0 <= i < |fields| :: keys[i] == PairKey(fields[i])
  {
    seq(|fields|, i requires 0 <= i < |fields| => PairKey(fields[i]))
  }

  function ArtifactsPart(artifacts: seq<SourceArtifact>, rest: Bytes): Bytes {
    Field(5, BigEndian(|artifacts|, 8)) + (Fields(6, ArtifactKeys(artifacts)) + rest)
  }

  function MetadataPart(fields: seq<(string, string)>): Bytes {
    Field(7, BigEndian(|fields|, 8)) + Fields(8, PairKeys(fields))
  }

  function DistributionKey(d: Distribution): Bytes {
    Field(1, d.registry) + (Field(2, d.channel) + (SnapshotKey(d.snapshot)
      + ArtifactsPart(d.artifacts, MetadataPart(d.fields))))
  }

  // The keys of these distributions are possible buffers.
  ghost predicate AllSized(ds: seq<Distribution>) {
    forall d | d in ds :: |DistributionKey(d)| < U64_LIMIT
  }

  // The growing buffer of `distribution_key`.
  class KeyBuffer {
    var key: Bytes

    constructor ()
      ensures key == ""
    {
      key := "";
    }

    method Append(tag: nat, value: Bytes)
      modifies this
      ensures key == old(key) + Field(tag, value)
    {
      key := key + [Byte(tag)];
      key := key + BigEndian(|value|, 8);
      key := key + value;
      assert key == old(key) + Field(tag, value);
    }

    method AppendAll(tag: nat, values: seq<Bytes>)
      modifies this
      ensures key == old(key) + Fields(tag, values)
    {
      for i := 0 to |values|
        invariant key + Fields(tag, values[i..]) == old(key) + Fields(tag, values)
      {
        assert values[i..][1..] == values[i + 1..];
        ConcatAssociates(key, Field(tag, values[i]), Fields(tag, values[i + 1..]));
        Append(tag, values[i]);
      }
      assert values[|values|..] == [];
    }

    method AppendFlagged(flag: nat, tag: nat, value: Option<Bytes>)
      modifies this
      ensures key == old(key) + (match value
        case Some(bytes) => Field(flag, [Byte(1)]) + Field(tag, bytes)
        case None => Field(flag, [Byte(0)]))
    {
      match value
      case Some(bytes) =>
        Append(flag, [Byte(1)]);
        Append(tag, bytes);
        ConcatAssociates(old(key), Field(flag, [Byte(1)]), Field(tag, bytes));
      case None =>
        Append(flag, [Byte(0)]);
    }
  }

  method ChecksumKeyBytes(checksum: UpstreamChecksum) returns (key: Bytes)
    ensures key == ChecksumKey(checksum)
  {
    var buffer := new KeyBuffer();
    match checksum {
      case Md5(value) => buffer.Append(1, value);
      case Sha256(value) => buffer.Append(2, value);
      case Other(algorithm, value) =>
        buffer.Append(3, algorithm);
        buffer.Append(4, value);
    }
    key := buffer.key;
  }

  method ArtifactKeyBytes(a: SourceArtifact) returns (key: Bytes)
    ensures key == ArtifactKey(a)
  {
    var checksums: seq<Bytes> := [];
    for i := 0 to |a.checksums|
      invariant checksums == ChecksumKeys(a.checksums)[..i]
    {
      var checksum := ChecksumKeyBytes(a.checksums[i]);
      checksums := checksums + [checksum];
    }
    key := AssembleArtifact(a, checksums);
  }

  method AssembleArtifact(a: SourceArtifact, checksums: seq<Bytes>) returns (key: Bytes)
    requires checksums == ChecksumKeys(a.checksums)
    ensures key == ArtifactKey(a)
  {
    var buffer := new KeyBuffer();
    buffer.Append(0, "Source");
    buffer.Append(1, a.locator);
    buffer.Append(2, BigEndian(|a.checksums|, 8));
    buffer.AppendAll(3, checksums);
    buffer.AppendFlagged(4, 5, match a.size case Some(value) => Some(BigEndian(value, 8)) case None => None);
    key := buffer.key;
    Chain5(Field(0, "Source"), Field(1, a.locator), Field(2, BigEndian(|a.checksums|, 8)),
      Fields(3, checksums), SizeKey(a.size));
  }

  lemma ArtifactKeysNext(artifacts: seq<SourceArtifact>, i: nat)
    requires i < |artifacts|
    ensures ArtifactKeys(artifacts[..i + 1]) == ArtifactKeys(artifacts[..i]) + [ArtifactKey(artifacts[i])]
  {
  }

  method ArtifactKeysBytes(artifacts: seq<SourceArtifact>) returns (keys: seq<Bytes>)
    ensures keys == ArtifactKeys(artifacts)
  {
    keys := [];
    for i := 0 to |artifacts|
      invariant keys == ArtifactKeys(artifacts[..i])
    {
      var key := ArtifactKeyBytes(artifacts[i]);
      ArtifactKeysNext(artifacts, i);
      keys := keys + [key];
    }
    assert artifacts[..|artifacts|] == artifacts;
  }

  method PairKeysBytes(fields: seq<(string, string)>) returns (keys: seq<Bytes>)
    ensures keys == PairKeys(fields)
  {
    keys := [];
    for i := 0 to |fields|
      invariant |keys| == i && forall k | 0 <= k < i :: keys[k] == PairKey(fields[k])
    {
      var key := PairKeyBytes(fields[i]);
      keys := keys + [key];
    }
  }

  method PairKeyBytes(pair: (string, string)) returns (key: Bytes)
    ensures key == PairKey(pair)
  {
    var buffer := new KeyBuffer();
    buffer.Append(1, pair.0);
    buffer.Append(2, pair.1);
    key := buffer.key;
  }

  // `distribution_key`.
  method DistributionKeyBytes(d: Distribution) returns (key: Bytes)
    ensures key == DistributionKey(d)
  {
    var artifacts := ArtifactKeysBytes(d.artifacts);
    var pairs := PairKeysBytes(d.fields);
    var buffer := new KeyBuffer();
    buffer.Append(1, d.registry);
    buffer.Append(2, d.channel);
    buffer.AppendFlagged(3, 4, d.snapshot);
    FinishKey(buffer, d, artifacts, pairs);
    key := buffer.key;
    FrontOfKey(Field(1, d.registry), Field(2, d.channel), SnapshotKey(d.snapshot),
      ArtifactsPart(d.artifacts, MetadataPart(d.fields)));
  }

  lemma FrontOfKey(a: Bytes, b: Bytes, c: Bytes, d: Bytes)
    ensures ((("" + a) + b) + c) + d == a + (b + (c + d))
  {
    assert "" + a == a;
    Chain3(a, b, c, d);
  }

  method FinishKey(buffer: KeyBuffer, d: Distribution, artifacts: seq<Bytes>, pairs: seq<Bytes>)
    requires artifacts == ArtifactKeys(d.artifacts) && pairs == PairKeys(d.fields)
    modifies buffer
    ensures buffer.key == old(buffer.key) + ArtifactsPart(d.artifacts, MetadataPart(d.fields))
  {
    buffer.Append(5, BigEndian(|d.artifacts|, 8));
    buffer.AppendAll(6, artifacts);
    buffer.Append(7, BigEndian(|d.fields|, 8));
    buffer.AppendAll(8, pairs);
    Chain4(old(buffer.key), Field(5, BigEndian(|d.artifacts|, 8)), Fields(6, artifacts),
      Field(7, BigEndian(|d.fields|, 8)), Fields(8, pairs));
  }

  // --------------------------------------------------------------- injectivity

  // A number counted by a field fits, because every counted item takes room.
  lemma CountField(tag: nat, m: nat, s: Bytes, n: nat, t: Bytes, all: Bytes)
    requires tag < 256 && m < U64_LIMIT && n < U64_LIMIT
    requires all == Field(tag, BigEndian(m, 8)) + s == Field(tag, BigEndian(n, 8)) + t
    ensures m == n && s == t
  {
    FieldNumber(tag, m, s, n, t);
  }

  lemma ChecksumKeyInjective(a: UpstreamChecksum, b: UpstreamChecksum)
    requires ChecksumKey(a) == ChecksumKey(b) && |ChecksumKey(a)| < U64_LIMIT
    ensures a == b
  {
    match (a, b)
    case (Other(x, v), Other(y, w)) =>
      FieldPrefix(3, x, Field(4, v), 3, y, Field(4, w));
      FieldAlone(4, v, 4, w);
    case (Other(x, v), Md5(w)) => FieldEnd(1, w); FieldPrefix(3, x, Field(4, v), 1, w, "");
    case (Other(x, v), Sha256(w)) => FieldEnd(2, w); FieldPrefix(3, x, Field(4, v), 2, w, "");
    case (Md5(w), Other(x, v)) => FieldEnd(1, w); FieldPrefix(1, w, "", 3, x, Field(4, v));
    case (Sha256(w), Other(x, v)) => FieldEnd(2, w); FieldPrefix(2, w, "", 3, x, Field(4, v));
    case (Md5(v), Md5(w)) => FieldAlone(1, v, 1, w);
    case (Md5(v), Sha256(w)) => FieldAlone(1, v, 2, w);
    case (Sha256(v), Md5(w)) => FieldAlone(2, v, 1, w);
    case (Sha256(v), Sha256(w)) => FieldAlone(2, v, 2, w);
  }

  lemma FieldEnd(tag: nat, value: Bytes)
    ensures Field(tag, value) + "" == Field(tag, value)
  {
  }

  lemma FieldAlone(tag: nat, v: Bytes, other: nat, w: Bytes)
    requires tag < 256 && other < 256 && |v| < U64_LIMIT && |w| < U64_LIMIT
    requires Field(tag, v) == Field(other, w)
    ensures tag == other && v == w
  {
    FieldEnd(tag, v);
    FieldEnd(other, w);
    FieldPrefix(tag, v, "", other, w, "");
  }

  lemma ChecksumKeysInjective(a: seq<UpstreamChecksum>, b: seq<UpstreamChecksum>)
    requires ChecksumKeys(a) == ChecksumKeys(b)
    requires forall k | k in ChecksumKeys(a) :: |k| < U64_LIMIT
    ensures a == b
  {
    assert |a| == |ChecksumKeys(a)| == |b|;
    forall i | 0 <= i < |a|
      ensures a[i] == b[i]
    {
      assert ChecksumKeys(a)[i] == ChecksumKeys(b)[i] && ChecksumKeys(a)[i] in ChecksumKeys(a);
      ChecksumKeyInjective(a[i], b[i]);
    }
  }

  lemma SizeKeyInjective(a: Option<u64>, b: Option<u64>)
    requires SizeKey(a) == SizeKey(b)
    ensures a == b
  {
    FieldEnd(4, [Byte(0)]);
    var restA := if a.Some? then Field(5, BigEndian(a.value, 8)) else "";
    var restB := if b.Some? then Field(5, BigEndian(b.value, 8)) else "";
    FieldPrefix(4, [Byte(if a.Some? then 1 else 0)], restA, 4, [Byte(if b.Some? then 1 else 0)], restB);
    assert [Byte(if a.Some? then 1 else 0)][0] == [Byte(if b.Some? then 1 else 0)][0];
    if a.Some? {
      FieldEnd(5, BigEndian(a.value, 8));
      FieldEnd(5, BigEndian(b.value, 8));
      FieldNumber(5, a.value, "", b.value, "");
    }
  }

  lemma ArtifactKeyInjective(a: SourceArtifact, b: SourceArtifact)
    requires ArtifactKey(a) == ArtifactKey(b) && |ArtifactKey(a)| < U64_LIMIT
    ensures a == b
  {
    var ka, kb := Fields(3, ChecksumKeys(a.checksums)), Fields(3, ChecksumKeys(b.checksums));
    var ca, cb := Field(2, BigEndian(|a.checksums|, 8)) + (ka + SizeKey(a.size)),
      Field(2, BigEndian(|b.checksums|, 8)) + (kb + SizeKey(b.size));
    FieldsLength(3, ChecksumKeys(a.checksums));
    FieldsLength(3, ChecksumKeys(b.checksums));
    FieldPrefix(0, "Source", Field(1, a.locator) + ca, 0, "Source", Field(1, b.locator) + cb);
    FieldPrefix(1, a.locator, ca, 1, b.locator, cb);
    CountField(2, |a.checksums|, ka + SizeKey(a.size), |b.checksums|, kb + SizeKey(b.size), ca);
    FieldsPrefix(3, ChecksumKeys(a.checksums), SizeKey(a.size), ChecksumKeys(b.checksums), SizeKey(b.size));
    ChecksumKeysInjective(a.checksums, b.checksums);
    SizeKeyInjective(a.size, b.size);
  }

  lemma ArtifactKeysInjective(a: seq<SourceArtifact>, b: seq<SourceArtifact>)
    requires ArtifactKeys(a) == ArtifactKeys(b)
    requires forall k | k in ArtifactKeys(a) :: |k| < U64_LIMIT
    ensures a == b
  {
    assert |a| == |ArtifactKeys(a)| == |b|;
    forall i | 0 <= i < |a|
      ensures a[i] == b[i]
    {
      assert ArtifactKeys(a)[i] == ArtifactKeys(b)[i] && ArtifactKeys(a)[i] in ArtifactKeys(a);
      ArtifactKeyInjective(a[i], b[i]);
    }
  }

  lemma PairKeysInjective(a: seq<(string, string)>, b: seq<(string, string)>)
    requires PairKeys(a) == PairKeys(b)
    requires forall k | k in PairKeys(a) :: |k| < U64_LIMIT
    ensures a == b
  {
    assert |a| == |PairKeys(a)| == |b|;
    forall i | 0 <= i < |a|
      ensures a[i] == b[i]
    {
      assert PairKeys(a)[i] == PairKeys(b)[i] && PairKeys(a)[i] in PairKeys(a);
      FieldPrefix(1, a[i].0, Field(2, a[i].1), 1, b[i].0, Field(2, b[i].1));
      FieldAlone(2, a[i].1, 2, b[i].1);
    }
  }

  lemma MetadataPartInjective(a: seq<(string, string)>, b: seq<(string, string)>)
    requires MetadataPart(a) == MetadataPart(b) && |MetadataPart(a)| < U64_LIMIT
    ensures a == b
  {
    var ka, kb := Fields(8, PairKeys(a)), Fields(8, PairKeys(b));
    FieldsLength(8, PairKeys(a));
    FieldsLength(8, PairKeys(b));
    CountField(7, |a|, ka, |b|, kb, MetadataPart(a));
    assert ka + "" == ka && kb + "" == kb;
    FieldsPrefix(8, PairKeys(a), "", PairKeys(b), "");
    PairKeysInjective(a, b);
  }

  lemma ArtifactsPartInjective(a: seq<SourceArtifact>, s: Bytes, b: seq<SourceArtifact>, t: Bytes)
    requires ArtifactsPart(a, s) == ArtifactsPart(b, t) && |ArtifactsPart(a, s)| < U64_LIMIT
    ensures a == b && s == t
  {
    var ka, kb := Fields(6, ArtifactKeys(a)), Fields(6, ArtifactKeys(b));
    FieldsLength(6, ArtifactKeys(a));
    FieldsLength(6, ArtifactKeys(b));
    CountField(5, |a|, ka + s, |b|, kb + t, ArtifactsPart(a, s));
    FieldsPrefix(6, ArtifactKeys(a), s, ArtifactKeys(b), t);
    ArtifactKeysInjective(a, b);
  }

  lemma SnapshotKeyPrefix(a: Option<string>, s: Bytes, b: Option<string>, t: Bytes)
    requires SnapshotKey(a) + s == SnapshotKey(b) + t && |SnapshotKey(a) + s| < U64_LIMIT
    ensures a == b && s == t
  {
    if a.Some? {
      ConcatAssociates(Field(3, [Byte(1)]), Field(4, a.value), s);
    }
    if b.Some? {
      ConcatAssociates(Field(3, [Byte(1)]), Field(4, b.value), t);
    }
    var restA := if a.Some? then Field(4, a.value) + s else s;
    var restB := if b.Some? then Field(4, b.value) + t else t;
    FieldPrefix(3, [Byte(if a.Some? then 1 else 0)], restA, 3, [Byte(if b.Some? then 1 else 0)], restB);
    assert [Byte(if a.Some? then 1 else 0)][0] == [Byte(if b.Some? then 1 else 0)][0];
    if a.Some? {
      FieldPrefix(4, a.value, s, 4, b.value, t);
    }
  }

  // Distinct distributions have distinct keys.
  lemma DistributionKeyInjective(a: Distribution, b: Distribution)
    requires |DistributionKey(a)| < U64_LIMIT && |DistributionKey(b)| < U64_LIMIT
    ensures DistributionKey(a) == DistributionKey(b) <==> a == b
  {
    if DistributionKey(a) == DistributionKey(b) {
      var pa, pb := ArtifactsPart(a.artifacts, MetadataPart(a.fields)),
        ArtifactsPart(b.artifacts, MetadataPart(b.fields));
      FieldPrefix(1, a.registry, Field(2, a.channel) + (SnapshotKey(a.snapshot) + pa), 1, b.registry,
        Field(2, b.channel) + (SnapshotKey(b.snapshot) + pb));
      FieldPrefix(2, a.channel, SnapshotKey(a.snapshot) + pa, 2, b.channel, SnapshotKey(b.snapshot) + pb);
      SnapshotKeyPrefix(a.snapshot, pa, b.snapshot, pb);
      ArtifactsPartInjective(a.artifacts, MetadataPart(a.fields), b.artifacts, MetadataPart(b.fields));
      MetadataPartInjective(a.fields, b.fields);
    }
  }

  // ------------------------------------------------------------ canonical lists

  function CompareKeys(a: Distribution, b: Distribution): Order {
    CompareText(DistributionKey(a), DistributionKey(b))
  }

  predicate SameKey(a: Distribution, b: Distribution) {
    DistributionKey(a) == DistributionKey(b)
  }

  // `canonicalize_distributions`.
  function Canonicalize(ds: seq<Distribution>): seq<Distribution> {
    DedupBy(SortBy(ds, CompareKeys), SameKey)
  }

  ghost predicate CanonicalList(ds: seq<Distribution>) {
    StrictlySorted(ds, CompareKeys)
  }

  lemma KeysOrder()
    ensures Ordering(CompareKeys)
    ensures forall a, b :: SameKey(a, b) <==> CompareKeys(a, b) == Equal
  {
    OrderingByText((d: Distribution) => DistributionKey(d), CompareKeys);
    forall a: Distribution, b: Distribution
      ensures SameKey(a, b) <==> CompareKeys(a, b) == Equal
    {
      CompareTextFlip(DistributionKey(a), DistributionKey(b));
    }
  }

  lemma CanonicalizeKeeps(ds: seq<Distribution>)
    ensures CanonicalList(Canonicalize(ds))
    ensures forall d | d in Canonicalize(ds) :: d in ds
    ensures forall d {:trigger RepresentedBy(Canonicalize(ds), d, SameKey)} :: d in ds ==>
      RepresentedBy(Canonicalize(ds), d, SameKey)
  {
    KeysOrder();
    SortSorted(ds, CompareKeys);
    SortElements(ds, CompareKeys);
    DedupRepresents(ds, SortBy(ds, CompareKeys), Canonicalize(ds), CompareKeys, SameKey);
  }

  lemma TiedIsSame(a: Distribution, b: Distribution)
    requires |DistributionKey(a)| < U64_LIMIT && |DistributionKey(b)| < U64_LIMIT
    requires SameKey(a, b)
    ensures a == b
  {
    CompareTextFlip(DistributionKey(a), DistributionKey(b));
    DistributionKeyInjective(a, b);
  }

  // Canonicalizing forgets order and repetition, and nothing else.
  lemma CanonicalizeFacts(ds: seq<Distribution>)
    requires AllSized(ds)
    ensures CanonicalList(Canonicalize(ds))
    ensures forall d :: d in Canonicalize(ds) <==> d in ds
  {
    CanonicalizeKeeps(ds);
    KeepsExactly(ds, Canonicalize(ds));
  }

  lemma KeepsExactly(ds: seq<Distribution>, kept: seq<Distribution>)
    requires AllSized(ds) && forall d | d in kept :: d in ds
    requires forall d {:trigger RepresentedBy(kept, d, SameKey)} :: d in ds ==> RepresentedBy(kept, d, SameKey)
    ensures forall d :: d in kept <==> d in ds
  {
    SizedWithin(kept, ds);
    KeepsAll(ds, kept);
  }

  lemma SizedWithin(kept: seq<Distribution>, ds: seq<Distribution>)
    requires AllSized(ds) && forall d | d in kept :: d in ds
    ensures AllSized(kept)
  {
  }

  lemma KeepsAll(ds: seq<Distribution>, kept: seq<Distribution>)
    requires AllSized(ds) && AllSized(kept)
    requires forall d {:trigger RepresentedBy(kept, d, SameKey)} :: d in ds ==> RepresentedBy(kept, d, SameKey)
    ensures forall d | d in ds :: d in kept
  {
    forall d | d in ds
      ensures d in kept
    {
      assert RepresentedBy(kept, d, SameKey);
      var e :| e in kept && SameKey(e, d);
      TiedIsSame(e, d);
    }
  }

  // Canonical lists are equal exactly when they list the same distributions.
  lemma CanonicalListDecided(a: seq<Distribution>, b: seq<Distribution>)
    requires CanonicalList(a) && CanonicalList(b)
    ensures a == b <==> forall d :: d in a <==> d in b
  {
    KeysOrder();
    if forall d :: d in a <==> d in b {
      StrictlySortedUnique(a, b, CompareKeys);
    }
  }
}
