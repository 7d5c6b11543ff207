/**
 The content-addressed artifact cache. Every file operation may fail; a crash is a run
 in which every later operation fails. Digests are collision-free functions, and a lock
 serialises the operations on one store.
 */
module Cache {
  import opened Prelude
  import opened Text
  import opened Versions
  import opened Encoding
  import opened Distributions
  import opened Descriptors

  // Digests as lower-case hexadecimal texts, and what the archive reader accepts.
  datatype Outside = Outside(
    sha256: Bytes -> string,
    md5: Bytes -> string,
    validArchive: (Bytes, Option<Expectation>) -> bool) {
    ghost predicate CollisionFree() {
      forall a, b :: sha256(a) == sha256(b) ==> a == b
    }
  }

  datatype CacheError =
    | IoError
    | BadChecksums(error: ChecksumError)
    | SizeMismatch(expected: nat, actual: nat)
    | InputTooLarge(limit: nat)
    | ChecksumMismatch
    | InvalidArchive
    | InvalidMetadata
    | CorruptObject
    | ReplacementRecovery

  const U64_MAX: nat := 0xFFFF_FFFF_FFFF_FFFF
  const MAX_COMPRESSED_INPUT_BYTES: u64 := 0x4000_0000

  function SaturatingAdd(a: nat, b: nat): nat {
    if a + b > U64_MAX then U64_MAX else a + b
  }

  function Min(a: nat, b: nat): nat {
    if a < b then a else b
  }

  // ------------------------------------------------------------- reading a stream

  // A reader that may return fewer bytes than asked for, and may fail once it has
  // delivered a certain number of bytes.
  class Stream {
    const content: Bytes
    const breaksAt: Option<nat>
    var position: nat
    var chunks: seq<nat>

    ghost predicate Valid()
      reads this
    {
      position <= |content| && (breaksAt.Some? ==> position <= breaksAt.value)
    }

    predicate Broken()
      reads this
    {
      breaksAt == Some(position)
    }

    constructor (content: Bytes, chunks: seq<nat>, breaksAt: Option<nat>)
      ensures Valid() && this.content == content && position == 0 && this.breaksAt == breaksAt
    {
      this.content, this.breaksAt := content, breaksAt;
      this.position, this.chunks := 0, chunks;
    }

    method Read(capacity: nat) returns (read: Option<Bytes>)
      requires Valid() && capacity > 0
      modifies this`position, this`chunks
      ensures Valid() && position >= old(position)
      ensures read.None? <==> old(Broken())
      ensures read.None? ==> position == old(position)
      ensures read.Some? ==> |read.value| <= capacity && position == old(position) + |read.value|
      ensures read.Some? ==>
        read.value == content[old(position)..position] && (read.value == "" <==> old(position) == |content|)
    {
      if Broken() {
        return None;
      }
      var wanted := if chunks == [] || chunks[0] == 0 then capacity else chunks[0];
      chunks := if chunks == [] then [] else chunks[1..];
      var n := Min(wanted, Min(capacity, |content| - position));
      if breaksAt.Some? {
        n := Min(n, breaksAt.value - position);
      }
      read := Some(content[position..position + n]);
      position := position + n;
    }
  }

  function Expected(content: Bytes, expected: Option<u64>, hardLimit: u64): Option<CacheError> {
    match expected
    case Some(size) => if |content| == size then None
      else Some(SizeMismatch(size, Min(|content|, SaturatingAdd(size, 1))))
    case None => if |content| <= hardLimit then None else Some(InputTooLarge(hardLimit))
  }

  // What copying gives: a read error that comes before the limit is passed, a size that
  // is not allowed, or the size.
  function CopyOutcome(content: Bytes, breaksAt: Option<nat>, expected: Option<u64>, hardLimit: u64)
    : Result<nat, CacheError> {
    var limit := if expected.Some? then expected.value else hardLimit;
    if breaksAt.Some? && breaksAt.value <= |content| && breaksAt.value <= limit then Err(IoError)
    else match Expected(content, expected, hardLimit)
      case Some(error) => Err(error)
      case None => Ok(|content|)
  }

  lemma SliceAfter<T>(s: seq<T>, i: nat, j: nat)
    requires i <= j <= |s|
    ensures s[..i] + s[i..j] == s[..j]
  {
  }

  // `copy_compressed_input`: copies the stream, never more than one byte past the
  // limit, and succeeds exactly when the stream can be read and has an allowed size.
  method CopyCompressedInput(stream: Stream, expected: Option<u64>, hardLimit: u64)
    returns (r: Result<nat, CacheError>, output: Bytes)
    requires stream.Valid() && stream.position == 0
    modifies stream
    ensures stream.Valid()
    ensures stream.position <= (if expected.Some? then expected.value else hardLimit) + 1
    ensures r == CopyOutcome(stream.content, stream.breaksAt, expected, hardLimit)
    ensures r.Ok? ==> output == stream.content
    ensures output == stream.content[..stream.position]
  {
    var limit := if expected.Some? then expected.value else hardLimit;
    var size: nat := 0;
    output := "";
    while true
      invariant stream.Valid()
      invariant size == stream.position == |output| <= limit
      invariant output == stream.content[..stream.position]
      decreases |stream.content| - stream.position
    {
      var atLimit := size >= limit;
      var capacity := if atLimit then 1 else Min(limit - size, 64 * 1024);
      ghost var before := stream.position;
      var read := stream.Read(capacity);
      if read.None? {
        return Err(IoError), output;
      }
      if read.value == "" {
        if expected.Some? && size != expected.value {
          return Err(SizeMismatch(expected.value, size)), output;
        }
        break;
      }
      SliceAfter(stream.content, before, stream.position);
      output := output + read.value;
      size := SaturatingAdd(size, |read.value|);
      if atLimit {
        if expected.Some? {
          return Err(SizeMismatch(expected.value, size)), output;
        }
        return Err(InputTooLarge(hardLimit)), output;
      }
    }
    return Ok(size), output;
  }

  // ------------------------------------------------------------------- the store

  datatype Metadata = Metadata(key: string, digest: string, size: nat, checksums: Checksums)

  datatype CachedArtifact = CachedArtifact(digest: string, size: nat, checksums: Checksums)

  // `cached_artifact`.
  function Artifact(m: Metadata): CachedArtifact {
    CachedArtifact(m.digest, m.size, m.checksums)
  }

  // A finished commit: what was asked for and which bytes were stored.
  datatype Commitment = Commitment(descriptor: Descriptor, expectation: Option<Expectation>, bytes: Bytes)

  function KeyOf(o: Outside, d: Descriptor, expectation: Option<Expectation>): string {
    o.sha256(Preimage(d, expectation))
  }

  predicate MatchesChecksums(o: Outside, bytes: Bytes, c: Checksums) {
    && (c.sha256.Some? ==> o.sha256(bytes) == c.sha256.value)
    && (c.md5.Some? ==> o.md5(bytes) == c.md5.value)
  }

  // The entry names these bytes.
  predicate Names(o: Outside, m: Metadata, bytes: Bytes) {
    o.sha256(bytes) == m.digest && |bytes| == m.size && MatchesChecksums(o, bytes, m.checksums)
  }

  // `validate_object`.
  predicate GoodObject(o: Outside, bytes: Bytes, sha: string, size: nat) {
    |bytes| == size && o.sha256(bytes) == sha
  }

  // `validate_object_full`.
  function CheckObject(o: Outside, bytes: Bytes, sha: string, c: Checksums, size: nat): Option<CacheError> {
    if |bytes| != size then Some(SizeMismatch(size, |bytes|))
    else if o.sha256(bytes) != sha then Some(CorruptObject)
    else if !MatchesChecksums(o, bytes, c) then Some(ChecksumMismatch)
    else None
  }

  // Why received bytes are refused before anything is published.
  function RefuseBytes(o: Outside, bytes: Bytes, d: Descriptor, expectation: Option<Expectation>): Option<CacheError> {
    if d.size.Some? && d.size.value != |bytes| then Some(SizeMismatch(d.size.value, |bytes|))
    else if !MatchesChecksums(o, bytes, d.checksums) then Some(ChecksumMismatch)
    else if !o.validArchive(bytes, expectation) then Some(InvalidArchive)
    else None
  }

  // The entry answers a request for the descriptor, and its object is intact.
  predicate Usable(o: Outside, objects: map<string, Bytes>, key: string, m: Metadata, d: Descriptor) {
    && m.key == key && m.checksums == d.checksums && (d.size.Some? ==> m.size == d.size.value)
    && m.digest in objects && CheckObject(o, objects[m.digest], m.digest, d.checksums, m.size).None?
  }

  // What receiving a stream gives when no file operation fails.
  function ReceiveOutcome(o: Outside, content: Bytes, breaksAt: Option<nat>, d: Descriptor,
    expectation: Option<Expectation>): Result<Bytes, CacheError> {
    match CopyOutcome(content, breaksAt, d.size, MAX_COMPRESSED_INPUT_BYTES)
    case Err(error) => Err(error)
    case Ok(_) =>
      match RefuseBytes(o, content, d, expectation)
      case Some(error) => Err(error)
      case None => Ok(content)
  }

  function DescriptorOf(artifact: SourceArtifact, checksums: Checksums): Descriptor {
    Descriptor(artifact.locator, checksums, artifact.size)
  }

  // What a commit answers when no file operation fails.
  function CommitOutcome(o: Outside, metadata: map<string, Metadata>, artifact: SourceArtifact,
    expectation: Option<Expectation>, content: Bytes, breaksAt: Option<nat>): Result<CachedArtifact, CacheError> {
    match DeclaredAll(NO_CHECKSUMS, artifact.checksums)
    case Err(error) => Err(BadChecksums(error))
    case Ok(checksums) =>
      var d := DescriptorOf(artifact, checksums);
      var key := KeyOf(o, d, expectation);
      if key in metadata then Ok(Artifact(metadata[key]))
      else match ReceiveOutcome(o, content, breaksAt, d, expectation)
        case Err(error) => Err(error)
        case Ok(bytes) => Ok(CachedArtifact(o.sha256(bytes), |bytes|, checksums))
  }

  // What a probe answers when no file operation fails.
  function ProbeOutcome(o: Outside, metadata: map<string, Metadata>, artifact: SourceArtifact,
    expectation: Expectation): Result<Option<CachedArtifact>, CacheError> {
    match DeclaredAll(NO_CHECKSUMS, artifact.checksums)
    case Err(error) => Err(BadChecksums(error))
    case Ok(checksums) =>
      var key := KeyOf(o, DescriptorOf(artifact, checksums), Some(expectation));
      Ok(if key in metadata then Some(Artifact(metadata[key])) else None)
  }

  // A request whose texts are of their types and whose key bytes fit in memory.
  ghost predicate TypedRequest(d: Descriptor, expectation: Option<Expectation>) {
    TypedDescriptor(d) && TypedExpectation(expectation) && |Preimage(d, expectation)| < U64_LIMIT
  }

  // A commitment that the entry under its key stands for.
  ghost predicate Backs(o: Outside, c: Commitment, key: string, m: Metadata, bytes: Bytes) {
    && TypedRequest(c.descriptor, c.expectation)
    && KeyOf(o, c.descriptor, c.expectation) == key && c.bytes == bytes
    && m.checksums == c.descriptor.checksums && (c.descriptor.size.Some? ==> c.descriptor.size.value == |bytes|)
    && o.validArchive(bytes, c.expectation)
  }

  // Every object holds the bytes of its digest.
  ghost predicate Addressed(o: Outside, objects: map<string, Bytes>) {
    forall sha | sha in objects :: o.sha256(objects[sha]) == sha
  }

  // The entry names an object with the recorded digest, size and checksums, and was
  // committed for its key.
  ghost predicate Entered(o: Outside, key: string, m: Metadata, objects: map<string, Bytes>, history: set<Commitment>) {
    && m.key == key && m.digest in objects && Names(o, m, objects[m.digest])
    && exists c :: c in history && Backs(o, c, key, m, objects[m.digest])
  }

  ghost predicate Consistent(o: Outside, metadata: map<string, Metadata>, objects: map<string, Bytes>,
    history: set<Commitment>) {
    Addressed(o, objects) && forall key | key in metadata :: Entered(o, key, metadata[key], objects, history)
  }

  ghost predicate Extends<K, V>(before: map<K, V>, after: map<K, V>) {
    forall k | k in before :: k in after && after[k] == before[k]
  }

  // Entries stay good while objects and history only grow.
  lemma EnteredStays(o: Outside, key: string, m: Metadata, objects: map<string, Bytes>, history: set<Commitment>,
      more: map<string, Bytes>, later: set<Commitment>)
    requires Entered(o, key, m, objects, history) && Extends(objects, more) && history <= later
    ensures Entered(o, key, m, more, later)
  {
    var c :| c in history && Backs(o, c, key, m, objects[m.digest]);
    assert c in later && Backs(o, c, key, m, more[m.digest]);
  }

  lemma ConsistentStays(o: Outside, metadata: map<string, Metadata>, objects: map<string, Bytes>,
    history: set<Commitment>, more: map<string, Bytes>, later: set<Commitment>)
    requires Consistent(o, metadata, objects, history) && Addressed(o, more) && Extends(objects, more) &&
      history <= later
    ensures Consistent(o, metadata, more, later)
  {
    forall key | key in metadata
      ensures Entered(o, key, metadata[key], more, later)
    {
      EnteredStays(o, key, metadata[key], objects, history, more, later);
    }
  }

  // What publishing may do to the objects: nothing to other digests, nothing to a good
  // object, and otherwise only put the expected bytes in place or leave the old ones.
  ghost predicate PublishedOnly(o: Outside, before: map<string, Bytes>, after: map<string, Bytes>, sha: string,
    bytes: Bytes) {
    && (forall s | s != sha :: (s in after <==> s in before) && (s in after ==> after[s] == before[s]))
    && (sha in before && GoodObject(o, before[sha], sha, |bytes|) ==> after == before)
    && (sha in after ==> after[sha] == bytes || (sha in before && after[sha] == before[sha]))
  }

  // A new entry for published bytes that passed every check.
  lemma EntryIsGood(o: Outside, m: Metadata, bytes: Bytes, c: Commitment, objects: map<string, Bytes>,
    history: set<Commitment>)
    requires o.CollisionFree() && TypedRequest(c.descriptor, c.expectation) && c in history && c.bytes == bytes
    requires RefuseBytes(o, bytes, c.descriptor, c.expectation).None?
    requires m == Metadata(KeyOf(o, c.descriptor, c.expectation), o.sha256(bytes), |bytes|, c.descriptor.checksums)
    requires m.digest in objects && o.sha256(objects[m.digest]) == m.digest
    ensures Entered(o, m.key, m, objects, history)
  {
    assert objects[m.digest] == bytes;
    assert Backs(o, c, m.key, m, objects[m.digest]);
  }

  // An entry under the key of a request was committed for an equal descriptor and an
  // expectation equal up to version spelling.
  lemma EntryAnswersRequest(o: Outside, d: Descriptor, expectation: Option<Expectation>, m: Metadata,
      objects: map<string, Bytes>, history: set<Commitment>) returns (c: Commitment)
    requires o.CollisionFree() && TypedRequest(d, expectation)
    requires Entered(o, KeyOf(o, d, expectation), m, objects, history)
    ensures c in history && c.descriptor == d && SameExpectation(c.expectation, expectation)
    ensures c.bytes == objects[m.digest] && o.validArchive(c.bytes, c.expectation) &&
      MatchesChecksums(o, c.bytes, d.checksums)
  {
    var key := KeyOf(o, d, expectation);
    c :| c in history && Backs(o, c, key, m, objects[m.digest]);
    assert Preimage(c.descriptor, c.expectation) == Preimage(d, expectation);
    PreimageDecides(c.descriptor, c.expectation, d, expectation);
  }

  // The entry under the key of a request can be used for that request.
  lemma EntryIsUsable(o: Outside, d: Descriptor, expectation: Option<Expectation>, m: Metadata,
      objects: map<string, Bytes>, history: set<Commitment>)
    requires o.CollisionFree() && TypedRequest(d, expectation)
    requires Entered(o, KeyOf(o, d, expectation), m, objects, history)
    ensures Usable(o, objects, KeyOf(o, d, expectation), m, d)
  {
    var key := KeyOf(o, d, expectation);
    var c :| c in history && Backs(o, c, key, m, objects[m.digest]);
    assert Preimage(c.descriptor, c.expectation) == Preimage(d, expectation);
    PreimageDecides(c.descriptor, c.expectation, d, expectation);
  }

  lemma PutBack<K, V>(m: map<K, V>, k: K, v: V)
    ensures (m - {k})[k := v] == m[k := v]
    ensures k in m && v == m[k] ==> m[k := v] == m
    ensures k !in m ==> m[k := v] - {k} == m
  {
  }

  class Store {
    const outside: Outside
    var metadata: map<string, Metadata>
    var objects: map<string, Bytes>
    var quarantine: map<nat, (string, Bytes)>
    var partials: map<nat, Bytes>
    var temporaries: map<nat, Metadata>
    var nonce: nat
    // Which of the coming operations fail.
    var faults: seq<bool>
    ghost var history: set<Commitment>

    // Nonces in use were given out.
    ghost predicate Fresh()
      reads this
    {
      && (forall n | n in quarantine :: n < nonce) && (forall n | n in partials :: n < nonce)
      && (forall n | n in temporaries :: n < nonce)
    }

    ghost predicate Valid()
      reads this
    {
      outside.CollisionFree() && Fresh() && Consistent(outside, metadata, objects, history)
    }

    // The bytes that were at the object path are kept under a quarantine name.
    ghost predicate Quarantined(n: nat, sha: string, bytes: Bytes)
      reads this
    {
      n in quarantine && quarantine[n] == (sha, bytes)
    }

    constructor (outside: Outside, faults: seq<bool>)
      requires outside.CollisionFree()
      ensures Valid() && this.outside == outside && this.faults == faults
      ensures metadata == map[] && objects == map[] && history == {}
    {
      this.outside, this.faults := outside, faults;
      metadata, objects, quarantine, partials, temporaries := map[], map[], map[], map[], map[];
      nonce, history := 0, {};
    }

    // Whether the next file operation succeeds.
    method Attempt() returns (ok: bool)
      modifies this`faults
      ensures old(faults) == [] ==> ok && faults == []
      ensures old(faults) != [] ==> ok == !old(faults[0]) && faults == old(faults[1..])
    {
      if faults == [] {
        return true;
      }
      ok := !faults[0];
      faults := faults[1..];
    }

    method UniqueNonce() returns (n: nat)
      modifies this`nonce
      ensures n == old(nonce) && nonce == n + 1
    {
      n := nonce;
      nonce := nonce + 1;
    }

    // `let _ = fs::remove_file(partial)`.
    method DropPartial(n: nat)
      modifies this`faults, this`partials
      ensures old(faults) == [] ==> faults == [] && partials == old(partials) - {n}
      ensures partials == old(partials) || partials == old(partials) - {n}
      ensures old(Fresh()) ==> Fresh()
    {
      var ok := Attempt();
      if ok {
        partials := partials - {n};
      }
    }

    // Replaces corrupt bytes at the object path, keeping them under a quarantine name
    // until the new bytes are in place.
    method ReplaceObject(partial: nat, sha: string) returns (fault: Option<CacheError>)
      requires Fresh() && partial in partials && sha in objects
      modifies this`faults, this`partials, this`objects, this`quarantine, this`nonce
      ensures Fresh() && nonce >= old(nonce) && partials.Keys <= old(partials.Keys)
      ensures forall n | n in old(quarantine) :: n in quarantine && quarantine[n] == old(quarantine[n])
      ensures old(faults) == [] ==> faults == [] && fault.None?
      ensures fault.None? ==> objects == old(objects)[sha := old(partials[partial])]
      ensures fault.None? ==> partial !in partials && quarantine == old(quarantine)
      ensures fault == Some(ReplacementRecovery) <==> sha !in objects
      ensures objects == old(objects) || objects == old(objects)[sha := old(partials[partial])]
           || objects == old(objects) - {sha}
      ensures sha !in objects ==> exists n :: Quarantined(n, sha, old(objects[sha])) && n !in old(quarantine)
    {
      var corrupt := UniqueNonce();
      ghost var was := objects[sha];
      var moved := Attempt();
      if !moved {
        DropPartial(partial);
        return Some(IoError);
      }
      PutBack(quarantine, corrupt, (sha, was));
      PutBack(objects, sha, was);
      PutBack(objects, sha, partials[partial]);
      quarantine := quarantine[corrupt := (sha, objects[sha])];
      objects := objects - {sha};
      assert Quarantined(corrupt, sha, was);
      var replaced := Attempt();
      if !replaced {
        DropPartial(partial);
        var restored := Attempt();
        if !restored {
          return Some(ReplacementRecovery);
        }
        objects := objects[sha := quarantine[corrupt].1];
        quarantine := quarantine - {corrupt};
        return Some(IoError);
      }
      objects := objects[sha := partials[partial]];
      partials := partials - {partial};
      var cleaned := Attempt();
      if !cleaned {
        return Some(IoError);
      }
      quarantine := quarantine - {corrupt};
      return None;
    }

    // `publish_object_with_fs`, for any bytes already at the object path. The partial
    // holds the expected bytes.
    method PublishObject(partial: nat, sha: string, size: nat) returns (fault: Option<CacheError>)
      requires Fresh() && partial in partials && GoodObject(outside, partials[partial], sha, size)
      modifies this`faults, this`partials, this`objects, this`quarantine, this`nonce
      ensures Fresh() && nonce >= old(nonce) && partials.Keys <= old(partials.Keys)
      ensures forall n | n in old(quarantine) :: n in quarantine && quarantine[n] == old(quarantine[n])
      ensures PublishedOnly(outside, old(objects), objects, sha, old(partials[partial]))
      ensures old(faults) == [] ==> faults == [] && fault.None?
      ensures fault.None? ==> sha in objects && GoodObject(outside, objects[sha], sha, size)
      ensures fault.None? ==> partial !in partials && quarantine == old(quarantine)
      ensures fault == Some(ReplacementRecovery) <==> old(sha in objects) && sha !in objects
      ensures old(sha in objects) && old(GoodObject(outside, objects[sha], sha, size)) ==> quarantine == old(quarantine)
      ensures old(sha in objects) ==> sha in objects || exists n ::
        Quarantined(n, sha, old(objects[sha])) && n !in old(quarantine)
    {
      var bytes := partials[partial];
      if sha in objects {
        if GoodObject(outside, objects[sha], sha, size) {
          var removed := Attempt();
          if !removed {
            return Some(IoError);
          }
          partials := partials - {partial};
          var readOnly := Attempt();
          return if readOnly then None else Some(IoError);
        }
        fault := ReplaceObject(partial, sha);
        if fault.Some? {
          return;
        }
      } else {
        var published := Attempt();
        if !published {
          DropPartial(partial);
          return Some(IoError);
        }
        objects := objects[sha := bytes];
        partials := partials - {partial};
      }
      var readOnly := Attempt();
      return if readOnly then None else Some(IoError);
    }

    // `commit_metadata`: a temporary, then a rename.
    method CommitMetadata(m: Metadata) returns (fault: Option<CacheError>)
      requires Fresh()
      modifies this`faults, this`metadata, this`temporaries, this`nonce
      ensures old(faults) == [] ==> faults == [] && fault.None?
      ensures Fresh() && nonce >= old(nonce)
      ensures metadata == old(metadata) || metadata == old(metadata)[m.key := m]
      ensures fault.None? ==> metadata == old(metadata)[m.key := m]
    {
      var temp := UniqueNonce();
      var created := Attempt();
      if !created {
        return Some(IoError);
      }
      temporaries := temporaries[temp := m];
      var written := Attempt();
      var renamed := Attempt();
      if !written || !renamed {
        var removed := Attempt();
        if removed {
          temporaries := temporaries - {temp};
        }
        return Some(IoError);
      }
      temporaries := temporaries - {temp};
      metadata := metadata[m.key := m];
      var synced := Attempt();
      return if synced then None else Some(IoError);
    }

    // `load_hit`.
    method LoadHit(key: string, d: Descriptor) returns (r: Result<Option<CachedArtifact>, CacheError>)
      modifies this`faults
      ensures r == Ok(None) <==> key !in metadata
      ensures r.Ok? && r.value.Some? ==>
        key in metadata && Usable(outside, objects, key, metadata[key], d) && r.value.value == Artifact(metadata[key])
      ensures old(faults) == [] ==> faults == []
      ensures old(faults) == [] && key in metadata ==> (r.Ok? <==> Usable(outside, objects, key, metadata[key], d))
    {
      if key !in metadata {
        return Ok(None);
      }
      var read := Attempt();
      if !read {
        return Err(IoError);
      }
      var m := metadata[key];
      if m.key != key || m.checksums != d.checksums {
        return Err(InvalidMetadata);
      }
      if d.size.Some? && m.size != d.size.value {
        return Err(InvalidMetadata);
      }
      var found := Attempt();
      if !found || m.digest !in objects {
        return Err(IoError);
      }
      var size := if d.size.Some? then d.size.value else m.size;
      var broken := CheckObject(outside, objects[m.digest], m.digest, d.checksums, size);
      if broken.Some? {
        return Err(broken.value);
      }
      var readOnly := Attempt();
      if !readOnly {
        return Err(IoError);
      }
      return Ok(Some(Artifact(m)));
    }

    // Receives the stream into a new partial.
    method Receive(d: Descriptor, expectation: Option<Expectation>, stream: Stream)
      returns (r: Result<Bytes, CacheError>, partial: nat)
      requires Fresh() && stream.Valid() && stream.position == 0
      modifies this`faults, this`partials, this`nonce, stream
      ensures Fresh() && nonce >= old(nonce) && partials.Keys <= old(partials.Keys) + {partial}
      ensures r.Ok? ==> partial in partials && partials[partial] == r.value && r.value == stream.content
      ensures r.Ok? ==> RefuseBytes(outside, r.value, d, expectation).None?
      ensures old(faults) == [] ==> faults == []
      ensures old(faults) == [] ==>
        r == ReceiveOutcome(outside, stream.content, stream.breaksAt, d, expectation)
    {
      partial := UniqueNonce();
      var created := Attempt();
      if !created {
        return Err(IoError), partial;
      }
      partials := partials[partial := ""];
      var size, output := CopyCompressedInput(stream, d.size, MAX_COMPRESSED_INPUT_BYTES);
      partials := partials[partial := output];
      if size.Err? {
        return Err(size.error), partial;
      }
      var synced := Attempt();
      if !synced {
        return Err(IoError), partial;
      }
      var refused := RefuseBytes(outside, output, d, expectation);
      if refused.Some? {
        return Err(refused.value), partial;
      }
      return Ok(output), partial;
    }

    // Moves the partial beside its object and publishes it.
    method PublishReceived(partial: nat, bytes: Bytes, sha: string) returns (fault: Option<CacheError>)
      requires Fresh() && partial in partials && partials[partial] == bytes && sha == outside.sha256(bytes)
      modifies this`faults, this`partials, this`objects, this`quarantine, this`nonce
      ensures Fresh() && nonce >= old(nonce)
      ensures objects == old(objects) || PublishedOnly(outside, old(objects), objects, sha, bytes)
      ensures old(faults) == [] ==> faults == [] && fault.None?
      ensures fault.None? ==> sha in objects
    {
      var prepared := Attempt();
      if !prepared {
        return Some(IoError);
      }
      var final := UniqueNonce();
      var moved := Attempt();
      if !moved {
        return Some(IoError);
      }
      partials := (partials - {partial})[final := bytes];
      var synced := Attempt();
      if !synced {
        DropPartial(final);
        return Some(IoError);
      }
      fault := PublishObject(final, sha, |bytes|);
      if fault.Some? {
        DropPartial(final);
        return;
      }
      synced := Attempt();
      return if synced then None else Some(IoError);
    }

    // Writes the entry for published bytes.
    method Enter(m: Metadata, ghost c: Commitment) returns (fault: Option<CacheError>)
      requires Valid() && m.key !in metadata && Entered(outside, m.key, m, objects, history + {c})
      modifies this`faults, this`metadata, this`temporaries, this`nonce, this`history
      ensures Valid() && history == old(history) + {c} && Extends(old(metadata), metadata)
      ensures metadata.Keys <= old(metadata.Keys) + {m.key}
      ensures old(faults) == [] ==> faults == [] && fault.None?
      ensures fault.None? ==> m.key in metadata && metadata[m.key] == m
    {
      ghost var entries, earlier := metadata, history;
      fault := CommitMetadata(m);
      history := history + {c};
      CommittedConsistently(outside, entries, metadata, objects, earlier, history, m);
    }

    // Publishing received bytes keeps the store valid.
    method PublishSoundly(partial: nat, bytes: Bytes, sha: string) returns (fault: Option<CacheError>)
      requires Valid() && partial in partials && partials[partial] == bytes && sha == outside.sha256(bytes)
      modifies this`faults, this`partials, this`objects, this`quarantine, this`nonce
      ensures Valid() && Extends(old(objects), objects)
      ensures old(faults) == [] ==> faults == [] && fault.None?
      ensures fault.None? ==> sha in objects && objects[sha] == bytes
    {
      ghost var before := objects;
      fault := PublishReceived(partial, bytes, sha);
      PublishedConsistently(outside, metadata, before, objects, history, sha, bytes);
      assert sha in objects ==> outside.sha256(objects[sha]) == sha;
    }

    // The first half of `commit_miss`: receives the bytes and publishes their object.
    method Fetch(d: Descriptor, expectation: Option<Expectation>, stream: Stream)
      returns (r: Result<Bytes, CacheError>, partial: nat)
      requires Valid() && stream.Valid() && stream.position == 0
      modifies this`faults, this`partials, this`objects, this`quarantine, this`nonce, stream
      ensures Valid() && Extends(old(objects), objects)
      ensures r.Ok? ==> r.value == stream.content && RefuseBytes(outside, r.value, d, expectation).None?
      ensures r.Ok? ==> outside.sha256(r.value) in objects && objects[outside.sha256(r.value)] == r.value
      ensures old(faults) == [] ==> faults == []
      ensures old(faults) == [] ==>
        r == ReceiveOutcome(outside, stream.content, stream.breaksAt, d, expectation)
    {
      r, partial := Receive(d, expectation, stream);
      if r.Ok? {
        var fault := PublishSoundly(partial, r.value, outside.sha256(r.value));
        if fault.Some? {
          r := Err(fault.value);
        }
      }
    }

    // `commit_miss`: an entry is written only after its object.
    method CommitMiss(key: string, d: Descriptor, expectation: Option<Expectation>, stream: Stream)
        returns (r: Result<CachedArtifact, CacheError>)
      requires Valid() && stream.Valid() && stream.position == 0
      requires TypedRequest(d, expectation) && key == KeyOf(outside, d, expectation) && key !in metadata
      modifies this, stream
      ensures Valid() && Extends(old(objects), objects) && Extends(old(metadata), metadata) && old(history) <= history
      ensures metadata.Keys <= old(metadata.Keys) + {key}
      ensures r.Ok? ==> key in metadata && r.value == Artifact(metadata[key])
      ensures r.Ok? ==> r.value.digest in objects && objects[r.value.digest] == stream.content
      ensures old(faults) == [] ==> faults == []
      ensures old(faults) == [] ==>
        match ReceiveOutcome(outside, stream.content, stream.breaksAt, d, expectation)
        case Err(error) => r == Err(error)
        case Ok(bytes) => r == Ok(CachedArtifact(outside.sha256(bytes), |bytes|, d.checksums))
      ensures old(faults) == [] && r.Err? ==> metadata == old(metadata)
    {
      hide TypedRequest, KeyOf, Artifact, ReceiveOutcome;
      var received, partial := Fetch(d, expectation, stream);
      if received.Ok? {
        r := EnterReceived(key, d, expectation, received.value, outside.sha256(received.value));
      } else {
        r := Err(received.error);
      }
      if r.Err? {
        DropPartial(partial);
      }
    }

    // Writes the entry that names received and published bytes.
    method EnterReceived(key: string, d: Descriptor, expectation: Option<Expectation>, bytes: Bytes, sha: string)
        returns (r: Result<CachedArtifact, CacheError>)
      requires Valid() && TypedRequest(d, expectation) && key == KeyOf(outside, d, expectation) && key !in metadata
      requires sha == outside.sha256(bytes) && sha in objects && objects[sha] == bytes
      requires RefuseBytes(outside, bytes, d, expectation).None?
      modifies this`faults, this`metadata, this`temporaries, this`nonce, this`history
      ensures Valid() && Extends(old(metadata), metadata) && old(history) <= history
      ensures metadata.Keys <= old(metadata.Keys) + {key}
      ensures r.Ok? ==> key in metadata && r.value == Artifact(metadata[key]) && r.value.digest == sha
      ensures old(faults) == [] ==> faults == [] && r == Ok(CachedArtifact(sha, |bytes|, d.checksums))
    {
      var m := Metadata(key, sha, |bytes|, d.checksums);
      ghost var c := Commitment(d, expectation, bytes);
      EntryIsGood(outside, m, bytes, c, objects, history + {c});
      var fault := Enter(m, c);
      if fault.Some? {
        return Err(fault.value);
      }
      return Ok(Artifact(m));
    }

    // `load_hit` in a valid store: an entry under the key of a request answers it.
    method LoadAnswer(key: string, d: Descriptor, expectation: Option<Expectation>)
        returns (r: Result<Option<CachedArtifact>, CacheError>)
      requires Valid() && TypedRequest(d, expectation) && key == KeyOf(outside, d, expectation)
      modifies this`faults
      ensures Valid()
      ensures r == Ok(None) <==> key !in metadata
      ensures r.Ok? && r.value.Some? ==>
        r.value.value == Artifact(metadata[key]) && r.value.value.digest in objects
        && exists c ::
          c in history && AnswersFor(outside, c, d, expectation) && c.bytes == objects[r.value.value.digest]
      ensures old(faults) == [] ==> faults == [] && r.Ok?
    {
      hide TypedRequest, KeyOf;
      r := LoadHit(key, d);
      if key in metadata {
        EntryIsUsable(outside, d, expectation, metadata[key], objects, history);
        ghost var c := EntryAnswersRequest(outside, d, expectation, metadata[key], objects, history);
        assert AnswersFor(outside, c, d, expectation);
      }
    }

    // The descriptor of a request and the key of its entry.
    method Describe(artifact: SourceArtifact, expectation: Option<Expectation>)
      returns (r: Result<(Descriptor, string), CacheError>)
      requires TypedArtifact(artifact, expectation)
      ensures match DeclaredAll(NO_CHECKSUMS, artifact.checksums)
        case Err(error) => r == Err(BadChecksums(error))
        case Ok(checksums) =>
          var d := DescriptorOf(artifact, checksums);
          r == Ok((d, KeyOf(outside, d, expectation))) && TypedRequest(d, expectation)
    {
      var checksums := ValidateChecksums(artifact.checksums);
      if checksums.Err? {
        return Err(BadChecksums(checksums.error));
      }
      var d := DescriptorOf(artifact, checksums.value);
      var bytes := KeyPreimage(d, expectation);
      TypedFromArtifact(artifact, d, expectation);
      return Ok((d, outside.sha256(bytes)));
    }

    // `commit_artifact_with_fs_and_expectation`.
    method Commit(artifact: SourceArtifact, expectation: Option<Expectation>, stream: Stream)
      returns (r: Result<CachedArtifact, CacheError>)
      requires Valid() && stream.Valid() && stream.position == 0 && TypedArtifact(artifact, expectation)
      modifies this, stream
      ensures Valid() && Extends(old(objects), objects) && Extends(old(metadata), metadata) && old(history) <= history
      ensures r.Ok? ==> Requested(artifact, outside, expectation, metadata, r.value) && r.value.digest in objects
      ensures old(faults) == [] ==> faults == []
      ensures old(faults) == [] ==>
        r == CommitOutcome(outside, old(metadata), artifact, expectation, stream.content, stream.breaksAt)
      ensures old(faults) == [] && r.Err? ==> metadata == old(metadata)
    {
      hide TypedArtifact;
      var described := Describe(artifact, expectation);
      if described.Err? {
        return Err(described.error);
      }
      var (d, key) := described.value;
      var locked := Attempt();
      if !locked {
        return Err(IoError);
      }
      var hit := LoadAnswer(key, d, expectation);
      if hit.Err? {
        return Err(hit.error);
      }
      if hit.value.Some? {
        return Ok(hit.value.value);
      }
      r := CommitMiss(key, d, expectation, stream);
    }

    // `probe_artifact`. A hit goes back to a commit of an equal descriptor whose archive
    // passed validation for an equal expectation, and it returns those very bytes.
    method Probe(artifact: SourceArtifact, expectation: Expectation)
      returns (r: Result<Option<CachedArtifact>, CacheError>)
      requires Valid() && TypedArtifact(artifact, Some(expectation))
      modifies this`faults
      ensures Valid()
      ensures r.Ok? && r.value.Some? ==> r.value.value.digest in objects
      ensures r.Ok? && r.value.Some? ==>
        exists c :: c in history && Answers(outside, c, artifact, expectation) &&
          c.bytes == objects[r.value.value.digest]
      ensures old(faults) == [] ==> faults == [] && r == ProbeOutcome(outside, metadata, artifact, expectation)
    {
      var described := Describe(artifact, Some(expectation));
      if described.Err? {
        return Err(described.error);
      }
      var (d, key) := described.value;
      var locked := Attempt();
      if !locked {
        return Err(IoError);
      }
      r := LoadAnswer(key, d, Some(expectation));
    }
  }

  // The commitment was made for an equal descriptor and an equal expectation, and its
  // bytes passed identity validation and the declared checksums.
  ghost predicate AnswersFor(o: Outside, c: Commitment, d: Descriptor, expectation: Option<Expectation>) {
    && SameExpectation(c.expectation, expectation) && c.descriptor == d
    && o.validArchive(c.bytes, c.expectation) && MatchesChecksums(o, c.bytes, d.checksums)
  }

  ghost predicate Answers(o: Outside, c: Commitment, artifact: SourceArtifact, expectation: Expectation) {
    && DeclaredAll(NO_CHECKSUMS, artifact.checksums).Ok?
    && AnswersFor(o, c, DescriptorOf(artifact, DeclaredAll(NO_CHECKSUMS, artifact.checksums).value), Some(expectation))
  }

  // The result is the entry under the key of the request.
  ghost predicate Requested(artifact: SourceArtifact, o: Outside, expectation: Option<Expectation>,
    metadata: map<string, Metadata>, r: CachedArtifact) {
    && DeclaredAll(NO_CHECKSUMS, artifact.checksums).Ok?
    && var d := DescriptorOf(artifact, DeclaredAll(NO_CHECKSUMS, artifact.checksums).value);
      KeyOf(o, d, expectation) in metadata && r == Artifact(metadata[KeyOf(o, d, expectation)])
  }

  // Texts of their types: a declared SHA-256 and a subdirectory are never empty.
  ghost predicate TypedArtifact(artifact: SourceArtifact, expectation: Option<Expectation>) {
    && (forall text | Sha256(text) in artifact.checksums :: text != "")
    && TypedExpectation(expectation)
    && (DeclaredAll(NO_CHECKSUMS, artifact.checksums).Ok? ==>
          |Preimage(DescriptorOf(artifact, DeclaredAll(NO_CHECKSUMS, artifact.checksums).value),
            expectation)| < U64_LIMIT)
  }

  lemma TypedFromArtifact(artifact: SourceArtifact, d: Descriptor, expectation: Option<Expectation>)
    requires TypedArtifact(artifact, expectation) && DeclaredAll(NO_CHECKSUMS, artifact.checksums).Ok?
    requires d == DescriptorOf(artifact, DeclaredAll(NO_CHECKSUMS, artifact.checksums).value)
    ensures TypedRequest(d, expectation)
  {
    DeclaredFacts(NO_CHECKSUMS, artifact.checksums);
  }

  // Publishing keeps every entry: an object that was there already holds the same bytes.
  lemma PublishedConsistently(o: Outside, metadata: map<string, Metadata>, before: map<string, Bytes>,
    after: map<string, Bytes>, history: set<Commitment>, sha: string, bytes: Bytes)
    requires o.CollisionFree() && Consistent(o, metadata, before, history) && sha == o.sha256(bytes)
    requires after == before || PublishedOnly(o, before, after, sha, bytes)
    ensures Consistent(o, metadata, after, history) && Extends(before, after)
  {
    if sha in before {
      assert o.sha256(before[sha]) == sha;
      assert before[sha] == bytes;
    }
    ConsistentStays(o, metadata, before, history, after, history);
  }

  lemma CommittedConsistently(o: Outside, before: map<string, Metadata>, after: map<string, Metadata>,
    objects: map<string, Bytes>, earlier: set<Commitment>, later: set<Commitment>, m: Metadata)
    requires Consistent(o, before, objects, earlier) && earlier <= later && Entered(o, m.key, m, objects, later)
    requires after == before || after == before[m.key := m]
    ensures Consistent(o, after, objects, later)
  {
    ConsistentStays(o, before, objects, earlier, objects, later);
  }

  // ------------------------------------------------------------------ every run

  datatype Request =
    | CommitRequest(artifact: SourceArtifact, expectation: Option<Expectation>, content: Bytes, chunks: seq<nat>,
      breaksAt: Option<nat>)
    | ProbeRequest(artifact: SourceArtifact, wanted: Expectation)

  ghost predicate TypedRun(requests: seq<Request>) {
    forall i | 0 <= i < |requests| :: match requests[i]
      case CommitRequest(artifact, expectation, _, _, _) => TypedArtifact(artifact, expectation)
      case ProbeRequest(artifact, wanted) => TypedArtifact(artifact, Some(wanted))
  }

  // From an empty store, whatever is requested and whichever operations fail, every
  // entry always names an object with its digest, size and checksums.
  method Run(outside: Outside, faults: seq<bool>, requests: seq<Request>) returns (store: Store)
    requires outside.CollisionFree() && TypedRun(requests)
    ensures fresh(store) && store.outside == outside && store.Valid()
  {
    store := new Store(outside, faults);
    for i := 0 to |requests|
      invariant fresh(store) && store.outside == outside && store.Valid()
    {
      match requests[i]
      case CommitRequest(artifact, expectation, content, chunks, breaksAt) =>
        var stream := new Stream(content, chunks, breaksAt);
        var r := store.Commit(artifact, expectation, stream);
      case ProbeRequest(artifact, wanted) =>
        var r := store.Probe(artifact, wanted);
    }
  }

  // Round trip: when nothing fails, what a commit with an expectation returns is what
  // a probe for it finds.
  method CommitThenProbe(store: Store, artifact: SourceArtifact, expectation: Expectation, stream: Stream)
      returns (committed: Result<CachedArtifact, CacheError>, found: Result<Option<CachedArtifact>, CacheError>)
    requires store.Valid() && store.faults == [] && stream.Valid() && stream.position == 0
    requires TypedArtifact(artifact, Some(expectation))
    modifies store, stream
    ensures store.Valid()
    ensures committed.Ok? ==> found == Ok(Some(committed.value))
    ensures found.Ok? && found.value.Some? ==> committed == Ok(found.value.value)
  {
    committed := store.Commit(artifact, Some(expectation), stream);
    found := store.Probe(artifact, expectation);
  }
}
