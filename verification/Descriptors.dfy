/**
 Descriptor keys of the artifact cache. A key is the digest of an injective byte
 encoding of what is asked for; keys with and without an identity expectation never
 come from the same bytes.
 */
module Descriptors {
  import opened Prelude
  import opened Text
  import opened Versions
  import opened Domain
  import opened Encoding
  import opened Distributions

  datatype Checksums = Checksums(md5: Option<string>, sha256: Option<string>)

  datatype GitExpectation = GitExpectation(repository: string, commit: string, subdirectory: Option<string>)

  datatype Expectation = Expectation(package: string, version: RPackageVersion, git: Option<GitExpectation>)

  datatype ChecksumError = MalformedMd5 | ConflictingMd5 | ConflictingSha256 | UnsupportedShape | UnsupportedAlgorithm

  // -------------------------------------------------------------- declared checksums

  predicate ValidMd5(value: string) {
    |value| == 32 && forall c | c in value :: IsHexDigit(c)
  }

  function OtherError(algorithm: string): ChecksumError {
    if Lower(algorithm) in ["md5", "sha256", "sha-256"] then UnsupportedShape else UnsupportedAlgorithm
  }

  function Declared(so: Checksums, value: UpstreamChecksum): Result<Checksums, ChecksumError> {
    match value
    case Md5(text) =>
      if !ValidMd5(text) then Err(MalformedMd5)
      else if so.md5.Some? && so.md5.value != Lower(text) then Err(ConflictingMd5)
      else Ok(so.(md5 := Some(Lower(text))))
    case Sha256(text) =>
      if so.sha256.Some? && so.sha256.value != text then Err(ConflictingSha256)
      else Ok(so.(sha256 := Some(text)))
    case Other(algorithm, _) => Err(OtherError(algorithm))
  }

  function DeclaredAll(so: Checksums, values: seq<UpstreamChecksum>): Result<Checksums, ChecksumError>
    decreases |values|
  {
    if values == [] then Ok(so)
    else
      var next :- Declared(so, values[0]);
      DeclaredAll(next, values[1..])
  }

  const NO_CHECKSUMS: Checksums := Checksums(None, None)

  // `validate_checksums`.
  method ValidateChecksums(values: seq<UpstreamChecksum>) returns (r: Result<Checksums, ChecksumError>)
    ensures r == DeclaredAll(NO_CHECKSUMS, values)
  {
    var md5: Option<string>, sha256: Option<string> := None, None;
    assert values[0..] == values;
    for i := 0 to |values|
      invariant DeclaredAll(NO_CHECKSUMS, values) == DeclaredAll(Checksums(md5, sha256), values[i..])
    {
      assert values[i..][1..] == values[i + 1..];
      match values[i]
      case Md5(text) =>
        if !ValidMd5(text) {
          return Err(MalformedMd5);
        }
        if md5.Some? && md5.value != Lower(text) {
          return Err(ConflictingMd5);
        }
        md5 := Some(Lower(text));
      case Sha256(text) =>
        if sha256.Some? && sha256.value != text {
          return Err(ConflictingSha256);
        }
        sha256 := Some(text);
      case Other(algorithm, _) =>
        return Err(OtherError(algorithm));
    }
    return Ok(Checksums(md5, sha256));
  }

  // Accepted declarations agree, and exactly the declared algorithms are recorded.
  lemma {:induction false} DeclaredFacts(so: Checksums, values: seq<UpstreamChecksum>)
    requires DeclaredAll(so, values).Ok?
    ensures var c := DeclaredAll(so, values).value;
      && (forall text | Md5(text) in values :: ValidMd5(text) && c.md5 == Some(Lower(text)))
      && (forall text | Sha256(text) in values :: c.sha256 == Some(text))
      && (so.md5.Some? ==> c.md5 == so.md5) && (so.sha256.Some? ==> c.sha256 == so.sha256)
      && (c.md5.Some? ==> c.md5 == so.md5 || exists text :: Md5(text) in values)
      && (c.sha256.Some? ==> c.sha256 == so.sha256 || exists text :: Sha256(text) in values)
    decreases |values|
  {
    if values != [] {
      DeclaredFacts(Declared(so, values[0]).value, values[1..]);
      assert values == [values[0]] + values[1..];
      assert forall v :: v in values <==> v == values[0] || v in values[1..];
      match values[0]
      case Md5(text) => assert Md5(text) in values;
      case Sha256(text) => assert Sha256(text) in values;
      case Other(_, _) =>
    }
  }

  // ------------------------------------------------------------------- preimages

  // What identifies an artifact: its locator, declared checksums and declared size.
  datatype Descriptor = Descriptor(locator: string, checksums: Checksums, size: Option<u64>)

  const V1: string := "rsolve/source-artifact/v1\0"
  const V2: string := "rsolve/source-artifact/identity/v2\0"

  function OrEmpty(value: Option<string>): string {
    if value.Some? then value.value else ""
  }

  function SizeText(size: Option<u64>): string {
    if size.Some? then Decimal(size.value) else ""
  }

  function DescriptorPart(d: Descriptor, rest: Bytes): Bytes {
    Delimited(d.locator) + (Delimited(OrEmpty(d.checksums.md5)) +
      (Delimited(OrEmpty(d.checksums.sha256)) + (Delimited(SizeText(d.size)) + rest)))
  }

  function ComponentFields(components: seq<nat>, rest: Bytes): Bytes {
    if components == [] then rest
    else Delimited(LittleEndian(components[0], 4)) + ComponentFields(components[1..], rest)
  }

  function GitPart(git: Option<GitExpectation>): Bytes {
    match git
    case None => Delimited("registry")
    case Some(g) =>
      Delimited("git") + (Delimited(g.repository) + (Delimited(g.commit) + Delimited(OrEmpty(g.subdirectory))))
  }

  function ExpectationPart(e: Expectation): Bytes {
    Delimited(e.package) + (Delimited("version-components") +
      (Delimited(U64(|e.version.Key()|)) + ComponentFields(e.version.Key(), GitPart(e.git))))
  }

  // The bytes whose digest is the descriptor key.
  function Preimage(d: Descriptor, expectation: Option<Expectation>): Bytes {
    match expectation
    case None => V1 + DescriptorPart(d, "")
    case Some(e) => V2 + DescriptorPart(d, ExpectationPart(e))
  }

  // Expectations that equal one another in Rust: versions compare by components.
  predicate SameExpectation(a: Option<Expectation>, b: Option<Expectation>) {
    match (a, b)
    case (None, None) => true
    case (Some(e), Some(f)) => e.package == f.package && e.version.Same(f.version) && e.git == f.git
    case (_, _) => false
  }

  // Texts whose types exclude the empty text.
  ghost predicate NonEmpty(value: Option<string>) {
    value.Some? ==> value.value != ""
  }

  ghost predicate TypedDescriptor(d: Descriptor) {
    NonEmpty(d.checksums.md5) && NonEmpty(d.checksums.sha256)
  }

  ghost predicate TypedExpectation(expectation: Option<Expectation>) {
    expectation.Some? && expectation.value.git.Some? ==> NonEmpty(expectation.value.git.value.subdirectory)
  }

  lemma OrEmptyInjective(a: Option<string>, b: Option<string>)
    requires NonEmpty(a) && NonEmpty(b) && OrEmpty(a) == OrEmpty(b)
    ensures a == b
  {
  }

  lemma SizeTextInjective(a: Option<u64>, b: Option<u64>)
    requires SizeText(a) == SizeText(b)
    ensures a == b
  {
    if a.Some? && b.Some? {
      DecimalInjective(a.value, b.value);
    }
  }

  // A delimited value read back from the front of a buffer that fits in memory.
  lemma TakeField(v: Bytes, s: Bytes, w: Bytes, t: Bytes)
    requires Delimited(v) + s == Delimited(w) + t && |Delimited(v) + s| < U64_LIMIT
    ensures v == w && s == t
  {
    DelimitedPrefix(v, s, w, t);
  }

  lemma DescriptorPartInjective(d: Descriptor, s: Bytes, e: Descriptor, t: Bytes)
    requires TypedDescriptor(d) && TypedDescriptor(e)
    requires DescriptorPart(d, s) == DescriptorPart(e, t) && |DescriptorPart(d, s)| < U64_LIMIT
    ensures d == e && s == t
  {
    var p1, q1 := Delimited(SizeText(d.size)) + s, Delimited(SizeText(e.size)) + t;
    var p2, q2 := Delimited(OrEmpty(d.checksums.sha256)) + p1, Delimited(OrEmpty(e.checksums.sha256)) + q1;
    var p3, q3 := Delimited(OrEmpty(d.checksums.md5)) + p2, Delimited(OrEmpty(e.checksums.md5)) + q2;
    TakeField(d.locator, p3, e.locator, q3);
    TakeField(OrEmpty(d.checksums.md5), p2, OrEmpty(e.checksums.md5), q2);
    TakeField(OrEmpty(d.checksums.sha256), p1, OrEmpty(e.checksums.sha256), q1);
    TakeField(SizeText(d.size), s, SizeText(e.size), t);
    OrEmptyInjective(d.checksums.md5, e.checksums.md5);
    OrEmptyInjective(d.checksums.sha256, e.checksums.sha256);
    SizeTextInjective(d.size, e.size);
  }

  lemma Power256At4()
    ensures Power256(4) == U32_LIMIT
  {
    assert Power256(2) == 0x1_0000;
  }

  // The same number of components can be read back one by one.
  lemma {:induction false} ComponentsInjective(a: seq<u32>, s: Bytes, b: seq<u32>, t: Bytes)
    requires |a| == |b| && ComponentFields(a, s) == ComponentFields(b, t) && |ComponentFields(a, s)| < U64_LIMIT
    ensures a == b && s == t
  {
    if a != [] {
      var p, q := ComponentFields(a[1..], s), ComponentFields(b[1..], t);
      TakeField(LittleEndian(a[0], 4), p, LittleEndian(b[0], 4), q);
      Power256At4();
      LittleEndianInjective(a[0], b[0], 4);
      ComponentsInjective(a[1..], s, b[1..], t);
      assert a == [a[0]] + a[1..] && b == [b[0]] + b[1..];
    }
  }

  lemma GitPartInjective(a: Option<GitExpectation>, b: Option<GitExpectation>)
    requires a.Some? ==> NonEmpty(a.value.subdirectory)
    requires b.Some? ==> NonEmpty(b.value.subdirectory)
    requires GitPart(a) == GitPart(b) && |GitPart(a)| < U64_LIMIT
    ensures a == b
  {
    Ends(GitPart(a));
    Ends(GitPart(b));
    if a.Some? && b.Some? {
      var s := Delimited(a.value.commit) + Delimited(OrEmpty(a.value.subdirectory));
      var t := Delimited(b.value.commit) + Delimited(OrEmpty(b.value.subdirectory));
      TakeField("git", Delimited(a.value.repository) + s, "git", Delimited(b.value.repository) + t);
      TakeField(a.value.repository, s, b.value.repository, t);
      TakeField(a.value.commit, Delimited(OrEmpty(a.value.subdirectory)), b.value.commit,
        Delimited(OrEmpty(b.value.subdirectory)));
      Ends(Delimited(OrEmpty(a.value.subdirectory)));
      Ends(Delimited(OrEmpty(b.value.subdirectory)));
      TakeField(OrEmpty(a.value.subdirectory), "", OrEmpty(b.value.subdirectory), "");
      OrEmptyInjective(a.value.subdirectory, b.value.subdirectory);
    } else if a.Some? {
      OtherPart(GitPart(a), a.value);
    } else if b.Some? {
      OtherPart(GitPart(b), b.value);
    }
  }

  lemma Ends(s: Bytes)
    ensures s + "" == s
  {
  }

  // A Git expectation never looks like a registry one.
  lemma OtherPart(part: Bytes, g: GitExpectation)
    requires part == GitPart(Some(g)) && |part| < U64_LIMIT
    ensures part != GitPart(None)
  {
    Ends(Delimited("registry"));
    if part == Delimited("registry") + "" {
      TakeField("git", Delimited(g.repository) + (Delimited(g.commit) + Delimited(OrEmpty(g.subdirectory))), "registry",
        "");
    }
  }

  lemma ExpectationPartInjective(e: Expectation, f: Expectation)
    requires TypedExpectation(Some(e)) && TypedExpectation(Some(f))
    requires ExpectationPart(e) == ExpectationPart(f) && |ExpectationPart(e)| < U64_LIMIT
    ensures e.package == f.package && e.version.Same(f.version) && e.git == f.git
  {
    var a, b := e.version.Key(), f.version.Key();
    var p1, q1 := ComponentFields(a, GitPart(e.git)), ComponentFields(b, GitPart(f.git));
    var p2, q2 := Delimited(U64(|a|)) + p1, Delimited(U64(|b|)) + q1;
    var p3, q3 := Delimited("version-components") + p2, Delimited("version-components") + q2;
    TakeField(e.package, p3, f.package, q3);
    TakeField("version-components", p2, "version-components", q2);
    TakeField(U64(|a|), p1, U64(|b|), q1);
    ComponentsLength(a, GitPart(e.git));
    ComponentsLength(b, GitPart(f.git));
    CountInjective(|a|, |b|);
    ComponentsInjective(a, GitPart(e.git), b, GitPart(f.git));
    GitPartInjective(e.git, f.git);
    SameIsKeyEquality(e.version, f.version);
  }

  lemma {:induction false} ComponentsLength(components: seq<nat>, rest: Bytes)
    ensures |ComponentFields(components, rest)| >= |components| + |rest|
  {
    if components != [] {
      ComponentsLength(components[1..], rest);
    }
  }

  lemma CountInjective(m: nat, n: nat)
    requires m < U64_LIMIT && n < U64_LIMIT && U64(m) == U64(n)
    ensures m == n
  {
    Power256At8();
    LittleEndianInjective(m, n, 8);
  }

  // The two kinds of preimage differ in their prefixes.
  lemma KindsDiffer(d: Descriptor, e: Descriptor, f: Expectation)
    ensures Preimage(d, None) != Preimage(e, Some(f))
  {
    var a, b := Preimage(d, None), Preimage(e, Some(f));
    assert a[23] == V1[23] == 'v' && b[23] == V2[23] == 'i';
  }

  // Preimages are equal exactly when the descriptors are and the expectations are
  // equal up to version spelling.
  lemma PreimageDecides(d: Descriptor, x: Option<Expectation>, e: Descriptor, y: Option<Expectation>)
    requires TypedDescriptor(d) && TypedDescriptor(e) && TypedExpectation(x) && TypedExpectation(y)
    requires |Preimage(d, x)| < U64_LIMIT && |Preimage(e, y)| < U64_LIMIT
    ensures Preimage(d, x) == Preimage(e, y) <==> d == e && SameExpectation(x, y)
  {
    match (x, y)
    case (None, None) =>
      if Preimage(d, x) == Preimage(e, y) {
        ConcatSplit(V1, DescriptorPart(d, ""), V1, DescriptorPart(e, ""));
        DescriptorPartInjective(d, "", e, "");
      }
    case (None, Some(f)) => KindsDiffer(d, e, f);
    case (Some(f), None) => KindsDiffer(e, d, f);
    case (Some(f), Some(g)) =>
      if Preimage(d, x) == Preimage(e, y) {
        ConcatSplit(V2, DescriptorPart(d, ExpectationPart(f)), V2, DescriptorPart(e, ExpectationPart(g)));
        DescriptorPartInjective(d, ExpectationPart(f), e, ExpectationPart(g));
        PartFits(d, ExpectationPart(f));
        ExpectationPartInjective(f, g);
      }
      SameIsKeyEquality(f.version, g.version);
  }

  lemma PartFits(d: Descriptor, rest: Bytes)
    ensures |rest| <= |DescriptorPart(d, rest)|
  {
  }

  // ------------------------------------------------------- the append-only buffer

  class KeyBytes {
    var bytes: Bytes

    constructor (prefix: string)
      ensures bytes == prefix
    {
      bytes := prefix;
    }

    // `append_field`.
    method AppendField(value: Bytes)
      modifies this
      ensures bytes == old(bytes) + Delimited(value)
    {
      bytes := bytes + U64(|value|);
      bytes := bytes + value;
      ConcatAssociates(old(bytes), U64(|value|), value);
    }

    method AppendDescriptor(d: Descriptor)
      modifies this
      ensures forall rest :: bytes + rest == old(bytes) + DescriptorPart(d, rest)
    {
      AppendField(d.locator);
      AppendField(OrEmpty(d.checksums.md5));
      AppendField(OrEmpty(d.checksums.sha256));
      AppendField(SizeText(d.size));
      forall rest
        ensures bytes + rest == old(bytes) + DescriptorPart(d, rest)
      {
        FourFields(old(bytes), Delimited(d.locator), Delimited(OrEmpty(d.checksums.md5)),
          Delimited(OrEmpty(d.checksums.sha256)), Delimited(SizeText(d.size)), rest);
      }
    }

    method AppendComponents(components: seq<nat>)
      modifies this
      ensures forall rest :: bytes + rest == old(bytes) + ComponentFields(components, rest)
    {
      assert components[0..] == components;
      for i := 0 to |components|
        invariant forall rest ::
          bytes + ComponentFields(components[i..], rest) == old(bytes) + ComponentFields(components, rest)
      {
        ghost var before := bytes;
        assert components[i..][1..] == components[i + 1..];
        AppendField(LittleEndian(components[i], 4));
        forall rest
          ensures bytes + ComponentFields(components[i + 1..], rest) == old(bytes) + ComponentFields(components, rest)
        {
          ConcatAssociates(before, Delimited(LittleEndian(components[i], 4)),
            ComponentFields(components[i + 1..], rest));
          assert before + ComponentFields(components[i..], rest) == old(bytes) + ComponentFields(components, rest);
        }
      }
    }

    method AppendGit(git: Option<GitExpectation>)
      modifies this
      ensures bytes == old(bytes) + GitPart(git)
    {
      if git.Some? {
        AppendField("git");
        AppendField(git.value.repository);
        AppendField(git.value.commit);
        AppendField(OrEmpty(git.value.subdirectory));
        Chain4(old(bytes), Delimited("git"), Delimited(git.value.repository), Delimited(git.value.commit),
          Delimited(OrEmpty(git.value.subdirectory)));
      } else {
        AppendField("registry");
      }
    }
  }

  lemma FourFields(front: Bytes, a: Bytes, b: Bytes, c: Bytes, d: Bytes, rest: Bytes)
    ensures ((((front + a) + b) + c) + d) + rest == front + (a + (b + (c + (d + rest))))
  {
    ConcatAssociates(((front + a) + b) + c, d, rest);
    Chain4(front, a, b, c, d + rest);
  }

  // `descriptor_key_with_expectation`, before the digest.
  method KeyPreimage(d: Descriptor, expectation: Option<Expectation>) returns (bytes: Bytes)
    ensures bytes == Preimage(d, expectation)
  {
    if expectation.None? {
      var buffer := new KeyBytes(V1);
      buffer.AppendDescriptor(d);
      assert buffer.bytes + "" == V1 + DescriptorPart(d, "");
      Ends(buffer.bytes);
      return buffer.bytes;
    }
    var e := expectation.value;
    var buffer := new KeyBytes(V2);
    buffer.AppendDescriptor(d);
    ghost var front := buffer.bytes;
    buffer.AppendField(e.package);
    buffer.AppendField("version-components");
    buffer.AppendField(U64(|e.version.Key()|));
    ghost var middle := buffer.bytes;
    buffer.AppendComponents(e.version.Key());
    buffer.AppendGit(e.git);
    ExpectationAppended(front, middle, buffer.bytes, e);
    assert front + ExpectationPart(e) == V2 + DescriptorPart(d, ExpectationPart(e));
    return buffer.bytes;
  }

  lemma ExpectationAppended(front: Bytes, middle: Bytes, bytes: Bytes, e: Expectation)
    requires middle == ((front + Delimited(e.package)) + Delimited("version-components")) +
      Delimited(U64(|e.version.Key()|))
    requires bytes == middle + ComponentFields(e.version.Key(), GitPart(e.git))
    ensures bytes == front + ExpectationPart(e)
  {
    Chain3(front, Delimited(e.package), Delimited("version-components"), Delimited(U64(|e.version.Key()|)));
    Chain4(front, Delimited(e.package), Delimited("version-components"), Delimited(U64(|e.version.Key()|)),
      ComponentFields(e.version.Key(), GitPart(e.git)));
  }
}
