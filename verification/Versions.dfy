/**
 R package versions: numeric components with inline or spilled storage, compared
 after dropping trailing zeros, and spelled canonically with at least two
 components.
 */
module Versions {
  import opened Prelude
  import opened Text

  const U32_LIMIT: nat := 0x1_0000_0000
  const INLINE_CAPACITY: nat := 8

  type u32 = n: nat | n < 0x1_0000_0000

  datatype Components = Inline(values: seq<u32>, len: nat) | Spill(spilled: seq<u32>) {
    predicate Valid() {
      match this
      case Inline(values, len) => |values| == INLINE_CAPACITY && len <= INLINE_CAPACITY
      case Spill(spilled) => true
    }

    static function FromVec(values: seq<u32>): (c: Components)
      ensures c.Valid() && c.All() == values
    {
      if |values| <= INLINE_CAPACITY
      then Inline(values + seq(INLINE_CAPACITY - |values|, _ => 0), |values|)
      else Spill(values)
    }

    function Len(): nat {
      match this
      case Inline(_, len) => len
      case Spill(spilled) => |spilled|
    }

    function Get(index: nat): u32
      requires Valid() && index < Len()
    {
      match this
      case Inline(values, _) => values[index]
      case Spill(spilled) => spilled[index]
    }

    function All(): (all: seq<u32>)
      requires Valid()
      ensures |all| == Len() && forall i | 0 <= i < Len() :: all[i] == Get(i)
    {
      match this
      case Inline(values, len) => values[..len]
      case Spill(spilled) => spilled
    }

    method CanonicalLen() returns (len: nat)
      requires Valid()
      ensures len <= Len() && All()[..len] == Trim(All())
    {
      len := Len();
      assert All()[..len] == All();
      while len > 0 && Get(len - 1) == 0
        invariant len <= Len()
        invariant Trim(All()[..len]) == Trim(All())
      {
        assert All()[..len][..len - 1] == All()[..len - 1];
        len := len - 1;
      }
      assert All()[..len] == Trim(All()[..len]);
    }
  }

  // Drops trailing zero components.
  function Trim(s: seq<u32>): seq<u32> {
    if s != [] && s[|s| - 1] == 0 then Trim(s[..|s| - 1]) else s
  }

  // `raw` is the retained spelling; equality, order and hash use the components.
  datatype RPackageVersion = RPackageVersion(raw: string, components: Components) {
    function All(): seq<u32>
      requires components.Valid()
    {
      components.All()
    }

    // The components that equality, order and hash see.
    function Key(): seq<u32> {
      if components.Valid() then Trim(components.All()) else []
    }

    function Compare(other: RPackageVersion): Order {
      CompareNats(Key(), other.Key())
    }

    predicate Same(other: RPackageVersion) {
      Compare(other) == Equal
    }

    // What `hash` feeds to the hasher.
    function HashInput(): seq<nat> {
      [|Key()|] + Key()
    }

    // A version as `parse` or `parse_bare` returns it.
    ghost predicate Valid() {
      components.Valid() && ParseSpec(raw, 1) == Ok(this)
    }
  }

  datatype VersionError =
    | EmptyVersion
    | EmptyComponent(index: nat)
    | NonNumericComponent(index: nat)
    | ComponentOverflow(index: nat)
    | TooFewComponents(found: nat, minimum: nat)

  predicate IsSeparator(c: char) {
    c == '.' || c == '-'
  }

  // ------------------------------------------------------------------ parsing

  function ComponentFrom(value: u32, digits: string, index: nat): Result<u32, VersionError>
    decreases |digits|
  {
    if digits == "" then Ok(value)
    else if !IsDigit(digits[0]) then Err(NonNumericComponent(index))
    else
      var next := value * 10 + DigitValue(digits[0]);
      if next >= U32_LIMIT then Err(ComponentOverflow(index))
      else ComponentFrom(next, digits[1..], index)
  }

  function ComponentsFrom(parts: seq<string>, index: nat): Result<seq<u32>, VersionError> {
    if parts == [] then Ok([])
    else if parts[0] == "" then Err(EmptyComponent(index))
    else
      var first :- ComponentFrom(0, parts[0], index);
      var rest :- ComponentsFrom(parts[1..], index + 1);
      Ok([first] + rest)
  }

  function Prefixed(front: seq<u32>, rest: Result<seq<u32>, VersionError>): Result<seq<u32>, VersionError> {
    match rest
    case Ok(values) => Ok(front + values)
    case Err(error) => Err(error)
  }

  lemma PrefixedTwice(front: seq<u32>, value: u32, rest: Result<seq<u32>, VersionError>)
    ensures Prefixed(front, Prefixed([value], rest)) == Prefixed(front + [value], rest)
    ensures Prefixed([], rest) == rest
  {
    if rest.Ok? {
      assert front + ([value] + rest.value) == front + [value] + rest.value;
      assert [] + rest.value == rest.value;
    }
  }

  function ParseSpec(input: string, minimum: nat): Result<RPackageVersion, VersionError> {
    if input == "" then Err(EmptyVersion)
    else
      var values :- ComponentsFrom(SplitOn(input, IsSeparator), 0);
      if |values| < minimum then Err(TooFewComponents(|values|, minimum))
      else Ok(RPackageVersion(input, Components.FromVec(values)))
  }

  method ParseWithMinimum(input: string, minimum: nat) returns (r: Result<RPackageVersion, VersionError>)
    ensures r == ParseSpec(input, minimum)
  {
    if input == "" {
      return Err(EmptyVersion);
    }
    var components: seq<u32> := [];
    var parts := SplitOn(input, IsSeparator);
    PrefixedTwice([], 0, ComponentsFrom(parts, 0));
    assert parts[0..] == parts;
    for index := 0 to |parts|
      invariant |components| == index
      invariant ComponentsFrom(parts, 0) == Prefixed(components, ComponentsFrom(parts[index..], index))
    {
      var component := parts[index];
      if component == "" {
        return Err(EmptyComponent(index));
      }
      var value: u32 := 0;
      for k := 0 to |component|
        invariant ComponentFrom(0, component, index) == ComponentFrom(value, component[k..], index)
      {
        if !IsDigit(component[k]) {
          return Err(NonNumericComponent(index));
        }
        var next := value * 10 + DigitValue(component[k]);
        if next >= U32_LIMIT {
          return Err(ComponentOverflow(index));
        }
        value := next;
        assert component[k..][1..] == component[k + 1..];
      }
      assert parts[index..][1..] == parts[index + 1..];
      PrefixedTwice(components, value, ComponentsFrom(parts[index + 1..], index + 1));
      components := components + [value];
    }
    assert components + [] == components;
    if |components| < minimum {
      return Err(TooFewComponents(|components|, minimum));
    }
    r := Ok(RPackageVersion(input, Components.FromVec(components)));
  }

  lemma DigitMore(done: string, digit: char)
    requires AllDigits(done) && IsDigit(digit)
    ensures AllDigits(done + [digit])
    ensures DecimalValue(done + [digit]) == DecimalValue(done) * 10 + DigitValue(digit)
  {
    assert (done + [digit])[..|done|] == done;
  }

  lemma DigitsOfCons(digit: char, rest: string)
    requires IsDigit(digit)
    ensures AllDigits([digit] + rest) <==> AllDigits(rest)
  {
    assert forall c | c in rest :: c in [digit] + rest;
  }

  // Reading one digit more.
  lemma DigitRead(done: string, digits: string)
    requires AllDigits(done) && digits != "" && IsDigit(digits[0])
    ensures AllDigits(done + [digits[0]])
    ensures DecimalValue(done + [digits[0]]) == DecimalValue(done) * 10 + DigitValue(digits[0])
    ensures done + digits == (done + [digits[0]]) + digits[1..]
    ensures AllDigits(digits) <==> AllDigits(digits[1..])
  {
    DigitMore(done, digits[0]);
    DigitsOfCons(digits[0], digits[1..]);
    assert digits == [digits[0]] + digits[1..];
    ConcatAssociates(done, [digits[0]], digits[1..]);
  }

  lemma DigitsTooMany(done: string, digits: string)
    requires AllDigits(done) && DecimalValue(done) >= U32_LIMIT
    ensures AllDigits(digits) ==> DecimalValueOf(done + digits) >= U32_LIMIT
  {
    if AllDigits(digits) {
      DecimalValueGrows(done, digits);
    }
  }

  // Which component spellings are accepted, and what they mean: digit strings
  // whose decimal value fits 32 bits. `done` has been read into `value`.
  lemma {:induction false} ComponentMeaning(done: string, value: u32, digits: string, index: nat)
    requires AllDigits(done) && DecimalValue(done) == value
    ensures ComponentFrom(value, digits, index).Ok? <==>
      AllDigits(digits) && DecimalValueOf(done + digits) < U32_LIMIT
    ensures ComponentFrom(value, digits, index).Ok? ==>
      ComponentFrom(value, digits, index).value == DecimalValueOf(done + digits)
    decreases |digits|
  {
    if digits == "" {
      assert done + digits == done;
    } else if !IsDigit(digits[0]) {
      assert digits[0] in digits;
    } else {
      DigitRead(done, digits);
      var next := done + [digits[0]];
      if DecimalValue(next) < U32_LIMIT {
        ComponentMeaning(next, DecimalValue(next), digits[1..], index);
      } else {
        DigitsTooMany(next, digits[1..]);
      }
    }
  }

  function DecimalValueOf(s: string): nat {
    if forall c | c in s :: IsDigit(c) then DecimalValue(s) else 0
  }

  lemma {:induction false} DecimalValueGrows(front: string, digits: string)
    requires AllDigits(front) && AllDigits(digits)
    ensures DecimalValue(front) <= DecimalValue(front + digits)
  {
    if digits == "" {
      assert front + digits == front;
    } else {
      var less := digits[..|digits| - 1];
      DecimalValueGrows(front, less);
      assert (front + digits)[..|front + digits| - 1] == front + less;
    }
  }

  lemma {:induction false} AcceptedParts(parts: seq<string>, index: nat)
    requires ComponentsFrom(parts, index).Ok?
    ensures |ComponentsFrom(parts, index).value| == |parts|
    ensures forall part | part in parts :: part != "" && AllDigits(part)
  {
    if parts != [] {
      ComponentMeaning("", 0, parts[0], index);
      AcceptedParts(parts[1..], index + 1);
      assert parts == [parts[0]] + parts[1..];
    }
  }

  // An accepted spelling holds digits, periods and hyphens only, and starts
  // and ends with a digit.
  lemma ValidSpelling(input: string, minimum: nat)
    requires ParseSpec(input, minimum).Ok?
    ensures input != "" && forall c | c in input :: IsDigit(c) || IsSeparator(c)
    ensures IsDigit(input[0]) && IsDigit(input[|input| - 1])
  {
    var parts := SplitOn(input, IsSeparator);
    AcceptedParts(parts, 0);
    SplitCovers(input, IsSeparator);
    SplitEnds(input, IsSeparator);
    assert parts[0] in parts && parts[|parts| - 1] in parts;
  }

  // -------------------------------------------------------------- comparison

  function At(s: seq<u32>, i: nat): u32 {
    if i < |s| then s[i] else 0
  }

  // Reference definition: compare as if both were padded with zeros to length n.
  function PaddedFrom(a: seq<u32>, b: seq<u32>, i: nat, n: nat): Order
    requires i <= n
    decreases n - i
  {
    if i == n then Equal
    else if At(a, i) == At(b, i) then PaddedFrom(a, b, i + 1, n)
    else CompareNat(At(a, i), At(b, i))
  }

  ghost predicate NoTrailingZero(s: seq<u32>) {
    s != [] ==> s[|s| - 1] != 0
  }

  lemma {:induction false} TrimFacts(s: seq<u32>)
    ensures NoTrailingZero(Trim(s)) && |Trim(s)| <= |s|
    ensures Trim(s) == s[..|Trim(s)|]
    ensures forall i: nat :: At(s, i) == At(Trim(s), i)
  {
    if s != [] && s[|s| - 1] == 0 {
      TrimFacts(s[..|s| - 1]);
    }
  }

  lemma {:induction false} PaddedZeros(b: seq<u32>, a: seq<u32>, i: nat, n: nat)
    requires |a| <= i < |b| <= n && NoTrailingZero(b)
    ensures PaddedFrom(a, b, i, n) == Less
    decreases n - i
  {
    if b[i] == 0 {
      PaddedZeros(b, a, i + 1, n);
    }
  }

  lemma {:induction false} PaddedFlip(a: seq<u32>, b: seq<u32>, i: nat, n: nat)
    requires i <= n
    ensures PaddedFrom(a, b, i, n) == PaddedFrom(b, a, i, n).Flip()
    decreases n - i
  {
    if i < n && At(a, i) == At(b, i) {
      PaddedFlip(a, b, i + 1, n);
    }
  }

  lemma {:induction false} PaddedAgreesFrom(p: seq<u32>, q: seq<u32>, i: nat, n: nat)
    requires NoTrailingZero(p) && NoTrailingZero(q)
    requires i <= |p| && i <= |q| && |p| <= n && |q| <= n
    ensures CompareNats(p[i..], q[i..]) == PaddedFrom(p, q, i, n)
    decreases n - i
  {
    if i == |p| && i == |q| {
      PaddedEqual(p, q, i, n);
    } else if i == |p| {
      PaddedZeros(q, p, i, n);
    } else if i == |q| {
      PaddedZeros(p, q, i, n);
      PaddedFlip(p, q, i, n);
    } else if p[i] == q[i] {
      PaddedAgreesFrom(p, q, i + 1, n);
      assert p[i..][1..] == p[i + 1..] && q[i..][1..] == q[i + 1..];
    }
  }

  lemma {:induction false} PaddedEqual(p: seq<u32>, q: seq<u32>, i: nat, n: nat)
    requires |p| <= i <= n && |q| <= i
    ensures PaddedFrom(p, q, i, n) == Equal
    decreases n - i
  {
    if i < n {
      PaddedEqual(p, q, i + 1, n);
    }
  }

  lemma {:induction false} PaddedOfTrim(a: seq<u32>, b: seq<u32>, i: nat, n: nat)
    requires i <= n
    ensures PaddedFrom(a, b, i, n) == PaddedFrom(Trim(a), Trim(b), i, n)
    decreases n - i
  {
    TrimFacts(a);
    TrimFacts(b);
    if i < n {
      PaddedOfTrim(a, b, i + 1, n);
    }
  }

  // Version comparison is comparison of the zero-padded component sequences,
  // whichever storage holds them.
  lemma ComparisonIsPadded(a: RPackageVersion, b: RPackageVersion, n: nat)
    requires a.components.Valid() && b.components.Valid()
    requires n >= |a.All()| && n >= |b.All()|
    ensures a.Compare(b) == PaddedFrom(a.All(), b.All(), 0, n)
  {
    TrimFacts(a.All());
    TrimFacts(b.All());
    PaddedOfTrim(a.All(), b.All(), 0, n);
    PaddedAgreesFrom(a.Key(), b.Key(), 0, n);
    assert a.Key()[0..] == a.Key() && b.Key()[0..] == b.Key();
  }

  lemma SameIsKeyEquality(a: RPackageVersion, b: RPackageVersion)
    ensures a.Same(b) <==> a.Key() == b.Key()
    ensures a.Compare(b) == b.Compare(a).Flip()
  {
    CompareNatsFlip(a.Key(), b.Key());
  }

  // Equality agrees with hashing in both directions.
  lemma EqualityAgreesWithHash(a: RPackageVersion, b: RPackageVersion)
    ensures a.Same(b) <==> a.HashInput() == b.HashInput()
  {
    SameIsKeyEquality(a, b);
    assert a.HashInput()[1..] == a.Key() && b.HashInput()[1..] == b.Key();
  }

  // -------------------------------------------------------- canonical spelling

  // Drops trailing zeros while more than two components remain.
  function Shorten(s: seq<u32>): seq<u32> {
    if |s| > 2 && s[|s| - 1] == 0 then Shorten(s[..|s| - 1]) else s
  }

  function Spellings(s: seq<u32>): (parts: seq<string>)
    ensures |parts| == |s|
    ensures forall i | 0 <= i < |s| :: parts[i] == Decimal(s[i])
  {
    seq(|s|, i requires 0 <= i < |s| => Decimal(s[i]))
  }

  function CanonicalVersion(v: RPackageVersion): string
    requires v.components.Valid()
  {
    Join(Spellings(Shorten(v.All())), ".")
  }

  method CanonicalVersionText(v: RPackageVersion) returns (text: string)
    requires v.components.Valid()
    ensures text == CanonicalVersion(v)
  {
    var components := v.All();
    while |components| > 2 && components[|components| - 1] == 0
      invariant Shorten(components) == Shorten(v.All())
      decreases |components|
    {
      components := components[..|components| - 1];
    }
    text := Join(Spellings(components), ".");
  }

  lemma {:induction false} ShortenFacts(s: seq<u32>)
    ensures Trim(Shorten(s)) == Trim(s)
    ensures |Shorten(s)| <= |s| && (|s| <= 2 ==> Shorten(s) == s) && (|s| >= 2 ==> |Shorten(s)| >= 2)
    ensures |Shorten(s)| > 2 ==> NoTrailingZero(Shorten(s))
    ensures Shorten(Shorten(s)) == Shorten(s)
  {
    if |s| > 2 && s[|s| - 1] == 0 {
      ShortenFacts(s[..|s| - 1]);
    }
  }

  // Trimmed components and "one component or more" decide the shortened form.
  lemma ShortenDecided(a: seq<u32>, b: seq<u32>)
    requires a != [] && b != []
    ensures Shorten(a) == Shorten(b) <==>
      Trim(a) == Trim(b) && (|Trim(a)| >= 2 || (|a| == 1 <==> |b| == 1))
  {
    ShortenFacts(a);
    ShortenFacts(b);
    var p, q := Shorten(a), Shorten(b);
    TrimFacts(p);
    TrimFacts(q);
    if Trim(a) == Trim(b) {
      if |p| > 2 {
        assert Trim(p) == p;
      }
      if |q| > 2 {
        assert Trim(q) == q;
      }
      if |Trim(a)| >= 2 || (|a| == 1 <==> |b| == 1) {
        assert |p| == |q|;
        forall i | 0 <= i < |p|
          ensures p[i] == q[i]
        {
          assert At(p, i) == At(Trim(p), i) == At(q, i);
        }
      }
    }
  }

  lemma SpellingParses(n: u32, digits: string, index: nat)
    requires digits == Decimal(n)
    ensures ComponentFrom(0, digits, index) == Ok(n)
  {
    ComponentMeaning("", 0, digits, index);
    DecimalValueOfDecimal(n);
    assert "" + digits == digits;
  }

  lemma {:induction false} SpellingsParse(s: seq<u32>, index: nat)
    ensures ComponentsFrom(Spellings(s), index) == Ok(s)
  {
    if s != [] {
      SpellingParses(s[0], Spellings(s)[0], index);
      assert Spellings(s)[1..] == Spellings(s[1..]);
      SpellingsParse(s[1..], index + 1);
      assert [s[0]] + s[1..] == s;
    }
  }

  lemma SpellingsSplit(s: seq<u32>)
    requires s != []
    ensures SplitOn(Join(Spellings(s), "."), IsSeparator) == Spellings(s)
    ensures Join(Spellings(s), ".") != ""
  {
    forall part | part in Spellings(s)
      ensures Free(part, IsSeparator)
    {
      var i :| 0 <= i < |s| && part == Spellings(s)[i];
    }
    SplitOfJoin(Spellings(s), '.', IsSeparator);
    assert SplitOn("", IsSeparator)[0] == "" != Spellings(s)[0];
  }

  // The canonical spelling parses back to an equal version that is spelled
  // canonically already.
  lemma CanonicalVersionParses(v: RPackageVersion, minimum: nat)
    requires v.components.Valid() && |v.All()| >= 1
    ensures minimum <= 2 && |v.All()| >= minimum ==>
      var parsed := ParseSpec(CanonicalVersion(v), minimum);
      parsed.Ok? && parsed.value.Same(v) && parsed.value.raw == CanonicalVersion(v)
      && CanonicalVersion(parsed.value) == CanonicalVersion(v)
  {
    var s := Shorten(v.All());
    ShortenFacts(v.All());
    assert |v.All()| == 1 ==> s == v.All();
    SpellingsSplit(s);
    SpellingsParse(s, 0);
    if minimum <= 2 && |v.All()| >= minimum {
      SameIsKeyEquality(ParseSpec(CanonicalVersion(v), minimum).value, v);
    }
  }

  // For versions with at least two components, canonical spellings are equal
  // exactly when the versions are.
  lemma CanonicalVersionDecides(a: RPackageVersion, b: RPackageVersion)
    requires a.components.Valid() && b.components.Valid()
    requires |a.All()| >= 1 && |b.All()| >= 1
    ensures CanonicalVersion(a) == CanonicalVersion(b) <==>
      a.Same(b) && (|a.Key()| >= 2 || (|a.All()| == 1 <==> |b.All()| == 1))
    ensures |a.All()| >= 2 && |b.All()| >= 2 ==> (CanonicalVersion(a) == CanonicalVersion(b) <==> a.Same(b))
  {
    ShortenDecided(a.All(), b.All());
    SameIsKeyEquality(a, b);
    ShortenFacts(a.All());
    ShortenFacts(b.All());
    SpellingsSplit(Shorten(a.All()));
    SpellingsSplit(Shorten(b.All()));
    SpellingsParse(Shorten(a.All()), 0);
    SpellingsParse(Shorten(b.All()), 0);
  }

  // Equal versions with different canonical spellings: one component against two.
  lemma OneComponentCounterexample()
    ensures exists a: RPackageVersion, b: RPackageVersion ::
      a.components.Valid() && b.components.Valid()
      && a.Same(b) && CanonicalVersion(a) != CanonicalVersion(b)
  {
    var one: seq<u32> := [1];
    var two: seq<u32> := [1, 0];
    var a := RPackageVersion("1", Components.FromVec(one));
    var b := RPackageVersion("1.0", Components.FromVec(two));
    assert two[..1] == one;
    assert a.Key() == one && b.Key() == Trim(one);
    SameIsKeyEquality(a, b);
    CanonicalVersionDecides(a, b);
    assert |a.All()| == 1 && |b.All()| == 2;
    assert CanonicalVersion(a) != CanonicalVersion(b);
  }
}
