/**
 Length-delimited byte encodings. A byte string is a string of characters below
 256; a text stands for its UTF-8 bytes. A buffer never reaches 2^64 bytes, so a
 length always fits its eight-byte field.
 */
module Encoding {
  import opened Prelude

  type Bytes = string

  const U64_LIMIT: nat := 0x1_0000_0000_0000_0000

  type u64 = n: nat | n < 0x1_0000_0000_0000_0000

  function Byte(n: nat): (b: char)
    ensures (b as nat) == n % 256
  {
    (n % 256) as char
  }

  // k bytes, least significant first; larger numbers wrap.
  function LittleEndian(n: nat, k: nat): (bytes: Bytes)
    ensures |bytes| == k
  {
    if k == 0 then "" else [Byte(n)] + LittleEndian(n / 256, k - 1)
  }

  function BigEndian(n: nat, k: nat): (bytes: Bytes)
    ensures |bytes| == k
  {
    if k == 0 then "" else BigEndian(n / 256, k - 1) + [Byte(n)]
  }

  function Power256(k: nat): (p: nat)
    ensures p >= 1
  {
    if k == 0 then 1 else 256 * Power256(k - 1)
  }

  lemma {:induction false} LittleEndianInjective(m: nat, n: nat, k: nat)
    requires m < Power256(k) && n < Power256(k)
    requires LittleEndian(m, k) == LittleEndian(n, k)
    ensures m == n
  {
    if k > 0 {
      var a, b := LittleEndian(m, k), LittleEndian(n, k);
      assert a[0] == b[0] && a[1..] == b[1..];
      assert a[1..] == LittleEndian(m / 256, k - 1) && b[1..] == LittleEndian(n / 256, k - 1);
      LittleEndianInjective(m / 256, n / 256, k - 1);
    }
  }

  lemma {:induction false} BigEndianInjective(m: nat, n: nat, k: nat)
    requires m < Power256(k) && n < Power256(k)
    requires BigEndian(m, k) == BigEndian(n, k)
    ensures m == n
  {
    if k > 0 {
      var a, b := BigEndian(m, k), BigEndian(n, k);
      assert a[k - 1] == b[k - 1] && a[..k - 1] == b[..k - 1];
      assert a[..k - 1] == BigEndian(m / 256, k - 1) && b[..k - 1] == BigEndian(n / 256, k - 1);
      BigEndianInjective(m / 256, n / 256, k - 1);
    }
  }

  lemma Power256At8()
    ensures Power256(8) == U64_LIMIT
  {
    assert Power256(2) == 0x1_0000;
    assert Power256(4) == 0x1_0000_0000;
    assert Power256(6) == 0x1_0000_0000_0000;
  }

  lemma ConcatSplit<T>(a: seq<T>, s: seq<T>, b: seq<T>, t: seq<T>)
    requires |a| == |b| && a + s == b + t
    ensures a == b && s == t
  {
    assert (a + s)[..|a|] == a && (b + t)[..|b|] == b;
    assert (a + s)[|a|..] == s && (b + t)[|b|..] == t;
  }

  lemma Chain3<T>(a: seq<T>, b: seq<T>, c: seq<T>, d: seq<T>)
    ensures ((a + b) + c) + d == a + (b + (c + d))
  {
    ConcatAssociates(a + b, c, d);
    ConcatAssociates(a, b, c + d);
  }

  lemma Chain4<T>(a: seq<T>, b: seq<T>, c: seq<T>, d: seq<T>, e: seq<T>)
    ensures (((a + b) + c) + d) + e == a + (b + (c + (d + e)))
  {
    ConcatAssociates((a + b) + c, d, e);
    Chain3(a, b, c, d + e);
  }

  lemma Chain5<T>(a: seq<T>, b: seq<T>, c: seq<T>, d: seq<T>, e: seq<T>)
    ensures ((((([] + a) + b) + c) + d) + e) == a + (b + (c + (d + e)))
  {
    assert [] + a == a;
    Chain4(a, b, c, d, e);
  }

  // ---------------------------------------------------------- little endian

  function U64(n: nat): Bytes {
    LittleEndian(n, 8)
  }

  function Delimited(value: Bytes): Bytes {
    U64(|value|) + value
  }

  lemma U64Prefix(m: nat, s: Bytes, n: nat, t: Bytes)
    requires m < U64_LIMIT && n < U64_LIMIT
    requires U64(m) + s == U64(n) + t
    ensures m == n && s == t
  {
    ConcatSplit(U64(m), s, U64(n), t);
    Power256At8();
    LittleEndianInjective(m, n, 8);
  }

  // A delimited value can be read back from the front of a buffer.
  lemma DelimitedPrefix(v: Bytes, s: Bytes, w: Bytes, t: Bytes)
    requires |v| < U64_LIMIT && |w| < U64_LIMIT
    requires Delimited(v) + s == Delimited(w) + t
    ensures v == w && s == t
  {
    ConcatAssociates(U64(|v|), v, s);
    ConcatAssociates(U64(|w|), w, t);
    U64Prefix(|v|, v + s, |w|, w + t);
    ConcatSplit(v, s, w, t);
  }

  function DelimitedAll(values: seq<Bytes>): Bytes {
    if values == [] then "" else Delimited(values[0]) + DelimitedAll(values[1..])
  }

  // A counted list of delimited values.
  function DelimitedList(values: seq<Bytes>): Bytes {
    U64(|values|) + DelimitedAll(values)
  }

  lemma {:induction false} DelimitedAllLength(values: seq<Bytes>)
    ensures |DelimitedAll(values)| >= 8 * |values|
    ensures forall v | v in values :: |v| <= |DelimitedAll(values)|
  {
    if values != [] {
      DelimitedAllLength(values[1..]);
      assert values == [values[0]] + values[1..];
    }
  }

  lemma FrontOfAll(a: seq<Bytes>, s: Bytes)
    requires a != []
    ensures DelimitedAll(a) + s == Delimited(a[0]) + (DelimitedAll(a[1..]) + s)
    ensures |a[0]| <= |DelimitedAll(a)| && |DelimitedAll(a[1..])| <= |DelimitedAll(a)|
  {
    ConcatAssociates(Delimited(a[0]), DelimitedAll(a[1..]), s);
  }

  lemma {:induction false} DelimitedAllPrefix(a: seq<Bytes>, s: Bytes, b: seq<Bytes>, t: Bytes)
    requires |a| == |b| && DelimitedAll(a) + s == DelimitedAll(b) + t
    requires |DelimitedAll(a)| < U64_LIMIT && |DelimitedAll(b)| < U64_LIMIT
    ensures a == b && s == t
  {
    if a == [] {
      assert DelimitedAll(a) + s == s && DelimitedAll(b) + t == t;
    } else {
      FrontOfAll(a, s);
      FrontOfAll(b, t);
      DelimitedPrefix(a[0], DelimitedAll(a[1..]) + s, b[0], DelimitedAll(b[1..]) + t);
      DelimitedAllPrefix(a[1..], s, b[1..], t);
      assert a == [a[0]] + a[1..] && b == [b[0]] + b[1..];
    }
  }

  lemma DelimitedListPrefix(a: seq<Bytes>, s: Bytes, b: seq<Bytes>, t: Bytes)
    requires DelimitedList(a) + s == DelimitedList(b) + t
    requires |DelimitedList(a)| < U64_LIMIT && |DelimitedList(b)| < U64_LIMIT
    ensures a == b && s == t
  {
    DelimitedAllLength(a);
    DelimitedAllLength(b);
    ConcatAssociates(U64(|a|), DelimitedAll(a), s);
    ConcatAssociates(U64(|b|), DelimitedAll(b), t);
    U64Prefix(|a|, DelimitedAll(a) + s, |b|, DelimitedAll(b) + t);
    DelimitedAllPrefix(a, s, b, t);
  }

  // --------------------------------------------- sorted and deduplicated lists

  predicate SameBytes(a: Bytes, b: Bytes) {
    a == b
  }

  function SortDedup(values: seq<Bytes>): seq<Bytes> {
    DedupBy(SortBy(values, CompareText), SameBytes)
  }

  lemma SortDedupFacts(values: seq<Bytes>)
    ensures StrictlySorted(SortDedup(values), CompareText)
    ensures forall v :: v in SortDedup(values) <==> v in values
  {
    OrderingByText((v: Bytes) => v, CompareText);
    SortSorted(values, CompareText);
    SortElements(values, CompareText);
    forall a, b
      ensures SameBytes(a, b) <==> CompareText(a, b) == Equal
    {
      CompareTextFlip(a, b);
    }
    DedupOfSorted(SortBy(values, CompareText), CompareText, SameBytes);
    forall v | v in values
      ensures v in SortDedup(values)
    {
      var w :| w in SortDedup(values) && CompareText(w, v) == Equal;
      CompareTextFlip(w, v);
    }
  }

  // Sorting and deduplicating forgets order and repetition, and nothing else.
  lemma SortDedupDecides(a: seq<Bytes>, b: seq<Bytes>)
    ensures SortDedup(a) == SortDedup(b) <==> forall v :: v in a <==> v in b
  {
    SortDedupFacts(a);
    SortDedupFacts(b);
    OrderingByText((v: Bytes) => v, CompareText);
    if forall v :: v in a <==> v in b {
      StrictlySortedUnique(SortDedup(a), SortDedup(b), CompareText);
    }
  }

  // --------------------------------------------------- tagged big-endian fields

  // `key_field`: a tag, a big-endian length and the value.
  function Field(tag: nat, value: Bytes): Bytes {
    [Byte(tag)] + BigEndian(|value|, 8) + value
  }

  lemma FieldPrefix(tag: nat, v: Bytes, s: Bytes, other: nat, w: Bytes, t: Bytes)
    requires tag < 256 && other < 256 && |v| < U64_LIMIT && |w| < U64_LIMIT
    requires Field(tag, v) + s == Field(other, w) + t
    ensures tag == other && v == w && s == t
  {
    var a, b := [Byte(tag)] + BigEndian(|v|, 8), [Byte(other)] + BigEndian(|w|, 8);
    assert Field(tag, v) + s == a + (v + s) && Field(other, w) + t == b + (w + t);
    ConcatSplit(a, v + s, b, w + t);
    ConcatSplit([Byte(tag)], BigEndian(|v|, 8), [Byte(other)], BigEndian(|w|, 8));
    assert [Byte(tag)][0] == [Byte(other)][0];
    Power256At8();
    BigEndianInjective(|v|, |w|, 8);
    ConcatSplit(v, s, w, t);
  }

  lemma FieldNumber(tag: nat, m: u64, s: Bytes, n: u64, t: Bytes)
    requires tag < 256
    requires Field(tag, BigEndian(m, 8)) + s == Field(tag, BigEndian(n, 8)) + t
    ensures m == n && s == t
  {
    FieldPrefix(tag, BigEndian(m, 8), s, tag, BigEndian(n, 8), t);
    Power256At8();
    BigEndianInjective(m, n, 8);
  }

  function Fields(tag: nat, values: seq<Bytes>): Bytes {
    if values == [] then "" else Field(tag, values[0]) + Fields(tag, values[1..])
  }

  lemma {:induction false} FieldsPrefix(tag: nat, a: seq<Bytes>, s: Bytes, b: seq<Bytes>, t: Bytes)
    requires tag < 256 && |a| == |b| && Fields(tag, a) + s == Fields(tag, b) + t
    requires |Fields(tag, a)| < U64_LIMIT && |Fields(tag, b)| < U64_LIMIT
    ensures a == b && s == t
  {
    if a == [] {
      assert Fields(tag, a) + s == s && Fields(tag, b) + t == t;
    } else {
      assert Fields(tag, a) + s == Field(tag, a[0]) + (Fields(tag, a[1..]) + s);
      assert Fields(tag, b) + t == Field(tag, b[0]) + (Fields(tag, b[1..]) + t);
      FieldPrefix(tag, a[0], Fields(tag, a[1..]) + s, tag, b[0], Fields(tag, b[1..]) + t);
      FieldsPrefix(tag, a[1..], s, b[1..], t);
      assert a == [a[0]] + a[1..] && b == [b[0]] + b[1..];
    }
  }

  lemma {:induction false} FieldsLength(tag: nat, values: seq<Bytes>)
    ensures |Fields(tag, values)| >= 9 * |values|
    ensures forall v | v in values :: |v| <= |Fields(tag, values)|
  {
    if values != [] {
      FieldsLength(tag, values[1..]);
      assert values == [values[0]] + values[1..];
    }
  }
}
