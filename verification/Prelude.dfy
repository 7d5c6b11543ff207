/** Option and Result, three-way comparison, and the standard library's stable sort and dedup. */
module Prelude {

  datatype Option<+T> = None | Some(value: T)

  datatype Result<+T, +E> = Ok(value: T) | Err(error: E) {
    predicate IsFailure() {
      Err?
    }

    function PropagateFailure<U>(): Result<U, E>
      requires Err?
    {
      Err(error)
    }

    function Extract(): T
      requires Ok?
    {
      value
    }
  }

  datatype Order = Less | Equal | Greater {
    function Then(next: Order): Order {
      if this == Equal then next else this
    }

    function Flip(): Order {
      match this
      case Less => Greater
      case Equal => Equal
      case Greater => Less
    }
  }

  function CompareNat(a: nat, b: nat): Order {
    if a < b then Less else if a == b then Equal else Greater
  }

  // Lexicographic comparison, as Rust's iterator and slice comparison.
  function CompareNats(a: seq<nat>, b: seq<nat>): Order {
    if a == [] || b == [] then CompareNat(|a|, |b|)
    else if a[0] == b[0] then CompareNats(a[1..], b[1..])
    else CompareNat(a[0], b[0])
  }

  function Codes(s: string): (codes: seq<nat>) {
    seq(|s|, i requires 0 <= i < |s| => s[i] as nat)
  }

  function CompareText(a: string, b: string): Order {
    CompareNats(Codes(a), Codes(b))
  }

  lemma {:induction false} CompareNatsFlip(a: seq<nat>, b: seq<nat>)
    ensures CompareNats(a, b) == CompareNats(b, a).Flip()
    ensures CompareNats(a, b) == Equal <==> a == b
  {
    if a == [] || b == [] {
    } else if a[0] == b[0] {
      CompareNatsFlip(a[1..], b[1..]);
      if a[1..] == b[1..] {
        assert a == [a[0]] + a[1..] == [b[0]] + b[1..] == b;
      }
    }
  }

  lemma {:induction false} CompareNatsTransitive(a: seq<nat>, b: seq<nat>, c: seq<nat>)
    requires CompareNats(a, b) != Greater && CompareNats(b, c) != Greater
    ensures CompareNats(a, c) != Greater
  {
    if a != [] && b != [] && c != [] && a[0] == b[0] == c[0] {
      CompareNatsTransitive(a[1..], b[1..], c[1..]);
    }
  }

  lemma CompareSingletons(m: nat, n: nat)
    ensures CompareNats([m], [n]) == CompareNat(m, n)
  {
    assert [m][1..] == [] && [n][1..] == [];
  }

  lemma CodesInjective(a: string, b: string)
    ensures Codes(a) == Codes(b) <==> a == b
  {
    if Codes(a) == Codes(b) {
      assert |a| == |Codes(a)| == |Codes(b)| == |b|;
      forall i | 0 <= i < |a|
        ensures a[i] == b[i]
      {
        assert Codes(a)[i] == Codes(b)[i];
      }
    }
  }

  lemma CompareTextFlip(a: string, b: string)
    ensures CompareText(a, b) == CompareText(b, a).Flip()
    ensures CompareText(a, b) == Equal <==> a == b
  {
    CompareNatsFlip(Codes(a), Codes(b));
    CodesInjective(a, b);
  }

  lemma CompareTextTransitive(a: string, b: string, c: string)
    requires CompareText(a, b) != Greater && CompareText(b, c) != Greater
    ensures CompareText(a, c) != Greater
  {
    CompareNatsTransitive(Codes(a), Codes(b), Codes(c));
  }

  lemma ConcatAssociates<T>(a: seq<T>, b: seq<T>, c: seq<T>)
    ensures (a + b) + c == a + (b + c)
  {
  }

  lemma FrontAndLast<T>(s: seq<T>)
    requires s != []
    ensures s == s[..|s| - 1] + [s[|s| - 1]] && s[|s| - 1] in s
    ensures forall x | x in s[..|s| - 1] :: x in s
  {
  }

  // ------------------------------------------------------------ small maps

  lemma SingletonMap<K, V>(m: map<K, V>, a: K)
    requires |m| == 1 && a in m
    ensures m == map[a := m[a]]
  {
    assert |m.Keys - {a}| == 0;
    assert m.Keys == (m.Keys - {a}) + {a};
  }

  // The key of a map with one entry.
  function OnlyKey<K(==), V>(m: map<K, V>): (k: K)
    requires |m| == 1
    ensures k in m && m == map[k := m[k]]
  {
    assert m.Keys != {};
    assert forall a, b | a in m && b in m :: a == b by {
      forall a, b | a in m && b in m
        ensures a == b
      {
        SingletonMap(m, a);
      }
    }
    var k :| k in m;
    SingletonMap(m, k);
    k
  }

  // -------------------------------------------------------------- filtering

  // `Iterator::filter` and `Vec::retain`.
  function Filter<T>(s: seq<T>, keep: T -> bool): seq<T> {
    if s == [] then []
    else if keep(s[0]) then [s[0]] + Filter(s[1..], keep)
    else Filter(s[1..], keep)
  }

  lemma {:induction false} FilterMembers<T(!new)>(s: seq<T>, keep: T -> bool)
    ensures forall x :: x in Filter(s, keep) <==> x in s && keep(x)
  {
    if s == [] {
    } else {
      FilterMembers(s[1..], keep);
      assert s == [s[0]] + s[1..];
    }
  }

  lemma {:induction false} FilterDistinct<T(!new), K>(s: seq<T>, key: T -> K, keep: T -> bool)
    requires DistinctBy(s, key)
    ensures DistinctBy(Filter(s, keep), key)
  {
    if s == [] {
    } else {
      FilterDistinct(s[1..], key, keep);
      FilterMembers(s[1..], keep);
      var rest := Filter(s[1..], keep);
      forall k | 0 <= k < |rest|
        ensures key(s[0]) != key(rest[k])
      {
        assert rest[k] in rest && rest[k] in s[1..];
        var j :| 0 <= j < |s[1..]| && s[1..][j] == rest[k];
        assert s[j + 1] == rest[k];
      }
    }
  }

  // ---------------------------------------------------------------- sorting

  // A comparison of all values of a type that a sort can rely on.
  ghost predicate Ordering<T(!new)>(cmp: (T, T) -> Order) {
    && (forall a, b :: cmp(a, b) == cmp(b, a).Flip())
    && (forall a, b, c :: cmp(a, b) != Greater && cmp(b, c) != Greater ==> cmp(a, c) != Greater)
  }

  ghost predicate Sorted<T>(s: seq<T>, cmp: (T, T) -> Order) {
    forall i, j | 0 <= i < j < |s| :: cmp(s[i], s[j]) != Greater
  }

  ghost predicate StrictlySorted<T>(s: seq<T>, cmp: (T, T) -> Order) {
    forall i, j | 0 <= i < j < |s| :: cmp(s[i], s[j]) == Less
  }

  lemma OrderingByText<T(!new)>(key: T -> string, cmp: (T, T) -> Order)
    requires forall a, b :: cmp(a, b) == CompareText(key(a), key(b))
    ensures Ordering(cmp)
  {
    forall a, b
      ensures cmp(a, b) == cmp(b, a).Flip()
    {
      CompareTextFlip(key(a), key(b));
    }
    forall a, b, c | cmp(a, b) != Greater && cmp(b, c) != Greater
      ensures cmp(a, c) != Greater
    {
      CompareTextTransitive(key(a), key(b), key(c));
    }
  }

  lemma OrderingByNats<T(!new)>(key: T -> seq<nat>, cmp: (T, T) -> Order)
    requires forall a, b :: cmp(a, b) == CompareNats(key(a), key(b))
    ensures Ordering(cmp)
  {
    forall a, b
      ensures cmp(a, b) == cmp(b, a).Flip()
    {
      CompareNatsFlip(key(a), key(b));
    }
    forall a, b, c | cmp(a, b) != Greater && cmp(b, c) != Greater
      ensures cmp(a, c) != Greater
    {
      CompareNatsTransitive(key(a), key(b), key(c));
    }
  }

  // Breaking ties of one ordering by another is an ordering.
  lemma OrderingThen<T(!new)>(first: (T, T) -> Order, next: (T, T) -> Order, cmp: (T, T) -> Order)
    requires Ordering(first) && Ordering(next)
    requires forall a, b :: cmp(a, b) == first(a, b).Then(next(a, b))
    ensures Ordering(cmp)
  {
    forall a, b
      ensures cmp(a, b) == cmp(b, a).Flip()
    {
      assert first(a, b) == first(b, a).Flip() && next(a, b) == next(b, a).Flip();
    }
    forall a, b, c | cmp(a, b) != Greater && cmp(b, c) != Greater
      ensures cmp(a, c) != Greater
    {
      Tied(a, b, c, first);
      assert next(a, b) != Greater && next(b, c) != Greater ==> next(a, c) != Greater;
    }
  }

  // Places an element in front of the first one that is not below it, so that
  // equal elements keep their order.
  function Insert<T>(x: T, s: seq<T>, cmp: (T, T) -> Order): seq<T> {
    if s == [] || cmp(x, s[0]) != Greater then [x] + s
    else [s[0]] + Insert(x, s[1..], cmp)
  }

  // A stable sort.
  function SortBy<T>(s: seq<T>, cmp: (T, T) -> Order): seq<T> {
    if s == [] then [] else Insert(s[0], SortBy(s[1..], cmp), cmp)
  }

  lemma {:induction false} InsertElements<T(!new)>(x: T, s: seq<T>, cmp: (T, T) -> Order)
    ensures multiset(Insert(x, s, cmp)) == multiset{x} + multiset(s)
    ensures |Insert(x, s, cmp)| == |s| + 1
    ensures forall y :: y in Insert(x, s, cmp) <==> y == x || y in s
  {
    if s == [] || cmp(x, s[0]) != Greater {
    } else {
      assert s == [s[0]] + s[1..];
      InsertElements(x, s[1..], cmp);
    }
  }

  lemma {:induction false} InsertSorted<T(!new)>(x: T, s: seq<T>, cmp: (T, T) -> Order)
    requires Ordering(cmp) && Sorted(s, cmp)
    ensures Sorted(Insert(x, s, cmp), cmp)
  {
    if s == [] {
    } else if cmp(x, s[0]) != Greater {
      forall k | 0 <= k < |s|
        ensures cmp(x, s[k]) != Greater
      {
        if k > 0 {
          assert cmp(s[0], s[k]) != Greater;
        }
      }
    } else {
      var rest := Insert(x, s[1..], cmp);
      InsertSorted(x, s[1..], cmp);
      InsertElements(x, s[1..], cmp);
      forall k | 0 <= k < |rest|
        ensures cmp(s[0], rest[k]) != Greater
      {
        assert rest[k] in rest;
        if rest[k] != x {
          var j :| 0 <= j < |s[1..]| && s[1..][j] == rest[k];
          assert s[j + 1] == rest[k];
        }
      }
    }
  }

  lemma {:induction false} SortElements<T(!new)>(s: seq<T>, cmp: (T, T) -> Order)
    ensures multiset(SortBy(s, cmp)) == multiset(s)
    ensures |SortBy(s, cmp)| == |s|
    ensures forall y :: y in SortBy(s, cmp) <==> y in s
  {
    if s == [] {
    } else {
      assert s == [s[0]] + s[1..];
      SortElements(s[1..], cmp);
      InsertElements(s[0], SortBy(s[1..], cmp), cmp);
    }
  }

  lemma {:induction false} SortSorted<T(!new)>(s: seq<T>, cmp: (T, T) -> Order)
    requires Ordering(cmp)
    ensures Sorted(SortBy(s, cmp), cmp)
  {
    if s == [] {
    } else {
      SortSorted(s[1..], cmp);
      InsertSorted(s[0], SortBy(s[1..], cmp), cmp);
    }
  }

  lemma {:induction false} SortOfSorted<T>(s: seq<T>, cmp: (T, T) -> Order)
    requires Sorted(s, cmp)
    ensures SortBy(s, cmp) == s
  {
    if s == [] {
    } else {
      SortOfSorted(s[1..], cmp);
      assert s == [s[0]] + s[1..];
    }
  }

  ghost predicate DistinctBy<T, K>(s: seq<T>, key: T -> K) {
    forall i, j | 0 <= i < j < |s| :: key(s[i]) != key(s[j])
  }

  lemma {:induction false} InsertDistinct<T(!new), K>(x: T, s: seq<T>, key: T -> K, cmp: (T, T) -> Order)
    requires DistinctBy(s, key) && forall y | y in s :: key(y) != key(x)
    ensures DistinctBy(Insert(x, s, cmp), key)
  {
    if s == [] || cmp(x, s[0]) != Greater {
    } else {
      InsertDistinct(x, s[1..], key, cmp);
      InsertElements(x, s[1..], cmp);
      var rest := Insert(x, s[1..], cmp);
      forall k | 0 <= k < |rest|
        ensures key(s[0]) != key(rest[k])
      {
        assert rest[k] in rest;
        assert s[0] in s;
        if rest[k] != x {
          assert rest[k] in s[1..];
          var j :| 0 <= j < |s[1..]| && s[1..][j] == rest[k];
          assert s[j + 1] == rest[k];
        }
      }
    }
  }

  lemma {:induction false} SortDistinct<T(!new), K>(s: seq<T>, key: T -> K, cmp: (T, T) -> Order)
    requires DistinctBy(s, key)
    ensures DistinctBy(SortBy(s, cmp), key)
  {
    if s != [] {
      SortDistinct(s[1..], key, cmp);
      SortElements(s[1..], cmp);
      forall y | y in SortBy(s[1..], cmp)
        ensures key(y) != key(s[0])
      {
        assert y in s[1..];
        var j :| 0 <= j < |s[1..]| && s[1..][j] == y;
        assert s[j + 1] == y;
      }
      InsertDistinct(s[0], SortBy(s[1..], cmp), key, cmp);
    }
  }

  ghost predicate TiesAreEqual<T>(s: seq<T>, cmp: (T, T) -> Order) {
    forall a, b | a in s && b in s && cmp(a, b) == Equal :: a == b
  }

  lemma SameLength<T>(s: seq<T>, t: seq<T>)
    requires multiset(s) == multiset(t)
    ensures |s| == |t|
  {
    assert |multiset(s)| == |s| && |multiset(t)| == |t|;
  }

  lemma SortedTail<T(!new)>(s: seq<T>, cmp: (T, T) -> Order)
    requires s != [] && Sorted(s, cmp)
    ensures Sorted(s[1..], cmp)
    ensures TiesAreEqual(s, cmp) ==> TiesAreEqual(s[1..], cmp)
  {
  }

  lemma TailsMatch<T>(s: seq<T>, t: seq<T>)
    requires s != [] && t != [] && s[0] == t[0] && multiset(s) == multiset(t)
    ensures multiset(s[1..]) == multiset(t[1..])
  {
    assert s == [s[0]] + s[1..] && t == [t[0]] + t[1..];
    assert multiset(s) - multiset{s[0]} == multiset(s[1..]) && multiset(t) - multiset{t[0]} == multiset(t[1..]);
  }

  // Sorted arrangements of the same elements are equal when no two distinct
  // elements tie.
  lemma {:induction false} SortedArrangementUnique<T(!new)>(s: seq<T>, t: seq<T>, cmp: (T, T) -> Order)
    requires Ordering(cmp) && Sorted(s, cmp) && Sorted(t, cmp)
    requires multiset(s) == multiset(t)
    requires TiesAreEqual(s, cmp)
    ensures s == t
  {
    SameLength(s, t);
    if s != [] {
      SameHead(s, t, cmp);
      SortedTail(s, cmp);
      SortedTail(t, cmp);
      TailsMatch(s, t);
      SortedArrangementUnique(s[1..], t[1..], cmp);
      assert s == [s[0]] + s[1..] && t == [t[0]] + t[1..];
    }
  }

  lemma SameHead<T(!new)>(s: seq<T>, t: seq<T>, cmp: (T, T) -> Order)
    requires Ordering(cmp) && Sorted(s, cmp) && Sorted(t, cmp)
    requires multiset(s) == multiset(t) && s != [] && t != []
    requires TiesAreEqual(s, cmp)
    ensures s[0] == t[0]
  {
    assert s[0] in multiset(t) && t[0] in multiset(s);
    HeadIsLeast(s, t[0], cmp);
    HeadIsLeast(t, s[0], cmp);
    assert cmp(s[0], t[0]) == cmp(t[0], s[0]).Flip();
  }

  lemma HeadIsLeast<T(!new)>(s: seq<T>, x: T, cmp: (T, T) -> Order)
    requires Ordering(cmp) && Sorted(s, cmp) && x in s
    ensures cmp(s[0], x) != Greater
  {
    var k :| 0 <= k < |s| && s[k] == x;
    if k == 0 {
      assert cmp(x, x) == cmp(x, x).Flip();
    }
  }

  lemma HeadIsStrict<T(!new)>(s: seq<T>, x: T, cmp: (T, T) -> Order)
    requires StrictlySorted(s, cmp) && x in s
    ensures x == s[0] || cmp(s[0], x) == Less
  {
    var k :| 0 <= k < |s| && s[k] == x;
    if k > 0 {
      assert cmp(s[0], s[k]) == Less;
    }
  }

  lemma EmptyOrInhabited<T>(s: seq<T>)
    ensures s == [] || exists x :: x in s
  {
    if s != [] {
      assert s[0] in s;
    }
  }

  // Strictly sorted lists are determined by their sets of elements.
  lemma {:induction false} StrictlySortedUnique<T(!new)>(s: seq<T>, t: seq<T>, cmp: (T, T) -> Order)
    requires Ordering(cmp) && StrictlySorted(s, cmp) && StrictlySorted(t, cmp)
    requires forall x :: x in s <==> x in t
    ensures s == t
  {
    if s == [] {
      EmptyOrInhabited(t);
    } else {
      assert s[0] in s && s[0] in t;
      assert t[0] in t && t[0] in s;
      HeadIsStrict(s, t[0], cmp);
      HeadIsStrict(t, s[0], cmp);
      assert cmp(t[0], s[0]) == cmp(s[0], t[0]).Flip();
      forall x
        ensures x in s[1..] <==> x in t[1..]
      {
        StrictTail(s, x, cmp);
        StrictTail(t, x, cmp);
      }
      StrictlySortedUnique(s[1..], t[1..], cmp);
      assert s == [s[0]] + s[1..] && t == [t[0]] + t[1..];
    }
  }

  lemma StrictTail<T(!new)>(s: seq<T>, x: T, cmp: (T, T) -> Order)
    requires Ordering(cmp) && StrictlySorted(s, cmp) && s != []
    ensures x in s[1..] <==> x in s && x != s[0]
  {
    assert s == [s[0]] + s[1..];
    if x in s[1..] {
      var k :| 0 <= k < |s[1..]| && s[1..][k] == x;
      assert cmp(s[0], s[k + 1]) == Less;
      assert cmp(x, x) == cmp(x, x).Flip();
    }
  }

  // `Vec::dedup_by`: drops every element that equals the last one kept.
  function DedupBy<T>(s: seq<T>, same: (T, T) -> bool): seq<T> {
    if s == [] then [] else [s[0]] + DedupAfter(s[0], s[1..], same)
  }

  function DedupAfter<T>(kept: T, rest: seq<T>, same: (T, T) -> bool): seq<T> {
    if rest == [] then []
    else if same(kept, rest[0]) then DedupAfter(kept, rest[1..], same)
    else [rest[0]] + DedupAfter(rest[0], rest[1..], same)
  }

  lemma {:induction false} DedupAfterMembers<T(!new)>(kept: T, rest: seq<T>, same: (T, T) -> bool)
    ensures forall x | x in DedupAfter(kept, rest, same) :: x in rest
  {
    if rest == [] {
    } else if same(kept, rest[0]) {
      DedupAfterMembers(kept, rest[1..], same);
    } else {
      DedupAfterMembers(rest[0], rest[1..], same);
    }
  }

  lemma Tied<T(!new)>(a: T, b: T, c: T, cmp: (T, T) -> Order)
    requires Ordering(cmp)
    ensures cmp(a, a) == Equal
    ensures cmp(a, b) == Less && cmp(b, c) != Greater ==> cmp(a, c) == Less
    ensures cmp(a, b) != Greater && cmp(b, c) == Less ==> cmp(a, c) == Less
    ensures cmp(a, b) == Equal && cmp(b, c) == Equal ==> cmp(a, c) == Equal
  {
    assert cmp(a, a) == cmp(a, a).Flip();
    assert cmp(a, b) == cmp(b, a).Flip() && cmp(b, c) == cmp(c, b).Flip() && cmp(a, c) == cmp(c, a).Flip();
    assert cmp(a, b) != Greater && cmp(b, c) != Greater ==> cmp(a, c) != Greater;
    assert cmp(c, a) != Greater && cmp(a, b) != Greater ==> cmp(c, b) != Greater;
    assert cmp(b, c) != Greater && cmp(c, a) != Greater ==> cmp(b, a) != Greater;
    assert cmp(c, b) != Greater && cmp(b, a) != Greater ==> cmp(c, a) != Greater;
  }

  lemma SortedWithout<T(!new)>(kept: T, rest: seq<T>, cmp: (T, T) -> Order)
    requires rest != [] && Sorted([kept] + rest, cmp)
    ensures Sorted([kept] + rest[1..], cmp)
  {
    var all, t := [kept] + rest, [kept] + rest[1..];
    forall i, j | 0 <= i < j < |t|
      ensures cmp(t[i], t[j]) != Greater
    {
      assert t[j] == all[j + 1] && t[i] == all[if i == 0 then 0 else i + 1];
    }
  }

  lemma {:induction false} DedupAfterStrict<T(!new)>(kept: T, rest: seq<T>, cmp: (T, T) -> Order, same: (T, T) -> bool)
    requires Ordering(cmp) && Sorted([kept] + rest, cmp)
    requires forall a, b :: same(a, b) <==> cmp(a, b) == Equal
    ensures StrictlySorted([kept] + DedupAfter(kept, rest, same), cmp)
  {
    var all := [kept] + rest;
    if rest == [] {
    } else {
      assert cmp(all[0], all[1]) != Greater;
      assert [rest[0]] + rest[1..] == rest == all[1..];
      if same(kept, rest[0]) {
        SortedWithout(kept, rest, cmp);
        DedupAfterStrict(kept, rest[1..], cmp, same);
      } else {
        assert Sorted([rest[0]] + rest[1..], cmp);
        DedupAfterStrict(rest[0], rest[1..], cmp, same);
        var d := [rest[0]] + DedupAfter(rest[0], rest[1..], same);
        forall k | 0 <= k < |d|
          ensures cmp(kept, d[k]) == Less
        {
          if k > 0 {
            assert cmp(d[0], d[k]) == Less;
            Tied(kept, d[0], d[k], cmp);
          }
        }
      }
    }
  }

  lemma {:induction false} DedupAfterCovers<T(!new)>(kept: T, rest: seq<T>, x: T, cmp: (T, T) -> Order,
    same: (T, T) -> bool)
    returns (y: T)
    requires Ordering(cmp) && x in rest
    requires forall a, b :: same(a, b) <==> cmp(a, b) == Equal
    ensures (y == kept || y in DedupAfter(kept, rest, same)) && cmp(y, x) == Equal
  {
    assert rest == [rest[0]] + rest[1..];
    if same(kept, rest[0]) {
      if x == rest[0] {
        y := kept;
      } else {
        y := DedupAfterCovers(kept, rest[1..], x, cmp, same);
      }
    } else if x == rest[0] {
      Tied(x, x, x, cmp);
      y := x;
    } else {
      y := DedupAfterCovers(rest[0], rest[1..], x, cmp, same);
    }
  }

  // On a sorted list whose ties are what `same` accepts, dedup keeps one
  // element of each tie class.
  lemma DedupOfSorted<T(!new)>(s: seq<T>, cmp: (T, T) -> Order, same: (T, T) -> bool)
    requires Ordering(cmp) && Sorted(s, cmp)
    requires forall a, b :: same(a, b) <==> cmp(a, b) == Equal
    ensures StrictlySorted(DedupBy(s, same), cmp)
    ensures forall x | x in DedupBy(s, same) :: x in s
    ensures forall x | x in s :: exists y :: y in DedupBy(s, same) && cmp(y, x) == Equal
  {
    if s != [] {
      assert s == [s[0]] + s[1..];
      DedupAfterStrict(s[0], s[1..], cmp, same);
      DedupAfterMembers(s[0], s[1..], same);
      forall x | x in s
        ensures exists y :: y in DedupBy(s, same) && cmp(y, x) == Equal
      {
        Tied(x, x, x, cmp);
        if x != s[0] {
          var y := DedupAfterCovers(s[0], s[1..], x, cmp, same);
          assert y in DedupBy(s, same);
        }
      }
    }
  }

  // Sorting and dedup by ties keep one element of each class.
  lemma DedupRepresents<T(!new)>(own: seq<T>, sorted: seq<T>, kept: seq<T>, cmp: (T, T) -> Order, same: (T, T) -> bool)
    requires Ordering(cmp) && Sorted(sorted, cmp) && (forall x :: x in sorted <==> x in own) &&
      kept == DedupBy(sorted, same)
    requires forall a, b :: same(a, b) <==> cmp(a, b) == Equal
    ensures StrictlySorted(kept, cmp)
    ensures forall x | x in kept :: x in own
    ensures forall x {:trigger RepresentedBy(kept, x, same)} :: x in own ==> RepresentedBy(kept, x, same)
  {
    DedupOfSorted(sorted, cmp, same);
    RepresentedWhenTied(own, sorted, kept, cmp, same);
  }

  lemma RepresentedWhenTied<T(!new)>(own: seq<T>, sorted: seq<T>, kept: seq<T>, cmp: (T, T) -> Order,
    same: (T, T) -> bool)
    requires forall x :: x in sorted <==> x in own
    requires forall x | x in sorted :: exists y :: y in kept && cmp(y, x) == Equal
    requires forall a, b :: same(a, b) <==> cmp(a, b) == Equal
    ensures forall x {:trigger RepresentedBy(kept, x, same)} :: x in own ==> RepresentedBy(kept, x, same)
  {
    forall x | x in own
      ensures RepresentedBy(kept, x, same)
    {
      assert x in sorted;
      var y :| y in kept && cmp(y, x) == Equal;
      assert same(y, x);
    }
  }

  ghost predicate RepresentedBy<T(!new)>(kept: seq<T>, x: T, same: (T, T) -> bool) {
    exists y :: y in kept && same(y, x)
  }

  lemma {:induction false} DedupOfStrict<T>(s: seq<T>, same: (T, T) -> bool)
    requires forall i | 0 < i < |s| :: !same(s[i - 1], s[i])
    ensures DedupBy(s, same) == s
  {
    if |s| > 1 {
      assert !same(s[1 - 1], s[1]);
      var t := s[1..];
      forall i | 0 < i < |t|
        ensures !same(t[i - 1], t[i])
      {
        assert !same(s[(i + 1) - 1], s[i + 1]);
      }
      DedupOfStrict(t, same);
      assert s == [s[0]] + s[1..];
    }
  }
}
