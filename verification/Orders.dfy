/** Strict total orders and the one ascending listing of a finite set.
    The program sorts and compacts slices so that equal sets have equal
    slices; `Listing` is that canonical slice. */
module Orders {

  ghost predicate StrictOrder<T(!new)>(lt: (T, T) -> bool) {
    && (forall x :: !lt(x, x))
    && (forall x, y, z :: lt(x, y) && lt(y, z) ==> lt(x, z))
    && (forall x, y :: lt(x, y) || x == y || lt(y, x))
  }

  ghost predicate Ascending<T>(s: seq<T>, lt: (T, T) -> bool) {
    forall i, j :: 0 <= i < j < |s| ==> lt(s[i], s[j])
  }

  ghost predicate Sorted<T>(s: seq<T>, lt: (T, T) -> bool) {
    forall i, j :: 0 <= i < j < |s| ==> !lt(s[j], s[i])
  }

  function Elems<T>(s: seq<T>): set<T> {
    set x | x in s
  }

  lemma ElemsAppend<T>(s: seq<T>, x: T)
    ensures Elems(s + [x]) == Elems(s) + {x}
  {
    assert x in s + [x];
  }

  predicate Distinct<T(==)>(s: seq<T>) {
    forall i, j :: 0 <= i < j < |s| ==> s[i] != s[j]
  }

  lemma {:induction false} DistinctSize<T>(s: seq<T>)
    requires Distinct(s)
    ensures |Elems(s)| == |s|
  {
    if s != [] {
      var front, x := s[..|s| - 1], s[|s| - 1];
      DistinctSize(front);
      assert s == front + [x];
      assert x !in Elems(front);
      hide Elems;
      ElemsAppend(front, x);
    }
  }

  lemma {:induction false} SubsetSize<T>(a: set<T>, b: set<T>)
    requires a <= b
    ensures |a| <= |b|
  {
    if a != {} {
      var x :| x in a;
      SubsetSize(a - {x}, b - {x});
    }
  }

  /** Ranging over a set: every element once, in an order nothing may rely on. */
  method RangeOver<T(==)>(s: set<T>) returns (out: seq<T>)
    ensures Elems(out) == s && Distinct(out)
  {
    out := [];
    var todo := s;
    while todo != {}
      invariant todo <= s && Elems(out) == s - todo && Distinct(out)
    {
      var x :| x in todo;
      assert x !in Elems(out);
      ElemsAppend(out, x);
      out := out + [x];
      todo := todo - {x};
    }
  }

  /** Lexicographic order on integer sequences: a proper prefix comes first. */
  predicate SeqLess(a: seq<int>, b: seq<int>) {
    if b == [] then false
    else if a == [] then true
    else if a[0] != b[0] then a[0] < b[0]
    else SeqLess(a[1..], b[1..])
  }

  function Codes(s: string): seq<int> {
    seq(|s|, i requires 0 <= i < |s| => s[i] as int)
  }

  /** Byte order on strings, as sort.Strings uses. */
  predicate StringLess(a: string, b: string) {
    SeqLess(Codes(a), Codes(b))
  }

  lemma {:induction false} SeqLessIrreflexive(a: seq<int>)
    ensures !SeqLess(a, a)
  {
    if a != [] { SeqLessIrreflexive(a[1..]); }
  }

  lemma {:induction false} SeqLessTransitive(a: seq<int>, b: seq<int>, c: seq<int>)
    requires SeqLess(a, b) && SeqLess(b, c)
    ensures SeqLess(a, c)
  {
    if a != [] && a[0] == b[0] && b[0] == c[0] {
      SeqLessTransitive(a[1..], b[1..], c[1..]);
    }
  }

  lemma {:induction false} SeqLessTotal(a: seq<int>, b: seq<int>)
    ensures SeqLess(a, b) || a == b || SeqLess(b, a)
  {
    if a != [] && b != [] && a[0] == b[0] {
      SeqLessTotal(a[1..], b[1..]);
      assert a == [a[0]] + a[1..] && b == [b[0]] + b[1..];
    }
  }

  /** An order read off an injective integer key is a strict total order. */
  lemma KeyedOrder<T(!new)>(key: T -> seq<int>, lt: (T, T) -> bool)
    requires forall x, y :: lt(x, y) == SeqLess(key(x), key(y))
    requires forall x, y :: key(x) == key(y) ==> x == y
    ensures StrictOrder(lt)
  {
    forall x ensures !lt(x, x) { SeqLessIrreflexive(key(x)); }
    forall x, y, z | lt(x, y) && lt(y, z) ensures lt(x, z) {
      SeqLessTransitive(key(x), key(y), key(z));
    }
    forall x, y ensures lt(x, y) || x == y || lt(y, x) {
      SeqLessTotal(key(x), key(y));
    }
  }

  lemma CodesInjective(a: string, b: string)
    requires Codes(a) == Codes(b)
    ensures a == b
  {
    forall i | 0 <= i < |a| ensures i < |b| && a[i] == b[i] {
      assert |Codes(a)| == |a| && |Codes(b)| == |b|;
      assert Codes(a)[i] == Codes(b)[i];
    }
    assert |a| == |Codes(a)| == |b|;
  }

  lemma StringOrder()
    ensures StrictOrder(StringLess)
  {
    forall x, y | Codes(x) == Codes(y) ensures x == y { CodesInjective(x, y); }
    KeyedOrder(Codes, StringLess);
  }

  /** The least element of a non-empty finite set. */
  ghost function Least<T(!new)>(s: set<T>, lt: (T, T) -> bool): (m: T)
    requires StrictOrder(lt) && s != {}
    ensures m in s && forall x :: x in s && x != m ==> lt(m, x)
    decreases |s|
  {
    var x :| x in s;
    if s == {x} then x
    else
      var m := Least(s - {x}, lt);
      assert forall y :: y in s && y != x ==> y in s - {x};
      if lt(x, m) then x else m
  }

  lemma PrependListing<T>(m: T, rest: seq<T>, s: set<T>, lt: (T, T) -> bool)
    requires m in s && Ascending(rest, lt) && Elems(rest) == s - {m} && |rest| == |s - {m}|
    requires forall x :: x in s && x != m ==> lt(m, x)
    ensures Ascending([m] + rest, lt) && Elems([m] + rest) == s && |[m] + rest| == |s|
  {
    assert forall i :: 0 <= i < |rest| ==> rest[i] in Elems(rest);
    assert Elems([m] + rest) == {m} + Elems(rest);
  }

  /** The ascending listing of a set: every element once, in order. */
  ghost function Listing<T(!new)>(s: set<T>, lt: (T, T) -> bool): (r: seq<T>)
    requires StrictOrder(lt)
    ensures Ascending(r, lt) && Elems(r) == s && |r| == |s|
    decreases |s|
  {
    if s == {} then []
    else
      var m := Least(s, lt);
      var rest := Listing(s - {m}, lt);
      PrependListing(m, rest, s, lt);
      [m] + rest
  }

  lemma AscendingHead<T(!new)>(a: seq<T>, lt: (T, T) -> bool)
    requires StrictOrder(lt) && Ascending(a, lt) && a != []
    ensures a[0] !in a[1..] && Elems(a[1..]) == Elems(a) - {a[0]}
    ensures forall x :: x in Elems(a) && x != a[0] ==> lt(a[0], x)
  {
    assert a == [a[0]] + a[1..];
  }

  /** Two ascending sequences of the same elements are the same sequence. */
  lemma {:induction false} AscendingUnique<T(!new)>(a: seq<T>, b: seq<T>, lt: (T, T) -> bool)
    requires StrictOrder(lt) && Ascending(a, lt) && Ascending(b, lt)
    requires Elems(a) == Elems(b)
    ensures a == b
  {
    if b == [] {
      assert forall i :: 0 <= i < |a| ==> a[i] in Elems(a);
    } else {
      assert b[0] in Elems(b);
      assert a[0] in Elems(a);
      AscendingHead(a, lt);
      AscendingHead(b, lt);
      assert a[0] == b[0];
      AscendingUnique(a[1..], b[1..], lt);
      assert a == [a[0]] + a[1..] && b == [b[0]] + b[1..];
    }
  }

  /** The library sort the program calls: a sorted permutation of its input,
      in which what lt does not tell apart keeps its order. */
  function InsertSorted<T>(x: T, s: seq<T>, lt: (T, T) -> bool): seq<T> {
    if s == [] || !lt(s[0], x) then [x] + s else [s[0]] + InsertSorted(x, s[1..], lt)
  }

  function Sort<T>(s: seq<T>, lt: (T, T) -> bool): seq<T> {
    if s == [] then [] else InsertSorted(s[0], Sort(s[1..], lt), lt)
  }

  lemma {:induction false} InsertSortedElements<T>(x: T, s: seq<T>, lt: (T, T) -> bool)
    ensures multiset(InsertSorted(x, s, lt)) == multiset{x} + multiset(s)
  {
    if s != [] && lt(s[0], x) {
      InsertSortedElements(x, s[1..], lt);
      assert s == [s[0]] + s[1..];
    }
  }

  lemma SortedCons<T(!new)>(x: T, s: seq<T>, lt: (T, T) -> bool)
    requires Sorted(s, lt) && forall y :: y in s ==> !lt(y, x)
    ensures Sorted([x] + s, lt)
  {
  }

  lemma {:induction false} InsertSortedCorrect<T(!new)>(x: T, s: seq<T>, lt: (T, T) -> bool)
    requires StrictOrder(lt) && Sorted(s, lt)
    ensures Sorted(InsertSorted(x, s, lt), lt)
  {
    if s == [] {
    } else if !lt(s[0], x) {
      forall y | y in s ensures !lt(y, x) {
        var k :| 0 <= k < |s| && s[k] == y;
        assert k == 0 || !lt(s[k], s[0]);
      }
      SortedCons(x, s, lt);
    } else {
      var r := InsertSorted(x, s[1..], lt);
      InsertSortedCorrect(x, s[1..], lt);
      InsertSortedElements(x, s[1..], lt);
      forall y | y in r ensures !lt(y, s[0]) {
        assert y in multiset(r);
        assert y == x || y in s[1..];
      }
      SortedCons(s[0], r, lt);
    }
  }

  lemma {:induction false} SortCorrect<T(!new)>(s: seq<T>, lt: (T, T) -> bool)
    requires StrictOrder(lt)
    ensures Sorted(Sort(s, lt), lt) && multiset(Sort(s, lt)) == multiset(s)
  {
    if s != [] {
      SortCorrect(s[1..], lt);
      InsertSortedCorrect(s[0], Sort(s[1..], lt), lt);
      InsertSortedElements(s[0], Sort(s[1..], lt), lt);
      assert s == [s[0]] + s[1..];
    }
  }

  /** slices.Compact: drops each element equal to the one before it. */
  function Compact<T(==)>(s: seq<T>): seq<T> {
    if |s| <= 1 then s
    else if s[0] == s[1] then Compact(s[1..])
    else [s[0]] + Compact(s[1..])
  }

  lemma {:induction false} CompactElems<T>(s: seq<T>)
    ensures Elems(Compact(s)) == Elems(s)
    ensures s != [] ==> Compact(s) != [] && Compact(s)[0] == s[0]
  {
    if |s| > 1 {
      CompactElems(s[1..]);
      assert s == [s[0]] + s[1..];
      assert Elems(s) == {s[0]} + Elems(s[1..]);
      assert Elems([s[0]] + Compact(s[1..])) == {s[0]} + Elems(Compact(s[1..]));
    }
  }

  lemma {:induction false} CompactAscending<T(!new)>(s: seq<T>, lt: (T, T) -> bool)
    requires StrictOrder(lt) && Sorted(s, lt)
    ensures Ascending(Compact(s), lt)
  {
    if |s| > 1 {
      var t := s[1..];
      CompactAscending(t, lt);
      CompactElems(t);
      if s[0] != s[1] {
        assert lt(s[0], s[1]);
        forall y | y in Compact(t) ensures lt(s[0], y) {
          assert y in Elems(Compact(t));
          assert y in t;
          var k :| 0 <= k < |t| && t[k] == y;
          assert !lt(y, s[1]);
        }
      }
    }
  }

  /** Sorting and compacting any slice gives the listing of its elements. */
  lemma SortCompactIsListing<T(!new)>(s: seq<T>, lt: (T, T) -> bool)
    requires StrictOrder(lt)
    ensures Compact(Sort(s, lt)) == Listing(Elems(s), lt)
  {
    SortCorrect(s, lt);
    CompactAscending(Sort(s, lt), lt);
    CompactElems(Sort(s, lt));
    assert Elems(Sort(s, lt)) == Elems(s) by {
      forall x ensures x in Elems(Sort(s, lt)) <==> x in Elems(s) {
        assert x in Sort(s, lt) <==> x in multiset(Sort(s, lt));
        assert x in s <==> x in multiset(s);
      }
    }
    AscendingUnique(Compact(Sort(s, lt)), Listing(Elems(s), lt), lt);
  }

  /** Sorting a slice without repeats gives the listing of its elements. */
  lemma SortDistinctIsListing<T(!new)>(s: seq<T>, lt: (T, T) -> bool)
    requires StrictOrder(lt)
    requires forall i, j :: 0 <= i < j < |s| ==> s[i] != s[j]
    ensures Sort(s, lt) == Listing(Elems(s), lt)
  {
    SortCorrect(s, lt);
    var r := Sort(s, lt);
    assert Elems(r) == Elems(s) by {
      forall x ensures x in Elems(r) <==> x in Elems(s) {
        assert x in r <==> x in multiset(r);
        assert x in s <==> x in multiset(s);
      }
    }
    assert Ascending(r, lt) by {
      forall i, j | 0 <= i < j < |r| ensures lt(r[i], r[j]) {
        if r[i] == r[j] {
          RepeatCounts(r, i, j);
          DistinctCounts(s, r[i]);
        }
      }
    }
    AscendingUnique(r, Listing(Elems(s), lt), lt);
  }

  lemma RepeatCounts<T>(r: seq<T>, i: nat, j: nat)
    requires i < j < |r| && r[i] == r[j]
    ensures multiset(r)[r[i]] >= 2
  {
    assert r == r[..j] + [r[j]] + r[j+1..];
    assert r[..j][i] == r[i];
    assert r[i] in multiset(r[..j]);
  }

  lemma {:induction false} DistinctCounts<T>(s: seq<T>, x: T)
    requires forall i, j :: 0 <= i < j < |s| ==> s[i] != s[j]
    ensures multiset(s)[x] <= 1
  {
    if s != [] {
      assert s == [s[0]] + s[1..];
      DistinctCounts(s[1..], x);
      if x == s[0] {
        assert x !in s[1..];
        assert x !in multiset(s[1..]);
      }
    }
  }

  // ----- Lexicographic orders -----

  function Lex<A(==), B>(la: (A, A) -> bool, lb: (B, B) -> bool): ((A, B), (A, B)) -> bool {
    (x: (A, B), y: (A, B)) => if x.0 != y.0 then la(x.0, y.0) else lb(x.1, y.1)
  }

  lemma LexOrder<A(!new), B(!new)>(la: (A, A) -> bool, lb: (B, B) -> bool)
    requires StrictOrder(la) && StrictOrder(lb)
    ensures StrictOrder(Lex(la, lb))
  {
    var lt := Lex(la, lb);
    forall x: (A, B) ensures !lt(x, x) {
      assert !lb(x.1, x.1);
    }
    forall x: (A, B), y: (A, B), z: (A, B) | lt(x, y) && lt(y, z) ensures lt(x, z) {
      if x.0 == y.0 && y.0 == z.0 {
        assert lb(x.1, y.1) && lb(y.1, z.1);
      } else if x.0 != y.0 && y.0 != z.0 {
        assert la(x.0, y.0) && la(y.0, z.0) && !la(x.0, x.0);
        assert la(x.0, z.0);
      }
    }
    forall x: (A, B), y: (A, B) ensures lt(x, y) || x == y || lt(y, x) {
      if x.0 == y.0 {
        assert lb(x.1, y.1) || x.1 == y.1 || lb(y.1, x.1);
      } else {
        assert la(x.0, y.0) || la(y.0, x.0);
      }
    }
  }

  predicate IntLess(a: int, b: int) {
    a < b
  }

  lemma IntOrder()
    ensures StrictOrder(IntLess)
  {
  }

  /** An order read off an injective key. */
  lemma PullBackOrder<T(!new), U(!new)>(key: T -> U, lu: (U, U) -> bool, lt: (T, T) -> bool)
    requires StrictOrder(lu)
    requires forall x, y :: lt(x, y) == lu(key(x), key(y))
    requires forall x, y :: key(x) == key(y) ==> x == y
    ensures StrictOrder(lt)
  {
  }

  // ----- Sorting by a key -----

  function Map<T, U>(f: T -> U, s: seq<T>): (r: seq<U>)
    ensures |r| == |s| && forall i :: 0 <= i < |s| ==> r[i] == f(s[i])
  {
    seq(|s|, i requires 0 <= i < |s| => f(s[i]))
  }

  lemma {:induction false} InsertMaps<T, U>(x: T, s: seq<T>, f: T -> U, lt: (T, T) -> bool, lu: (U, U) -> bool)
    requires forall a | a in s :: lt(a, x) == lu(f(a), f(x))
    ensures Map(f, InsertSorted(x, s, lt)) == InsertSorted(f(x), Map(f, s), lu)
  {
    if s != [] && lt(s[0], x) {
      InsertMaps(x, s[1..], f, lt, lu);
      assert Map(f, s)[1..] == Map(f, s[1..]);
    }
  }

  lemma {:induction false} SortElements<T>(s: seq<T>, lt: (T, T) -> bool)
    ensures multiset(Sort(s, lt)) == multiset(s)
  {
    if s != [] {
      SortElements(s[1..], lt);
      InsertSortedElements(s[0], Sort(s[1..], lt), lt);
      assert s == [s[0]] + s[1..];
    }
  }

  lemma SortMembers<T>(s: seq<T>, lt: (T, T) -> bool)
    ensures forall x :: x in Sort(s, lt) <==> x in s
    ensures |Sort(s, lt)| == |s|
  {
    SortElements(s, lt);
    assert |multiset(Sort(s, lt))| == |multiset(s)|;
    forall x ensures x in Sort(s, lt) <==> x in s {
      assert x in Sort(s, lt) <==> x in multiset(Sort(s, lt));
      assert x in s <==> x in multiset(s);
    }
  }

  /** Sorting by a key sorts the keys. */
  lemma {:induction false} SortMaps<T(!new), U>(s: seq<T>, f: T -> U, lt: (T, T) -> bool, lu: (U, U) -> bool)
    requires forall a, b :: lt(a, b) == lu(f(a), f(b))
    ensures Map(f, Sort(s, lt)) == Sort(Map(f, s), lu)
  {
    if s != [] {
      SortMaps(s[1..], f, lt, lu);
      InsertMaps(s[0], Sort(s[1..], lt), f, lt, lu);
      assert Map(f, s)[1..] == Map(f, s[1..]);
    }
  }
}
