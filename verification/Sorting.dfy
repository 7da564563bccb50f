/** The stable sort by a numeric key that every reassembler applies to its chunk results. */
module Sorting {

  function Insert<T>(x: T, s: seq<T>, key: T -> int): seq<T> {
    if s == [] || key(x) <= key(s[0]) then [x] + s else [s[0]] + Insert(x, s[1..], key)
  }

  function SortBy<T>(s: seq<T>, key: T -> int): seq<T> {
    if s == [] then [] else Insert(s[0], SortBy(s[1..], key), key)
  }

  ghost predicate Sorted<T>(s: seq<T>, key: T -> int) {
    forall i, j | 0 <= i < j < |s| :: key(s[i]) <= key(s[j])
  }

  ghost predicate DistinctKeys<T>(s: seq<T>, key: T -> int) {
    forall i, j | 0 <= i < j < |s| :: key(s[i]) != key(s[j])
  }

  lemma {:induction false} InsertMultiset<T(!new)>(x: T, s: seq<T>, key: T -> int)
    ensures multiset(Insert(x, s, key)) == multiset{x} + multiset(s)
  {
    if s != [] && key(x) > key(s[0]) {
      InsertMultiset(x, s[1..], key);
      assert s == [s[0]] + s[1..];
    }
  }

  lemma {:induction false} InsertSorted<T(!new)>(x: T, s: seq<T>, key: T -> int)
    requires Sorted(s, key)
    ensures Sorted(Insert(x, s, key), key)
  {
    if s != [] && key(x) > key(s[0]) {
      InsertSorted(x, s[1..], key);
      InsertMembers(x, s[1..], key);
      var r, t := Insert(x, s, key), Insert(x, s[1..], key);
      assert r == [s[0]] + t;
      forall y | y in t ensures key(s[0]) <= key(y) {
        assert y == x || y in s[1..];
        if y != x {
          assert y in s[1..];
          var k :| 0 <= k < |s[1..]| && s[1..][k] == y;
          assert key(s[0]) <= key(s[k + 1]);
        }
      }
      forall i, j | 0 <= i < j < |r| ensures key(r[i]) <= key(r[j]) {
        assert t[j - 1] in t;
        if i > 0 {
          assert key(t[i - 1]) <= key(t[j - 1]);
        }
      }
    }
  }

  lemma {:induction false} InsertMembers<T(!new)>(x: T, s: seq<T>, key: T -> int)
    ensures forall y :: y in Insert(x, s, key) <==> y == x || y in s
  {
    if s != [] && key(x) > key(s[0]) {
      InsertMembers(x, s[1..], key);
    }
  }

  lemma {:induction false} SortBySorted<T(!new)>(s: seq<T>, key: T -> int)
    ensures Sorted(SortBy(s, key), key)
  {
    if s != [] {
      SortBySorted(s[1..], key);
      InsertSorted(s[0], SortBy(s[1..], key), key);
    }
  }

  lemma {:induction false} SortByPermutes<T(!new)>(s: seq<T>, key: T -> int)
    ensures multiset(SortBy(s, key)) == multiset(s)
    ensures |SortBy(s, key)| == |s|
    ensures forall x :: x in SortBy(s, key) <==> x in s
  {
    var t := SortBy(s, key);
    if s != [] {
      SortByPermutes(s[1..], key);
      InsertMultiset(s[0], SortBy(s[1..], key), key);
      assert s == [s[0]] + s[1..];
    }
    assert |multiset(t)| == |multiset(s)|;
    forall x ensures x in t <==> x in s {
      assert x in t <==> x in multiset(t);
    }
  }

  lemma DistinctSplit<T(!new)>(x: T, s: seq<T>, key: T -> int)
    ensures DistinctKeys([x] + s, key) <==> DistinctKeys(s, key) && forall y | y in s :: key(y) != key(x)
  {
    var r := [x] + s;
    if DistinctKeys(r, key) {
      forall i, j | 0 <= i < j < |s| ensures key(s[i]) != key(s[j]) {
        assert r[i + 1] == s[i] && r[j + 1] == s[j];
      }
      forall y | y in s ensures key(y) != key(x) {
        var i :| 0 <= i < |s| && s[i] == y;
        assert r[0] == x && r[i + 1] == y;
      }
    }
  }

  lemma {:induction false} InsertDistinct<T(!new)>(x: T, s: seq<T>, key: T -> int)
    ensures DistinctKeys(Insert(x, s, key), key) <==> DistinctKeys([x] + s, key)
  {
    if s != [] && key(x) > key(s[0]) {
      var tail := s[1..];
      assert s == [s[0]] + tail;
      assert forall y :: y in s <==> y == s[0] || y in tail;
      InsertDistinct(x, tail, key);
      InsertMembers(x, tail, key);
      DistinctSplit(x, s, key);
      DistinctSplit(x, tail, key);
      DistinctSplit(s[0], Insert(x, tail, key), key);
      DistinctSplit(s[0], tail, key);
      assert Insert(x, s, key) == [s[0]] + Insert(x, tail, key);
      assert s[0] in s && key(s[0]) != key(x);
      assert (forall y | y in s :: key(y) != key(x)) <==> (forall y | y in tail :: key(y) != key(x));
      assert (forall y | y in Insert(x, tail, key) :: key(y) != key(s[0])) <==>
        (forall y | y in tail :: key(y) != key(s[0]));
    }
  }

  lemma {:induction false} SortByDistinct<T(!new)>(s: seq<T>, key: T -> int)
    ensures DistinctKeys(SortBy(s, key), key) <==> DistinctKeys(s, key)
  {
    if s != [] {
      var t := SortBy(s[1..], key);
      SortByDistinct(s[1..], key);
      InsertDistinct(s[0], t, key);
      DistinctSplit(s[0], t, key);
      DistinctSplit(s[0], s[1..], key);
      SortByPermutes(s[1..], key);
      assert s == [s[0]] + s[1..];
      assert SortBy(s, key) == Insert(s[0], t, key);
      assert (forall y | y in t :: key(y) != key(s[0])) <==> (forall y | y in s[1..] :: key(y) != key(s[0]));
    }
  }

  lemma TailMultiset<T>(a: seq<T>)
    requires a != []
    ensures multiset(a[1..]) == multiset(a) - multiset{a[0]}
  {
    assert a == [a[0]] + a[1..];
  }

  lemma SortedHead<T(!new)>(a: seq<T>, b: seq<T>, key: T -> int)
    requires Sorted(a, key) && Sorted(b, key) && a != [] && b != []
    requires a[0] in b && b[0] in a && DistinctKeys(b, key)
    ensures a[0] == b[0]
  {
    var i :| 0 <= i < |b| && b[i] == a[0];
    var j :| 0 <= j < |a| && a[j] == b[0];
    assert key(a[0]) <= key(a[j]) && key(b[0]) <= key(b[i]);
  }

  /** Two sorted arrangements of the same elements coincide when no two elements share a key. */
  lemma {:induction false} SortedUnique<T(!new)>(a: seq<T>, b: seq<T>, key: T -> int)
    requires Sorted(a, key) && Sorted(b, key) && multiset(a) == multiset(b)
    requires DistinctKeys(b, key)
    ensures a == b
  {
    assert |multiset(a)| == |a| && |multiset(b)| == |b|;
    if a != [] {
      assert a[0] in multiset(b) && b[0] in multiset(a);
      SortedHead(a, b, key);
      TailMultiset(a);
      TailMultiset(b);
      SortedUnique(a[1..], b[1..], key);
    }
  }

  /** Sorting undoes any shuffling of an arrangement that is already in strict key order. */
  lemma SortRestores<T(!new)>(shuffled: seq<T>, arranged: seq<T>, key: T -> int)
    requires multiset(shuffled) == multiset(arranged)
    requires Sorted(arranged, key) && DistinctKeys(arranged, key)
    ensures SortBy(shuffled, key) == arranged
  {
    SortByPermutes(shuffled, key);
    SortBySorted(shuffled, key);
    SortedUnique(SortBy(shuffled, key), arranged, key);
  }

  ghost predicate Indexed<T>(s: seq<T>, key: T -> int) {
    forall i | 0 <= i < |s| :: key(s[i]) == i
  }

  lemma IndexedIsSorted<T(!new)>(s: seq<T>, key: T -> int)
    requires Indexed(s, key)
    ensures Sorted(s, key) && DistinctKeys(s, key)
  {
  }

  /** Distinct keys drawn from 0..n-1, n of them: exactly then sorting puts key i at position i. */
  lemma SortIndexedIff<T(!new)>(s: seq<T>, key: T -> int)
    ensures Indexed(SortBy(s, key), key) <==>
            DistinctKeys(s, key) && forall x | x in s :: 0 <= key(x) < |s|
  {
    var t := SortBy(s, key);
    SortByPermutes(s, key);
    SortBySorted(s, key);
    SortByDistinct(s, key);
    if Indexed(t, key) {
      forall x | x in s ensures 0 <= key(x) < |s| {
        assert x in t;
      }
    }
    if DistinctKeys(s, key) && forall x | x in s :: 0 <= key(x) < |s| {
      forall i | 0 <= i < |t| ensures key(t[i]) == i {
        assert forall k | 0 <= k < |t| :: t[k] in s;
        AtLeast(t, key, i);
        AtMost(t, key, i);
      }
    }
  }

  lemma {:induction false} AtLeast<T(!new)>(t: seq<T>, key: T -> int, i: nat)
    requires i < |t| && Sorted(t, key) && DistinctKeys(t, key)
    requires forall k | 0 <= k < |t| :: 0 <= key(t[k])
    ensures i <= key(t[i])
  {
    if i > 0 {
      AtLeast(t, key, i - 1);
    }
  }

  lemma {:induction false} AtMost<T(!new)>(t: seq<T>, key: T -> int, i: nat)
    requires i < |t| && Sorted(t, key) && DistinctKeys(t, key)
    requires forall k | 0 <= k < |t| :: key(t[k]) < |t|
    ensures key(t[i]) <= i
    decreases |t| - i
  {
    if i + 1 < |t| {
      AtMost(t, key, i + 1);
    }
  }
}
