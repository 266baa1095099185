/** The stable sort of `Array.prototype.sort` with a numeric comparator,
    specialised to "descending by a real-valued key". An ascending sort is the
    descending sort by the negated key. */
module Sorting {

  predicate SortedDesc<T>(s: seq<T>, key: T -> real)
  {
    forall i, j :: 0 <= i < j < |s| ==> key(s[i]) >= key(s[j])
  }

  /** The elements of `s` whose key equals `k`, in their order in `s`.
      A sort is stable when it keeps every such subsequence intact. */
  function Tied<T>(s: seq<T>, key: T -> real, k: real): seq<T>
  {
    if s == [] then []
    else (if key(s[0]) == k then [s[0]] else []) + Tied(s[1..], key, k)
  }

  /** Places `x` in front of the first element whose key is not larger. */
  function Insert<T>(x: T, s: seq<T>, key: T -> real): (r: seq<T>)
    ensures |r| == |s| + 1
  {
    if s == [] || key(x) >= key(s[0]) then [x] + s
    else [s[0]] + Insert(x, s[1..], key)
  }

  function SortDesc<T>(s: seq<T>, key: T -> real): (r: seq<T>)
    ensures |r| == |s|
  {
    if s == [] then [] else Insert(s[0], SortDesc(s[1..], key), key)
  }

  lemma {:induction false} InsertMultiset<T>(x: T, s: seq<T>, key: T -> real)
    ensures multiset(Insert(x, s, key)) == multiset(s) + multiset{x}
  {
    if s != [] && key(x) < key(s[0]) {
      InsertMultiset(x, s[1..], key);
      assert s == [s[0]] + s[1..];
    }
  }

  lemma {:induction false} InsertSorted<T>(x: T, s: seq<T>, key: T -> real)
    requires SortedDesc(s, key)
    ensures SortedDesc(Insert(x, s, key), key)
  {
    if s != [] && key(x) < key(s[0]) {
      var t := s[1..];
      assert SortedDesc(t, key);
      InsertSorted(x, t, key);
      InsertMultiset(x, t, key);
      var u := Insert(x, t, key);
      forall j | 0 <= j < |u|
        ensures key(s[0]) >= key(u[j])
      {
        assert u[j] in multiset(u);
        if u[j] != x {
          assert u[j] in multiset(t);
          var m :| 0 <= m < |t| && t[m] == u[j];
          assert t[m] == s[m + 1];
        }
      }
    }
  }

  /** Inserting `x` puts it in front of every element with the same key. */
  lemma {:induction false} InsertTied<T>(x: T, s: seq<T>, key: T -> real, k: real)
    ensures Tied(Insert(x, s, key), key, k)
         == (if key(x) == k then [x] else []) + Tied(s, key, k)
  {
    if s == [] || key(x) >= key(s[0]) {
      assert Insert(x, s, key)[1..] == s;
    } else {
      InsertTied(x, s[1..], key, k);
      assert Insert(x, s, key)[1..] == Insert(x, s[1..], key);
    }
  }

  /** The result is sorted by descending key, holds the same elements, and
      keeps elements with equal keys in their input order (stability). */
  lemma {:induction false} SortDescCorrect<T>(s: seq<T>, key: T -> real)
    ensures SortedDesc(SortDesc(s, key), key)
    ensures multiset(SortDesc(s, key)) == multiset(s)
    ensures forall k :: Tied(SortDesc(s, key), key, k) == Tied(s, key, k)
  {
    if s != [] {
      SortDescCorrect(s[1..], key);
      InsertSorted(s[0], SortDesc(s[1..], key), key);
      InsertMultiset(s[0], SortDesc(s[1..], key), key);
      assert s == [s[0]] + s[1..];
      forall k
        ensures Tied(SortDesc(s, key), key, k) == Tied(s, key, k)
      {
        InsertTied(s[0], SortDesc(s[1..], key), key, k);
      }
    }
  }

  /** Membership is exactly the input's. */
  lemma SortDescMembers<T>(s: seq<T>, key: T -> real)
    ensures forall x :: x in SortDesc(s, key) <==> x in s
  {
    SortDescCorrect(s, key);
    forall x
      ensures x in SortDesc(s, key) <==> x in s
    {
      assert x in SortDesc(s, key) <==> x in multiset(SortDesc(s, key));
      assert x in s <==> x in multiset(s);
    }
  }
}
