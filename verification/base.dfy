/** Shared vocabulary: optional values, results, JavaScript truthiness of
    request fields, and facts about sequences without repeated elements. */
module Base {

  datatype Option<+T> = None | Some(value: T)

  datatype Result<+T, +E> = Success(value: T) | Failure(error: E)

  /** JavaScript truthiness of an optional string field of a request body:
      an absent field and the empty string are both falsy. */
  predicate Truthy(s: Option<string>)
  {
    s.Some? && s.value != ""
  }

  /** No element occurs twice. */
  predicate NoDup<T(==)>(s: seq<T>)
  {
    forall i, j :: 0 <= i < j < |s| ==> s[i] != s[j]
  }

  function Elems<T>(s: seq<T>): set<T>
  {
    set x | x in s
  }

  /** The elements of `s` that satisfy `p`, in their original order. */
  function Keep<T>(s: seq<T>, p: T -> bool): (r: seq<T>)
    ensures |r| <= |s|
    ensures forall i :: 0 <= i < |r| ==> r[i] in s && p(r[i])
    ensures forall i :: 0 <= i < |s| && p(s[i]) ==> s[i] in r
  {
    if s == [] then []
    else if p(s[0]) then [s[0]] + Keep(s[1..], p)
    else Keep(s[1..], p)
  }

  /** Number of occurrences of `x` in `s`. */
  function Occurrences<T(==)>(s: seq<T>, x: T): nat
  {
    if s == [] then 0 else (if s[0] == x then 1 else 0) + Occurrences(s[1..], x)
  }

  lemma {:induction false} NoDupTail<T>(s: seq<T>)
    requires NoDup(s) && s != []
    ensures NoDup(s[1..]) && s[0] !in s[1..]
  {
    forall i, j | 0 <= i < j < |s| - 1
      ensures s[1..][i] != s[1..][j]
    {
      assert s[1..][i] == s[i + 1] && s[1..][j] == s[j + 1];
    }
    forall k | 0 <= k < |s| - 1
      ensures s[1..][k] != s[0]
    {
      assert s[1..][k] == s[k + 1];
    }
  }

  lemma {:induction false} NoDupCons<T>(x: T, s: seq<T>)
    requires NoDup(s) && x !in s
    ensures NoDup([x] + s)
  {
    var t := [x] + s;
    forall i, j | 0 <= i < j < |t|
      ensures t[i] != t[j]
    {
      if i == 0 {
        assert t[j] == s[j - 1];
      } else {
        assert t[i] == s[i - 1] && t[j] == s[j - 1];
      }
    }
  }

  /** Two sequences without repeats and without a common element join
      into one without repeats. */
  lemma NoDupAppend<T>(a: seq<T>, b: seq<T>)
    requires NoDup(a) && NoDup(b)
    requires forall x :: x in a ==> x !in b
    ensures NoDup(a + b)
  {
    var c := a + b;
    forall i, j | 0 <= i < j < |c|
      ensures c[i] != c[j]
    {
      if j < |a| {
        assert c[i] == a[i] && c[j] == a[j];
      } else if i >= |a| {
        assert c[i] == b[i - |a|] && c[j] == b[j - |a|];
      } else {
        assert c[i] == a[i] && c[j] == b[j - |a|];
        assert a[i] in a;
      }
    }
  }

  /** Filtering a sequence without repeats yields one without repeats. */
  lemma {:induction false} KeepNoDup<T>(s: seq<T>, p: T -> bool)
    requires NoDup(s)
    ensures NoDup(Keep(s, p))
  {
    if s != [] {
      NoDupTail(s);
      KeepNoDup(s[1..], p);
      if p(s[0]) {
        NoDupCons(s[0], Keep(s[1..], p));
      }
    }
  }

  /** A sequence without repeats has as many distinct elements as positions. */
  lemma {:induction false} NoDupCard<T>(s: seq<T>)
    requires NoDup(s)
    ensures |Elems(s)| == |s|
  {
    if s != [] {
      NoDupTail(s);
      NoDupCard(s[1..]);
      assert Elems(s) == {s[0]} + Elems(s[1..]);
    }
  }

  /** A sequence without repeats drawn from `S` is no longer than `S` is large. */
  lemma NoDupWithin<T>(s: seq<T>, S: set<T>)
    requires NoDup(s) && Elems(s) <= S
    ensures |s| <= |S|
  {
    NoDupCard(s);
    assert S == Elems(s) + (S - Elems(s));
  }

  /** In a sequence without repeats, a member occurs exactly once. */
  lemma {:induction false} NoDupOccursOnce<T>(s: seq<T>, x: T)
    requires NoDup(s) && x in s
    ensures Occurrences(s, x) == 1
  {
    NoDupTail(s);
    if s[0] == x {
      NotInOccurrences(s[1..], x);
    } else {
      NoDupOccursOnce(s[1..], x);
    }
  }

  lemma {:induction false} NotInOccurrences<T>(s: seq<T>, x: T)
    requires x !in s
    ensures Occurrences(s, x) == 0
  {
    if s != [] {
      NotInOccurrences(s[1..], x);
    }
  }

  /** `s` without any copy of `x`, in order. */
  function Without<T(==)>(s: seq<T>, x: T): seq<T>
  {
    Keep(s, y => y != x)
  }

  /** Dropping every copy of `x` shortens `s` by the number of copies. */
  lemma {:induction false} WithoutLength<T>(s: seq<T>, x: T)
    ensures |Without(s, x)| + Occurrences(s, x) == |s|
  {
    if s != [] {
      WithoutLength(s[1..], x);
    }
  }

  /** Removing an element from a sequence without repeats removes exactly it,
      shortening the sequence by one when it was present. */
  lemma WithoutSpec<T>(s: seq<T>, x: T)
    requires NoDup(s)
    ensures NoDup(Without(s, x))
    ensures Elems(Without(s, x)) == Elems(s) - {x}
    ensures |Without(s, x)| == |s| - (if x in s then 1 else 0)
  {
    KeepNoDup(s, y => y != x);
    WithoutLength(s, x);
    if x in s {
      NoDupOccursOnce(s, x);
    } else {
      NotInOccurrences(s, x);
    }
    var r := Without(s, x);
    forall y | y in r
      ensures y in s && y != x
    {
      var i :| 0 <= i < |r| && r[i] == y;
    }
    forall y | y in s && y != x
      ensures y in r
    {
      var i :| 0 <= i < |s| && s[i] == y;
    }
  }
}
