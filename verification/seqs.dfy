/** Order-preserving duplicate removal on tables of rows, as pandas'
    `DataFrame.drop_duplicates()` does with its default `keep='first'`: the first
    occurrence of every distinct row survives, in its original place in the order. */
module Seqs {

  /** No element occurs twice. */
  predicate NoDuplicates<T(==)>(s: seq<T>)
  {
    forall i, j :: 0 <= i < j < |s| ==> s[i] != s[j]
  }

  /** The position of the first occurrence of `x` in `s`. */
  function FirstIndex<T(==)>(s: seq<T>, x: T): (i: nat)
    requires x in s
    ensures i < |s| && s[i] == x && x !in s[..i]
  {
    if s[0] == x then 0
    else
      var j := FirstIndex(s[1..], x);
      assert s[..j + 1] == [s[0]] + s[1..][..j];
      j + 1
  }

  /** Any position holding `x` with no earlier `x` is the first index. */
  lemma FirstIndexUnique<T>(s: seq<T>, x: T, i: nat)
    requires i < |s| && s[i] == x && x !in s[..i]
    ensures FirstIndex(s, x) == i
  {
  }

  /** Appending to a sequence leaves the first index of its elements alone. */
  lemma FirstIndexOfPrefix<T>(p: seq<T>, s: seq<T>)
    requires |p| <= |s| && p == s[..|p|]
    ensures forall x :: x in p ==> FirstIndex(s, x) == FirstIndex(p, x)
  {
    forall x | x in p
      ensures FirstIndex(s, x) == FirstIndex(p, x)
    {
      var k := FirstIndex(p, x);
      assert s[..k] == p[..k];
      FirstIndexUnique(s, x, k);
    }
  }

  /** `r` lists its elements in the order of their first occurrence in `s`. */
  ghost predicate InFirstSeenOrder<T>(r: seq<T>, s: seq<T>)
  {
    forall i, j :: 0 <= i < j < |r| ==> r[i] in s && r[j] in s && FirstIndex(s, r[i]) < FirstIndex(s, r[j])
  }

  /** `drop_duplicates()` with `keep='first'`: every element of `s` exactly once,
      nothing else, in order of first appearance. */
  function Dedup<T(==,!new)>(s: seq<T>): (r: seq<T>)
    ensures NoDuplicates(r)
    ensures forall x :: x in r <==> x in s
    ensures InFirstSeenOrder(r, s)
    ensures |r| <= |s|
    decreases |s|
  {
    if |s| == 0 then []
    else
      var p := s[..|s| - 1];
      var d := Dedup(p);
      var last := s[|s| - 1];
      FirstIndexOfPrefix(p, s);
      if last in d then d
      else
        FirstIndexUnique(s, last, |s| - 1);
        assert forall x :: x in p ==> FirstIndex(p, x) < |s| - 1;
        d + [last]
  }

  /** The contract of `Dedup` characterises it: any duplicate-free listing of the
      elements of `s` in first-seen order is `Dedup(s)`. */
  lemma {:induction false} DedupUnique<T(!new)>(s: seq<T>, r: seq<T>)
    requires NoDuplicates(r)
    requires forall x :: x in r <==> x in s
    requires InFirstSeenOrder(r, s)
    ensures r == Dedup(s)
  {
    DistinctLength(r);
    DistinctLength(Dedup(s));
    assert Elements(r) == Elements(Dedup(s));
    SameOrderedListing(r, Dedup(s), s);
  }

  /** Two duplicate-free listings of the same elements, both in first-seen order
      with respect to `s`, are equal. */
  lemma {:induction false} SameOrderedListing<T(!new)>(a: seq<T>, b: seq<T>, s: seq<T>)
    requires NoDuplicates(a) && NoDuplicates(b)
    requires forall x :: x in a <==> x in b
    requires InFirstSeenOrder(a, s) && InFirstSeenOrder(b, s)
    requires |a| == |b|
    ensures a == b
    decreases |a|
  {
    if |a| > 0 {
      SameHead(a, b, s);
      SameTailElements(a, b);
      SameTailElements(b, a);
      SameOrderedListing(a[1..], b[1..], s);
      assert a == [a[0]] + a[1..];
      assert b == [b[0]] + b[1..];
    }
  }

  /** Both listings start with the element of least first index. */
  lemma SameHead<T(!new)>(a: seq<T>, b: seq<T>, s: seq<T>)
    requires |a| > 0 && |b| > 0
    requires forall x :: x in a <==> x in b
    requires InFirstSeenOrder(a, s) && InFirstSeenOrder(b, s)
    ensures a[0] == b[0]
  {
    assert a[0] in b && b[0] in a;
    var k :| 0 <= k < |b| && b[k] == a[0];
    var m :| 0 <= m < |a| && a[m] == b[0];
  }

  /** Dropping a common first element keeps the element sets equal. */
  lemma SameTailElements<T(!new)>(a: seq<T>, b: seq<T>)
    requires |a| > 0 && |b| > 0 && a[0] == b[0]
    requires NoDuplicates(a) && NoDuplicates(b)
    requires forall x :: x in a <==> x in b
    ensures forall x :: x in a[1..] ==> x in b[1..]
  {
    forall x | x in a[1..]
      ensures x in b[1..]
    {
      var i :| 0 <= i < |a[1..]| && a[1..][i] == x;
      assert a[i + 1] == x && x != a[0];
      assert x in b;
      var j :| 0 <= j < |b| && b[j] == x;
      assert j > 0 && b[1..][j - 1] == x;
    }
  }

  /** A table without duplicates is left as it is; in particular `Dedup` is
      idempotent. */
  lemma DedupOfDistinct<T(!new)>(s: seq<T>)
    requires NoDuplicates(s)
    ensures Dedup(s) == s
  {
    forall i, j | 0 <= i < j < |s|
      ensures FirstIndex(s, s[i]) < FirstIndex(s, s[j])
    {
      FirstIndexUnique(s, s[i], i);
      FirstIndexUnique(s, s[j], j);
    }
    DedupUnique(s, s);
  }

  /** The distinct elements of a sequence. */
  function Elements<T>(s: seq<T>): set<T>
  {
    set x | x in s
  }

  /** A duplicate-free sequence is as long as its set of elements is large. */
  lemma {:induction false} DistinctLength<T>(s: seq<T>)
    requires NoDuplicates(s)
    ensures |s| == |Elements(s)|
    decreases |s|
  {
    if |s| > 0 {
      DistinctLength(s[1..]);
      assert Elements(s) == {s[0]} + Elements(s[1..]);
      assert s[0] !in s[1..];
    }
  }

  /** `Dedup` keeps exactly one row per distinct element. */
  lemma DedupLength<T(!new)>(s: seq<T>)
    ensures |Dedup(s)| == |Elements(s)|
  {
    DistinctLength(Dedup(s));
    assert Elements(Dedup(s)) == Elements(s);
  }
}
