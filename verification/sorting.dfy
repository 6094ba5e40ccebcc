/** Python's `sorted(xs, key=..., reverse=...)` over raw JSON keys, as a
    stable insertion sort. */
module Sorting {
  import opened Values
  import opened Order
  import opened Seqs

  /** `a` may come before `b`: ascending, or descending when `desc`. */
  predicate InOrder(a: Value, b: Value, desc: bool)
  {
    if desc then Le(b, a) else Le(a, b)
  }

  ghost predicate SortedBy<T>(s: seq<T>, key: T -> Value, desc: bool)
  {
    forall i, j :: 0 <= i < j < |s| ==> InOrder(key(s[i]), key(s[j]), desc)
  }

  lemma InOrderTotal(a: Value, b: Value, desc: bool)
    ensures InOrder(a, b, desc) || InOrder(b, a, desc)
  {
    LeTotal(a, b);
  }

  lemma InOrderTransitive(a: Value, b: Value, c: Value, desc: bool)
    requires InOrder(a, b, desc) && InOrder(b, c, desc)
    ensures InOrder(a, c, desc)
  {
    if desc {
      LeTransitive(c, b, a);
    } else {
      LeTransitive(a, b, c);
    }
  }

  /** Putting `x` in front of a sorted sequence whose head it precedes
      keeps it sorted. */
  lemma ConsSorted<T>(x: T, s: seq<T>, key: T -> Value, desc: bool)
    requires SortedBy(s, key, desc)
    requires forall y :: y in s ==> InOrder(key(x), key(y), desc)
    ensures SortedBy([x] + s, key, desc)
  {
    var r := [x] + s;
    forall i, j | 0 <= i < j < |r|
      ensures InOrder(key(r[i]), key(r[j]), desc)
    {
      if i > 0 {
        assert r[i] == s[i - 1] && r[j] == s[j - 1];
      } else {
        assert r[j] == s[j - 1] && r[j] in s;
      }
    }
  }

  /** An element that may precede the head of a sorted sequence may
      precede all of it. */
  lemma HeadBoundsAll<T>(x: T, s: seq<T>, key: T -> Value, desc: bool)
    requires SortedBy(s, key, desc) && |s| > 0 && InOrder(key(x), key(s[0]), desc)
    ensures forall y :: y in s ==> InOrder(key(x), key(y), desc)
  {
    forall y | y in s
      ensures InOrder(key(x), key(y), desc)
    {
      var j :| 0 <= j < |s| && s[j] == y;
      if j > 0 {
        InOrderTransitive(key(x), key(s[0]), key(y), desc);
      }
    }
  }

  /** The head of a sorted sequence may precede everything in the rest of
      it with one more element inserted that the head may precede. */
  lemma HeadBoundsRest<T>(x: T, s: seq<T>, rest: seq<T>, key: T -> Value, desc: bool)
    requires SortedBy(s, key, desc) && |s| > 0 && InOrder(key(s[0]), key(x), desc)
    requires multiset(rest) == multiset(s[1..]) + multiset{x}
    ensures forall y :: y in rest ==> InOrder(key(s[0]), key(y), desc)
  {
    forall y | y in rest
      ensures InOrder(key(s[0]), key(y), desc)
    {
      assert y in multiset(rest);
      if y != x {
        assert y in multiset(s[1..]);
        var j :| 0 <= j < |s[1..]| && s[1..][j] == y;
        assert s[j + 1] == y;
      }
    }
  }

  /** Inserts `x` before the first element it may precede, so after any
      element it ties with only if that element is already there. */
  function Insert<T>(x: T, s: seq<T>, key: T -> Value, desc: bool): (r: seq<T>)
    requires SortedBy(s, key, desc)
    ensures SortedBy(r, key, desc)
    ensures multiset(r) == multiset(s) + multiset{x}
    decreases |s|
  {
    if |s| == 0 then [x]
    else if InOrder(key(x), key(s[0]), desc) then
      HeadBoundsAll(x, s, key, desc);
      ConsSorted(x, s, key, desc);
      [x] + s
    else
      var rest := Insert(x, s[1..], key, desc);
      InOrderTotal(key(x), key(s[0]), desc);
      HeadBoundsRest(x, s, rest, key, desc);
      ConsSorted(s[0], rest, key, desc);
      assert s == [s[0]] + s[1..];
      [s[0]] + rest
  }

  /** `sorted(s, key=key, reverse=desc)`: a sorted permutation of `s`. */
  function Sort<T>(s: seq<T>, key: T -> Value, desc: bool): (r: seq<T>)
    ensures SortedBy(r, key, desc)
    ensures multiset(r) == multiset(s)
    decreases |s|
  {
    if |s| == 0 then []
    else
      assert s == [s[0]] + s[1..];
      Insert(s[0], Sort(s[1..], key, desc), key, desc)
  }

  /** Selecting a subsequence of a sorted sequence keeps it sorted. */
  lemma {:induction false} SubseqSorted<T>(a: seq<T>, b: seq<T>, key: T -> Value, desc: bool)
    requires Subseq(a, b) && SortedBy(b, key, desc)
    ensures SortedBy(a, key, desc)
    decreases |b|
  {
    if |a| > 0 {
      assert SortedBy(b[1..], key, desc);
      if a[0] == b[0] && Subseq(a[1..], b[1..]) {
        SubseqSorted(a[1..], b[1..], key, desc);
        forall y | y in a[1..]
          ensures InOrder(key(a[0]), key(y), desc)
        {
          SubseqMembers(a[1..], b[1..], y);
          var j :| 0 <= j < |b[1..]| && b[1..][j] == y;
          assert b[j + 1] == y;
        }
        ConsSorted(a[0], a[1..], key, desc);
        assert a == [a[0]] + a[1..];
      } else {
        SubseqSorted(a, b[1..], key, desc);
      }
    }
  }
}
