/**
 Python's `sorted` is stable and takes any key.  Here a key is given by its
 `le` relation; what is proved is what the callers rely on: the result is
 ordered, holds the same elements, and is the only ordered arrangement when
 only equal elements tie.
 */
module Ordering {

  ghost predicate TotalPreorder<T(!new)>(le: (T, T) -> bool) {
    && (forall x, y :: le(x, y) || le(y, x))
    && (forall x, y, z :: le(x, y) && le(y, z) ==> le(x, z))
  }

  ghost predicate Sorted<T>(s: seq<T>, le: (T, T) -> bool) {
    forall i, j :: 0 <= i < j < |s| ==> le(s[i], s[j])
  }

  /** Elements that tie are the same: the key identifies the element. */
  ghost predicate TiesEqual<T>(s: seq<T>, le: (T, T) -> bool) {
    forall x, y :: x in s && y in s && le(x, y) && le(y, x) ==> x == y
  }

  lemma PrefixStep<T>(s: seq<T>, k: nat)
    requires k < |s|
    ensures s[..k + 1] == s[..k] + [s[k]] && s[..k + 1][..k] == s[..k] && s[k] in s
    ensures forall x :: x in s[..k + 1] <==> x in s[..k] || x == s[k]
  {
    assert s[..k + 1] == s[..k] + [s[k]];
  }

  function Insert<T>(s: seq<T>, x: T, le: (T, T) -> bool): (r: seq<T>)
    ensures |r| == |s| + 1
  {
    if s == [] || le(s[|s| - 1], x) then s + [x]
    else Insert(s[..|s| - 1], x, le) + [s[|s| - 1]]
  }

  function SortBy<T>(s: seq<T>, le: (T, T) -> bool): (r: seq<T>)
    ensures |r| == |s|
  {
    if s == [] then [] else Insert(SortBy(s[..|s| - 1], le), s[|s| - 1], le)
  }

  lemma {:induction false} InsertContents<T>(s: seq<T>, x: T, le: (T, T) -> bool)
    ensures multiset(Insert(s, x, le)) == multiset(s) + multiset{x}
  {
    if s == [] || le(s[|s| - 1], x) {
    } else {
      InsertContents(s[..|s| - 1], x, le);
      assert s == s[..|s| - 1] + [s[|s| - 1]];
    }
  }

  lemma {:induction false} InsertSorted<T(!new)>(s: seq<T>, x: T, le: (T, T) -> bool)
    requires TotalPreorder(le) && Sorted(s, le)
    ensures Sorted(Insert(s, x, le), le)
  {
    if s == [] || le(s[|s| - 1], x) {
    } else {
      var front, last := s[..|s| - 1], s[|s| - 1];
      InsertSorted(front, x, le);
      InsertContents(front, x, le);
      forall i | 0 <= i < |front| + 1
        ensures le(Insert(front, x, le)[i], last)
      {
        assert Insert(front, x, le)[i] in multiset(Insert(front, x, le));
        assert Insert(front, x, le)[i] in multiset(front) || Insert(front, x, le)[i] == x;
      }
    }
  }

  /** The elements are neither lost, nor duplicated, nor invented. */
  lemma {:induction false} SortContents<T>(s: seq<T>, le: (T, T) -> bool)
    ensures multiset(SortBy(s, le)) == multiset(s)
  {
    if s == [] {
    } else {
      SortContents(s[..|s| - 1], le);
      InsertContents(SortBy(s[..|s| - 1], le), s[|s| - 1], le);
      assert s == s[..|s| - 1] + [s[|s| - 1]];
    }
  }

  lemma {:induction false} SortIsSorted<T(!new)>(s: seq<T>, le: (T, T) -> bool)
    requires TotalPreorder(le)
    ensures Sorted(SortBy(s, le), le)
  {
    if s == [] {
    } else {
      SortIsSorted(s[..|s| - 1], le);
      InsertSorted(SortBy(s[..|s| - 1], le), s[|s| - 1], le);
    }
  }

  lemma {:induction false} SortKeepsSorted<T>(s: seq<T>, le: (T, T) -> bool)
    requires Sorted(s, le)
    ensures SortBy(s, le) == s
  {
    if s == [] {
    } else {
      SortKeepsSorted(s[..|s| - 1], le);
      assert |s| > 1 ==> le(s[|s| - 2], s[|s| - 1]);
      assert s == s[..|s| - 1] + [s[|s| - 1]];
    }
  }

  lemma MemberOfSort<T>(s: seq<T>, le: (T, T) -> bool)
    ensures forall x :: x in SortBy(s, le) <==> x in s
  {
    SortContents(s, le);
    forall x
      ensures x in SortBy(s, le) <==> x in s
    {
      assert x in SortBy(s, le) <==> x in multiset(SortBy(s, le));
      assert x in s <==> x in multiset(s);
    }
  }

  lemma Front<T>(s: seq<T>, le: (T, T) -> bool)
    requires s != [] && Sorted(s, le)
    ensures Sorted(s[..|s| - 1], le)
    ensures TiesEqual(s, le) ==> TiesEqual(s[..|s| - 1], le)
    ensures multiset(s[..|s| - 1]) == multiset(s) - multiset{s[|s| - 1]}
    ensures s == s[..|s| - 1] + [s[|s| - 1]]
  {
    assert s == s[..|s| - 1] + [s[|s| - 1]];
  }

  lemma LastAgrees<T>(a: seq<T>, b: seq<T>, le: (T, T) -> bool)
    requires Sorted(a, le) && Sorted(b, le) && TiesEqual(a, le)
    requires multiset(a) == multiset(b) && |a| == |b| > 0
    ensures a[|a| - 1] == b[|b| - 1]
  {
    var n := |a| - 1;
    assert a[n] in multiset(b) && b[n] in multiset(a);
    var i :| 0 <= i < |b| && b[i] == a[n];
    var j :| 0 <= j < |a| && a[j] == b[n];
    assert i < n ==> le(b[i], b[n]);
    assert j < n ==> le(a[j], a[n]);
    assert b[n] in a && a[n] in a;
  }

  /** Two ordered arrangements of the same elements are equal when only equal elements tie. */
  lemma {:induction false} SortedUnique<T>(a: seq<T>, b: seq<T>, le: (T, T) -> bool)
    requires Sorted(a, le) && Sorted(b, le) && TiesEqual(a, le)
    requires multiset(a) == multiset(b) && |a| == |b|
    ensures a == b
  {
    if a == [] {
    } else {
      var n := |a| - 1;
      LastAgrees(a, b, le);
      Front(a, le);
      Front(b, le);
      SortedUnique(a[..n], b[..n], le);
    }
  }

  /** Sorting does not depend on the order in which the elements arrive. */
  lemma SortOrderIndependent<T(!new)>(s: seq<T>, t: seq<T>, le: (T, T) -> bool)
    requires TotalPreorder(le)
    requires multiset(s) == multiset(t) && TiesEqual(s, le)
    ensures SortBy(s, le) == SortBy(t, le)
  {
    SortContents(s, le);
    SortContents(t, le);
    SortIsSorted(s, le);
    SortIsSorted(t, le);
    assert |multiset(s)| == |s| && |multiset(t)| == |t|;
    MemberOfSort(s, le);
    SortedUnique(SortBy(s, le), SortBy(t, le), le);
  }

  // ----- days: ordering a set of integers -----

  lemma AppendIncreasing(front: seq<int>, last: int)
    requires StrictlyIncreasing(front) && forall d :: d in front ==> d < last
    ensures StrictlyIncreasing(front + [last])
  {
    assert forall k :: 0 <= k < |front| ==> front[k] in front;
  }

  lemma SmallerThanLast(days: seq<int>)
    requires StrictlyIncreasing(days) && days != []
    ensures var front := days[..|days| - 1]; StrictlyIncreasing(front) && forall d :: d in front ==> d < days[|days| - 1]
  {}

  lemma SomeElement<T>(s: set<T>) returns (x: T)
    requires |s| > 0
    ensures x in s
  {
    x :| x in s;
  }

  lemma LeastElement(s: set<int>) returns (k: int)
    requires |s| > 0
    ensures k in s && forall j | j in s :: k <= j
  {
    k := SomeElement(s);
    var rest := s - {k};
    if |rest| > 0 {
      var m := LeastElement(rest);
      if m < k { k := m; }
    }
    assert forall j | j in s :: j in rest || j in s - rest;
  }

  predicate StrictlyIncreasing(days: seq<int>) {
    forall i, j :: 0 <= i < j < |days| ==> days[i] < days[j]
  }

  lemma LeastExists(s: set<int>)
    requires |s| > 0
    ensures exists k :: k in s && forall j | j in s :: k <= j
  {
    var k := LeastElement(s);
  }

  function Least(s: set<int>): (k: int)
    requires |s| > 0
    ensures k in s && forall j | j in s :: k <= j
  {
    LeastExists(s);
    var k :| k in s && forall j | j in s :: k <= j;
    k
  }

  /** The days of a set in calendar order, each once. */
  function SortedDays(s: set<int>): (r: seq<int>)
    ensures StrictlyIncreasing(r) && |r| == |s|
    ensures forall k :: k in r <==> k in s
  {
    if |s| == 0 then [] else [Least(s)] + SortedDays(s - {Least(s)})
  }

  /** A strictly increasing sequence is determined by its members. */
  lemma {:induction false} IncreasingUnique(a: seq<int>, b: seq<int>)
    requires StrictlyIncreasing(a) && StrictlyIncreasing(b)
    requires forall k :: k in a <==> k in b
    ensures a == b
  {
    assert |a| > 0 ==> a[0] in a;
    assert |b| > 0 ==> b[0] in b;
    if a == [] || b == [] {
    } else {
      assert a[0] == b[0];
      forall k ensures k in a[1..] <==> k in b[1..] {
        assert k in a <==> k == a[0] || k in a[1..];
        assert k in b <==> k == b[0] || k in b[1..];
        assert a[0] !in a[1..] && b[0] !in b[1..];
      }
      IncreasingUnique(a[1..], b[1..]);
      assert a == [a[0]] + a[1..] && b == [b[0]] + b[1..];
    }
  }

  /** Later days are listed after earlier ones. */
  lemma SortedDaysSplit(low: set<int>, high: set<int>)
    requires forall a, b :: a in low && b in high ==> a < b
    ensures SortedDays(low + high) == SortedDays(low) + SortedDays(high)
  {
    hide SortedDays;
    var front, back := SortedDays(low), SortedDays(high);
    forall i, j | 0 <= i < j < |front + back| ensures (front + back)[i] < (front + back)[j] {
      if i < |front| <= j { assert front[i] in front && back[j - |front|] in back; }
    }
    IncreasingUnique(SortedDays(low + high), front + back);
  }

  /** Lexicographic order on text, as Python compares strings. */
  predicate TextLe(a: string, b: string) {
    a == [] || (b != [] && (a[0] < b[0] || (a[0] == b[0] && TextLe(a[1..], b[1..]))))
  }

  lemma {:induction false} TextLeAntisymmetric(a: string, b: string)
    requires TextLe(a, b) && TextLe(b, a)
    ensures a == b
  {
    if a != [] && b != [] {
      TextLeAntisymmetric(a[1..], b[1..]);
      assert a == [a[0]] + a[1..] && b == [b[0]] + b[1..];
    }
  }

  lemma {:induction false} TextLeTotal(a: string, b: string)
    ensures TextLe(a, b) || TextLe(b, a)
  {
    if a != [] && b != [] && a[0] == b[0] {
      TextLeTotal(a[1..], b[1..]);
    }
  }

  lemma {:induction false} TextLeTransitive(a: string, b: string, c: string)
    requires TextLe(a, b) && TextLe(b, c)
    ensures TextLe(a, c)
  {
    if a != [] && b != [] && c != [] && a[0] == b[0] == c[0] {
      TextLeTransitive(a[1..], b[1..], c[1..]);
    }
  }

  /** Text is ordered by its first difference, and a prefix comes first. */
  lemma {:induction false} FirstDifferenceDecides(common: string, a: string, b: string)
    ensures TextLe(common, common + b)
    ensures a != [] && b != [] && a[0] != b[0] ==> (TextLe(common + a, common + b) <==> a[0] < b[0])
    ensures b != [] ==> !TextLe(common + b, common)
  {
    if common == [] {
      assert common + a == a && common + b == b;
    } else {
      assert (common + a)[1..] == common[1..] + a && (common + b)[1..] == common[1..] + b;
      FirstDifferenceDecides(common[1..], a, b);
    }
  }
}
