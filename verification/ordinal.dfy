/** Java's `String.compareTo` (ordinal order) and the sort that `List.sort`
    performs with it. */
module Ordinal {

  /** `a.compareTo(b)`: the difference of the first differing characters,
      or the difference of the lengths when one string is a prefix of the
      other. */
  function CompareTo(a: string, b: string): int
    decreases |a|
  {
    if |a| == 0 || |b| == 0 then |a| - |b|
    else if a[0] != b[0] then a[0] as int - b[0] as int
    else CompareTo(a[1..], b[1..])
  }

  /** The order the pool sorts by: `compare(a, b) <= 0`. */
  predicate LessEq(a: string, b: string)
  {
    CompareTo(a, b) <= 0
  }

  lemma {:induction false} CompareZeroIffEqual(a: string, b: string)
    ensures CompareTo(a, b) == 0 <==> a == b
    decreases |a|
  {
    if |a| == 0 || |b| == 0 {
    } else if a[0] != b[0] {
    } else {
      CompareZeroIffEqual(a[1..], b[1..]);
      if a[1..] == b[1..] {
        assert a == [a[0]] + a[1..] && b == [b[0]] + b[1..];
      }
    }
  }

  lemma {:induction false} CompareAntiSymmetric(a: string, b: string)
    ensures CompareTo(a, b) == -CompareTo(b, a)
    decreases |a|
  {
    if |a| == 0 || |b| == 0 {
    } else if a[0] != b[0] {
    } else {
      CompareAntiSymmetric(a[1..], b[1..]);
    }
  }

  /** Ordinal order is total. */
  lemma LessEqTotal(a: string, b: string)
    ensures LessEq(a, b) || LessEq(b, a)
  {
    CompareAntiSymmetric(a, b);
  }

  /** Ordinal order is antisymmetric: strings that compare both ways are equal. */
  lemma LessEqAntiSymmetric(a: string, b: string)
    requires LessEq(a, b) && LessEq(b, a)
    ensures a == b
  {
    CompareAntiSymmetric(a, b);
    CompareZeroIffEqual(a, b);
  }

  lemma {:induction false} LessEqTransitive(a: string, b: string, c: string)
    requires LessEq(a, b) && LessEq(b, c)
    ensures LessEq(a, c)
    decreases |a|
  {
    if |a| == 0 || |b| == 0 || |c| == 0 {
    } else if a[0] != b[0] || b[0] != c[0] {
      if a[0] == b[0] {
        assert b[0] as int - c[0] as int < 0;
      }
    } else {
      LessEqTransitive(a[1..], b[1..], c[1..]);
    }
  }

  predicate Sorted(s: seq<string>)
  {
    forall i, j :: 0 <= i < j < |s| ==> LessEq(s[i], s[j])
  }

  /** Prepending an element that is below everything in a sorted sequence
      keeps it sorted. */
  lemma ConsSorted(h: string, t: seq<string>)
    requires Sorted(t)
    requires forall y :: y in multiset(t) ==> LessEq(h, y)
    ensures Sorted([h] + t)
  {
    var r := [h] + t;
    forall i, j | 0 <= i < j < |r| ensures LessEq(r[i], r[j]) {
      assert r[j] == t[j - 1];
      if i == 0 {
        assert t[j - 1] in multiset(t);
      } else {
        assert r[i] == t[i - 1];
      }
    }
  }

  /** The elements of the tail of a sorted sequence are all at least its head. */
  lemma HeadBelowTail(s: seq<string>)
    requires Sorted(s) && |s| > 0
    ensures forall y :: y in multiset(s[1..]) ==> LessEq(s[0], y)
  {
    forall y | y in multiset(s[1..]) ensures LessEq(s[0], y) {
      var k :| 0 <= k < |s[1..]| && s[1..][k] == y;
      assert s[k + 1] == y;
    }
  }

  /** The front case of Insert: x is at most the head. */
  lemma InsertFront(x: string, s: seq<string>)
    requires Sorted(s) && |s| > 0 && LessEq(x, s[0])
    ensures Sorted([x] + s)
  {
    forall y | y in multiset(s) ensures LessEq(x, y) {
      var k :| 0 <= k < |s| && s[k] == y;
      if k > 0 { LessEqTransitive(x, s[0], s[k]); }
    }
    ConsSorted(x, s);
  }

  /** The descending case of Insert: the head stays in front of the tail that
      x was inserted into. */
  lemma InsertBehind(x: string, s: seq<string>, tail: seq<string>)
    requires Sorted(s) && |s| > 0 && !LessEq(x, s[0])
    requires Sorted(tail) && multiset(tail) == multiset(s[1..]) + multiset{x}
    ensures Sorted([s[0]] + tail)
    ensures multiset([s[0]] + tail) == multiset(s) + multiset{x}
  {
    LessEqTotal(x, s[0]);
    HeadBelowTail(s);
    ConsSorted(s[0], tail);
    assert s == [s[0]] + s[1..];
  }

  /** Inserts x before the first element it does not exceed. */
  function Insert(x: string, s: seq<string>): (r: seq<string>)
    requires Sorted(s)
    ensures Sorted(r)
    ensures multiset(r) == multiset(s) + multiset{x}
  {
    if |s| == 0 then [x]
    else if LessEq(x, s[0]) then
      InsertFront(x, s);
      [x] + s
    else
      var tail := Insert(x, s[1..]);
      InsertBehind(x, s, tail);
      [s[0]] + tail
  }

  /** The ascending rearrangement of s that `List.sort` produces; since the
      order is total and antisymmetric it is unique (see SortedUnique), so
      the algorithm the library uses does not matter. */
  function Sort(s: seq<string>): (r: seq<string>)
    ensures Sorted(r)
    ensures multiset(r) == multiset(s)
  {
    if |s| == 0 then []
    else
      assert s == [s[0]] + s[1..];
      Insert(s[0], Sort(s[1..]))
  }

  /** The head of an ascending sequence is below every element of it. */
  lemma SortedHeadLeast(s: seq<string>, x: string)
    requires Sorted(s) && x in multiset(s)
    ensures LessEq(s[0], x)
  {
    var i :| 0 <= i < |s| && s[i] == x;
    if i == 0 {
      CompareZeroIffEqual(x, x);
    } else {
      assert LessEq(s[0], s[i]);
    }
  }

  lemma TailMultiset(s: seq<string>)
    requires |s| > 0
    ensures multiset(s[1..]) == multiset(s) - multiset{s[0]}
  {
    assert s == [s[0]] + s[1..];
  }

  lemma SortedTail(s: seq<string>)
    requires Sorted(s) && |s| > 0
    ensures Sorted(s[1..])
  {
    forall i, j | 0 <= i < j < |s| - 1 ensures LessEq(s[1..][i], s[1..][j]) {
      assert s[1..][i] == s[i + 1] && s[1..][j] == s[j + 1];
    }
  }

  /** Two ascending arrangements of the same strings start alike. */
  lemma SameHead(a: seq<string>, b: seq<string>)
    requires Sorted(a) && Sorted(b) && |a| > 0 && |b| > 0
    requires multiset(a) == multiset(b)
    ensures a[0] == b[0]
  {
    assert a[0] in multiset(a) && b[0] in multiset(b);
    SortedHeadLeast(b, a[0]);
    SortedHeadLeast(a, b[0]);
    LessEqAntiSymmetric(a[0], b[0]);
  }

  /** Two ascending arrangements of the same strings are the same sequence. */
  lemma {:induction false} SortedUnique(a: seq<string>, b: seq<string>)
    requires Sorted(a) && Sorted(b)
    requires multiset(a) == multiset(b)
    ensures a == b
    decreases |a|
  {
    assert |b| == |multiset(b)| == |multiset(a)| == |a|;
    if |a| > 0 {
      SameHead(a, b);
      TailMultiset(a);
      TailMultiset(b);
      SortedTail(a);
      SortedTail(b);
      SortedUnique(a[1..], b[1..]);
      assert a == [a[0]] + a[1..] && b == [b[0]] + b[1..];
    }
  }

  /** Sorting depends only on which strings are given, not their order. */
  lemma SortPermutationInvariant(a: seq<string>, b: seq<string>)
    requires multiset(a) == multiset(b)
    ensures Sort(a) == Sort(b)
  {
    SortedUnique(Sort(a), Sort(b));
  }
}
