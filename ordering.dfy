/**
 * The order of `Array.prototype.sort` without a comparator, on arrays of
 * strings: code unit by code unit, a proper prefix before any longer text.
 * It is a total order, so a sorted permutation of a list is unique.
 */
module StringOrder {

  /** `a` comes no later than `b`. */
  predicate LessEq(a: string, b: string) {
    || a == []
    || (b != [] && (a[0] < b[0] || (a[0] == b[0] && LessEq(a[1..], b[1..]))))
  }

  lemma {:induction false} LessEqReflexive(a: string)
    ensures LessEq(a, a)
  {
    if a != [] {
      LessEqReflexive(a[1..]);
    }
  }

  lemma {:induction false} LessEqAntisymmetric(a: string, b: string)
    requires LessEq(a, b) && LessEq(b, a)
    ensures a == b
  {
    if a != [] {
      LessEqAntisymmetric(a[1..], b[1..]);
      assert a == [a[0]] + a[1..];
      assert b == [b[0]] + b[1..];
    }
  }

  lemma {:induction false} LessEqTransitive(a: string, b: string, c: string)
    requires LessEq(a, b) && LessEq(b, c)
    ensures LessEq(a, c)
  {
    if a != [] && a[0] == b[0] && b[0] == c[0] {
      LessEqTransitive(a[1..], b[1..], c[1..]);
    }
  }

  lemma {:induction false} LessEqTotal(a: string, b: string)
    ensures LessEq(a, b) || LessEq(b, a)
  {
    if a != [] && b != [] && a[0] == b[0] {
      LessEqTotal(a[1..], b[1..]);
    }
  }

  /** Every element is no later than every element after it. */
  ghost predicate Sorted(s: seq<string>) {
    forall x, y :: 0 <= x < y < |s| ==> LessEq(s[x], s[y])
  }

  /** Every element is no later than the next one. */
  ghost predicate AdjacentSorted(s: seq<string>) {
    forall k :: 0 < k < |s| ==> LessEq(s[k - 1], s[k])
  }

  lemma {:induction false} AdjacentSortedIsSorted(s: seq<string>)
    requires AdjacentSorted(s)
    ensures Sorted(s)
    decreases |s|
  {
    if |s| > 1 {
      var t := s[..|s| - 1];
      assert AdjacentSorted(t) by {
        assert forall k :: 0 <= k < |t| ==> t[k] == s[k];
      }
      AdjacentSortedIsSorted(t);
      forall x, y | 0 <= x < y < |s|
        ensures LessEq(s[x], s[y])
      {
        if y == |s| - 1 && x < y - 1 {
          assert LessEq(t[x], t[y - 1]);
          LessEqTransitive(s[x], s[y - 1], s[y]);
        } else if y < |s| - 1 {
          assert LessEq(t[x], t[y]);
        }
      }
    }
  }

  /** Two sorted lists with the same elements are the same list. */
  lemma {:induction false} SortedUnique(s: seq<string>, t: seq<string>)
    requires Sorted(s) && Sorted(t) && multiset(s) == multiset(t)
    ensures s == t
    decreases |s|
  {
    assert |s| == |multiset(s)| == |t|;
    if s != [] {
      assert s[0] in s && t[0] in t;
      SortedHeadIsLeast(t, s[0]);
      SortedHeadIsLeast(s, t[0]);
      LessEqAntisymmetric(s[0], t[0]);
      SameTails(s, t);
      SortedUnique(s[1..], t[1..]);
      assert s == [s[0]] + s[1..];
      assert t == [t[0]] + t[1..];
    }
  }

  lemma SortedHeadIsLeast(s: seq<string>, x: string)
    requires Sorted(s) && x in multiset(s)
    ensures LessEq(s[0], x)
  {
    var i :| 0 <= i < |s| && s[i] == x;
    if i == 0 {
      LessEqReflexive(x);
    }
  }

  lemma SameTails(s: seq<string>, t: seq<string>)
    requires s != [] && t != [] && s[0] == t[0] && multiset(s) == multiset(t)
    ensures Sorted(s) ==> Sorted(s[1..])
    ensures Sorted(t) ==> Sorted(t[1..])
    ensures multiset(s[1..]) == multiset(t[1..])
  {
    assert s == [s[0]] + s[1..];
    assert t == [t[0]] + t[1..];
    assert multiset(s) == multiset([s[0]]) + multiset(s[1..]);
    assert multiset(t) == multiset([t[0]]) + multiset(t[1..]);
    assert multiset(s[1..]) == multiset(s) - multiset([s[0]]);
    assert multiset(t[1..]) == multiset(t) - multiset([t[0]]);
  }

  /**
   * `files.sort()`: sorts the array in place. The result is sorted and holds
   * the same names as before, which by `SortedUnique` fixes it completely.
   */
  method SortInPlace(a: array<string>)
    modifies a
    ensures Sorted(a[..])
    ensures multiset(a[..]) == old(multiset(a[..]))
  {
    var i := 0;
    while i < a.Length
      invariant 0 <= i <= a.Length
      invariant forall k :: 0 < k < i ==> LessEq(a[k - 1], a[k])
      invariant multiset(a[..]) == old(multiset(a[..]))
    {
      InsertBack(a, i);
      i := i + 1;
    }
    AdjacentSortedIsSorted(a[..]);
  }

  /** One pass of insertion: `a[i]` moves left until the names before `i + 1` are in order. */
  method InsertBack(a: array<string>, i: nat)
    requires i < a.Length
    requires forall k :: 0 < k < i ==> LessEq(a[k - 1], a[k])
    modifies a
    ensures forall k :: 0 < k <= i ==> LessEq(a[k - 1], a[k])
    ensures multiset(a[..i + 1]) == old(multiset(a[..i + 1]))
    ensures a[i + 1..] == old(a[i + 1..])
    ensures multiset(a[..]) == old(multiset(a[..]))
  {
    var j := i;
    assert InOrderBut(a[..], i + 1, j);
    while j > 0 && !LessEq(a[j - 1], a[j])
      invariant 0 <= j <= i
      invariant InOrderBut(a[..], i + 1, j)
      invariant 0 < j < i ==> LessEq(a[j - 1], a[j + 1])
      invariant multiset(a[..]) == old(multiset(a[..]))
      invariant a[i + 1..] == old(a[i + 1..])
    {
      LessEqTotal(a[j - 1], a[j]);
      ghost var before := a[..];
      a[j - 1], a[j] := a[j], a[j - 1];
      SwapStep(before, a[..], i, j);
      j := j - 1;
    }
    GapClosed(a[..], i + 1, j);
    PrefixPermutation(old(a[..]), a[..], i + 1);
  }

  /** Every neighbouring pair before `n` is in order, except perhaps the one ending at `j`. */
  ghost predicate InOrderBut(s: seq<string>, n: nat, j: nat)
    requires n <= |s|
  {
    forall k :: 0 < k < n && k != j ==> LessEq(s[k - 1], s[k])
  }

  /** Once the pair at `j` is in order too, every pair before `n` is. */
  lemma GapClosed(s: seq<string>, n: nat, j: nat)
    requires j < n <= |s| && InOrderBut(s, n, j)
    requires j == 0 || LessEq(s[j - 1], s[j])
    ensures forall k :: 0 < k < n ==> LessEq(s[k - 1], s[k])
  {
  }

  /** Two lists with the same elements and the same tail from `n` on have the same elements before `n`. */
  lemma PrefixPermutation(s: seq<string>, t: seq<string>, n: nat)
    requires n <= |s| == |t| && multiset(s) == multiset(t) && s[n..] == t[n..]
    ensures multiset(s[..n]) == multiset(t[..n])
  {
    assert s == s[..n] + s[n..];
    assert t == t[..n] + t[n..];
    assert multiset(s[..n]) == multiset(s) - multiset(s[n..]);
    assert multiset(t[..n]) == multiset(t) - multiset(t[n..]);
  }

  /**
   * Swapping the out-of-order pair at `j - 1, j` moves the one place where
   * the order may fail from `j` to `j - 1`.
   */
  lemma SwapStep(s: seq<string>, t: seq<string>, i: nat, j: nat)
    requires 0 < j <= i < |s|
    requires t == s[j - 1 := s[j]][j := s[j - 1]]
    requires InOrderBut(s, i + 1, j)
    requires 0 < j < i ==> LessEq(s[j - 1], s[j + 1])
    requires LessEq(s[j], s[j - 1])
    ensures InOrderBut(t, i + 1, j - 1)
    ensures 0 < j - 1 < i ==> LessEq(t[j - 2], t[j])
    ensures multiset(t) == multiset(s)
    ensures t[i + 1..] == s[i + 1..]
  {
    forall k | 0 < k <= i && k != j - 1
      ensures LessEq(t[k - 1], t[k])
    {
      if k == j {
        assert t[k - 1] == s[j] && t[k] == s[j - 1];
      } else if k == j + 1 {
        assert t[k - 1] == s[j - 1] && t[k] == s[j + 1];
      } else {
        assert t[k - 1] == s[k - 1] && t[k] == s[k];
      }
    }
    if 0 < j - 1 {
      assert t[j - 2] == s[j - 2] && t[j] == s[j - 1];
    }
  }
}
