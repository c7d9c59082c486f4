/**
 * The two-way merge of `merge` in external.c, stated on sequences.
 *
 * `Merged` is the full merge with the cursor rule of the C loop (take from
 * the first input only when its head is strictly smaller, so an equal head is
 * taken from the second input); `MergeSpec` is what a merge into a distinct
 * output block of capacity `cap` leaves in that block: the first
 * min(|a| + |b|, cap) elements of the full merge.
 */
module Merging {

  function Min(x: int, y: int): int {
    if x <= y then x else y
  }

  /** Ascending (non-decreasing) order. */
  predicate Sorted(s: seq<int>) {
    forall p, q :: 0 <= p < q < |s| ==> s[p] <= s[q]
  }

  /** The full merge, with the tie rule of the C comparison `input1->data[i] < input2->data[j]`. */
  function Merged(a: seq<int>, b: seq<int>): (r: seq<int>)
    ensures |r| == |a| + |b|
    decreases |a| + |b|
  {
    if a == [] then b
    else if b == [] then a
    else if a[0] < b[0] then [a[0]] + Merged(a[1..], b)
    else [b[0]] + Merged(a, b[1..])
  }

  /** The contents a merge into a block of capacity `cap` produces. */
  function MergeSpec(a: seq<int>, b: seq<int>, cap: nat): seq<int> {
    Merged(a, b)[..Min(|a| + |b|, cap)]
  }

  /** `r` interleaves `a` and `b`: every element of `r` comes from one of them,
      and each of them appears in `r` in its own order. */
  ghost predicate Interleaving(r: seq<int>, a: seq<int>, b: seq<int>)
    decreases |r|
  {
    if r == [] then a == [] && b == []
    else
      || (a != [] && r[0] == a[0] && Interleaving(r[1..], a[1..], b))
      || (b != [] && r[0] == b[0] && Interleaving(r[1..], a, b[1..]))
  }

  lemma {:induction false} InterleavingFirstOnly(a: seq<int>)
    ensures Interleaving(a, a, [])
    decreases |a|
  {
    if a != [] {
      InterleavingFirstOnly(a[1..]);
    }
  }

  lemma {:induction false} InterleavingSecondOnly(b: seq<int>)
    ensures Interleaving(b, [], b)
    decreases |b|
  {
    if b != [] {
      InterleavingSecondOnly(b[1..]);
    }
  }

  /** The merge keeps the relative order of each input. */
  lemma {:induction false} MergedInterleaves(a: seq<int>, b: seq<int>)
    ensures Interleaving(Merged(a, b), a, b)
    decreases |a| + |b|
  {
    if a == [] {
      InterleavingSecondOnly(b);
    } else if b == [] {
      InterleavingFirstOnly(a);
    } else if a[0] < b[0] {
      MergedInterleaves(a[1..], b);
      assert Merged(a, b)[1..] == Merged(a[1..], b);
    } else {
      MergedInterleaves(a, b[1..]);
      assert Merged(a, b)[1..] == Merged(a, b[1..]);
    }
  }

  /** An interleaving is a permutation of the two inputs together. */
  lemma {:induction false} InterleavingMultiset(r: seq<int>, a: seq<int>, b: seq<int>)
    requires Interleaving(r, a, b)
    ensures multiset(r) == multiset(a) + multiset(b)
    decreases |r|
  {
    if r != [] {
      assert r == [r[0]] + r[1..];
      if a != [] && r[0] == a[0] && Interleaving(r[1..], a[1..], b) {
        InterleavingMultiset(r[1..], a[1..], b);
        assert a == [a[0]] + a[1..];
      } else {
        InterleavingMultiset(r[1..], a, b[1..]);
        assert b == [b[0]] + b[1..];
      }
    }
  }

  /** Every prefix of an interleaving interleaves a prefix of each input. */
  lemma {:induction false} PrefixOfInterleaving(r: seq<int>, a: seq<int>, b: seq<int>, k: nat)
    requires Interleaving(r, a, b) && k <= |r|
    ensures exists i, j :: 0 <= i <= |a| && 0 <= j <= |b| && i + j == k && Interleaving(r[..k], a[..i], b[..j])
    decreases k
  {
    if k == 0 {
      assert Interleaving(r[..0], a[..0], b[..0]);
    } else if a != [] && r[0] == a[0] && Interleaving(r[1..], a[1..], b) {
      PrefixOfInterleaving(r[1..], a[1..], b, k - 1);
      var i, j :| 0 <= i <= |a[1..]| && 0 <= j <= |b| && i + j == k - 1
        && Interleaving(r[1..][..k - 1], a[1..][..i], b[..j]);
      assert r[..k][1..] == r[1..][..k - 1];
      assert a[..i + 1][1..] == a[1..][..i];
      assert Interleaving(r[..k], a[..i + 1], b[..j]);
    } else {
      PrefixOfInterleaving(r[1..], a, b[1..], k - 1);
      var i, j :| 0 <= i <= |a| && 0 <= j <= |b[1..]| && i + j == k - 1
        && Interleaving(r[1..][..k - 1], a[..i], b[1..][..j]);
      assert r[..k][1..] == r[1..][..k - 1];
      assert b[..j + 1][1..] == b[1..][..j];
      assert Interleaving(r[..k], a[..i], b[..j + 1]);
    }
  }

  /** The full merge is a permutation of its two inputs: nothing is lost or invented. */
  lemma MergedPermutation(a: seq<int>, b: seq<int>)
    ensures multiset(Merged(a, b)) == multiset(a) + multiset(b)
  {
    MergedInterleaves(a, b);
    InterleavingMultiset(Merged(a, b), a, b);
  }

  /** Putting a lower bound of an ascending sequence in front keeps it ascending. */
  lemma SortedCons(x: int, t: seq<int>)
    requires Sorted(t) && forall e :: e in multiset(t) ==> x <= e
    ensures Sorted([x] + t)
  {
    forall q | 0 <= q < |t|
      ensures x <= t[q]
    {
      assert t[q] in multiset(t);
    }
  }

  /** Merging two ascending inputs gives an ascending result. */
  lemma {:induction false} MergedSorted(a: seq<int>, b: seq<int>)
    requires Sorted(a) && Sorted(b)
    ensures Sorted(Merged(a, b))
    decreases |a| + |b|
  {
    if a != [] && b != [] {
      if a[0] < b[0] {
        var t := Merged(a[1..], b);
        MergedSorted(a[1..], b);
        MergedPermutation(a[1..], b);
        forall e | e in multiset(t)
          ensures a[0] <= e
        {
          if e in multiset(a[1..]) {
            var p :| 0 <= p < |a[1..]| && a[1..][p] == e;
            assert a[p + 1] == e;
          } else {
            var q :| 0 <= q < |b| && b[q] == e;
          }
        }
        SortedCons(a[0], t);
      } else {
        var t := Merged(a, b[1..]);
        MergedSorted(a, b[1..]);
        MergedPermutation(a, b[1..]);
        forall e | e in multiset(t)
          ensures b[0] <= e
        {
          if e in multiset(b[1..]) {
            var q :| 0 <= q < |b[1..]| && b[1..][q] == e;
            assert b[q + 1] == e;
          } else {
            var p :| 0 <= p < |a| && a[p] == e;
          }
        }
        SortedCons(b[0], t);
      }
    }
  }

  /** Dropping the head of a sequence removes one occurrence of it from its elements. */
  lemma TailMultiset(r: seq<int>)
    requires r != []
    ensures multiset(r[1..]) == multiset(r) - multiset{r[0]}
  {
    assert r == [r[0]] + r[1..];
  }

  /** Two ascending sequences with the same elements start with the same element. */
  lemma SortedSameHead(r: seq<int>, s: seq<int>)
    requires Sorted(r) && Sorted(s) && multiset(r) == multiset(s) && r != [] && s != []
    ensures r[0] == s[0]
  {
    assert r[0] in multiset(s);
    var q :| 0 <= q < |s| && s[q] == r[0];
    assert s[0] in multiset(r);
    var p :| 0 <= p < |r| && r[p] == s[0];
  }

  /** Two ascending sequences with the same elements are equal. */
  lemma {:induction false} SortedUnique(r: seq<int>, s: seq<int>)
    requires Sorted(r) && Sorted(s) && multiset(r) == multiset(s)
    ensures r == s
    decreases |r|
  {
    assert |r| == |multiset(r)| == |s|;
    if r != [] {
      SortedSameHead(r, s);
      TailMultiset(r);
      TailMultiset(s);
      assert Sorted(r[1..]) && Sorted(s[1..]);
      SortedUnique(r[1..], s[1..]);
      assert r == [r[0]] + r[1..] && s == [s[0]] + s[1..];
    }
  }

  /** For ascending inputs, the merge is the only ascending permutation of both:
      an independent characterisation of `Merged`. */
  lemma MergedIsTheSortedPermutation(a: seq<int>, b: seq<int>, r: seq<int>)
    requires Sorted(a) && Sorted(b)
    requires Sorted(r) && multiset(r) == multiset(a) + multiset(b)
    ensures r == Merged(a, b)
  {
    MergedSorted(a, b);
    MergedPermutation(a, b);
    SortedUnique(r, Merged(a, b));
  }

  /** A capped merge of ascending inputs is ascending. */
  lemma MergeSpecSorted(a: seq<int>, b: seq<int>, cap: nat)
    requires Sorted(a) && Sorted(b)
    ensures Sorted(MergeSpec(a, b, cap))
  {
    MergedSorted(a, b);
  }

  /** When both inputs fit, the capped merge is the full merge: a permutation of both inputs. */
  lemma MergeSpecComplete(a: seq<int>, b: seq<int>, cap: nat)
    requires |a| + |b| <= cap
    ensures MergeSpec(a, b, cap) == Merged(a, b)
    ensures multiset(MergeSpec(a, b, cap)) == multiset(a) + multiset(b)
  {
    MergedPermutation(a, b);
  }

  /** Cutting an ascending sequence in two leaves no element of the front above one of the back. */
  lemma SortedSplit(m: seq<int>, cap: nat)
    requires Sorted(m) && cap <= |m|
    ensures forall x, y :: (x in multiset(m[..cap]) && y in multiset(m[cap..])) ==> x <= y
  {
    forall x, y | x in multiset(m[..cap]) && y in multiset(m[cap..])
      ensures x <= y
    {
      var p :| 0 <= p < cap && m[..cap][p] == x;
      var q :| 0 <= q < |m| - cap && m[cap..][q] == y;
      assert m[p] == x && m[cap + q] == y;
    }
  }

  /** The elements of a sequence are those of its front and its back. */
  lemma MultisetSplit(m: seq<int>, cap: nat)
    requires cap <= |m|
    ensures multiset(m) == multiset(m[..cap]) + multiset(m[cap..])
  {
    assert m == m[..cap] + m[cap..];
  }

  /** When the inputs do not fit, exactly `cap` elements are kept, |a| + |b| - cap
      are dropped, and for ascending inputs no kept element exceeds a dropped one. */
  lemma MergeSpecKeepsSmallest(a: seq<int>, b: seq<int>, cap: nat)
    requires Sorted(a) && Sorted(b) && cap < |a| + |b|
    ensures |MergeSpec(a, b, cap)| == cap
    ensures multiset(MergeSpec(a, b, cap)) <= multiset(a) + multiset(b)
    ensures |multiset(a) + multiset(b) - multiset(MergeSpec(a, b, cap))| == |a| + |b| - cap
    ensures forall x, y ::
              (x in multiset(MergeSpec(a, b, cap)) && y in multiset(a) + multiset(b) - multiset(MergeSpec(a, b, cap)))
              ==> x <= y
  {
    var m := Merged(a, b);
    MergedSorted(a, b);
    MergedPermutation(a, b);
    MultisetSplit(m, cap);
    SortedSplit(m, cap);
    assert MergeSpec(a, b, cap) == m[..cap];
    assert multiset(a) + multiset(b) - multiset(m[..cap]) == multiset(m[cap..]);
  }

  /** The capped merge takes a prefix of each input, in order: the cursors i and j
      only move forward. */
  lemma MergeSpecPreservesOrder(a: seq<int>, b: seq<int>, cap: nat)
    ensures exists i, j :: 0 <= i <= |a| && 0 <= j <= |b| && i + j == |MergeSpec(a, b, cap)|
              && Interleaving(MergeSpec(a, b, cap), a[..i], b[..j])
  {
    MergedInterleaves(a, b);
    PrefixOfInterleaving(Merged(a, b), a, b, Min(|a| + |b|, cap));
  }
}
