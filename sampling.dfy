/**
 * The outcome of Python's `random.sample` and `random.shuffle`, injected as data.
 *
 * `random.sample(xs, k)` returns the elements of `xs` at k distinct positions;
 * `random.shuffle(xs)` rearranges `xs` by a permutation of its positions.  Both are
 * described here by a *draw*: a sequence of distinct positions below a bound.  A
 * full-length draw is a permutation.  How the positions are chosen (uniformity, the
 * generator's state) is not modelled.
 */
module Sampling {

  /** No element occurs twice. */
  predicate Distinct<T(==)>(s: seq<T>) {
    forall i, j :: 0 <= i < j < |s| ==> s[i] != s[j]
  }

  /** `idx` holds `k` distinct positions, each below `n`. */
  predicate IsDraw(idx: seq<nat>, k: nat, n: nat) {
    && |idx| == k
    && (forall j :: 0 <= j < |idx| ==> idx[j] < n)
    && Distinct(idx)
  }

  /** The elements of `s` at the drawn positions, in the order drawn. */
  function Pick<T>(s: seq<T>, idx: seq<nat>): (r: seq<T>)
    requires forall j :: 0 <= j < |idx| ==> idx[j] < |s|
    ensures |r| == |idx|
    ensures forall j :: 0 <= j < |idx| ==> r[j] == s[idx[j]]
  {
    seq(|idx|, j requires 0 <= j < |idx| => s[idx[j]])
  }

  /** `idx` without its entry at position `m`. */
  function Without(idx: seq<nat>, m: nat): (r: seq<nat>)
    requires m < |idx|
    ensures |r| == |idx| - 1
    ensures forall j :: 0 <= j < m ==> r[j] == idx[j]
    ensures forall j :: m <= j < |r| ==> r[j] == idx[j + 1]
  {
    idx[..m] + idx[m + 1..]
  }

  /** Removing the entry `n - 1` from a draw below `n` leaves a draw below `n - 1`. */
  lemma DropTop(idx: seq<nat>, m: nat, n: nat)
    requires forall j :: 0 <= j < |idx| ==> idx[j] < n
    requires Distinct(idx)
    requires m < |idx| && idx[m] == n - 1
    ensures forall j :: 0 <= j < |Without(idx, m)| ==> Without(idx, m)[j] < n - 1
    ensures Distinct(Without(idx, m))
  {
    var rest := Without(idx, m);
    forall j | 0 <= j < |rest|
      ensures rest[j] < n - 1
    {
      if j < m { assert rest[j] == idx[j] != idx[m]; }
      else { assert rest[j] == idx[j + 1] != idx[m]; }
    }
    forall i, j | 0 <= i < j < |rest|
      ensures rest[i] != rest[j]
    {
      var i' := if i < m then i else i + 1;
      var j' := if j < m then j else j + 1;
      assert rest[i] == idx[i'] && rest[j] == idx[j'];
    }
  }

  /** A draw below `n` that misses `n - 1` is a draw below `n - 1`. */
  lemma MissesTop(idx: seq<nat>, n: nat)
    requires forall j :: 0 <= j < |idx| ==> idx[j] < n
    requires forall j :: 0 <= j < |idx| ==> idx[j] != n - 1
    ensures forall j :: 0 <= j < |idx| ==> idx[j] < n - 1
  {
  }

  /** A draw of distinct positions below `n` has at most `n` entries (pigeonhole). */
  lemma {:induction false} DrawBound(idx: seq<nat>, n: nat)
    requires forall j :: 0 <= j < |idx| ==> idx[j] < n
    requires Distinct(idx)
    ensures |idx| <= n
  {
    if |idx| == 0 {
    } else if m :| 0 <= m < |idx| && idx[m] == n - 1 {
      DropTop(idx, m, n);
      DrawBound(Without(idx, m), n - 1);
    } else {
      assert idx[0] < n;
      MissesTop(idx, n);
      DrawBound(idx, n - 1);
    }
  }

  /** Picking the last element of `s` at draw position `m`, then the rest of the draw. */
  lemma PickSplit<T>(s: seq<T>, idx: seq<nat>, m: nat)
    requires |s| > 0
    requires forall j :: 0 <= j < |idx| ==> idx[j] < |s|
    requires Distinct(idx)
    requires m < |idx| && idx[m] == |s| - 1
    ensures forall j :: 0 <= j < |Without(idx, m)| ==> Without(idx, m)[j] < |s| - 1
    ensures Distinct(Without(idx, m))
    ensures multiset(Pick(s, idx)) == multiset(Pick(s[..|s| - 1], Without(idx, m))) + multiset{s[|s| - 1]}
  {
    DropTop(idx, m, |s|);
    var p := Pick(s, idx);
    var q := Pick(s[..|s| - 1], Without(idx, m));
    assert p == p[..m] + [p[m]] + p[m + 1..];
    assert p[..m] + p[m + 1..] == q;
  }

  /** The multiset of a non-empty sequence: its last element plus the rest. */
  lemma LastSplit<T>(s: seq<T>)
    requires |s| > 0
    ensures multiset(s) == multiset(s[..|s| - 1]) + multiset{s[|s| - 1]}
  {
    assert s == s[..|s| - 1] + [s[|s| - 1]];
  }

  /** A draw that stays below `|s| - 1` picks the same elements from `s` without its last one. */
  lemma PickInit<T>(s: seq<T>, idx: seq<nat>)
    requires |s| > 0
    requires forall j :: 0 <= j < |idx| ==> idx[j] < |s| - 1
    ensures Pick(s, idx) == Pick(s[..|s| - 1], idx)
  {
  }

  /**
   * Sampling without replacement: the drawn elements form a sub-multiset of `s`, and a
   * full-length draw (a shuffle) keeps exactly the multiset of `s`.
   */
  lemma {:induction false} PickMultiset<T>(s: seq<T>, idx: seq<nat>)
    requires forall j :: 0 <= j < |idx| ==> idx[j] < |s|
    requires Distinct(idx)
    ensures multiset(Pick(s, idx)) <= multiset(s)
    ensures |idx| == |s| ==> multiset(Pick(s, idx)) == multiset(s)
    decreases |s|, 1
  {
    DrawBound(idx, |s|);
    if |s| == 0 {
      assert Pick(s, idx) == [];
    } else if m :| 0 <= m < |idx| && idx[m] == |s| - 1 {
      PickWithLast(s, idx, m);
    } else {
      PickWithoutLast(s, idx);
    }
  }

  /** `PickMultiset` for a draw that picks the last element of `s`, at draw position `m`. */
  lemma {:induction false} PickWithLast<T>(s: seq<T>, idx: seq<nat>, m: nat)
    requires |s| > 0
    requires forall j :: 0 <= j < |idx| ==> idx[j] < |s|
    requires Distinct(idx)
    requires m < |idx| && idx[m] == |s| - 1
    ensures multiset(Pick(s, idx)) <= multiset(s)
    ensures |idx| == |s| ==> multiset(Pick(s, idx)) == multiset(s)
    decreases |s|, 0
  {
    LastSplit(s);
    PickSplit(s, idx, m);
    PickMultiset(s[..|s| - 1], Without(idx, m));
  }

  /** `PickMultiset` for a draw that leaves out the last element of `s`. */
  lemma {:induction false} PickWithoutLast<T>(s: seq<T>, idx: seq<nat>)
    requires |s| > 0
    requires forall j :: 0 <= j < |idx| ==> idx[j] < |s|
    requires Distinct(idx)
    requires forall j :: 0 <= j < |idx| ==> idx[j] != |s| - 1
    ensures multiset(Pick(s, idx)) <= multiset(s)
    ensures |idx| < |s|
    decreases |s|, 0
  {
    LastSplit(s);
    MissesTop(idx, |s|);
    DrawBound(idx, |s| - 1);
    PickInit(s, idx);
    PickMultiset(s[..|s| - 1], idx);
  }

  /** Every element of a sequence without duplicates occurs in it exactly once. */
  lemma {:induction false} DistinctOnce<T>(s: seq<T>, x: T)
    requires Distinct(s)
    ensures multiset(s)[x] == (if x in s then 1 else 0)
  {
    if s != [] {
      assert s == [s[0]] + s[1..];
      assert Distinct(s[1..]) by {
        forall i, j | 0 <= i < j < |s| - 1
          ensures s[1..][i] != s[1..][j]
        {
          assert s[1..][i] == s[i + 1] && s[1..][j] == s[j + 1];
        }
      }
      DistinctOnce(s[1..], x);
      if x == s[0] {
        assert x !in s[1..] by {
          forall k | 0 <= k < |s| - 1
            ensures s[1..][k] != x
          {
            assert s[1..][k] == s[k + 1];
          }
        }
      }
    }
  }

  /** A full-length draw from a sequence without duplicates yields each of its elements once. */
  lemma DrawnOnce<T>(s: seq<T>, idx: seq<nat>, x: T)
    requires Distinct(s) && IsDraw(idx, |s|, |s|) && x in s
    ensures multiset(Pick(s, idx))[x] == 1
  {
    PickMultiset(s, idx);
    DistinctOnce(s, x);
  }

  /** A sequence without duplicates has as many distinct elements as entries. */
  lemma {:induction false} DistinctCard<T>(s: seq<T>)
    requires Distinct(s)
    ensures |set x | x in s| == |s|
  {
    if s != [] {
      var tail := s[1..];
      assert Distinct(tail) by {
        forall i, j | 0 <= i < j < |tail|
          ensures tail[i] != tail[j]
        {
          assert tail[i] == s[i + 1] && tail[j] == s[j + 1];
        }
      }
      DistinctCard(tail);
      assert s[0] !in tail by {
        forall k | 0 <= k < |tail|
          ensures tail[k] != s[0]
        {
          assert tail[k] == s[k + 1];
        }
      }
      assert (set x | x in s) == (set x | x in tail) + {s[0]} by {
        assert s == [s[0]] + tail;
      }
    }
  }
}
