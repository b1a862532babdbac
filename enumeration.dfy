/**
 * The enumeration order of `itertools.combinations(candidates, k)`: the k-tuples of
 * candidate positions that strictly increase, in lexicographic order of the positions.
 * Tie-breaking in the selector depends on this order, so it is spelled out here.
 */
module Enumeration {

  /** Positions that strictly increase. */
  predicate Ascending(s: seq<nat>)
  {
    forall i, j :: 0 <= i < j < |s| ==> s[i] < s[j]
  }

  /** Every position lies in `[lo, n)`. */
  predicate InRange(s: seq<nat>, lo: nat, n: nat)
  {
    forall i :: 0 <= i < |s| ==> lo <= s[i] < n
  }

  /** `s` picks `k` distinct positions out of `[lo, n)`, listed in increasing order. */
  predicate IsCombination(s: seq<nat>, k: nat, lo: nat, n: nat)
  {
    |s| == k && Ascending(s) && InRange(s, lo, n)
  }

  predicate Distinct<T(==)>(s: seq<T>)
  {
    forall i, j :: 0 <= i < j < |s| ==> s[i] != s[j]
  }

  /** Lexicographic order on position tuples. */
  predicate LexLess(a: seq<nat>, b: seq<nat>)
    decreases |a|
  {
    a != [] && b != [] && (a[0] < b[0] || (a[0] == b[0] && LexLess(a[1..], b[1..])))
  }

  function Prefixed(x: nat, ss: seq<seq<nat>>): seq<seq<nat>>
  {
    seq(|ss|, i requires 0 <= i < |ss| => [x] + ss[i])
  }

  /**
   * All `k`-combinations of the positions `[lo, n)` in the order `itertools.combinations`
   * yields them: first every combination starting at `lo`, then those starting later.
   */
  function Combinations(k: nat, lo: nat, n: nat): (r: seq<seq<nat>>)
    requires lo <= n
    ensures forall i :: 0 <= i < |r| ==> IsCombination(r[i], k, lo, n)
    decreases n - lo
  {
    if k == 0 then [[]]
    else if lo == n then []
    else
      var first := Combinations(k - 1, lo + 1, n);
      var later := Combinations(k, lo + 1, n);
      assert forall i :: 0 <= i < |first| ==> IsCombination([lo] + first[i], k, lo, n) by {
        forall i | 0 <= i < |first|
          ensures IsCombination([lo] + first[i], k, lo, n)
        {
          var s := [lo] + first[i];
          assert forall j :: 1 <= j < |s| ==> s[j] == first[i][j - 1];
        }
      }
      Prefixed(lo, first) + later
  }

  /** The elements of `s` at the positions `idx`, in that order. */
  function Pick<T>(s: seq<T>, idx: seq<nat>): (r: seq<T>)
    requires forall i :: 0 <= i < |idx| ==> idx[i] < |s|
  {
    seq(|idx|, i requires 0 <= i < |idx| => s[idx[i]])
  }

  /** `itertools.combinations(s, k)`: the sub-sequences of `s` at each combination of positions. */
  function CombinationsOf<T>(s: seq<T>, k: nat): (r: seq<seq<T>>)
    ensures |r| == |Combinations(k, 0, |s|)|
    ensures forall i :: 0 <= i < |r| ==> r[i] == Pick(s, Combinations(k, 0, |s|)[i])
  {
    var positions := Combinations(k, 0, |s|);
    seq(|positions|, i requires 0 <= i < |positions| => Pick(s, positions[i]))
  }

  /** Every combination of positions appears in the enumeration. */
  lemma {:induction false} CombinationsComplete(s: seq<nat>, k: nat, lo: nat, n: nat)
    requires lo <= n
    requires IsCombination(s, k, lo, n)
    ensures s in Combinations(k, lo, n)
    decreases n - lo
  {
    if k == 0 {
      assert s == [];
    } else {
      assert lo <= s[0] < n;
      var first := Combinations(k - 1, lo + 1, n);
      var later := Combinations(k, lo + 1, n);
      if s[0] == lo {
        var tail := s[1..];
        assert forall j :: 0 <= j < |tail| ==> tail[j] == s[j + 1];
        assert IsCombination(tail, k - 1, lo + 1, n);
        CombinationsComplete(tail, k - 1, lo + 1, n);
        var j :| 0 <= j < |first| && first[j] == tail;
        assert Prefixed(lo, first)[j] == s;
        assert (Prefixed(lo, first) + later)[j] == s;
      } else {
        assert IsCombination(s, k, lo + 1, n);
        CombinationsComplete(s, k, lo + 1, n);
        var j :| 0 <= j < |later| && later[j] == s;
        assert (Prefixed(lo, first) + later)[|first| + j] == s;
      }
    }
  }

  lemma {:induction false} LexLessCons(x: nat, a: seq<nat>, b: seq<nat>)
    ensures LexLess([x] + a, [x] + b) <==> LexLess(a, b)
  {
    assert ([x] + a)[1..] == a;
    assert ([x] + b)[1..] == b;
  }

  /** The enumeration lists combinations in strictly increasing lexicographic order. */
  lemma {:induction false} CombinationsSorted(k: nat, lo: nat, n: nat)
    requires lo <= n
    ensures forall i, j :: 0 <= i < j < |Combinations(k, lo, n)| ==>
      LexLess(Combinations(k, lo, n)[i], Combinations(k, lo, n)[j])
    decreases n - lo
  {
    if k != 0 && lo != n {
      var first := Combinations(k - 1, lo + 1, n);
      var later := Combinations(k, lo + 1, n);
      var all := Prefixed(lo, first) + later;
      CombinationsSorted(k - 1, lo + 1, n);
      CombinationsSorted(k, lo + 1, n);
      forall i, j | 0 <= i < j < |all|
        ensures LexLess(all[i], all[j])
      {
        if j < |first| {
          LexLessCons(lo, first[i], first[j]);
        } else if i < |first| {
          assert all[i][0] == lo;
          assert all[j] == later[j - |first|];
          assert all[j][0] >= lo + 1;
        } else {
          assert all[i] == later[i - |first|] && all[j] == later[j - |first|];
        }
      }
    }
  }

  lemma {:induction false} LexLessIrreflexive(a: seq<nat>)
    ensures !LexLess(a, a)
    decreases |a|
  {
    if a != [] {
      LexLessIrreflexive(a[1..]);
    }
  }

  lemma {:induction false} LexLessAsymmetric(a: seq<nat>, b: seq<nat>)
    ensures LexLess(a, b) ==> !LexLess(b, a)
    decreases |a|
  {
    if a != [] && b != [] && a[0] == b[0] {
      LexLessAsymmetric(a[1..], b[1..]);
    }
  }

  lemma {:induction false} LexLessTotal(a: seq<nat>, b: seq<nat>)
    requires |a| == |b|
    ensures a == b || LexLess(a, b) || LexLess(b, a)
    decreases |a|
  {
    if a != [] && a[0] == b[0] {
      LexLessTotal(a[1..], b[1..]);
      if a[1..] == b[1..] {
        assert a == [a[0]] + a[1..] && b == [b[0]] + b[1..];
      }
    }
  }

  /** In a strictly sorted enumeration, a lexicographically smaller entry comes earlier. */
  lemma EarlierWhenLexLess(combos: seq<seq<nat>>, p: nat, q: nat)
    requires forall i, j :: 0 <= i < j < |combos| ==> LexLess(combos[i], combos[j])
    requires p < |combos| && q < |combos|
    requires LexLess(combos[q], combos[p])
    ensures q < p
  {
    if q == p {
      LexLessIrreflexive(combos[p]);
    } else if p < q {
      LexLessAsymmetric(combos[p], combos[q]);
    }
  }

  /** A combination's `i`-th position is at least `lo + i`. */
  lemma {:induction false} CombinationLowerBound(s: seq<nat>, k: nat, lo: nat, n: nat, i: nat)
    requires IsCombination(s, k, lo, n)
    requires i < k
    ensures lo + i <= s[i]
  {
    if i > 0 {
      CombinationLowerBound(s, k, lo, n, i - 1);
    }
  }

  /** The positions `[0, k)`: the first combination in enumeration order. */
  function FirstPositions(k: nat): (r: seq<nat>)
  {
    seq(k, i => i)
  }

  /** No combination is lexicographically below the first one. */
  lemma {:induction false} NothingBeforeFirst(s: seq<nat>, k: nat, n: nat)
    requires IsCombination(s, k, 0, n)
    ensures !LexLess(s, FirstPositions(k))
  {
    forall i | 0 <= i < k ensures s[i] >= i {
      CombinationLowerBound(s, k, 0, n, i);
    }
    NotBelow(s, FirstPositions(k));
  }

  lemma {:induction false} NotBelow(a: seq<nat>, b: seq<nat>)
    requires |a| == |b|
    requires forall i :: 0 <= i < |a| ==> a[i] >= b[i]
    ensures !LexLess(a, b)
    decreases |a|
  {
    if a != [] {
      NotBelow(a[1..], b[1..]);
    }
  }

  /** There are `k`-combinations of `n` positions exactly when `k <= n`. */
  lemma CombinationsEmptyIff(k: nat, n: nat)
    ensures |Combinations(k, 0, n)| == 0 <==> n < k
  {
    if n >= k {
      assert IsCombination(FirstPositions(k), k, 0, n);
      CombinationsComplete(FirstPositions(k), k, 0, n);
    } else if |Combinations(k, 0, n)| > 0 {
      var s := Combinations(k, 0, n)[0];
      CombinationLowerBound(s, k, 0, n, k - 1);
    }
  }

  /** Elements picked at strictly increasing positions of a duplicate-free sequence are distinct. */
  lemma PickDistinct<T>(s: seq<T>, idx: seq<nat>)
    requires forall i :: 0 <= i < |idx| ==> idx[i] < |s|
    requires Distinct(s) && Ascending(idx)
    ensures Distinct(Pick(s, idx))
  {
  }
}
