/**
 * The reference semantics of `indicesOfNearest` over the active values of one dimension:
 * which values qualify, which value is nearest (with its tie rule), and which indices are returned.
 */
module Nearest {
  import opened Wrappers

  function Abs(x: real): real {
    if x < 0.0 then -x else x
  }

  /** A value takes part in the search when it is present and, if a bound is given, within it (inclusive). */
  predicate Qualifies(v: Option<real>, target: real, maxDistance: Option<real>) {
    v.Some? && (maxDistance.None? || Abs(target - v.value) <= maxDistance.value)
  }

  /**
   * `a` is preferred to `b` as the nearest value to `target`: it is strictly closer, or it is
   * exactly as close and lies at or below the target while `b` lies above it.
   */
  predicate Beats(target: real, a: real, b: real) {
    Abs(target - a) < Abs(target - b)
    || (Abs(target - a) == Abs(target - b) && a <= target && b > target)
  }

  lemma BeatsTransitive(target: real, a: real, b: real, c: real)
    requires Beats(target, a, b) && Beats(target, b, c)
    ensures Beats(target, a, c)
  {
  }

  /** Of two different values, one is always preferred: the nearest value is unique. */
  lemma BeatsTotal(target: real, a: real, b: real)
    requires a != b
    ensures Beats(target, a, b) || Beats(target, b, a)
  {
    if Abs(target - a) == Abs(target - b) {
      assert (a <= target && b > target) || (b <= target && a > target);
    }
  }

  /** Index i holds a qualifying value that no qualifying value is preferred to. */
  ghost predicate IsNearest(vals: seq<Option<real>>, target: real, maxDistance: Option<real>, i: nat)
    requires i < |vals|
  {
    Qualifies(vals[i], target, maxDistance)
    && forall j :: 0 <= j < |vals| && Qualifies(vals[j], target, maxDistance) ==>
         !Beats(target, vals[j].value, vals[i].value)
  }

  /** The nearest indices among the first n positions, in ascending order. */
  ghost function NearestUpTo(vals: seq<Option<real>>, target: real, maxDistance: Option<real>, n: nat): (r: seq<nat>)
    requires n <= |vals|
    ensures forall k :: 0 <= k < |r| ==> r[k] < n && IsNearest(vals, target, maxDistance, r[k])
    ensures forall a, b :: 0 <= a < b < |r| ==> r[a] < r[b]
  {
    if n == 0 then
      []
    else
      var last := if IsNearest(vals, target, maxDistance, n - 1) then [n - 1] else [];
      NearestUpTo(vals, target, maxDistance, n - 1) + last
  }

  /** The answer of `indicesOfNearest`: every index holding the nearest value, ascending. */
  ghost function NearestIndices(vals: seq<Option<real>>, target: real, maxDistance: Option<real>): seq<nat> {
    NearestUpTo(vals, target, maxDistance, |vals|)
  }

  /** The ascending indices below n whose value is exactly b. */
  function IndicesOf(vals: seq<Option<real>>, b: real, n: nat): (r: seq<nat>)
    requires n <= |vals|
    ensures forall k :: 0 <= k < |r| ==> r[k] < n && vals[r[k]] == Some(b)
  {
    if n == 0 then
      []
    else
      var last := if vals[n - 1] == Some(b) then [n - 1] else [];
      IndicesOf(vals, b, n - 1) + last
  }

  lemma {:induction false} IndicesOfNone(vals: seq<Option<real>>, b: real, n: nat)
    requires n <= |vals|
    requires forall j :: 0 <= j < n ==> vals[j] != Some(b)
    ensures IndicesOf(vals, b, n) == []
  {
    if n > 0 {
      IndicesOfNone(vals, b, n - 1);
    }
  }

  lemma {:induction false} IndicesOfComplete(vals: seq<Option<real>>, b: real, n: nat, j: nat)
    requires j < n <= |vals|
    requires vals[j] == Some(b)
    ensures j in IndicesOf(vals, b, n)
  {
    if j < n - 1 {
      IndicesOfComplete(vals, b, n - 1, j);
    }
  }

  /**
   * `best` is the nearest value of the first n positions: some qualifying position holds it
   * and no qualifying position holds a preferred value.
   */
  ghost predicate BestOfPrefix(vals: seq<Option<real>>, target: real, maxDistance: Option<real>, n: nat, best: real)
    requires n <= |vals|
  {
    (exists j :: 0 <= j < n && vals[j] == Some(best))
    && Qualifies(Some(best), target, maxDistance)
    && forall j :: 0 <= j < n && Qualifies(vals[j], target, maxDistance) ==>
         !Beats(target, vals[j].value, best)
  }

  /**
   * The search returns exactly the positions of the nearest value: when `best` is the nearest
   * value of all of vals, the answer is the list of positions holding `best`.
   */
  lemma {:induction false} NearestIsIndicesOfBest(vals: seq<Option<real>>, target: real, maxDistance: Option<real>, best: real, n: nat)
    requires n <= |vals|
    requires BestOfPrefix(vals, target, maxDistance, |vals|, best)
    ensures NearestUpTo(vals, target, maxDistance, n) == IndicesOf(vals, best, n)
  {
    if n > 0 {
      NearestIsIndicesOfBest(vals, target, maxDistance, best, n - 1);
      var i := n - 1;
      if vals[i] == Some(best) {
        assert IsNearest(vals, target, maxDistance, i);
      } else if IsNearest(vals, target, maxDistance, i) {
        var j :| 0 <= j < |vals| && vals[j] == Some(best);
        BeatsTotal(target, vals[i].value, best);
        assert false;
      }
    }
  }

  /** An index is in the answer exactly when it holds the nearest value: none is missed. */
  lemma NearestComplete(vals: seq<Option<real>>, target: real, maxDistance: Option<real>, i: nat)
    requires i < |vals|
    ensures i in NearestIndices(vals, target, maxDistance) <==> IsNearest(vals, target, maxDistance, i)
  {
    if IsNearest(vals, target, maxDistance, i) {
      var best := vals[i].value;
      assert BestOfPrefix(vals, target, maxDistance, |vals|, best);
      NearestIsIndicesOfBest(vals, target, maxDistance, best, |vals|);
      IndicesOfComplete(vals, best, |vals|, i);
    }
  }

  /** With no qualifying value, the answer is empty: no farther fallback is taken. */
  lemma {:induction false} NearestNoneQualify(vals: seq<Option<real>>, target: real, maxDistance: Option<real>, n: nat)
    requires n <= |vals|
    requires forall j :: 0 <= j < |vals| ==> !Qualifies(vals[j], target, maxDistance)
    ensures NearestUpTo(vals, target, maxDistance, n) == []
  {
    if n > 0 {
      NearestNoneQualify(vals, target, maxDistance, n - 1);
    }
  }

  /** Every returned index holds one and the same value, present and within the bound. */
  lemma NearestSingleValue(vals: seq<Option<real>>, target: real, maxDistance: Option<real>, a: nat, b: nat)
    requires a < |NearestIndices(vals, target, maxDistance)|
    requires b < |NearestIndices(vals, target, maxDistance)|
    ensures vals[NearestIndices(vals, target, maxDistance)[a]] == vals[NearestIndices(vals, target, maxDistance)[b]]
    ensures Qualifies(vals[NearestIndices(vals, target, maxDistance)[a]], target, maxDistance)
  {
    var r := NearestIndices(vals, target, maxDistance);
    var x, y := vals[r[a]].value, vals[r[b]].value;
    if x != y {
      BeatsTotal(target, x, y);
    }
  }

  /**
   * A qualifying value that is the first to qualify, or that is preferred to the best so far,
   * becomes the best of the longer prefix, and no earlier position holds it.
   */
  lemma NewBest(vals: seq<Option<real>>, target: real, maxDistance: Option<real>, i: nat, any: bool, best: real)
    requires i < |vals| && Qualifies(vals[i], target, maxDistance)
    requires !any ==> forall j :: 0 <= j < i ==> !Qualifies(vals[j], target, maxDistance)
    requires any ==> BestOfPrefix(vals, target, maxDistance, i, best) && Beats(target, vals[i].value, best)
    ensures BestOfPrefix(vals, target, maxDistance, i + 1, vals[i].value)
    ensures IndicesOf(vals, vals[i].value, i) == []
  {
    var v := vals[i].value;
    forall j | 0 <= j < i + 1 && Qualifies(vals[j], target, maxDistance)
      ensures !Beats(target, vals[j].value, v)
    {
      if j < i && Beats(target, vals[j].value, v) {
        BeatsTransitive(target, vals[j].value, v, best);
      }
    }
    IndicesOfNone(vals, v, i);
  }

  /** The test the search applies to a candidate against the best so far is exactly Beats. */
  lemma PreferenceTest(target: real, v: real, minDiff: real)
    ensures Beats(target, v, target - minDiff) <==>
      Abs(target - v) < Abs(minDiff)
      || (Abs(target - v) == Abs(minDiff) && target - v >= 0.0 && minDiff < 0.0)
  {
  }

  /**
   * A position that does not qualify, or whose value is not preferred to the best so far,
   * leaves the best unchanged; it joins the answer exactly when it holds the best value.
   */
  lemma KeepBest(vals: seq<Option<real>>, target: real, maxDistance: Option<real>, i: nat, best: real)
    requires i < |vals| && BestOfPrefix(vals, target, maxDistance, i, best)
    requires Qualifies(vals[i], target, maxDistance) ==> !Beats(target, vals[i].value, best)
    ensures BestOfPrefix(vals, target, maxDistance, i + 1, best)
    ensures IndicesOf(vals, best, i + 1) ==
      IndicesOf(vals, best, i) + (if vals[i] == Some(best) then [i] else [])
  {
  }

  /**
   * The scan `indicesOfNearest` runs over the active values: it tracks the best distance and
   * signed difference so far, restarts its answer when a preferred value appears, and appends
   * every position holding the current best value. A value exactly as near as the best
   * replaces it only when it lies at or below the target and the best lies above.
   */
  method ScanNearest(vals: seq<Option<real>>, target: real, maxDistance: Option<real>) returns (nearest: seq<nat>)
    ensures nearest == NearestIndices(vals, target, maxDistance)
  {
    var any := false;
    var minDist, minDiff := 0.0, -1.0;
    nearest := [];
    ghost var bestAt := 0;
    var i := 0;
    while i < |vals|
      invariant 0 <= i <= |vals|
      invariant !any ==> nearest == [] && forall j :: 0 <= j < i ==> !Qualifies(vals[j], target, maxDistance)
      invariant any ==> minDist == Abs(minDiff) && bestAt < i && vals[bestAt] == Some(target - minDiff)
      invariant any ==> BestOfPrefix(vals, target, maxDistance, i, target - minDiff)
      invariant any ==> nearest == IndicesOf(vals, target - minDiff, i)
    {
      var v := vals[i];
      ghost var best := target - minDiff;
      if v.Some? {
        var diff := target - v.value;
        var dist := Abs(diff);
        if maxDistance.None? || dist <= maxDistance.value {
          PreferenceTest(target, v.value, minDiff);
          if !any || dist < minDist || (dist == minDist && diff >= 0.0 && minDiff < 0.0) {
            NewBest(vals, target, maxDistance, i, any, best);
            minDist, minDiff, nearest, any := dist, diff, [], true;
            bestAt := i;
          } else {
            KeepBest(vals, target, maxDistance, i, best);
          }
          if diff == minDiff {
            nearest := nearest + [i];
          }
        } else if any {
          KeepBest(vals, target, maxDistance, i, best);
        }
      } else if any {
        KeepBest(vals, target, maxDistance, i, best);
      }
      i := i + 1;
    }
    if any {
      NearestIsIndicesOfBest(vals, target, maxDistance, target - minDiff, |vals|);
    } else {
      NearestNoneQualify(vals, target, maxDistance, |vals|);
    }
  }

}
