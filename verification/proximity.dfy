/** The proximity value function: how many trees lie strictly within 30 units of a candidate. */
module Proximity {
  import opened Geo

  /** Some tree lies strictly within Radius of `p`. */
  predicate AnyNear(p: Point, trees: seq<Point>) {
    exists k :: 0 <= k < |trees| && Near(p, trees[k])
  }

  /** Extending a prefix of the trees by one tree adds exactly that tree's nearness. */
  lemma AnyNearExtend(p: Point, trees: seq<Point>, k: nat)
    requires k < |trees|
    ensures AnyNear(p, trees[..k + 1]) <==> AnyNear(p, trees[..k]) || Near(p, trees[k])
  {
    assert trees[..k + 1][k] == trees[k];
    assert forall j :: 0 <= j < k ==> trees[..k + 1][j] == trees[..k][j];
  }

  /** The positions of the trees strictly within Radius of `c`. */
  function NearIndices(c: Point, trees: seq<Point>): set<nat> {
    set k: nat | k < |trees| && Near(c, trees[k])
  }

  /** The count accumulated over the trees in order, as the loop does. */
  function CountNear(c: Point, trees: seq<Point>): (n: nat)
    ensures n <= |trees|
  {
    if |trees| == 0 then 0
    else CountNear(c, trees[..|trees| - 1]) + (if Near(c, trees[|trees| - 1]) then 1 else 0)
  }

  /** `value_fn_step_30m`: counts the trees whose distance to the candidate is below 30. */
  method ValueFnStep(newTree: Point, trees: seq<Point>) returns (count: nat)
    ensures count == |NearIndices(newTree, trees)|
    ensures count <= |trees|
  {
    count := 0;
    for k := 0 to |trees|
      invariant count == CountNear(newTree, trees[..k])
    {
      assert trees[..k + 1][..k] == trees[..k];
      if Near(newTree, trees[k]) {
        count := count + 1;
      }
    }
    assert trees[..|trees|] == trees;
    CountIsCardinality(newTree, trees);
  }

  /** The in-order count is the number of trees within Radius. */
  lemma {:induction false} CountIsCardinality(c: Point, trees: seq<Point>)
    ensures CountNear(c, trees) == |NearIndices(c, trees)|
  {
    if |trees| > 0 {
      var n := |trees| - 1;
      var init := trees[..n];
      CountIsCardinality(c, init);
      var rest := NearIndices(c, init);
      if Near(c, trees[n]) {
        assert NearIndices(c, trees) == rest + {n};
        assert n !in rest;
      } else {
        assert NearIndices(c, trees) == rest;
      }
    }
  }

  /** Appending a tree adds one to the count exactly when it is near the candidate. */
  lemma CountAppend(c: Point, trees: seq<Point>, t: Point)
    ensures CountNear(c, trees + [t]) == CountNear(c, trees) + (if Near(c, t) then 1 else 0)
    ensures CountNear(c, trees) <= CountNear(c, trees + [t]) <= CountNear(c, trees) + 1
    ensures |NearIndices(c, trees + [t])| == |NearIndices(c, trees)| + (if Near(c, t) then 1 else 0)
  {
    assert (trees + [t])[..|trees|] == trees;
    CountIsCardinality(c, trees);
    CountIsCardinality(c, trees + [t]);
  }

  /** The count is positive exactly when some tree is within Radius. */
  lemma {:induction false} CountPositiveIffAnyNear(c: Point, trees: seq<Point>)
    ensures CountNear(c, trees) > 0 <==> AnyNear(c, trees)
  {
    if |trees| > 0 {
      var n := |trees| - 1;
      CountPositiveIffAnyNear(c, trees[..n]);
      if AnyNear(c, trees[..n]) {
        var k :| 0 <= k < n && Near(c, trees[..n][k]);
        assert Near(c, trees[k]);
      }
      if AnyNear(c, trees) && !Near(c, trees[n]) {
        var k :| 0 <= k < |trees| && Near(c, trees[k]);
        assert trees[..n][k] == trees[k];
      }
    }
  }

  /** The threshold is strict: a tree at exactly 30 units is not counted. */
  lemma AtRadiusNotCounted(c: Point, t: Point)
    requires SqDist(c, t) == Radius * Radius
    ensures CountNear(c, [t]) == 0
  {
    assert [t][..0] == [];
  }

  /** Trees 30.01 and 29.99 units from the candidate, and one exactly at 30. */
  lemma ThresholdExamples()
    ensures CountNear(Point(0.0, 0.0), [Point(30.01, 0.0)]) == 0
    ensures CountNear(Point(0.0, 0.0), [Point(29.99, 0.0)]) == 1
    ensures CountNear(Point(0.0, 0.0), [Point(0.0, 30.0)]) == 0
  {
    assert [Point(30.01, 0.0)][..0] == [];
    assert [Point(29.99, 0.0)][..0] == [];
    assert [Point(0.0, 30.0)][..0] == [];
  }
}
