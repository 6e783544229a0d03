/**
 * The relation the union pass computes. Two geometries touch, in the sense the
 * code uses, when each holds a reference filed under the same index key; two
 * geometries are linked when a chain of touching geometries joins them. The
 * key is `Math.abs` of the reference, so this is not the same relation as
 * "share an arc" under TopoJSON's `~k` convention: the lemmas at the end of
 * the module exhibit both discrepancies.
 */
module Touching {
  import opened Arcs
  import opened ArcIndex

  /** Geometries `i` and `j` hold references `a` and `b` with `|a| == |b|`. */
  ghost predicate ShareKey(geoms: seq<Geometry>, i: nat, j: nat)
  {
    && i < |geoms| && j < |geoms|
    && exists a, b :: a in FlatArcs(geoms[i]) && b in FlatArcs(geoms[j]) && Key(a) == Key(b)
  }

  /** Step `t` of `w` joins two geometries that share a key. */
  ghost predicate Step(geoms: seq<Geometry>, w: seq<nat>, t: int)
  {
    0 <= t && t + 1 < |w| && ShareKey(geoms, w[t], w[t + 1])
  }

  /** A walk through geometries in which each step joins two geometries that share a key. */
  ghost predicate IsWalk(geoms: seq<Geometry>, w: seq<nat>)
  {
    && |w| > 0
    && (forall t :: 0 <= t < |w| ==> w[t] < |geoms|)
    && (forall t :: 0 <= t < |w| - 1 ==> Step(geoms, w, t))
  }

  /** `i` and `j` are joined by a walk: the reflexive-transitive closure of `ShareKey`. */
  ghost predicate Linked(geoms: seq<Geometry>, i: nat, j: nat)
  {
    exists w :: IsWalk(geoms, w) && w[0] == i && w[|w| - 1] == j
  }

  lemma ShareKeyFromCounts(geoms: seq<Geometry>, i: nat, j: nat, k: nat)
    requires i < |geoms| && j < |geoms|
    requires KeyCount(FlatArcs(geoms[i]), k) > 0 && KeyCount(FlatArcs(geoms[j]), k) > 0
    ensures ShareKey(geoms, i, j)
  {
    KeyCountPositive(FlatArcs(geoms[i]), k);
    KeyCountPositive(FlatArcs(geoms[j]), k);
  }

  lemma ShareKeyToCounts(geoms: seq<Geometry>, i: nat, j: nat) returns (k: nat)
    requires ShareKey(geoms, i, j)
    ensures KeyCount(FlatArcs(geoms[i]), k) > 0 && KeyCount(FlatArcs(geoms[j]), k) > 0
  {
    var a, b :| a in FlatArcs(geoms[i]) && b in FlatArcs(geoms[j]) && Key(a) == Key(b);
    k := Key(a);
    KeyCountPositive(FlatArcs(geoms[i]), k);
    KeyCountPositive(FlatArcs(geoms[j]), k);
  }

  lemma LinkedRefl(geoms: seq<Geometry>, i: nat)
    requires i < |geoms|
    ensures Linked(geoms, i, i)
  {
    assert IsWalk(geoms, [i]);
  }

  lemma LinkedStep(geoms: seq<Geometry>, i: nat, j: nat)
    requires ShareKey(geoms, i, j)
    ensures Linked(geoms, i, j)
  {
    assert IsWalk(geoms, [i, j]);
  }

  /** Sharing a key is symmetric. */
  lemma ShareKeySym(geoms: seq<Geometry>, i: nat, j: nat)
    requires ShareKey(geoms, i, j)
    ensures ShareKey(geoms, j, i)
  {
    var a, b :| a in FlatArcs(geoms[i]) && b in FlatArcs(geoms[j]) && Key(a) == Key(b);
    assert b in FlatArcs(geoms[j]) && a in FlatArcs(geoms[i]) && Key(b) == Key(a);
  }

  /** Step `t` of `u` joins the two geometries of step `s` of the walk `w`, in either order. */
  lemma StepCopy(geoms: seq<Geometry>, w: seq<nat>, u: seq<nat>, s: nat, t: nat)
    requires IsWalk(geoms, w) && s < |w| - 1 && t < |u| - 1
    requires (u[t] == w[s] && u[t + 1] == w[s + 1]) || (u[t] == w[s + 1] && u[t + 1] == w[s])
    ensures Step(geoms, u, t)
  {
    assert Step(geoms, w, s);
    if u[t] != w[s] {
      ShareKeySym(geoms, w[s], w[s + 1]);
    }
  }

  /** Step `t` of a walk read backwards is step `|w| - 2 - t` of the walk, reversed. */
  lemma ReversedStep(geoms: seq<Geometry>, w: seq<nat>, v: seq<nat>, t: nat)
    requires IsWalk(geoms, w) && |v| == |w| && t < |v| - 1
    requires forall t :: 0 <= t < |v| ==> v[t] == w[|w| - 1 - t]
    ensures Step(geoms, v, t)
  {
    var s := |w| - 2 - t;
    assert v[t] == w[s + 1] && v[t + 1] == w[s];
    StepCopy(geoms, w, v, s, t);
  }

  /** A walk read backwards is a walk. */
  lemma ReversedWalk(geoms: seq<Geometry>, w: seq<nat>, v: seq<nat>)
    requires IsWalk(geoms, w) && |v| == |w|
    requires forall t :: 0 <= t < |v| ==> v[t] == w[|w| - 1 - t]
    ensures IsWalk(geoms, v)
  {
    forall t | 0 <= t < |v| - 1
      ensures Step(geoms, v, t)
    {
      ReversedStep(geoms, w, v, t);
    }
  }

  lemma LinkedSym(geoms: seq<Geometry>, i: nat, j: nat)
    requires Linked(geoms, i, j)
    ensures Linked(geoms, j, i)
  {
    var w :| IsWalk(geoms, w) && w[0] == i && w[|w| - 1] == j;
    var v := seq(|w|, t requires 0 <= t < |w| => w[|w| - 1 - t]);
    ReversedWalk(geoms, w, v);
    assert v[0] == j && v[|v| - 1] == i;
  }

  /** Step `t` of two joined walks is a step of the first or of the second. */
  lemma JoinedStep(geoms: seq<Geometry>, w: seq<nat>, v: seq<nat>, t: nat)
    requires IsWalk(geoms, w) && IsWalk(geoms, v) && w[|w| - 1] == v[0]
    requires t < |w| + |v| - 2
    ensures Step(geoms, w + v[1..], t)
  {
    var u := w + v[1..];
    if t < |w| - 1 {
      assert u[t] == w[t] && u[t + 1] == w[t + 1];
      StepCopy(geoms, w, u, t, t);
    } else {
      var s := t - (|w| - 1);
      assert u[t] == v[s] && u[t + 1] == v[s + 1];
      StepCopy(geoms, v, u, s, t);
    }
  }

  /** Two walks, the second starting where the first ends, join into one walk. */
  lemma JoinedWalk(geoms: seq<Geometry>, w: seq<nat>, v: seq<nat>)
    requires IsWalk(geoms, w) && IsWalk(geoms, v) && w[|w| - 1] == v[0]
    ensures IsWalk(geoms, w + v[1..])
  {
    forall t | 0 <= t < |w + v[1..]| - 1
      ensures Step(geoms, w + v[1..], t)
    {
      JoinedStep(geoms, w, v, t);
    }
  }

  lemma LinkedTrans(geoms: seq<Geometry>, i: nat, j: nat, l: nat)
    requires Linked(geoms, i, j) && Linked(geoms, j, l)
    ensures Linked(geoms, i, l)
  {
    var w :| IsWalk(geoms, w) && w[0] == i && w[|w| - 1] == j;
    var v :| IsWalk(geoms, v) && v[0] == j && v[|v| - 1] == l;
    var u := w + v[1..];
    JoinedWalk(geoms, w, v);
    assert u[0] == i && u[|u| - 1] == l;
  }

  /** From any position inside the set, the walk crosses the border at some later step. */
  lemma {:induction false} WalkLeavesFrom(geoms: seq<Geometry>, w: seq<nat>, inside: set<nat>, s: nat) returns (t: nat)
    requires IsWalk(geoms, w) && s < |w| && w[s] in inside && w[|w| - 1] !in inside
    ensures s <= t < |w| - 1 && w[t] in inside && w[t + 1] !in inside
    decreases |w| - s
  {
    if w[s + 1] !in inside {
      t := s;
    } else {
      t := WalkLeavesFrom(geoms, w, inside, s + 1);
    }
  }

  /**
   * A walk that starts inside a set of geometries and ends outside it crosses
   * the border at some step, whose two geometries share a key.
   */
  lemma WalkLeaves(geoms: seq<Geometry>, w: seq<nat>, inside: set<nat>) returns (t: nat)
    requires IsWalk(geoms, w) && w[0] in inside && w[|w| - 1] !in inside
    ensures t < |w| - 1 && w[t] in inside && w[t + 1] !in inside
    ensures ShareKey(geoms, w[t], w[t + 1])
  {
    t := WalkLeavesFrom(geoms, w, inside, 0);
    assert Step(geoms, w, t);
  }

  /** A geometry that shares a key with no other geometry is linked to no other geometry. */
  lemma IsolatedNotLinked(geoms: seq<Geometry>, i: nat, j: nat)
    requires forall k :: 0 <= k < |geoms| && k != i ==> !ShareKey(geoms, i, k)
    requires j != i
    ensures !Linked(geoms, i, j)
  {
    if Linked(geoms, i, j) {
      var w :| IsWalk(geoms, w) && w[0] == i && w[|w| - 1] == j;
      var t := WalkLeaves(geoms, w, {i});
      assert false;
    }
  }

  /**
   * The arc a TopoJSON reference traverses: `k` is arc `k` forward and
   * `~k = -k-1` is arc `k` reversed (section 2.1.5 of the TopoJSON specification).
   */
  function ArcOf(a: int): (arc: nat)
  {
    if a < 0 then -a - 1 else a
  }

  /** Geometries `i` and `j` reference one arc, in whichever directions. */
  ghost predicate ShareArc(geoms: seq<Geometry>, i: nat, j: nat)
  {
    && i < |geoms| && j < |geoms|
    && exists a, b :: a in FlatArcs(geoms[i]) && b in FlatArcs(geoms[j]) && ArcOf(a) == ArcOf(b)
  }

  /**
   * Two rings `[0, 2]` and `[~0, 3]` that share arc 0, one traversing it
   * forward and the other in reverse as TopoJSON encodes a common edge: their
   * keys are {0, 2} and {1, 3}, so these two are not linked.
   */
  lemma AdjacentSquaresNotLinked()
    ensures var geoms := [Geometry("Polygon", PolygonArcs([[0, 2]])), Geometry("Polygon", PolygonArcs([[-1, 3]]))];
      ShareArc(geoms, 0, 1) && !Linked(geoms, 0, 1)
  {
    var geoms := [Geometry("Polygon", PolygonArcs([[0, 2]])), Geometry("Polygon", PolygonArcs([[-1, 3]]))];
    FlatArcsOfPolygon([[0, 2]]);
    FlatArcsOfPolygon([[-1, 3]]);
    assert FlatArcs(geoms[0]) == [0, 2];
    assert FlatArcs(geoms[1]) == [-1, 3];
    assert ShareArc(geoms, 0, 1) by {
      assert 0 in FlatArcs(geoms[0]) && -1 in FlatArcs(geoms[1]) && ArcOf(0) == ArcOf(-1);
    }
    assert !ShareKey(geoms, 0, 1) by {
      forall a, b | a in FlatArcs(geoms[0]) && b in FlatArcs(geoms[1])
        ensures Key(a) != Key(b)
      {
        assert a == 0 || a == 2;
        assert b == -1 || b == 3;
      }
    }
    IsolatedNotLinked(geoms, 0, 1);
  }

  /**
   * Two rings `[0, 1]` and `[2, ~0]` that share arc 0 in opposite directions:
   * the two references to arc 0 have keys 0 and 1, yet the polygons are linked
   * because arc 1 forward and `~0` both have key 1.
   */
  lemma AdjacentSquaresLinkedByCoincidence()
    ensures var geoms := [Geometry("Polygon", PolygonArcs([[0, 1]])), Geometry("Polygon", PolygonArcs([[2, -1]]))];
      ShareArc(geoms, 0, 1) && Linked(geoms, 0, 1)
  {
    var geoms := [Geometry("Polygon", PolygonArcs([[0, 1]])), Geometry("Polygon", PolygonArcs([[2, -1]]))];
    FlatArcsOfPolygon([[0, 1]]);
    FlatArcsOfPolygon([[2, -1]]);
    assert FlatArcs(geoms[0]) == [0, 1];
    assert FlatArcs(geoms[1]) == [2, -1];
    assert ShareArc(geoms, 0, 1) by {
      assert 0 in FlatArcs(geoms[0]) && -1 in FlatArcs(geoms[1]) && ArcOf(0) == ArcOf(-1);
    }
    assert ShareKey(geoms, 0, 1) by {
      assert 1 in FlatArcs(geoms[0]) && -1 in FlatArcs(geoms[1]) && Key(1) == Key(-1);
    }
    LinkedStep(geoms, 0, 1);
  }

  /**
   * One polygon on arc 2 and one on arc 1 reversed (`~1 = -2`): no arc in
   * common, yet both references have key 2, so the two are linked.
   */
  lemma DistinctArcsLinked()
    ensures var geoms := [Geometry("Polygon", PolygonArcs([[2]])), Geometry("Polygon", PolygonArcs([[-2]]))];
      !ShareArc(geoms, 0, 1) && Linked(geoms, 0, 1)
  {
    var geoms := [Geometry("Polygon", PolygonArcs([[2]])), Geometry("Polygon", PolygonArcs([[-2]]))];
    FlatArcsOfPolygon([[2]]);
    FlatArcsOfPolygon([[-2]]);
    assert FlatArcs(geoms[0]) == [2];
    assert FlatArcs(geoms[1]) == [-2];
    assert Key(2) == Key(-2);
    LinkedStep(geoms, 0, 1);
  }
}
