/**
 * The arc-referenced geometries a TopoJSON topology hands back, and how
 * `mergeTouchingFeatures` reads the arc references out of them.
 *
 * A geometry carries a type tag and an `arcs` array. For a Polygon the array
 * holds rings, each an array of arc references; for a MultiPolygon it holds
 * polygons. An arc reference is an integer: `k` traverses arc `k` forward and
 * `~k = -k-1` traverses it in reverse (section 2.1.5 of the TopoJSON
 * specification). The code does not rely on the nesting depth: it collects
 * every integer leaf, so the `arcs` array is modelled as a forest of arbitrary
 * nesting.
 */
module Arcs {

  /** One element of an `arcs` array: an integer arc reference or a nested array. */
  datatype ArcTree = Ref(arc: int) | Nested(items: seq<ArcTree>)

  /** A geometry object of the topology: its `type` tag and its `arcs` array. */
  datatype Geometry = Geometry(kind: string, arcs: seq<ArcTree>)

  /** The integer leaves of a forest of arc arrays, left to right. */
  function Leaves(items: seq<ArcTree>): (r: seq<int>)
    decreases items
  {
    if |items| == 0 then []
    else
      match items[0]
      case Ref(a) => [a] + Leaves(items[1..])
      case Nested(xs) => Leaves(xs) + Leaves(items[1..])
  }

  lemma {:induction false} LeavesAppend(xs: seq<ArcTree>, ys: seq<ArcTree>)
    ensures Leaves(xs + ys) == Leaves(xs) + Leaves(ys)
    decreases xs
  {
    if |xs| != 0 {
      assert (xs + ys)[1..] == xs[1..] + ys;
      LeavesAppend(xs[1..], ys);
    } else {
      assert xs + ys == ys;
    }
  }

  /**
   * The recursive `collect` helper: visits the items in order, descending into
   * nested arrays and pushing every integer onto the accumulator. What it
   * pushes is exactly the leaves of the items, left to right.
   */
  function Collect(acc: seq<int>, items: seq<ArcTree>): (out: seq<int>)
    ensures out == acc + Leaves(items)
    decreases items
  {
    if |items| == 0 then acc
    else
      var rest := items[1..];
      match items[0]
      case Ref(a) =>
        assert acc + [a] + Leaves(rest) == acc + ([a] + Leaves(rest));
        Collect(acc + [a], rest)
      case Nested(xs) =>
        var mid := Collect(acc, xs);
        assert mid + Leaves(rest) == acc + (Leaves(xs) + Leaves(rest));
        Collect(mid, rest)
  }

  /** `Array.prototype.flat()` with its default depth of one. */
  function Flat(items: seq<ArcTree>): (r: seq<ArcTree>)
  {
    if |items| == 0 then []
    else
      match items[0]
      case Ref(a) => [Ref(a)] + Flat(items[1..])
      case Nested(xs) => xs + Flat(items[1..])
  }

  /** Flattening one level keeps the leaves and their order. */
  lemma {:induction false} LeavesFlat(items: seq<ArcTree>)
    ensures Leaves(Flat(items)) == Leaves(items)
    decreases items
  {
    if |items| != 0 {
      LeavesFlat(items[1..]);
      match items[0]
      case Ref(a) =>
        LeavesAppend([Ref(a)], Flat(items[1..]));
        assert Leaves([Ref(a)]) == [a] by {
          assert [Ref(a)][1..] == [];
        }
      case Nested(xs) =>
        LeavesAppend(xs, Flat(items[1..]));
    }
  }

  predicate IsPolygonal(g: Geometry)
  {
    g.kind == "Polygon" || g.kind == "MultiPolygon"
  }

  /** `arcsArr`: a Polygon's arcs, a MultiPolygon's arcs flattened once, nothing otherwise. */
  function ArcsArray(g: Geometry): (r: seq<ArcTree>)
  {
    if g.kind == "Polygon" then g.arcs
    else if g.kind == "MultiPolygon" then Flat(g.arcs)
    else []
  }

  /**
   * `flatArcs` of one geometry: the integer leaves of its arcs array, in order,
   * whatever its nesting; no arcs at all for a type other than Polygon or
   * MultiPolygon.
   */
  function FlatArcs(g: Geometry): (r: seq<int>)
    ensures IsPolygonal(g) ==> r == Leaves(g.arcs)
    ensures !IsPolygonal(g) ==> r == []
  {
    LeavesFlat(g.arcs);
    Collect([], ArcsArray(g))
  }

  /** The arc array of one ring: its references as leaves. */
  function RingArcs(ring: seq<int>): (r: seq<ArcTree>)
    ensures Leaves(r) == ring
  {
    if |ring| == 0 then []
    else
      LeavesAppend([Ref(ring[0])], RingArcs(ring[1..]));
      assert Leaves([Ref(ring[0])]) == [ring[0]] by {
        assert [Ref(ring[0])][1..] == [];
      }
      [Ref(ring[0])] + RingArcs(ring[1..])
  }

  /** The concatenation of a sequence of sequences. */
  function Concat<T>(ss: seq<seq<T>>): (r: seq<T>)
  {
    if |ss| == 0 then [] else ss[0] + Concat(ss[1..])
  }

  /** A Polygon's `arcs`: one nested array per ring. */
  function PolygonArcs(rings: seq<seq<int>>): (r: seq<ArcTree>)
  {
    if |rings| == 0 then [] else [Nested(RingArcs(rings[0]))] + PolygonArcs(rings[1..])
  }

  /** A MultiPolygon's `arcs`: one nested array per polygon. */
  function MultiPolygonArcs(polygons: seq<seq<seq<int>>>): (r: seq<ArcTree>)
  {
    if |polygons| == 0 then [] else [Nested(PolygonArcs(polygons[0]))] + MultiPolygonArcs(polygons[1..])
  }

  lemma {:induction false} PolygonLeaves(rings: seq<seq<int>>)
    ensures Leaves(PolygonArcs(rings)) == Concat(rings)
    decreases rings
  {
    if |rings| != 0 {
      var head := [Nested(RingArcs(rings[0]))];
      PolygonLeaves(rings[1..]);
      LeavesAppend(head, PolygonArcs(rings[1..]));
      assert Leaves(head) == rings[0] by {
        assert head[1..] == [];
      }
    }
  }

  /** The MultiPolygon analogue of `PolygonLeaves`: the polygons' rings concatenated in order. */
  ghost function MultiConcat(polygons: seq<seq<seq<int>>>): (r: seq<int>)
  {
    if |polygons| == 0 then [] else Concat(polygons[0]) + MultiConcat(polygons[1..])
  }

  lemma {:induction false} MultiPolygonLeaves(polygons: seq<seq<seq<int>>>)
    ensures Leaves(MultiPolygonArcs(polygons)) == MultiConcat(polygons)
    decreases polygons
  {
    if |polygons| != 0 {
      var head := [Nested(PolygonArcs(polygons[0]))];
      MultiPolygonLeaves(polygons[1..]);
      PolygonLeaves(polygons[0]);
      LeavesAppend(head, MultiPolygonArcs(polygons[1..]));
      assert Leaves(head) == Concat(polygons[0]) by {
        assert head[1..] == [];
      }
    }
  }

  /**
   * For geometries in the shape TopoJSON produces, the flattened arcs are the
   * rings' references concatenated: ring by ring for a Polygon, polygon by
   * polygon and ring by ring for a MultiPolygon.
   */
  lemma FlatArcsOfPolygon(rings: seq<seq<int>>)
    ensures FlatArcs(Geometry("Polygon", PolygonArcs(rings))) == Concat(rings)
  {
    PolygonLeaves(rings);
  }

  lemma FlatArcsOfMultiPolygon(polygons: seq<seq<seq<int>>>)
    ensures FlatArcs(Geometry("MultiPolygon", MultiPolygonArcs(polygons))) == MultiConcat(polygons)
  {
    MultiPolygonLeaves(polygons);
  }

  /**
   * The index key of an arc reference: `Math.abs(arcIdx)`. A reversed
   * reference `~k = -k-1` has key `k+1`, not `k`.
   */
  function Key(a: int): (k: nat)
  {
    if a < 0 then -a else a
  }

  /** The reversed reference to arc `k` is filed under the key of the forward reference to arc `k+1`. */
  lemma ReversedReferenceKey(k: int)
    requires 0 <= k
    ensures Key(-k - 1) == k + 1 == Key(k + 1)
    ensures Key(-k - 1) != Key(k)
  {
  }
}
