/**
 * `mergeTouchingFeatures` end to end, from the topology's geometry list to
 * the FeatureCollection it returns. Building the topology and merging the
 * geometries of a group are the work of the TopoJSON libraries: the geometry
 * list is the input, and `merge` stands for `topojson.merge(topology, ·)`.
 */
module Merge {
  import opened Arcs
  import opened ArcIndex
  import opened UnionFind
  import opened Touching
  import opened UnionPass
  import opened Grouping

  /** `{type: "Feature", properties, geometry}`; the type tag is the constructor. */
  datatype Feature<G> = Feature(properties: map<string, string>, geometry: G)

  /** `{type: "FeatureCollection", features}`. */
  datatype FeatureCollection<G> = FeatureCollection(features: seq<Feature<G>>)

  /** The geometries at a group's indices, in the group's order. */
  function Select(geoms: seq<Geometry>, indices: seq<nat>): (r: seq<Geometry>)
    requires forall t :: 0 <= t < |indices| ==> indices[t] < |geoms|
    ensures |r| == |indices|
    ensures forall t :: 0 <= t < |r| ==> r[t] == geoms[indices[t]]
  {
    seq(|indices|, t requires 0 <= t < |indices| => geoms[indices[t]])
  }

  /** The index lists of a map's entries, in insertion order. */
  function Lists(entries: seq<Entry>): (ls: seq<seq<nat>>)
    ensures |ls| == |entries|
    ensures forall g :: 0 <= g < |entries| ==> ls[g] == entries[g].indices
  {
    seq(|entries|, g requires 0 <= g < |entries| => entries[g].indices)
  }

  /** Every list names only geometries below `n`. */
  ghost predicate InRange(groups: seq<seq<nat>>, n: nat)
  {
    forall g, t :: 0 <= g < |groups| && 0 <= t < |groups[g]| ==> groups[g][t] < n
  }

  /** Geometry `y` lies in one of the groups. */
  ghost predicate InSomeGroup(groups: seq<seq<nat>>, y: nat)
  {
    exists g :: 0 <= g < |groups| && y in groups[g]
  }

  /**
   * The output loop: one feature per group, in the map's order, with empty
   * properties and the merge of the group's geometries in ascending order.
   */
  method BuildFeatures<G>(geoms: seq<Geometry>, groups: seq<seq<nat>>, merge: seq<Geometry> -> G)
    returns (features: seq<Feature<G>>)
    requires InRange(groups, |geoms|)
    ensures |features| == |groups|
    ensures forall g :: 0 <= g < |groups| ==> features[g] == Feature(map[], merge(Select(geoms, groups[g])))
  {
    features := [];
    var g := 0;
    while g < |groups|
      invariant 0 <= g <= |groups|
      invariant |features| == g
      invariant forall g' :: 0 <= g' < g ==> features[g'] == Feature(map[], merge(Select(geoms, groups[g'])))
    {
      var merged := merge(Select(geoms, groups[g]));
      features := features + [Feature(map[], merged)];
      g := g + 1;
    }
  }

  /** The state the union pass leaves, with the grouping taken from it. */
  ghost predicate Grouped(geoms: seq<Geometry>, idx: seq<Entry>, p: seq<nat>, rank: seq<nat>, entries: seq<Entry>)
  {
    && IndexOf(geoms, idx) && Valid(p, rank) && |p| == |geoms|
    && RootsLinked(geoms, p, rank)
    && (forall j :: 0 <= j < |idx| ==> Joined(p, rank, idx[j].indices))
    && KeysUnique(entries)
    && (forall r :: Lookup(entries, r) == Members(p, rank, r, |p|))
  }

  /** In a group holding `y`, the members are exactly the geometries linked to `y`. */
  lemma GroupIsComponent(geoms: seq<Geometry>, idx: seq<Entry>, p: seq<nat>, rank: seq<nat>, entries: seq<Entry>, g: nat, y: nat, z: nat)
    requires Grouped(geoms, idx, p, rank, entries) && g < |entries|
    requires y in entries[g].indices
    ensures z in entries[g].indices <==> z < |geoms| && Linked(geoms, y, z)
  {
    GroupsPartition(p, rank, entries, g, y);
    GroupsPartition(p, rank, entries, g, z);
    if z < |geoms| {
      RootsAreComponents(geoms, idx, p, rank, y, z);
    }
  }

  /** A geometry lies in one group only, the one keyed by its root. */
  lemma GroupUnique(geoms: seq<Geometry>, idx: seq<Entry>, p: seq<nat>, rank: seq<nat>, entries: seq<Entry>, g: nat, g': nat, y: nat)
    requires Grouped(geoms, idx, p, rank, entries) && g < |entries| && g' < |entries|
    requires y in entries[g].indices && y in entries[g'].indices
    ensures g == g'
  {
    GroupsPartition(p, rank, entries, g, y);
    GroupsPartition(p, rank, entries, g', y);
  }

  /** Every geometry lies in some group: the one its root keys. */
  lemma GroupCovers(geoms: seq<Geometry>, idx: seq<Entry>, p: seq<nat>, rank: seq<nat>, entries: seq<Entry>, y: nat)
    returns (g: nat)
    requires Grouped(geoms, idx, p, rank, entries) && y < |geoms|
    ensures g < |entries| && y in entries[g].indices
  {
    var r := Root(p, rank, y);
    MembersIn(p, rank, r, |p|, y);
    g := Position(entries, r);
    assert Lookup(entries, r) != [];
  }

  /**
   * The groups the grouping pass leaves partition the geometries into the
   * classes of `Linked`, ordered by their least member.
   */
  lemma GroupsProperties(geoms: seq<Geometry>, idx: seq<Entry>, p: seq<nat>, rank: seq<nat>, entries: seq<Entry>)
    requires Grouped(geoms, idx, p, rank, entries)
    requires forall g :: 0 <= g < |entries| ==> |entries[g].indices| > 0
    requires forall g, g' :: 0 <= g < g' < |entries| ==> entries[g].indices[0] < entries[g'].indices[0]
    ensures InRange(Lists(entries), |geoms|)
    ensures forall g :: 0 <= g < |entries| ==> StrictlyIncreasing(Lists(entries)[g])
    ensures forall y :: 0 <= y < |geoms| ==> InSomeGroup(Lists(entries), y)
    ensures forall g, g', y :: 0 <= g < |entries| && 0 <= g' < |entries| && y in Lists(entries)[g] && y in Lists(entries)[g'] ==> g == g'
    ensures forall g, y: nat, z: nat :: 0 <= g < |entries| && y in Lists(entries)[g] ==>
      (z in Lists(entries)[g] <==> z < |geoms| && Linked(geoms, y, z))
  {
    var groups := Lists(entries);
    forall g, t | 0 <= g < |groups| && 0 <= t < |groups[g]|
      ensures groups[g][t] < |geoms|
    {
      GroupsPartition(p, rank, entries, g, groups[g][t]);
    }
    forall g | 0 <= g < |groups|
      ensures StrictlyIncreasing(groups[g])
    {
      GroupsPartition(p, rank, entries, g, 0);
    }
    forall y | 0 <= y < |geoms|
      ensures InSomeGroup(groups, y)
    {
      var g := GroupCovers(geoms, idx, p, rank, entries, y);
    }
    forall g, g', y | 0 <= g < |entries| && 0 <= g' < |entries| && y in groups[g] && y in groups[g']
      ensures g == g'
    {
      GroupUnique(geoms, idx, p, rank, entries, g, g', y);
    }
    forall g, y: nat, z: nat | 0 <= g < |entries| && y in groups[g]
      ensures z in groups[g] <==> z < |geoms| && Linked(geoms, y, z)
    {
      GroupIsComponent(geoms, idx, p, rank, entries, g, y, z);
    }
  }

  /**
   * `mergeTouchingFeatures(geojson)`, given the geometries of the topology
   * built from `geojson`. With no geometries there are no features; otherwise
   * one feature per group, in the order the groups were first met, with
   * empty properties and the merge of the group's geometries. The groups
   * (`groups`, not part of the output) partition the geometry indices: each
   * is non-empty and ascending, they are ordered by their first index, every
   * geometry lies in exactly one, and two geometries share a group exactly
   * when they are linked through references with a common `Math.abs` key.
   */
  method MergeTouchingFeatures<G>(geoms: seq<Geometry>, merge: seq<Geometry> -> G)
    returns (fc: FeatureCollection<G>, ghost groups: seq<seq<nat>>)
    ensures |geoms| == 0 ==> fc.features == []
    ensures |fc.features| == |groups| && InRange(groups, |geoms|)
    ensures forall g :: 0 <= g < |groups| ==> fc.features[g] == Feature(map[], merge(Select(geoms, groups[g])))
    ensures forall g :: 0 <= g < |groups| ==> |groups[g]| > 0 && StrictlyIncreasing(groups[g])
    ensures forall g, g' :: 0 <= g < g' < |groups| ==> groups[g][0] < groups[g'][0]
    ensures forall y :: 0 <= y < |geoms| ==> InSomeGroup(groups, y)
    ensures forall g, g', y :: 0 <= g < |groups| && 0 <= g' < |groups| && y in groups[g] && y in groups[g'] ==> g == g'
    ensures forall g, y: nat, z: nat :: 0 <= g < |groups| && y in groups[g] ==> (z in groups[g] <==> z < |geoms| && Linked(geoms, y, z))
  {
    var n := |geoms|;
    if n == 0 {
      return FeatureCollection([]), [];
    }
    var uf := Init(n);
    ghost var rank := Zeros(n);
    var idx := BuildIndex(geoms);
    IndexListsKeyHolders(geoms, idx);
    InitLinked(geoms);
    ghost var rank';
    uf, rank' := UnionAll(geoms, idx, uf, rank);
    var entries := GroupByRoot(uf, rank');
    var lists := Lists(entries);
    assert Grouped(geoms, idx, uf, rank', entries);
    GroupsProperties(geoms, idx, uf, rank', entries);
    var features := BuildFeatures(geoms, lists, merge);
    groups := lists;
    fc := FeatureCollection(features);
  }
}
