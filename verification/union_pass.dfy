/**
 * The union pass of `mergeTouchingFeatures`: for every entry of the arc index,
 * in insertion order, the first geometry listed is unioned with each of the
 * others. Afterwards two geometries resolve to one root exactly when they are
 * linked through shared keys.
 */
module UnionPass {
  import opened Arcs
  import opened ArcIndex
  import opened UnionFind
  import opened Touching

  /** Every geometry is linked to its root: the forest never joins untouching sets. */
  ghost predicate RootsLinked(geoms: seq<Geometry>, p: seq<nat>, rank: seq<nat>)
    requires Valid(p, rank)
  {
    forall y :: 0 <= y < |p| ==> Linked(geoms, y, Root(p, rank, y))
  }

  /**
   * `p'` only merges sets of `p`: every node resolves in `p'` to where its old
   * root resolves, so nodes that shared a root still do.
   */
  ghost predicate Coarser(p: seq<nat>, rank: seq<nat>, p': seq<nat>, rank': seq<nat>)
    requires Valid(p, rank) && Valid(p', rank') && |p'| == |p|
  {
    forall y :: 0 <= y < |p| ==> Root(p', rank', Root(p, rank, y)) == Root(p', rank', y)
  }

  /** The first `m` geometries of `gs` share the root of the first. */
  ghost predicate JoinedUpTo(p: seq<nat>, rank: seq<nat>, gs: seq<nat>, m: nat)
    requires Valid(p, rank)
  {
    && m <= |gs|
    && (forall t :: 0 <= t < |gs| ==> gs[t] < |p|)
    && (forall t :: 0 <= t < m ==> Root(p, rank, gs[t]) == Root(p, rank, gs[0]))
  }

  /** All the geometries of `gs` share the root of the first. */
  ghost predicate Joined(p: seq<nat>, rank: seq<nat>, gs: seq<nat>)
    requires Valid(p, rank)
  {
    JoinedUpTo(p, rank, gs, |gs|)
  }

  /** A root is its own root. */
  lemma RootOfRoot(p: seq<nat>, rank: seq<nat>, y: nat)
    requires Valid(p, rank) && y < |p|
    ensures Root(p, rank, Root(p, rank, y)) == Root(p, rank, y)
  {
  }

  /** A union of two linked geometries keeps every geometry linked to its root and only merges sets. */
  lemma UnionLinked(geoms: seq<Geometry>, p: seq<nat>, rank: seq<nat>, a: nat, b: nat)
    requires Valid(p, rank) && |p| == |geoms| && a < |p| && b < |p|
    requires RootsLinked(geoms, p, rank) && Linked(geoms, a, b)
    ensures RootsLinked(geoms, Union(p, rank, a, b), UnionRank(p, rank, a, b))
    ensures Coarser(p, rank, Union(p, rank, a, b), UnionRank(p, rank, a, b))
  {
    var p', rank' := Union(p, rank, a, b), UnionRank(p, rank, a, b);
    forall y | 0 <= y < |p|
      ensures Linked(geoms, y, Root(p', rank', y))
      ensures Root(p', rank', Root(p, rank, y)) == Root(p', rank', y)
    {
      RootOfRoot(p, rank, y);
      UnionLinkedOne(geoms, p, rank, a, b, y);
    }
  }

  lemma UnionLinkedOne(geoms: seq<Geometry>, p: seq<nat>, rank: seq<nat>, a: nat, b: nat, y: nat)
    requires Valid(p, rank) && |p| == |geoms| && a < |p| && b < |p| && y < |p|
    requires RootsLinked(geoms, p, rank) && Linked(geoms, a, b)
    ensures Linked(geoms, y, Root(Union(p, rank, a, b), UnionRank(p, rank, a, b), y))
  {
    var ra, rb, ry := Root(p, rank, a), Root(p, rank, b), Root(p, rank, y);
    if ry == ra {
      assert Linked(geoms, y, ra) && Linked(geoms, a, ra) && Linked(geoms, b, rb);
      LinkedSym(geoms, a, ra);
      LinkedTrans(geoms, y, ra, a);
      LinkedTrans(geoms, y, a, b);
      LinkedTrans(geoms, y, b, rb);
    }
  }

  /** The starting forest: every geometry alone, so roots are trivially linked. */
  lemma InitLinked(geoms: seq<Geometry>)
    ensures RootsLinked(geoms, Init(|geoms|), Zeros(|geoms|))
  {
    var p := Init(|geoms|);
    forall y | 0 <= y < |p|
      ensures Linked(geoms, y, Root(p, Zeros(|geoms|), y))
    {
      LinkedRefl(geoms, y);
    }
  }

  lemma CoarserJoined(p: seq<nat>, rank: seq<nat>, p': seq<nat>, rank': seq<nat>, gs: seq<nat>, m: nat)
    requires Valid(p, rank) && Valid(p', rank') && |p'| == |p|
    requires Coarser(p, rank, p', rank') && JoinedUpTo(p, rank, gs, m)
    ensures JoinedUpTo(p', rank', gs, m)
  {
  }

  lemma CoarserTrans(p: seq<nat>, rank: seq<nat>, p': seq<nat>, rank': seq<nat>, p'': seq<nat>, rank'': seq<nat>)
    requires Valid(p, rank) && Valid(p', rank') && Valid(p'', rank'') && |p'| == |p| && |p''| == |p|
    requires Coarser(p, rank, p', rank') && Coarser(p', rank', p'', rank'')
    ensures Coarser(p, rank, p'', rank'')
  {
    forall y | 0 <= y < |p|
      ensures Root(p'', rank'', Root(p, rank, y)) == Root(p'', rank'', y)
    {
      var r := Root(p, rank, y);
      assert Root(p'', rank'', Root(p', rank', r)) == Root(p'', rank'', r);
    }
  }

  /** One turn of the loop of `UnionEntry`. */
  lemma UnionEntryStep(geoms: seq<Geometry>, p: seq<nat>, rank: seq<nat>, q: seq<nat>, rq: seq<nat>, gs: seq<nat>, j: nat)
    requires Valid(p, rank) && |p| == |geoms| && Valid(q, rq) && |q| == |p| && 1 <= j < |gs|
    requires gs[0] < |p| && gs[j] < |p| && Linked(geoms, gs[0], gs[j])
    requires RootsLinked(geoms, q, rq) && Coarser(p, rank, q, rq) && JoinedUpTo(q, rq, gs, j)
    ensures Valid(Union(q, rq, gs[0], gs[j]), UnionRank(q, rq, gs[0], gs[j]))
    ensures |Union(q, rq, gs[0], gs[j])| == |p|
    ensures RootsLinked(geoms, Union(q, rq, gs[0], gs[j]), UnionRank(q, rq, gs[0], gs[j]))
    ensures Coarser(p, rank, Union(q, rq, gs[0], gs[j]), UnionRank(q, rq, gs[0], gs[j]))
    ensures JoinedUpTo(Union(q, rq, gs[0], gs[j]), UnionRank(q, rq, gs[0], gs[j]), gs, j + 1)
  {
    var q', rq' := Union(q, rq, gs[0], gs[j]), UnionRank(q, rq, gs[0], gs[j]);
    UnionLinked(geoms, q, rq, gs[0], gs[j]);
    CoarserTrans(p, rank, q, rq, q', rq');
    CoarserJoined(q, rq, q', rq', gs, j);
    JoinedExtend(q', rq', gs, j);
  }

  /** Extending a joined prefix by one geometry that shares the first one's root. */
  lemma JoinedExtend(p: seq<nat>, rank: seq<nat>, gs: seq<nat>, j: nat)
    requires Valid(p, rank) && 1 <= j < |gs| && JoinedUpTo(p, rank, gs, j)
    requires Root(p, rank, gs[j]) == Root(p, rank, gs[0])
    ensures JoinedUpTo(p, rank, gs, j + 1)
  {
  }

  /**
   * The inner union loop: unions the first listed geometry of one entry with
   * each later one, the entry's geometries all sharing its key. Afterwards they all
   * share a root, sets were only merged, and roots are still linked.
   */
  method UnionEntry(geoms: seq<Geometry>, p: seq<nat>, ghost rank: seq<nat>, gs: seq<nat>)
    returns (p': seq<nat>, ghost rank': seq<nat>)
    requires Valid(p, rank) && |p| == |geoms| && RootsLinked(geoms, p, rank)
    requires forall t :: 0 <= t < |gs| ==> gs[t] < |p| && Linked(geoms, gs[0], gs[t])
    ensures Valid(p', rank') && |p'| == |p|
    ensures RootsLinked(geoms, p', rank')
    ensures Coarser(p, rank, p', rank')
    ensures Joined(p', rank', gs)
  {
    p', rank' := p, rank;
    if |gs| == 0 {
      return;
    }
    var j := 1;
    while j < |gs|
      invariant 1 <= j <= |gs|
      invariant Valid(p', rank') && |p'| == |p|
      invariant RootsLinked(geoms, p', rank')
      invariant Coarser(p, rank, p', rank')
      invariant JoinedUpTo(p', rank', gs, j)
    {
      UnionEntryStep(geoms, p, rank, p', rank', gs, j);
      p', rank' := Union(p', rank', gs[0], gs[j]), UnionRank(p', rank', gs[0], gs[j]);
      j := j + 1;
    }
  }

  /** What the arc index guarantees the union pass: each entry lists only geometries with a reference under its key. */
  ghost predicate ListsKeyHolders(geoms: seq<Geometry>, idx: seq<Entry>)
  {
    forall j, t :: 0 <= j < |idx| && 0 <= t < |idx[j].indices| ==>
      idx[j].indices[t] < |geoms| && KeyCount(FlatArcs(geoms[idx[j].indices[t]]), idx[j].key) > 0
  }

  /** The geometries of one entry are all linked to its first. */
  lemma EntryLinked(geoms: seq<Geometry>, idx: seq<Entry>, j: nat)
    requires ListsKeyHolders(geoms, idx) && j < |idx|
    ensures forall t :: 0 <= t < |idx[j].indices| ==>
      idx[j].indices[t] < |geoms| && Linked(geoms, idx[j].indices[0], idx[j].indices[t])
  {
    var gs := idx[j].indices;
    forall t | 0 <= t < |gs|
      ensures gs[t] < |geoms| && Linked(geoms, gs[0], gs[t])
    {
      ShareKeyFromCounts(geoms, gs[0], gs[t], idx[j].key);
      LinkedStep(geoms, gs[0], gs[t]);
    }
  }

  /** Merging sets keeps the earlier entries joined, and the entry just processed joins them. */
  lemma JoinedAllStep(p: seq<nat>, rank: seq<nat>, p': seq<nat>, rank': seq<nat>, idx: seq<Entry>, j: nat)
    requires Valid(p, rank) && Valid(p', rank') && |p'| == |p| && j < |idx|
    requires Coarser(p, rank, p', rank')
    requires forall j' :: 0 <= j' < j ==> Joined(p, rank, idx[j'].indices)
    requires Joined(p', rank', idx[j].indices)
    ensures forall j' :: 0 <= j' < j + 1 ==> Joined(p', rank', idx[j'].indices)
  {
    forall j' | 0 <= j' < j
      ensures Joined(p', rank', idx[j'].indices)
    {
      CoarserJoined(p, rank, p', rank', idx[j'].indices, |idx[j'].indices|);
    }
  }

  /**
   * The union loop over all entries of the index, in insertion order.
   * Afterwards the geometries of each entry share a root and every two
   * geometries of one root are linked.
   */
  method UnionAll(geoms: seq<Geometry>, idx: seq<Entry>, p: seq<nat>, ghost rank: seq<nat>)
    returns (p': seq<nat>, ghost rank': seq<nat>)
    requires Valid(p, rank) && |p| == |geoms| && RootsLinked(geoms, p, rank)
    requires ListsKeyHolders(geoms, idx)
    ensures Valid(p', rank') && |p'| == |p|
    ensures RootsLinked(geoms, p', rank')
    ensures forall j :: 0 <= j < |idx| ==> Joined(p', rank', idx[j].indices)
  {
    p', rank' := p, rank;
    var j := 0;
    while j < |idx|
      invariant 0 <= j <= |idx|
      invariant Valid(p', rank') && |p'| == |p|
      invariant RootsLinked(geoms, p', rank')
      invariant forall j' :: 0 <= j' < j ==> Joined(p', rank', idx[j'].indices)
    {
      var gs := idx[j].indices;
      EntryLinked(geoms, idx, j);
      var p'', rank'' := UnionEntry(geoms, p', rank', gs);
      JoinedAllStep(p', rank', p'', rank'', idx, j);
      p', rank' := p'', rank'';
      j := j + 1;
    }
  }

  /** The finished arc index of `geoms`, as `BuildIndex` guarantees it. */
  ghost predicate IndexOf(geoms: seq<Geometry>, idx: seq<Entry>)
  {
    && KeysUnique(idx)
    && forall k :: Lookup(idx, k) == Listing(RefCounts(geoms, k), |geoms|)
  }

  /** The finished index lists, under each key, only geometries holding a reference with that key. */
  lemma IndexListsKeyHolders(geoms: seq<Geometry>, idx: seq<Entry>)
    requires IndexOf(geoms, idx)
    ensures ListsKeyHolders(geoms, idx)
  {
    forall j | 0 <= j < |idx|
      ensures forall t :: 0 <= t < |idx[j].indices| ==>
        idx[j].indices[t] < |geoms| && KeyCount(FlatArcs(geoms[idx[j].indices[t]]), idx[j].key) > 0
    {
      EntryLookup(idx, j);
      ListingMembers(RefCounts(geoms, idx[j].key), |geoms|);
    }
  }

  /** Two geometries sharing a key are both listed in that key's entry, so a joined index gives them one root. */
  lemma ShareKeySameRoot(geoms: seq<Geometry>, idx: seq<Entry>, p: seq<nat>, rank: seq<nat>, y: nat, z: nat)
    requires IndexOf(geoms, idx) && Valid(p, rank) && |p| == |geoms|
    requires forall j :: 0 <= j < |idx| ==> Joined(p, rank, idx[j].indices)
    requires ShareKey(geoms, y, z)
    ensures Root(p, rank, y) == Root(p, rank, z)
  {
    var k := ShareKeyToCounts(geoms, y, z);
    var cs := RefCounts(geoms, k);
    ListingMembers(cs, |geoms|);
    assert y in Lookup(idx, k) && z in Lookup(idx, k);
    var gs := idx[Position(idx, k)].indices;
    assert Joined(p, rank, gs);
    var ty :| 0 <= ty < |gs| && gs[ty] == y;
    var tz :| 0 <= tz < |gs| && gs[tz] == z;
  }

  /** Any two geometries that share a key have one root. */
  ghost predicate KeysJoined(geoms: seq<Geometry>, p: seq<nat>, rank: seq<nat>)
    requires Valid(p, rank) && |p| == |geoms|
  {
    forall y: nat, z: nat :: ShareKey(geoms, y, z) ==> Root(p, rank, y) == Root(p, rank, z)
  }

  /** After the union pass, any two geometries that share a key have one root. */
  lemma KeysJoinedAfterPass(geoms: seq<Geometry>, idx: seq<Entry>, p: seq<nat>, rank: seq<nat>)
    requires IndexOf(geoms, idx) && Valid(p, rank) && |p| == |geoms|
    requires forall j :: 0 <= j < |idx| ==> Joined(p, rank, idx[j].indices)
    ensures KeysJoined(geoms, p, rank)
  {
    forall y: nat, z: nat | ShareKey(geoms, y, z)
      ensures Root(p, rank, y) == Root(p, rank, z)
    {
      ShareKeySameRoot(geoms, idx, p, rank, y, z);
    }
  }

  /** When geometries sharing a key share a root, the two geometries of a step of a walk share a root. */
  lemma StepSameRoot(geoms: seq<Geometry>, p: seq<nat>, rank: seq<nat>, w: seq<nat>, s: nat)
    requires Valid(p, rank) && |p| == |geoms| && KeysJoined(geoms, p, rank)
    requires IsWalk(geoms, w) && s + 1 < |w|
    ensures Root(p, rank, w[s + 1]) == Root(p, rank, w[s])
  {
    assert Step(geoms, w, s);
  }

  /** When geometries sharing a key share a root, the geometry at position `s` of a walk has the root of the walk's first geometry. */
  lemma {:induction false} WalkSameRootUpTo(geoms: seq<Geometry>, p: seq<nat>, rank: seq<nat>, w: seq<nat>, s: nat)
    requires Valid(p, rank) && |p| == |geoms| && KeysJoined(geoms, p, rank)
    requires IsWalk(geoms, w) && s < |w|
    ensures Root(p, rank, w[s]) == Root(p, rank, w[0])
  {
    if s > 0 {
      WalkSameRootUpTo(geoms, p, rank, w, s - 1);
      StepSameRoot(geoms, p, rank, w, s - 1);
    }
  }

  /** When geometries sharing a key share a root, every geometry on a walk has the root of the walk's first geometry. */
  lemma WalkSameRoot(geoms: seq<Geometry>, p: seq<nat>, rank: seq<nat>, w: seq<nat>)
    requires Valid(p, rank) && |p| == |geoms| && KeysJoined(geoms, p, rank)
    requires IsWalk(geoms, w)
    ensures Root(p, rank, w[|w| - 1]) == Root(p, rank, w[0])
  {
    WalkSameRootUpTo(geoms, p, rank, w, |w| - 1);
  }

  /**
   * After the union pass over the finished index, two geometries share a root
   * exactly when they are linked: each union joined two linked geometries, and
   * each pair of geometries sharing a key was joined through their entry.
   */
  lemma {:induction false} RootsAreComponents(geoms: seq<Geometry>, idx: seq<Entry>, p: seq<nat>, rank: seq<nat>, y: nat, z: nat)
    requires IndexOf(geoms, idx) && Valid(p, rank) && |p| == |geoms| && y < |p| && z < |p|
    requires RootsLinked(geoms, p, rank)
    requires forall j :: 0 <= j < |idx| ==> Joined(p, rank, idx[j].indices)
    ensures Root(p, rank, y) == Root(p, rank, z) <==> Linked(geoms, y, z)
  {
    if Linked(geoms, y, z) {
      var w :| IsWalk(geoms, w) && w[0] == y && w[|w| - 1] == z;
      KeysJoinedAfterPass(geoms, idx, p, rank);
      WalkSameRoot(geoms, p, rank, w);
    }
    if Root(p, rank, y) == Root(p, rank, z) {
      var r := Root(p, rank, y);
      assert Linked(geoms, y, r) && Linked(geoms, z, r);
      LinkedSym(geoms, z, r);
      LinkedTrans(geoms, y, r, z);
    }
  }
}
