/**
 * The disjoint-set forest built by `makeUF` in merge.js: a parent array over
 * geometry indices 0..n-1, a `find` that follows parents to a root and
 * compresses the path it walked, and a `union` that links the root of one
 * element under the root of the other.
 *
 * The parent array is a `seq<nat>` threaded through pure functions. A ghost
 * rank, strictly increasing from child to parent, is passed beside it; it is
 * what makes `find` terminate and the forest acyclic. The rank is never
 * stored in the returned values.
 */
module UnionFind {

  /** An upper bound of a sequence of naturals. */
  ghost function MaxOf(s: seq<nat>): (m: nat)
    ensures forall i :: 0 <= i < |s| ==> s[i] <= m
  {
    if |s| == 0 then 0
    else
      var m' := MaxOf(s[1..]);
      assert forall i :: 1 <= i < |s| ==> s[i] == s[1..][i - 1];
      if s[0] <= m' then m' else s[0]
  }

  /** `p` is a forest over 0..|p|-1 whose every non-root is ranked below its parent. */
  ghost predicate Valid(p: seq<nat>, rank: seq<nat>)
  {
    && |rank| == |p|
    && (forall x :: 0 <= x < |p| ==> p[x] < |p|)
    && (forall x :: 0 <= x < |p| && p[x] != x ==> rank[x] < rank[p[x]])
  }

  /** The root `x` reaches by following parents, without changing anything. */
  ghost function Root(p: seq<nat>, rank: seq<nat>, x: nat): (r: nat)
    requires Valid(p, rank) && x < |p|
    ensures r < |p| && p[r] == r
    ensures rank[x] <= rank[r]
    ensures r == x <==> p[x] == x
    decreases MaxOf(rank) - rank[x]
  {
    if p[x] == x then x else Root(p, rank, p[x])
  }

  /** The all-zero rank of a fresh forest. */
  ghost function Zeros(n: nat): (rank: seq<nat>)
    ensures |rank| == n
    ensures forall i :: 0 <= i < n ==> rank[i] == 0
  {
    seq(n, _ => 0)
  }

  /** `makeUF(n)`: every index is its own parent. */
  function Init(n: nat): (p: seq<nat>)
    ensures |p| == n
    ensures forall i :: 0 <= i < n ==> p[i] == i
    ensures Valid(p, Zeros(n))
    ensures forall i :: 0 <= i < n ==> Root(p, Zeros(n), i) == i
  {
    seq(n, i => i)
  }

  /** The root a node resolves to does not depend on which valid rank witnesses the forest. */
  lemma {:induction false} RootRankFree(p: seq<nat>, rank: seq<nat>, rank': seq<nat>, x: nat)
    requires Valid(p, rank) && Valid(p, rank') && x < |p|
    ensures Root(p, rank, x) == Root(p, rank', x)
    decreases MaxOf(rank) - rank[x]
  {
    if p[x] != x {
      RootRankFree(p, rank, rank', p[x]);
    }
  }

  /** Redirecting a node straight to its own root keeps the forest valid and every root unchanged. */
  lemma {:induction false} CompressKeepsRoots(p: seq<nat>, rank: seq<nat>, x: nat, y: nat)
    requires Valid(p, rank) && x < |p| && y < |p|
    ensures Valid(p[x := Root(p, rank, x)], rank)
    ensures Root(p[x := Root(p, rank, x)], rank, y) == Root(p, rank, y)
    decreases MaxOf(rank) - rank[y]
  {
    var r := Root(p, rank, x);
    var q := p[x := r];
    assert Valid(q, rank) by {
      forall z | 0 <= z < |q| && q[z] != z
        ensures rank[z] < rank[q[z]]
      {
        if z == x {
          assert rank[x] < rank[p[x]] <= rank[Root(p, rank, p[x])];
        }
      }
    }
    if y == x {
      if p[x] != x {
        assert q[r] == r;
        assert Root(q, rank, x) == Root(q, rank, r);
      }
    } else if p[y] != y {
      CompressKeepsRoots(p, rank, x, p[y]);
    }
  }

  /**
   * `find(x)`: the root of `x` together with the compressed parent array.
   * The root is the one `x` had; compression leaves the forest valid under the
   * same rank, changes no node's root, and only ever redirects a node to its root.
   */
  function Find(p: seq<nat>, ghost rank: seq<nat>, x: nat): (res: (nat, seq<nat>))
    requires Valid(p, rank) && x < |p|
    ensures res.0 == Root(p, rank, x)
    ensures |res.1| == |p| && Valid(res.1, rank)
    ensures res.0 < |p| && p[res.0] == res.0 && res.1[res.0] == res.0
    ensures forall y :: 0 <= y < |p| ==> Root(res.1, rank, y) == Root(p, rank, y)
    ensures forall y :: 0 <= y < |p| ==> res.1[y] == p[y] || res.1[y] == Root(p, rank, y)
    decreases MaxOf(rank) - rank[x]
  {
    if p[x] == x then (x, p)
    else
      var (r, q) := Find(p, rank, p[x]);
      assert Root(q, rank, x) == r;
      forall y | 0 <= y < |q|
        ensures Valid(q[x := r], rank) && Root(q[x := r], rank, y) == Root(q, rank, y)
      {
        CompressKeepsRoots(q, rank, x, y);
      }
      (r, q[x := r])
  }

  /** The rank after `Union(p, rank, a, b)`: the surviving root is lifted above the linked one. */
  ghost function UnionRank(p: seq<nat>, rank: seq<nat>, a: nat, b: nat): (rank': seq<nat>)
    requires Valid(p, rank) && a < |p| && b < |p|
    ensures |rank'| == |rank|
  {
    var ra, rb := Root(p, rank, a), Root(p, rank, b);
    if ra == rb then rank
    else rank[rb := if rank[ra] + 1 <= rank[rb] then rank[rb] else rank[ra] + 1]
  }

  /** Linking root `ra` under root `rb` sends exactly the nodes of `ra`'s tree to `rb`. */
  lemma {:induction false} LinkRoots(q: seq<nat>, rank: seq<nat>, rank': seq<nat>, ra: nat, rb: nat, y: nat)
    requires Valid(q, rank) && ra < |q| && rb < |q| && y < |q|
    requires q[ra] == ra && q[rb] == rb && ra != rb
    requires Valid(q[ra := rb], rank')
    ensures Root(q[ra := rb], rank', y) == (if Root(q, rank, y) == ra then rb else Root(q, rank, y))
    decreases MaxOf(rank) - rank[y]
  {
    var q' := q[ra := rb];
    if q[y] == y {
      if y == ra {
        assert Root(q', rank', ra) == Root(q', rank', rb);
      }
    } else {
      LinkRoots(q, rank, rank', ra, rb, q[y]);
    }
  }

  /** Linking root `ra` under root `rb`, with `rb` lifted above `ra`, keeps the forest valid and moves exactly `ra`'s tree. */
  lemma LinkStep(q: seq<nat>, rank: seq<nat>, rank': seq<nat>, ra: nat, rb: nat)
    requires Valid(q, rank) && ra < |q| && rb < |q| && q[ra] == ra && q[rb] == rb && ra != rb
    requires rank' == rank[rb := if rank[ra] + 1 <= rank[rb] then rank[rb] else rank[ra] + 1]
    ensures Valid(q[ra := rb], rank')
    ensures forall y :: 0 <= y < |q| ==>
      Root(q[ra := rb], rank', y) == (if Root(q, rank, y) == ra then rb else Root(q, rank, y))
  {
    var q' := q[ra := rb];
    assert Valid(q', rank') by {
      forall z | 0 <= z < |q'| && q'[z] != z
        ensures rank'[z] < rank'[q'[z]]
      {
        if z != ra {
          assert z != rb;
          assert rank[z] < rank[q[z]];
        }
      }
    }
    forall y | 0 <= y < |q|
      ensures Root(q', rank', y) == (if Root(q, rank, y) == ra then rb else Root(q, rank, y))
    {
      LinkRoots(q, rank, rank', ra, rb, y);
    }
  }

  /** Two rounds of compression in a row, each keeping roots, together keep roots and only redirect nodes to them. */
  lemma CompressTwice(p: seq<nat>, q1: seq<nat>, q2: seq<nat>, rank: seq<nat>)
    requires Valid(p, rank) && Valid(q1, rank) && Valid(q2, rank) && |q1| == |p| && |q2| == |p|
    requires forall y :: 0 <= y < |p| ==> Root(q1, rank, y) == Root(p, rank, y)
    requires forall y :: 0 <= y < |p| ==> q1[y] == p[y] || q1[y] == Root(p, rank, y)
    requires forall y :: 0 <= y < |p| ==> Root(q2, rank, y) == Root(q1, rank, y)
    requires forall y :: 0 <= y < |p| ==> q2[y] == q1[y] || q2[y] == Root(q1, rank, y)
    ensures forall y :: 0 <= y < |p| ==> Root(q2, rank, y) == Root(p, rank, y)
    ensures forall y :: 0 <= y < |p| ==> q2[y] == p[y] || q2[y] == Root(p, rank, y)
  {
  }

  /**
   * `union(a, b)`: afterwards `a` and `b` share a root. Every node of `a`'s set
   * moves to `b`'s root, every other node keeps its root, and when `a` and `b`
   * already shared a root no parent changes other than by path compression.
   */
  function Union(p: seq<nat>, ghost rank: seq<nat>, a: nat, b: nat): (p': seq<nat>)
    requires Valid(p, rank) && a < |p| && b < |p|
    ensures |p'| == |p| && Valid(p', UnionRank(p, rank, a, b))
    ensures Root(p', UnionRank(p, rank, a, b), a) == Root(p', UnionRank(p, rank, a, b), b)
    ensures forall y :: 0 <= y < |p| ==>
      Root(p', UnionRank(p, rank, a, b), y)
        == (if Root(p, rank, y) == Root(p, rank, a) then Root(p, rank, b) else Root(p, rank, y))
    ensures Root(p, rank, a) == Root(p, rank, b) ==>
      forall y :: 0 <= y < |p| ==> p'[y] == p[y] || p'[y] == Root(p, rank, y)
  {
    var (ra, q1) := Find(p, rank, a);
    var (rb, q2) := Find(q1, rank, b);
    ghost var rank' := UnionRank(p, rank, a, b);
    CompressTwice(p, q1, q2, rank);
    if ra == rb then
      assert rank' == rank;
      q2
    else
      var q3 := q2[ra := rb];
      LinkStep(q2, rank, rank', ra, rb);
      q3
  }
}
