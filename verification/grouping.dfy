/**
 * The grouping pass of `mergeTouchingFeatures`: every geometry index, in
 * ascending order, is filed under the root `find` gives it, in a `Map` from
 * root to indices. The map is the insertion-ordered map of the arc index,
 * keyed by root instead of by arc key, so filing an index is `Push`.
 */
module Grouping {
  import opened UnionFind
  import opened ArcIndex

  /** The indices `0..m-1` whose root is `r`, ascending: the list the map holds for `r` once they are visited. */
  ghost function Members(p: seq<nat>, rank: seq<nat>, r: nat, m: nat): (ms: seq<nat>)
    requires Valid(p, rank) && m <= |p|
  {
    if m == 0 then [] else Members(p, rank, r, m - 1) + (if Root(p, rank, m - 1) == r then [m - 1] else [])
  }

  predicate StrictlyIncreasing(s: seq<nat>)
  {
    forall a, b :: 0 <= a < b < |s| ==> s[a] < s[b]
  }

  /** The members of `r` are exactly the visited indices of root `r`. */
  lemma {:induction false} MembersIn(p: seq<nat>, rank: seq<nat>, r: nat, m: nat, y: nat)
    requires Valid(p, rank) && m <= |p|
    ensures y in Members(p, rank, r, m) <==> y < m && Root(p, rank, y) == r
  {
    if m != 0 {
      MembersIn(p, rank, r, m - 1, y);
    }
  }

  /** The members of `r` are listed in ascending order, each once. */
  lemma {:induction false} MembersSorted(p: seq<nat>, rank: seq<nat>, r: nat, m: nat)
    requires Valid(p, rank) && m <= |p|
    ensures StrictlyIncreasing(Members(p, rank, r, m))
    ensures forall t :: 0 <= t < |Members(p, rank, r, m)| ==> Members(p, rank, r, m)[t] < m
  {
    if m != 0 {
      MembersSorted(p, rank, r, m - 1);
    }
  }

  /** One turn of the grouping loop, for one root. */
  lemma GroupStep(p: seq<nat>, rank: seq<nat>, groups: seq<Entry>, i: nat, r: nat)
    requires Valid(p, rank) && i < |p| && KeysUnique(groups)
    requires Lookup(groups, r) == Members(p, rank, r, i)
    ensures Lookup(Push(groups, Root(p, rank, i), i), r) == Members(p, rank, r, i + 1)
  {
  }

  /** Pushing `i`, larger than every index already filed, keeps the entries ordered by their first index. */
  lemma GroupOrderStep(groups: seq<Entry>, k: nat, i: nat)
    requires KeysUnique(groups)
    requires forall g :: 0 <= g < |groups| ==> |groups[g].indices| > 0 && groups[g].indices[0] < i
    requires forall g, g' :: 0 <= g < g' < |groups| ==> groups[g].indices[0] < groups[g'].indices[0]
    ensures forall g :: 0 <= g < |Push(groups, k, i)| ==>
      |Push(groups, k, i)[g].indices| > 0 && Push(groups, k, i)[g].indices[0] < i + 1
    ensures forall g, g' :: 0 <= g < g' < |Push(groups, k, i)| ==>
      Push(groups, k, i)[g].indices[0] < Push(groups, k, i)[g'].indices[0]
  {
    PushEntries(groups, k, i);
  }

  /** The map after visiting indices `0..i-1`, with the entries ordered by their first index. */
  ghost predicate GroupedUpTo(p: seq<nat>, rank: seq<nat>, groups: seq<Entry>, i: nat)
    requires Valid(p, rank) && i <= |p|
  {
    && KeysUnique(groups)
    && (forall r :: Lookup(groups, r) == Members(p, rank, r, i))
    && (forall g :: 0 <= g < |groups| ==> |groups[g].indices| > 0 && groups[g].indices[0] < i)
    && (forall g, g' :: 0 <= g < g' < |groups| ==> groups[g].indices[0] < groups[g'].indices[0])
  }

  /** One turn of the grouping loop: index `i` is filed under its root. */
  lemma GroupTurn(p: seq<nat>, rank: seq<nat>, groups: seq<Entry>, i: nat)
    requires Valid(p, rank) && i < |p| && GroupedUpTo(p, rank, groups, i)
    ensures GroupedUpTo(p, rank, Push(groups, Root(p, rank, i), i), i + 1)
  {
    GroupOrderStep(groups, Root(p, rank, i), i);
    forall r
      ensures Lookup(Push(groups, Root(p, rank, i), i), r) == Members(p, rank, r, i + 1)
    {
      GroupStep(p, rank, groups, i, r);
    }
  }

  /** Compressing paths leaves every index with the root it had in `p`. */
  ghost predicate SameRoots(p: seq<nat>, q: seq<nat>, rank: seq<nat>)
    requires Valid(p, rank) && Valid(q, rank) && |q| == |p|
  {
    forall y :: 0 <= y < |p| ==> Root(q, rank, y) == Root(p, rank, y)
  }

  /**
   * One turn of the grouping loop: find the root of `i`, then file `i` under
   * it. Index `i` lands under its root in `p`, whatever compression `q` has
   * undergone since.
   */
  method FileUnderRoot(p: seq<nat>, ghost rank: seq<nat>, q: seq<nat>, groups: seq<Entry>, i: nat)
    returns (q': seq<nat>, groups': seq<Entry>)
    requires Valid(p, rank) && Valid(q, rank) && |q| == |p| && i < |p|
    requires SameRoots(p, q, rank) && GroupedUpTo(p, rank, groups, i)
    ensures Valid(q', rank) && |q'| == |p| && SameRoots(p, q', rank)
    ensures GroupedUpTo(p, rank, groups', i + 1)
  {
    var (r, q'') := Find(q, rank, i);
    GroupTurn(p, rank, groups, i);
    groups' := Push(groups, r, i);
    q' := q'';
  }

  /**
   * The grouping loop over indices 0..n-1. Afterwards the keys are distinct
   * roots, the list of each root is every index of that root in ascending
   * order, and the entries are ordered by their first index.
   */
  method GroupByRoot(p: seq<nat>, ghost rank: seq<nat>) returns (groups: seq<Entry>)
    requires Valid(p, rank)
    ensures KeysUnique(groups)
    ensures forall r :: Lookup(groups, r) == Members(p, rank, r, |p|)
    ensures forall g :: 0 <= g < |groups| ==> |groups[g].indices| > 0
    ensures forall g, g' :: 0 <= g < g' < |groups| ==> groups[g].indices[0] < groups[g'].indices[0]
  {
    groups := [];
    var q := p;
    var i := 0;
    while i < |p|
      invariant 0 <= i <= |p|
      invariant Valid(q, rank) && |q| == |p| && SameRoots(p, q, rank)
      invariant GroupedUpTo(p, rank, groups, i)
    {
      q, groups := FileUnderRoot(p, rank, q, groups, i);
      i := i + 1;
    }
  }

  /**
   * What the grouping returns, entry by entry: every entry is keyed by a root
   * and lists the indices of that root in ascending order, its first index
   * being the least of them; every index lies in the entry of its own root.
   */
  lemma GroupsPartition(p: seq<nat>, rank: seq<nat>, groups: seq<Entry>, g: nat, y: nat)
    requires Valid(p, rank) && KeysUnique(groups) && g < |groups|
    requires forall r :: Lookup(groups, r) == Members(p, rank, r, |p|)
    ensures StrictlyIncreasing(groups[g].indices)
    ensures y in groups[g].indices <==> y < |p| && Root(p, rank, y) == groups[g].key
    ensures y < |p| && Root(p, rank, y) == groups[g].key && |groups[g].indices| > 0 ==> groups[g].indices[0] <= y
  {
    EntryLookup(groups, g);
    MembersIn(p, rank, groups[g].key, |p|, y);
    MembersSorted(p, rank, groups[g].key, |p|);
    if y < |p| && Root(p, rank, y) == groups[g].key && |groups[g].indices| > 0 {
      var t :| 0 <= t < |groups[g].indices| && groups[g].indices[t] == y;
    }
  }
}
