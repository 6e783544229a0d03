/**
 * The `arcToGeoms` index of `mergeTouchingFeatures`: an insertion-ordered map
 * from an arc key to the list of geometry indices filed under it. A JavaScript
 * `Map` iterates in insertion order, so it is modelled as a sequence of
 * entries with distinct keys. The string keys `String(Math.abs(arcIdx))` are
 * in one-to-one correspondence with the natural numbers `Key(arcIdx)`, which
 * are used instead.
 */
module ArcIndex {
  import opened Arcs

  /**
   * One entry of an insertion-ordered map from a natural key to a list of
   * geometry indices. The arc index keys it by arc key; the grouping pass
   * reuses it unchanged, keyed by root, since both are the same kind of map.
   */
  datatype Entry = Entry(key: nat, indices: seq<nat>)

  /** How many references in `s` are filed under key `k`. */
  function KeyCount(s: seq<int>, k: nat): (c: nat)
  {
    if |s| == 0 then 0
    else KeyCount(s[..|s| - 1], k) + (if Key(s[|s| - 1]) == k then 1 else 0)
  }

  /** Some reference in `s` is filed under `k` exactly when the count is positive. */
  lemma {:induction false} KeyCountPositive(s: seq<int>, k: nat)
    ensures KeyCount(s, k) > 0 <==> exists a :: a in s && Key(a) == k
    decreases |s|
  {
    if |s| != 0 {
      var s' := s[..|s| - 1];
      KeyCountPositive(s', k);
      assert s == s' + [s[|s| - 1]];
      if KeyCount(s', k) > 0 {
        var a :| a in s' && Key(a) == k;
        assert a in s;
      }
    }
  }

  lemma KeyCountStep(s: seq<int>, t: nat, k: nat)
    requires t < |s|
    ensures KeyCount(s[..t + 1], k) == KeyCount(s[..t], k) + (if Key(s[t]) == k then 1 else 0)
  {
    assert s[..t + 1][..t] == s[..t];
  }

  predicate KeysUnique(idx: seq<Entry>)
  {
    forall j, j' :: 0 <= j < j' < |idx| ==> idx[j].key != idx[j'].key
  }

  /** Where key `k` sits in the map: the first entry with that key, or `|idx|` when absent. */
  function Position(idx: seq<Entry>, k: nat): (pos: nat)
    ensures pos <= |idx|
    ensures pos < |idx| ==> idx[pos].key == k
    ensures forall j :: 0 <= j < pos ==> idx[j].key != k
  {
    if |idx| == 0 then 0
    else if idx[0].key == k then 0
    else 1 + Position(idx[1..], k)
  }

  /** Any position meeting `Position`'s contract is the one it returns. */
  lemma PositionUnique(idx: seq<Entry>, k: nat, pos: nat)
    requires pos <= |idx|
    requires pos < |idx| ==> idx[pos].key == k
    requires forall j :: 0 <= j < pos ==> idx[j].key != k
    ensures Position(idx, k) == pos
  {
  }

  predicate HasKey(idx: seq<Entry>, k: nat)
  {
    Position(idx, k) < |idx|
  }

  /** The list held under key `k`, with the empty list standing for an absent key. */
  function Lookup(idx: seq<Entry>, k: nat): (l: seq<nat>)
  {
    var pos := Position(idx, k);
    if pos < |idx| then idx[pos].indices else []
  }

  /** With distinct keys, every entry is what a lookup of its own key returns. */
  lemma EntryLookup(idx: seq<Entry>, j: nat)
    requires KeysUnique(idx) && j < |idx|
    ensures Lookup(idx, idx[j].key) == idx[j].indices
  {
    PositionUnique(idx, idx[j].key, j);
  }

  /**
   * Files `i` under `k`: appends `i` to the list of `k`, creating the entry
   * last when `k` is absent. As a map: every other key keeps its list. As an
   * insertion-ordered map: the existing keys keep their places and a new key
   * goes last.
   */
  function Push(idx: seq<Entry>, k: nat, i: nat): (r: seq<Entry>)
    requires KeysUnique(idx)
    ensures KeysUnique(r)
    ensures Lookup(r, k) == Lookup(idx, k) + [i]
    ensures forall k' :: k' != k ==> Lookup(r, k') == Lookup(idx, k')
    ensures |idx| <= |r| <= |idx| + 1
    ensures forall j :: 0 <= j < |idx| ==> r[j].key == idx[j].key
    ensures |r| == |idx| + 1 <==> !HasKey(idx, k)
    ensures forall j :: |idx| <= j < |r| ==> r[j].key == k
    ensures forall j :: 0 <= j < |r| ==> |r[j].indices| > 0 || (j < |idx| && r[j] == idx[j])
  {
    var pos := Position(idx, k);
    if pos < |idx| then
      var r := idx[pos := Entry(k, idx[pos].indices + [i])];
      PushExisting(idx, k, i, pos, r);
      r
    else
      var r := idx + [Entry(k, [i])];
      PushNew(idx, k, i, r);
      r
  }

  /** What `Push` promises of `r`, the map after filing `i` under `k`. */
  ghost predicate Pushed(idx: seq<Entry>, k: nat, i: nat, r: seq<Entry>)
    requires KeysUnique(idx)
  {
    && KeysUnique(r)
    && Lookup(r, k) == Lookup(idx, k) + [i]
    && (forall k' :: k' != k ==> Lookup(r, k') == Lookup(idx, k'))
    && |idx| <= |r| <= |idx| + 1
    && (forall j :: 0 <= j < |idx| ==> r[j].key == idx[j].key)
    && (|r| == |idx| + 1 <==> !HasKey(idx, k))
    && (forall j :: |idx| <= j < |r| ==> r[j].key == k)
    && (forall j :: 0 <= j < |r| ==> |r[j].indices| > 0 || (j < |idx| && r[j] == idx[j]))
  }

  /** Filing under a key already present extends that key's entry in place. */
  lemma PushExisting(idx: seq<Entry>, k: nat, i: nat, pos: nat, r: seq<Entry>)
    requires KeysUnique(idx) && pos == Position(idx, k) && pos < |idx|
    requires r == idx[pos := Entry(k, idx[pos].indices + [i])]
    ensures Pushed(idx, k, i, r)
  {
    PositionUnique(r, k, pos);
    forall k' | k' != k
      ensures Lookup(r, k') == Lookup(idx, k')
    {
      var q := Position(idx, k');
      PositionUnique(r, k', q);
    }
  }

  /** Filing under an absent key appends a new entry last. */
  lemma PushNew(idx: seq<Entry>, k: nat, i: nat, r: seq<Entry>)
    requires KeysUnique(idx) && Position(idx, k) == |idx|
    requires r == idx + [Entry(k, [i])]
    ensures Pushed(idx, k, i, r)
  {
    PositionUnique(r, k, |idx|);
    forall k' | k' != k
      ensures Lookup(r, k') == Lookup(idx, k')
    {
      var q := Position(idx, k');
      if q < |idx| {
        PositionUnique(r, k', q);
      } else {
        PositionUnique(r, k', |r|);
      }
    }
  }

  /**
   * Entry by entry, a push appends `i` to the list of `k` where it stands and
   * leaves every other list alone; a new key enters with the list `[i]`.
   */
  lemma PushEntries(idx: seq<Entry>, k: nat, i: nat)
    requires KeysUnique(idx)
    ensures forall j :: 0 <= j < |idx| ==>
      Push(idx, k, i)[j].indices == (if idx[j].key == k then idx[j].indices + [i] else idx[j].indices)
    ensures |Push(idx, k, i)| == |idx| + 1 ==> Push(idx, k, i)[|idx|] == Entry(k, [i])
  {
    var r := Push(idx, k, i);
    forall j | 0 <= j < |idx|
      ensures r[j].indices == (if idx[j].key == k then idx[j].indices + [i] else idx[j].indices)
    {
      EntryLookup(idx, j);
      EntryLookup(r, j);
    }
    if |r| == |idx| + 1 {
      EntryLookup(r, |idx|);
    }
  }

  /** `c` copies of `i`. */
  function Repeat(i: nat, c: nat): (r: seq<nat>)
    ensures |r| == c
    ensures forall t :: 0 <= t < c ==> r[t] == i
  {
    if c == 0 then [] else Repeat(i, c - 1) + [i]
  }

  /** How many references of each geometry are filed under key `k`. */
  function RefCounts(geoms: seq<Geometry>, k: nat): (cs: seq<nat>)
    ensures |cs| == |geoms|
    ensures forall g :: 0 <= g < |geoms| ==> cs[g] == KeyCount(FlatArcs(geoms[g]), k)
  {
    seq(|geoms|, g requires 0 <= g < |geoms| => KeyCount(FlatArcs(geoms[g]), k))
  }

  /**
   * The list the index holds for a key once geometries `0..m-1` are visited,
   * when geometry `g` has `cs[g]` references under that key: each geometry, in
   * ascending order, once per reference.
   */
  ghost function Listing(cs: seq<nat>, m: nat): (l: seq<nat>)
    requires m <= |cs|
  {
    if m == 0 then [] else Listing(cs, m - 1) + Repeat(m - 1, cs[m - 1])
  }

  /** A listing is non-decreasing and mentions only visited geometries. */
  lemma {:induction false} ListingSorted(cs: seq<nat>, m: nat)
    requires m <= |cs|
    ensures forall t :: 0 <= t < |Listing(cs, m)| ==> Listing(cs, m)[t] < m
    ensures NonDecreasing(Listing(cs, m))
  {
    if m != 0 {
      var prev := Listing(cs, m - 1);
      var last := Repeat(m - 1, cs[m - 1]);
      ListingSorted(cs, m - 1);
      assert Listing(cs, m) == prev + last;
    }
  }

  /** How many times `g` occurs in `s`. */
  function Occurrences(s: seq<nat>, g: nat): (c: nat)
  {
    if |s| == 0 then 0 else Occurrences(s[..|s| - 1], g) + (if s[|s| - 1] == g then 1 else 0)
  }

  lemma {:induction false} OccurrencesAppend(a: seq<nat>, b: seq<nat>, g: nat)
    ensures Occurrences(a + b, g) == Occurrences(a, g) + Occurrences(b, g)
    decreases |b|
  {
    if |b| == 0 {
      assert a + b == a;
    } else {
      var b' := b[..|b| - 1];
      assert (a + b)[..|a + b| - 1] == a + b';
      OccurrencesAppend(a, b', g);
    }
  }

  lemma {:induction false} RepeatOccurrences(i: nat, c: nat, g: nat)
    ensures Occurrences(Repeat(i, c), g) == if g == i then c else 0
  {
    if c != 0 {
      assert Repeat(i, c)[..c - 1] == Repeat(i, c - 1);
      RepeatOccurrences(i, c - 1, g);
    }
  }

  /** A listing names geometry `g` once per reference of `g`. */
  lemma {:induction false} ListingCount(cs: seq<nat>, m: nat, g: nat)
    requires m <= |cs|
    ensures Occurrences(Listing(cs, m), g) == if g < m then cs[g] else 0
  {
    if m != 0 {
      ListingCount(cs, m - 1, g);
      RepeatOccurrences(m - 1, cs[m - 1], g);
      OccurrencesAppend(Listing(cs, m - 1), Repeat(m - 1, cs[m - 1]), g);
    }
  }

  /** Every geometry a listing names has a reference under its key, and every such geometry is named. */
  lemma {:induction false} ListingMembers(cs: seq<nat>, m: nat)
    requires m <= |cs|
    ensures forall t :: 0 <= t < |Listing(cs, m)| ==> Listing(cs, m)[t] < m && cs[Listing(cs, m)[t]] > 0
    ensures forall g :: 0 <= g < m && cs[g] > 0 ==> g in Listing(cs, m)
  {
    if m != 0 {
      var prev := Listing(cs, m - 1);
      var last := Repeat(m - 1, cs[m - 1]);
      ListingMembers(cs, m - 1);
      assert Listing(cs, m) == prev + last;
      if cs[m - 1] > 0 {
        assert last[0] == m - 1;
      }
    }
  }

  predicate NonDecreasing(s: seq<nat>)
  {
    forall a, b :: 0 <= a <= b < |s| ==> s[a] <= s[b]
  }

  /** One turn of the inner loop, for one key. */
  lemma PushStep(idx: seq<Entry>, cur: seq<Entry>, i: nat, flat: seq<int>, t: nat, k: nat)
    requires t < |flat| && KeysUnique(cur)
    requires Lookup(cur, k) == Lookup(idx, k) + Repeat(i, KeyCount(flat[..t], k))
    ensures Lookup(Push(cur, Key(flat[t]), i), k) == Lookup(idx, k) + Repeat(i, KeyCount(flat[..t + 1], k))
  {
    KeyCountStep(flat, t, k);
    if k == Key(flat[t]) {
      var c := KeyCount(flat[..t], k);
      assert Repeat(i, c + 1) == Repeat(i, c) + [i];
      assert Lookup(idx, k) + Repeat(i, c) + [i] == Lookup(idx, k) + Repeat(i, c + 1);
    }
  }

  /**
   * The inner loop over one geometry's flattened arcs: geometry `i` is pushed
   * under the key of each reference, so each key's list grows by one copy of
   * `i` per reference filed under it, and no other list changes.
   */
  method IndexGeometry(idx: seq<Entry>, i: nat, flat: seq<int>) returns (idx': seq<Entry>)
    requires KeysUnique(idx)
    requires forall j :: 0 <= j < |idx| ==> |idx[j].indices| > 0
    ensures KeysUnique(idx')
    ensures forall j :: 0 <= j < |idx'| ==> |idx'[j].indices| > 0
    ensures forall k :: Lookup(idx', k) == Lookup(idx, k) + Repeat(i, KeyCount(flat, k))
  {
    idx' := idx;
    var t := 0;
    while t < |flat|
      invariant 0 <= t <= |flat|
      invariant KeysUnique(idx')
      invariant forall j :: 0 <= j < |idx'| ==> |idx'[j].indices| > 0
      invariant forall k :: Lookup(idx', k) == Lookup(idx, k) + Repeat(i, KeyCount(flat[..t], k))
    {
      var next := Push(idx', Key(flat[t]), i);
      forall k
        ensures Lookup(next, k) == Lookup(idx, k) + Repeat(i, KeyCount(flat[..t + 1], k))
      {
        PushStep(idx, idx', i, flat, t, k);
      }
      idx' := next;
      t := t + 1;
    }
    assert flat[..t] == flat;
  }

  /** One turn of the outer loop, for one key. */
  lemma ListingStep(geoms: seq<Geometry>, idx: seq<Entry>, next: seq<Entry>, i: nat, k: nat)
    requires i < |geoms|
    requires Lookup(idx, k) == Listing(RefCounts(geoms, k), i)
    requires Lookup(next, k) == Lookup(idx, k) + Repeat(i, KeyCount(FlatArcs(geoms[i]), k))
    ensures Lookup(next, k) == Listing(RefCounts(geoms, k), i + 1)
  {
    assert RefCounts(geoms, k)[i] == KeyCount(FlatArcs(geoms[i]), k);
  }

  /**
   * The index-building loop over geometries `0..n-1`. Afterwards the keys are
   * distinct, no list is empty, and the list of key `k` is the listing of the
   * geometries' reference counts under `k`.
   */
  method BuildIndex(geoms: seq<Geometry>) returns (idx: seq<Entry>)
    ensures KeysUnique(idx)
    ensures forall j :: 0 <= j < |idx| ==> |idx[j].indices| > 0
    ensures forall k :: Lookup(idx, k) == Listing(RefCounts(geoms, k), |geoms|)
  {
    idx := [];
    var i := 0;
    while i < |geoms|
      invariant 0 <= i <= |geoms|
      invariant KeysUnique(idx)
      invariant forall j :: 0 <= j < |idx| ==> |idx[j].indices| > 0
      invariant forall k :: Lookup(idx, k) == Listing(RefCounts(geoms, k), i)
    {
      var flat := FlatArcs(geoms[i]);
      var next := IndexGeometry(idx, i, flat);
      forall k
        ensures Lookup(next, k) == Listing(RefCounts(geoms, k), i + 1)
      {
        ListingStep(geoms, idx, next, i, k);
      }
      idx := next;
      i := i + 1;
    }
  }

  /**
   * What the finished index holds: the list of key `k` names geometry `g`
   * exactly as many times as `g`'s flattened arcs hold a reference `a` with
   * `|a| == k`, in non-decreasing geometry order.
   */
  lemma IndexContents(geoms: seq<Geometry>, idx: seq<Entry>, k: nat)
    requires Lookup(idx, k) == Listing(RefCounts(geoms, k), |geoms|)
    ensures forall g: nat :: Occurrences(Lookup(idx, k), g) == if g < |geoms| then KeyCount(FlatArcs(geoms[g]), k) else 0
    ensures NonDecreasing(Lookup(idx, k))
    ensures forall t :: 0 <= t < |Lookup(idx, k)| ==> Lookup(idx, k)[t] < |geoms|
  {
    forall g: nat
      ensures Occurrences(Lookup(idx, k), g) == if g < |geoms| then KeyCount(FlatArcs(geoms[g]), k) else 0
    {
      ListingCount(RefCounts(geoms, k), |geoms|, g);
    }
    ListingSorted(RefCounts(geoms, k), |geoms|);
  }
}
