/** Parent walks over the reference taxonomy: the kingdom-first ancestor list
    of `get_ancestors` and the chain of all ancestors used to state what the
    lowest-common-ancestor loop computes. */
module Lineage {
  import opened Wrappers
  import opened Ranks
  import opened Reference

  /** What the walks rely on: the root is present and at least kingdom-level,
      every other taxon has a parent in the index with a strictly greater rank
      level, and no taxon other than the root reaches the root's level. */
  predicate WellFormed(byId: map<int, RefTaxon>)
  {
    && RootTaxonId in byId
    && byId[RootTaxonId].rankLevel >= KingdomRankLevel
    && (forall k :: k in byId ==> byId[k].id == k)
    && (forall k :: k in byId && k != RootTaxonId ==>
          byId[k].parent.Some? && byId[k].rankLevel < byId[RootTaxonId].rankLevel)
    && (forall k :: k in byId && byId[k].parent.Some? ==>
          byId[k].parent.value in byId && byId[byId[k].parent.value].rankLevel > byId[k].rankLevel)
  }

  /** Taxa strictly coarser than level `r`; shrinks along every parent step. */
  function Above(byId: map<int, RefTaxon>, r: real): set<int>
  {
    set k | k in byId && byId[k].rankLevel > r
  }

  lemma ParentNarrowsAbove(byId: map<int, RefTaxon>, k: int)
    requires WellFormed(byId) && k in byId && byId[k].parent.Some?
    ensures |Above(byId, byId[byId[k].parent.value].rankLevel)| < |Above(byId, byId[k].rankLevel)|
  {
    var p := byId[k].parent.value;
    var a := Above(byId, byId[p].rankLevel);
    var b := Above(byId, byId[k].rankLevel);
    assert a <= b;
    assert p in b && p !in a;
    ProperSubsetSmaller(a, b, p);
  }

  lemma ProperSubsetSmaller<T>(a: set<T>, b: set<T>, x: T)
    requires a <= b && x in b && x !in a
    ensures |a| < |b|
  {
    assert b == a + (b - a);
    assert x in b - a;
  }

  /** `get_ancestors(id)`: the ancestors of `id` from the first one at or
      above kingdom level down to the taxon of `id` itself, each element the
      parent of the next. */
  function Ancestors(byId: map<int, RefTaxon>, id: int): (a: seq<RefTaxon>)
    requires WellFormed(byId) && id in byId
    ensures 0 < |a| && a[|a| - 1] == byId[id]
    ensures a[0].rankLevel >= KingdomRankLevel
    ensures forall i :: 1 <= i < |a| ==> a[i].rankLevel < KingdomRankLevel
    ensures forall i :: 0 <= i < |a| - 1 ==> a[i + 1].parent == Some(a[i].id)
    ensures forall i :: 0 <= i < |a| ==> a[i].id in byId && byId[a[i].id] == a[i]
    decreases |Above(byId, byId[id].rankLevel)|
  {
    var t := byId[id];
    if t.rankLevel < KingdomRankLevel then
      ParentNarrowsAbove(byId, id);
      Ancestors(byId, t.parent.value) + [t]
    else [t]
  }

  /** The ancestors `lookup_id` returns with a taxon: its kingdom-first
      ancestors without the taxon itself, none for a kingdom or coarser. */
  function AncestorsAbove(byId: map<int, RefTaxon>, t: RefTaxon): (a: seq<RefTaxon>)
    requires WellFormed(byId) && t.id in byId && byId[t.id] == t
    ensures t.rankLevel >= KingdomRankLevel ==> a == []
    ensures t.rankLevel < KingdomRankLevel ==>
              0 < |a| && t.parent == Some(a[|a| - 1].id) && a[0].rankLevel >= KingdomRankLevel
    ensures forall i :: 1 <= i < |a| ==> a[i].rankLevel < KingdomRankLevel
    ensures forall i :: 0 <= i < |a| - 1 ==> a[i + 1].parent == Some(a[i].id)
    ensures forall i :: 0 <= i < |a| ==> a[i].id in byId && byId[a[i].id] == a[i]
  {
    if t.rankLevel < KingdomRankLevel then Ancestors(byId, t.parent.value) else []
  }

  /** All ancestors of `id`, the taxon itself first and the root last. */
  function UpChain(byId: map<int, RefTaxon>, id: int): (c: seq<int>)
    requires WellFormed(byId) && id in byId
    ensures 0 < |c| && c[0] == id
    ensures forall i :: 0 <= i < |c| ==> c[i] in byId
    decreases |Above(byId, byId[id].rankLevel)|
  {
    match byId[id].parent
    case None => [id]
    case Some(p) =>
      ParentNarrowsAbove(byId, id);
      [id] + UpChain(byId, p)
  }

  /** `a` is `k` itself or one of its ancestors. */
  ghost predicate AncestorOrSelf(byId: map<int, RefTaxon>, a: int, k: int)
    requires WellFormed(byId) && k in byId
  {
    a in UpChain(byId, k)
  }

  lemma {:induction false} UpChainRanks(byId: map<int, RefTaxon>, k: int, a: int)
    requires WellFormed(byId) && k in byId && a in UpChain(byId, k)
    ensures a in byId && byId[a].rankLevel >= byId[k].rankLevel
    ensures a != k ==> byId[a].rankLevel > byId[k].rankLevel
    decreases |Above(byId, byId[k].rankLevel)|
  {
    if a != k {
      var p := byId[k].parent.value;
      ParentNarrowsAbove(byId, k);
      UpChainRanks(byId, p, a);
    }
  }

  /** An ancestor other than the taxon itself is an ancestor of its parent. */
  lemma UpChainOfParent(byId: map<int, RefTaxon>, k: int, a: int)
    requires WellFormed(byId) && k in byId && a in UpChain(byId, k) && a != k
    ensures byId[k].parent.Some? && a in UpChain(byId, byId[k].parent.value)
  {
  }

  /** The parent of a taxon is among its ancestors. */
  lemma ParentInUpChain(byId: map<int, RefTaxon>, k: int)
    requires WellFormed(byId) && k in byId && byId[k].parent.Some?
    ensures byId[k].parent.value in UpChain(byId, k)
  {
  }

  /** Ancestors of ancestors are ancestors. */
  lemma {:induction false} UpChainTransitive(byId: map<int, RefTaxon>, a: int, b: int, c: int)
    requires WellFormed(byId) && c in byId && b in UpChain(byId, c)
    requires b in byId && a in UpChain(byId, b)
    ensures a in UpChain(byId, c)
    decreases |Above(byId, byId[c].rankLevel)|
  {
    if b != c {
      var p := byId[c].parent.value;
      ParentNarrowsAbove(byId, c);
      UpChainTransitive(byId, a, b, p);
    }
  }
}
