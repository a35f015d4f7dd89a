/** `Taxonomy.assign_scores` and `Taxonomy.prediction` of nature_id.py: the
    classifier's probabilities summed up the tree, and the greedy descent
    from the root that becomes the reported path. */
module Scoring {
  import opened Wrappers
  import opened Ranks
  import opened TaxonTree

  /** `probabilities[i]`, Python indexing: a negative index counts from the end. */
  function At(p: seq<real>, i: int): real
    requires -|p| <= i < |p|
  {
    if i < 0 then p[|p| + i] else p[i]
  }

  /** Every id can index the probabilities without an IndexError. */
  predicate InRange(p: seq<real>, ids: seq<int>)
  {
    forall i :: 0 <= i < |ids| ==> -|p| <= ids[i] < |p|
  }

  /** Every node's leaf-class ids can index the probabilities. */
  ghost predicate Indexable(t: Taxonomy, p: seq<real>)
  {
    forall k :: k in t.nodes ==> InRange(p, t.nodes[k].leafClassIds)
  }

  predicate NonNegative(p: seq<real>)
  {
    forall i :: 0 <= i < |p| ==> 0.0 <= p[i]
  }

  /** The probabilities of `ids`, added up. */
  function LeafSum(p: seq<real>, ids: seq<int>): real
    requires InRange(p, ids)
    decreases |ids|
  {
    if |ids| == 0 then 0.0 else LeafSum(p, ids[..|ids| - 1]) + At(p, ids[|ids| - 1])
  }

  /** The score of node `n`: its own leaf-class probabilities plus its
      children's scores. */
  function Score(t: Taxonomy, p: seq<real>, n: int): real
    requires Valid(t) && Indexable(t, p) && n in t.nodes
    decreases |t.order| - Pos(t.order, n), 1, 0
  {
    LeafSum(p, t.nodes[n].leafClassIds) + ChildSum(t, p, n, 0)
  }

  /** The scores of children `i..` of `n`, added up. */
  function ChildSum(t: Taxonomy, p: seq<real>, n: int, i: nat): real
    requires Valid(t) && Indexable(t, p) && n in t.nodes && i <= |t.nodes[n].children|
    decreases |t.order| - Pos(t.order, n), 0, |t.nodes[n].children| - i
  {
    var ch := t.nodes[n].children;
    if i == |ch| then 0.0
    else
      ChildAfterParent(t, n, ch[i]);
      Score(t, p, ch[i]) + ChildSum(t, p, n, i + 1)
  }

  lemma {:induction false} LeafSumAppend(p: seq<real>, a: seq<int>, b: seq<int>)
    requires InRange(p, a) && InRange(p, b)
    ensures InRange(p, a + b) && LeafSum(p, a + b) == LeafSum(p, a) + LeafSum(p, b)
    decreases |b|
  {
    if |b| > 0 {
      var b' := b[..|b| - 1];
      assert (a + b)[..|a + b| - 1] == a + b';
      LeafSumAppend(p, a, b');
    } else {
      assert a + b == a;
    }
  }

  lemma InRangePermutation(p: seq<real>, a: seq<int>, b: seq<int>)
    requires InRange(p, a) && multiset(a) == multiset(b)
    ensures InRange(p, b)
  {
    forall i | 0 <= i < |b|
      ensures -|p| <= b[i] < |p|
    {
      assert b[i] in multiset(a);
      var k :| 0 <= k < |a| && a[k] == b[i];
    }
  }

  /** The sum over `b` is the sum without `b[j]`, plus `b[j]`. */
  lemma LeafSumSplit(p: seq<real>, b: seq<int>, j: nat)
    requires InRange(p, b) && j < |b|
    ensures InRange(p, b[..j] + b[j + 1..])
    ensures LeafSum(p, b) == LeafSum(p, b[..j] + b[j + 1..]) + At(p, b[j])
  {
    var front, x, back := b[..j], b[j], b[j + 1..];
    assert b == front + [x] + back;
    assert InRange(p, front) && InRange(p, back) && InRange(p, [x]);
    LeafSumAppend(p, front, back);
    LeafSumAppend(p, front, [x]);
    LeafSumAppend(p, front + [x], back);
    assert LeafSum(p, [x]) == At(p, x) by { assert [x][..0] == []; }
  }

  /** Where the last element of `a` sits in its permutation `b`, and what
      remains of both once it is taken out. */
  lemma MatchLast(a: seq<int>, b: seq<int>) returns (j: nat)
    requires 0 < |a| && multiset(a) == multiset(b)
    ensures j < |b| && b[j] == a[|a| - 1]
    ensures multiset(a[..|a| - 1]) == multiset(b[..j] + b[j + 1..])
  {
    var x := a[|a| - 1];
    assert x in multiset(b);
    j :| 0 <= j < |b| && b[j] == x;
    RemoveAt(a, |a| - 1);
    RemoveAt(b, j);
  }

  /** The sum does not depend on the order of the ids. */
  lemma {:induction false} LeafSumPermutation(p: seq<real>, a: seq<int>, b: seq<int>)
    requires InRange(p, a) && multiset(a) == multiset(b)
    ensures InRange(p, b) && LeafSum(p, a) == LeafSum(p, b)
    decreases |a|
  {
    InRangePermutation(p, a, b);
    if |a| == 0 {
      assert b == [];
    } else {
      var j := MatchLast(a, b);
      var a' := a[..|a| - 1];
      assert InRange(p, a');
      LeafSumPermutation(p, a', b[..j] + b[j + 1..]);
      LeafSumSplit(p, b, j);
    }
  }

  /** Every leaf-class id the pre-order of `n` lists can index the probabilities. */
  lemma LeavesOfSubtreeInRange(t: Taxonomy, p: seq<real>, ids: seq<int>)
    requires Indexable(t, p)
    ensures InRange(p, LeavesAlong(t.nodes, ids))
    decreases |ids|
  {
    if |ids| > 0 {
      LeavesOfSubtreeInRange(t, p, ids[..|ids| - 1]);
      var k := ids[|ids| - 1];
      var front := LeavesAlong(t.nodes, ids[..|ids| - 1]);
      var last := if k in t.nodes then t.nodes[k].leafClassIds else [];
      LeafSumAppend(p, front, last);
    }
  }

  /** A node's score is the probability of every leaf-class id in its subtree. */
  lemma {:induction false} ScoreIsSubtreeSum(t: Taxonomy, p: seq<real>, n: int)
    requires Valid(t) && Indexable(t, p) && n in t.nodes
    ensures InRange(p, LeavesAlong(t.nodes, Pre(t, n)))
    ensures Score(t, p, n) == LeafSum(p, LeavesAlong(t.nodes, Pre(t, n)))
    decreases |t.order| - Pos(t.order, n), 1, 0
  {
    var rest := PreList(t, n, 0);
    ChildSumIsSubtreeSum(t, p, n, 0);
    LeavesAlongAppend(t.nodes, [n], rest);
    assert LeavesAlong(t.nodes, [n]) == t.nodes[n].leafClassIds by {
      assert [n][..0] == [];
    }
    LeafSumAppend(p, t.nodes[n].leafClassIds, LeavesAlong(t.nodes, rest));
  }

  lemma {:induction false} ChildSumIsSubtreeSum(t: Taxonomy, p: seq<real>, n: int, i: nat)
    requires Valid(t) && Indexable(t, p) && n in t.nodes && i <= |t.nodes[n].children|
    ensures InRange(p, LeavesAlong(t.nodes, PreList(t, n, i)))
    ensures ChildSum(t, p, n, i) == LeafSum(p, LeavesAlong(t.nodes, PreList(t, n, i)))
    decreases |t.order| - Pos(t.order, n), 0, |t.nodes[n].children| - i
  {
    var ch := t.nodes[n].children;
    if i < |ch| {
      ChildAfterParent(t, n, ch[i]);
      var head := Pre(t, ch[i]);
      var rest := PreList(t, n, i + 1);
      assert PreList(t, n, i) == head + rest;
      ScoreIsSubtreeSum(t, p, ch[i]);
      ChildSumIsSubtreeSum(t, p, n, i + 1);
      LeavesAlongAppend(t.nodes, head, rest);
      LeafSumAppend(p, LeavesAlong(t.nodes, head), LeavesAlong(t.nodes, rest));
    }
  }

  /** Conservation: the root's score is the sum over every leaf-class id of
      the tree, so with every label listed once it is the sum of all
      probabilities. */
  lemma RootScoreIsTotal(t: Taxonomy, p: seq<real>)
    requires Valid(t) && Indexable(t, p)
    ensures RootTaxonId in t.nodes && InRange(p, AllLeaves(t))
    ensures Score(t, p, RootTaxonId) == LeafSum(p, AllLeaves(t))
  {
    PreorderIsPermutation(t);
    ScoreIsSubtreeSum(t, p, RootTaxonId);
    LeavesAlongPermutation(t.nodes, Pre(t, RootTaxonId), t.order);
    LeafSumPermutation(p, LeavesAlong(t.nodes, Pre(t, RootTaxonId)), AllLeaves(t));
  }

  /** `assign_scores(root, probabilities)`: every node's score; the root's is
      the total over every leaf-class id of the tree. */
  function AssignScores(t: Taxonomy, p: seq<real>): (scores: map<int, real>)
    requires Valid(t) && Indexable(t, p)
    ensures scores.Keys == t.nodes.Keys
    ensures forall k :: k in t.nodes ==> scores[k] == Score(t, p, k)
    ensures RootTaxonId in scores && InRange(p, AllLeaves(t)) && scores[RootTaxonId] == LeafSum(p, AllLeaves(t))
  {
    RootScoreIsTotal(t, p);
    map k | k in t.nodes :: Score(t, p, k)
  }

  lemma {:induction false} LeafSumNonNegative(p: seq<real>, ids: seq<int>)
    requires InRange(p, ids) && NonNegative(p)
    ensures 0.0 <= LeafSum(p, ids)
    decreases |ids|
  {
    if |ids| > 0 {
      LeafSumNonNegative(p, ids[..|ids| - 1]);
    }
  }

  /** With non-negative probabilities, a child never outscores its parent:
      the children's scores add up to at most the parent's. */
  lemma {:induction false} ScoreNonNegative(t: Taxonomy, p: seq<real>, n: int)
    requires Valid(t) && Indexable(t, p) && NonNegative(p) && n in t.nodes
    ensures 0.0 <= Score(t, p, n)
    ensures forall c :: c in t.nodes[n].children ==> c in t.nodes && Score(t, p, c) <= Score(t, p, n)
    decreases |t.order| - Pos(t.order, n), 1, 0
  {
    LeafSumNonNegative(p, t.nodes[n].leafClassIds);
    ChildSumBounds(t, p, n, 0);
  }

  lemma {:induction false} ChildSumBounds(t: Taxonomy, p: seq<real>, n: int, i: nat)
    requires Valid(t) && Indexable(t, p) && NonNegative(p) && n in t.nodes && i <= |t.nodes[n].children|
    ensures 0.0 <= ChildSum(t, p, n, i)
    ensures forall j :: i <= j < |t.nodes[n].children| ==>
              (t.nodes[n].children[j] in t.nodes && Score(t, p, t.nodes[n].children[j]) <= ChildSum(t, p, n, i))
    decreases |t.order| - Pos(t.order, n), 0, |t.nodes[n].children| - i
  {
    var ch := t.nodes[n].children;
    if i < |ch| {
      ChildAfterParent(t, n, ch[i]);
      ScoreNonNegative(t, p, ch[i]);
      ChildSumBounds(t, p, n, i + 1);
    }
  }

  /** The scores of the children of `n`, in child order. */
  function ChildScores(t: Taxonomy, p: seq<real>, n: int): (xs: seq<real>)
    requires Valid(t) && Indexable(t, p) && n in t.nodes
    ensures |xs| == |t.nodes[n].children|
    ensures forall i :: 0 <= i < |xs| ==> t.nodes[n].children[i] in t.nodes && xs[i] == Score(t, p, t.nodes[n].children[i])
  {
    var ch := t.nodes[n].children;
    seq(|ch|, i requires 0 <= i < |ch| => Score(t, p, ch[i]))
  }

  /** `b` is the first position of a maximal element. */
  predicate IsFirstMax(xs: seq<real>, b: nat)
  {
    && b < |xs|
    && (forall j :: 0 <= j < |xs| ==> xs[j] <= xs[b])
    && (forall j :: 0 <= j < b ==> xs[j] < xs[b])
  }

  lemma FirstMaxUnique(xs: seq<real>, a: nat, b: nat)
    requires IsFirstMax(xs, a) && IsFirstMax(xs, b)
    ensures a == b
  {
    assert xs[a] == xs[b];
  }

  /** The inner loop of `prediction`: a later child replaces the best so far
      only with a strictly higher score. */
  method FirstBest(xs: seq<real>) returns (b: nat)
    requires 0 < |xs|
    ensures IsFirstMax(xs, b)
  {
    b := 0;
    var i := 1;
    while i < |xs|
      invariant 1 <= i <= |xs| && b < i
      invariant forall j :: 0 <= j < i ==> xs[j] <= xs[b]
      invariant forall j :: 0 <= j < b ==> xs[j] < xs[b]
    {
      if xs[i] > xs[b] {
        b := i;
      }
      i := i + 1;
    }
  }

  /** `c` is the child of `n` the descent takes: the first of maximal score,
      scoring at least half of `n`. */
  ghost predicate Step(t: Taxonomy, p: seq<real>, n: int, c: int)
    requires Valid(t) && Indexable(t, p)
  {
    && n in t.nodes
    && exists b: nat :: IsFirstMax(ChildScores(t, p, n), b) && t.nodes[n].children[b] == c
                   && ChildScores(t, p, n)[b] >= 0.5 * Score(t, p, n)
  }

  /** The descent stops at `n`: it has no children, or its best child scores
      less than half of it (the other children together do better). */
  ghost predicate Stops(t: Taxonomy, p: seq<real>, n: int)
    requires Valid(t) && Indexable(t, p) && n in t.nodes
  {
    || |t.nodes[n].children| == 0
    || exists b: nat :: IsFirstMax(ChildScores(t, p, n), b) && ChildScores(t, p, n)[b] < 0.5 * Score(t, p, n)
  }

  ghost predicate GreedyPrefix(t: Taxonomy, p: seq<real>, ids: seq<int>)
    requires Valid(t) && Indexable(t, p)
  {
    forall i :: 0 <= i < |ids| ==> Step(t, p, PathParent(ids, i), ids[i])
  }

  /** The path `prediction` reports, as ids: every step the greedy one, and
      the descent stopped at the end. */
  ghost predicate GreedyPath(t: Taxonomy, p: seq<real>, ids: seq<int>)
    requires Valid(t) && Indexable(t, p)
  {
    && GreedyPrefix(t, p, ids)
    && PathParent(ids, |ids|) in t.nodes
    && Stops(t, p, PathParent(ids, |ids|))
  }

  /** One tuple of the result: the share of the root's score, the id, the
      rank name and the display name. The share is missing when the root's
      score is zero (the source divides by it). */
  datatype PathEntry = PathEntry(share: Option<real>, id: int, rank: string, name: string)

  /** What `prediction` ends with: the reported path, or the AssertionError
      `get_rank` raises for node `id` after the entries of `path`. */
  datatype Outcome = Path(path: seq<PathEntry>) | RankFailure(path: seq<PathEntry>, id: int)

  function Ids(path: seq<PathEntry>): (ids: seq<int>)
    ensures |ids| == |path| && forall i :: 0 <= i < |path| ==> ids[i] == path[i].id
  {
    seq(|path|, i requires 0 <= i < |path| => path[i].id)
  }

  /** The entry `prediction` appends for node `c`. */
  function Entry(t: Taxonomy, reg: Registry, c: int, score: real, rootScore: real): PathEntry
    requires c in t.nodes && GetRank(reg, t.nodes[c]).Some?
  {
    PathEntry(if rootScore == 0.0 then None else Some(score / rootScore), c,
              GetRank(reg, t.nodes[c]).value, GetName(t.nodes[c]))
  }

  /** Every entry is the one `prediction` appends for its node. */
  ghost predicate EntriesOk(t: Taxonomy, reg: Registry, p: seq<real>, path: seq<PathEntry>)
    requires Valid(t) && Indexable(t, p)
  {
    forall i :: 0 <= i < |path| ==>
      && path[i].id in t.nodes
      && GetRank(reg, t.nodes[path[i].id]).Some?
      && path[i] == Entry(t, reg, path[i].id, Score(t, p, path[i].id), Score(t, p, RootTaxonId))
  }

  lemma TakeStep(t: Taxonomy, p: seq<real>, n: int, b: nat)
    requires Valid(t) && Indexable(t, p) && n in t.nodes
    requires IsFirstMax(ChildScores(t, p, n), b) && ChildScores(t, p, n)[b] >= 0.5 * Score(t, p, n)
    ensures Step(t, p, n, t.nodes[n].children[b])
  {
  }

  lemma StopHere(t: Taxonomy, p: seq<real>, n: int, b: nat)
    requires Valid(t) && Indexable(t, p) && n in t.nodes
    requires IsFirstMax(ChildScores(t, p, n), b) && ChildScores(t, p, n)[b] < 0.5 * Score(t, p, n)
    ensures Stops(t, p, n)
  {
  }

  lemma ExtendPrefix(t: Taxonomy, p: seq<real>, ids: seq<int>, c: int)
    requires Valid(t) && Indexable(t, p) && GreedyPrefix(t, p, ids)
    requires Step(t, p, PathParent(ids, |ids|), c)
    ensures GreedyPrefix(t, p, ids + [c])
  {
    var ids' := ids + [c];
    forall i | 0 <= i < |ids'|
      ensures Step(t, p, PathParent(ids', i), ids'[i])
    {
      if i < |ids| {
        assert PathParent(ids', i) == PathParent(ids, i) && ids'[i] == ids[i];
      }
    }
  }

  lemma ExtendEntries(t: Taxonomy, reg: Registry, p: seq<real>, path: seq<PathEntry>, e: PathEntry)
    requires Valid(t) && Indexable(t, p) && EntriesOk(t, reg, p, path)
    requires e.id in t.nodes && GetRank(reg, t.nodes[e.id]).Some?
    requires e == Entry(t, reg, e.id, Score(t, p, e.id), Score(t, p, RootTaxonId))
    ensures EntriesOk(t, reg, p, path + [e]) && Ids(path + [e]) == Ids(path) + [e.id]
  {
    var path' := path + [e];
    forall i | 0 <= i < |path'|
      ensures path'[i].id in t.nodes && GetRank(reg, t.nodes[path'[i].id]).Some?
      ensures path'[i] == Entry(t, reg, path'[i].id, Score(t, p, path'[i].id), Score(t, p, RootTaxonId))
    {
      if i < |path| {
        assert path'[i] == path[i];
      }
    }
    IdsSnoc(path, e);
  }

  lemma IdsSnoc(path: seq<PathEntry>, e: PathEntry)
    ensures Ids(path + [e]) == Ids(path) + [e.id]
  {
    assert forall i :: 0 <= i < |path| ==> (path + [e])[i] == path[i];
  }

  /** `prediction` with a taxonomy: the greedy descent from the root. It
      fails only at a greedy step onto a pseudo-kingdom off the kingdom
      level, which a computed tree never has. */
  method Prediction(t: Taxonomy, reg: Registry, p: seq<real>) returns (r: Outcome)
    requires Valid(t) && Indexable(t, p)
    ensures EntriesOk(t, reg, p, r.path)
    ensures r.Path? ==> GreedyPath(t, p, Ids(r.path))
    ensures r.RankFailure? ==>
              && GreedyPrefix(t, p, Ids(r.path) + [r.id])
              && r.id in t.nodes && GetRank(reg, t.nodes[r.id]).None?
    ensures PseudoKingdomsRanked(t) ==> r.Path?
  {
    var path: seq<PathEntry>;
    var scores := AssignScores(t, p);
    var rootScore := scores[RootTaxonId];
    path := [];
    var taxon := RootTaxonId;
    while |t.nodes[taxon].children| > 0
      invariant taxon in t.nodes && taxon == PathParent(Ids(path), |path|)
      invariant GreedyPrefix(t, p, Ids(path))
      invariant EntriesOk(t, reg, p, path)
      decreases |t.order| - Pos(t.order, taxon)
    {
      var ch := t.nodes[taxon].children;
      var xs := ChildScores(t, p, taxon);
      var b := FirstBest(xs);
      var best := ch[b];
      if xs[b] < 0.5 * scores[taxon] {
        StopHere(t, p, taxon, b);
        break;
      }
      ChildAfterParent(t, taxon, best);
      TakeStep(t, p, taxon, b);
      ExtendPrefix(t, p, Ids(path), best);
      if GetRank(reg, t.nodes[best]).None? {
        return RankFailure(path, best);
      }
      var e := Entry(t, reg, best, scores[best], rootScore);
      ExtendEntries(t, reg, p, path, e);
      path := path + [e];
      taxon := best;
    }
    r := Path(path);
  }

  /** Only one child can be the greedy step from a node. */
  lemma StepUnique(t: Taxonomy, p: seq<real>, n: int, c: int, d: int)
    requires Valid(t) && Indexable(t, p) && Step(t, p, n, c) && Step(t, p, n, d)
    ensures c == d
  {
    var xs := ChildScores(t, p, n);
    var bc: nat :| IsFirstMax(xs, bc) && t.nodes[n].children[bc] == c && xs[bc] >= 0.5 * Score(t, p, n);
    var bd: nat :| IsFirstMax(xs, bd) && t.nodes[n].children[bd] == d && xs[bd] >= 0.5 * Score(t, p, n);
    FirstMaxUnique(xs, bc, bd);
  }

  /** A node the descent stops at has no greedy step. */
  lemma StopsHasNoStep(t: Taxonomy, p: seq<real>, n: int, c: int)
    requires Valid(t) && Indexable(t, p) && n in t.nodes && Stops(t, p, n)
    ensures !Step(t, p, n, c)
  {
    var xs := ChildScores(t, p, n);
    if 0 < |xs| {
      var bs: nat :| IsFirstMax(xs, bs) && xs[bs] < 0.5 * Score(t, p, n);
      forall b: nat | IsFirstMax(xs, b)
        ensures xs[b] < 0.5 * Score(t, p, n)
      {
        FirstMaxUnique(xs, b, bs);
      }
    }
  }

  lemma {:induction false} GreedyPrefixesAgree(t: Taxonomy, p: seq<real>, a: seq<int>, b: seq<int>, k: nat)
    requires Valid(t) && Indexable(t, p) && GreedyPrefix(t, p, a) && GreedyPrefix(t, p, b)
    requires k <= |a| && k <= |b|
    ensures forall i :: 0 <= i < k ==> a[i] == b[i]
  {
    if 0 < k {
      GreedyPrefixesAgree(t, p, a, b, k - 1);
      var n := PathParent(a, k - 1);
      assert n == PathParent(b, k - 1);
      assert Step(t, p, n, a[k - 1]);
      assert Step(t, p, n, b[k - 1]);
      var x, y := a[k - 1], b[k - 1];
      StepUnique(t, p, n, x, y);
      AgreeOneMore(a, b, k);
    }
  }

  lemma AgreeOneMore(a: seq<int>, b: seq<int>, k: nat)
    requires 0 < k <= |a| && k <= |b| && a[k - 1] == b[k - 1]
    requires forall i :: 0 <= i < k - 1 ==> a[i] == b[i]
    ensures forall i :: 0 <= i < k ==> a[i] == b[i]
  {
  }

  /** The descent is deterministic: one path satisfies the description. */
  lemma GreedyPathUnique(t: Taxonomy, p: seq<real>, a: seq<int>, b: seq<int>)
    requires Valid(t) && Indexable(t, p) && GreedyPath(t, p, a) && GreedyPath(t, p, b)
    ensures a == b
  {
    var k := if |a| < |b| then |a| else |b|;
    GreedyPrefixesAgree(t, p, a, b, k);
    var n := PathParent(a, k);
    assert n == PathParent(b, k);
    if k < |b| {
      assert Step(t, p, n, b[k]);
      StopsHasNoStep(t, p, n, b[k]);
    } else if k < |a| {
      assert Step(t, p, n, a[k]);
      StopsHasNoStep(t, p, n, a[k]);
    }
  }

  /** With non-negative probabilities, scores along the path never grow and
      each is at least half of the one before, so the reported shares are
      non-increasing. */
  lemma PathScoresShrink(t: Taxonomy, p: seq<real>, ids: seq<int>)
    requires Valid(t) && Indexable(t, p) && NonNegative(p) && GreedyPrefix(t, p, ids)
    ensures forall i :: 0 <= i < |ids| ==>
              && PathParent(ids, i) in t.nodes && ids[i] in t.nodes
              && 0.5 * Score(t, p, PathParent(ids, i)) <= Score(t, p, ids[i]) <= Score(t, p, PathParent(ids, i))
  {
    forall i | 0 <= i < |ids|
      ensures PathParent(ids, i) in t.nodes && ids[i] in t.nodes
      ensures 0.5 * Score(t, p, PathParent(ids, i)) <= Score(t, p, ids[i]) <= Score(t, p, PathParent(ids, i))
    {
      var n := PathParent(ids, i);
      assert Step(t, p, n, ids[i]);
      var xs := ChildScores(t, p, n);
      var b: nat :| IsFirstMax(xs, b) && t.nodes[n].children[b] == ids[i] && xs[b] >= 0.5 * Score(t, p, n);
      ScoreNonNegative(t, p, n);
    }
  }
}
