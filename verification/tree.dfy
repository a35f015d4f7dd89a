/** The synthesized taxonomy of nature_id.py (classes `Taxon` and
    `Taxonomy`): nodes keyed by id under the root "Life", each with an ordered
    list of children and the score-vector indices it stands for. */
module TaxonTree {
  import opened Wrappers
  import opened Ranks

  /** A node of the synthesized tree. `commonName` is None until common names
      are attached; `leafClassIds` index the classifier's score vector. */
  datatype Node = Node(id: int, name: string, rankLevel: real, commonName: Option<string>,
                       children: seq<int>, leafClassIds: seq<int>)

  /** The `id2taxon` dict: the nodes by id, and the order in which the ids
      were inserted (a Python dict remembers it). */
  datatype Taxonomy = Taxonomy(nodes: map<int, Node>, order: seq<int>)

  function NewNode(id: int, name: string, rankLevel: real): Node
  {
    Node(id, name, rankLevel, None, [], [])
  }

  /** `Taxonomy.__init__` / `reset`: only the root "Life". */
  const RootNode: Node := NewNode(RootTaxonId, RootName, RootRankLevel)
  const EmptyTaxonomy: Taxonomy := Taxonomy(map[RootTaxonId := RootNode], [RootTaxonId])

  /** The insertion position of `k`. */
  function Pos(order: seq<int>, k: int): (i: nat)
    requires k in order
    ensures i < |order| && order[i] == k
    ensures forall j :: 0 <= j < i ==> order[j] != k
  {
    if order[0] == k then 0 else 1 + Pos(order[1..], k)
  }

  lemma PosOfIndex(order: seq<int>, i: nat)
    requires Distinct(order) && i < |order|
    ensures Pos(order, order[i]) == i
  {
  }

  /** The root was inserted first, ids are inserted once, and every inserted
      id has its node. */
  ghost predicate OrderOk(t: Taxonomy)
  {
    && 0 < |t.order| && t.order[0] == RootTaxonId
    && Distinct(t.order)
    && (forall k :: k in t.nodes <==> k in t.order)
  }

  /** Every node carries its own id and lists existing children, none twice. */
  ghost predicate NodesOk(t: Taxonomy)
  {
    && (forall k :: k in t.nodes ==> t.nodes[k].id == k && Distinct(t.nodes[k].children))
    && (forall k, c :: k in t.nodes && c in t.nodes[k].children ==> c in t.nodes)
  }

  /** A child was inserted after its parent. */
  ghost predicate ChildrenLater(t: Taxonomy)
  {
    forall i, j ::
      0 <= i < |t.order| && 0 <= j < |t.order| && t.order[i] in t.nodes && t.order[j] in t.nodes[t.order[i]].children
      ==> i < j
  }

  /** Every node but the root is the child of exactly one node. */
  ghost predicate Parented(t: Taxonomy)
  {
    && (forall k :: k in t.nodes && k != RootTaxonId ==> exists p :: p in t.nodes && k in t.nodes[p].children)
    && (forall p, q, k :: p in t.nodes && q in t.nodes && k in t.nodes[p].children && k in t.nodes[q].children ==> p == q)
  }

  /** The tree invariant. */
  ghost predicate Valid(t: Taxonomy)
  {
    OrderOk(t) && NodesOk(t) && ChildrenLater(t) && Parented(t)
  }

  lemma EmptyTaxonomyIsValid()
    ensures Valid(EmptyTaxonomy)
  {
  }

  /** A child's position is after its parent's. */
  lemma ChildAfterParent(t: Taxonomy, n: int, c: int)
    requires Valid(t) && n in t.nodes && c in t.nodes[n].children
    ensures c in t.nodes && Pos(t.order, c) > Pos(t.order, n)
  {
    var i := Pos(t.order, n);
    var j := Pos(t.order, c);
    assert t.order[j] in t.nodes[t.order[i]].children;
  }

  /** Changing nothing but the node payloads keeps the tree invariant. */
  lemma SameShapeKeepsValid(t: Taxonomy, r: Taxonomy)
    requires Valid(t) && r.order == t.order && r.nodes.Keys == t.nodes.Keys
    requires forall j :: j in t.nodes ==> r.nodes[j].id == t.nodes[j].id && r.nodes[j].children == t.nodes[j].children
    ensures Valid(r)
  {
    assert OrderOk(r);
    assert NodesOk(r);
    forall i, j | 0 <= i < |r.order| && 0 <= j < |r.order| && r.order[i] in r.nodes
                  && r.order[j] in r.nodes[r.order[i]].children
      ensures i < j
    {
      var a := t.order[i];
      assert a in t.nodes;
      assert r.nodes[a].children == t.nodes[a].children;
    }
    assert Parented(r) by {
      forall k | k in r.nodes && k != RootTaxonId
        ensures exists q :: q in r.nodes && k in r.nodes[q].children
      {
        var q :| q in t.nodes && k in t.nodes[q].children;
        assert k in r.nodes[q].children;
      }
    }
  }

  /** The ids of the subtree at `n` in pre-order: `n`, then each child's subtree in order. */
  function Pre(t: Taxonomy, n: int): (s: seq<int>)
    requires Valid(t) && n in t.nodes
    ensures 0 < |s| && s[0] == n
    decreases |t.order| - Pos(t.order, n), 1, 0
  {
    [n] + PreList(t, n, 0)
  }

  /** The pre-orders of the subtrees of children `i..` of `n`, concatenated. */
  function PreList(t: Taxonomy, n: int, i: nat): seq<int>
    requires Valid(t) && n in t.nodes && i <= |t.nodes[n].children|
    decreases |t.order| - Pos(t.order, n), 0, |t.nodes[n].children| - i
  {
    var ch := t.nodes[n].children;
    if i == |ch| then []
    else
      ChildAfterParent(t, n, ch[i]);
      Pre(t, ch[i]) + PreList(t, n, i + 1)
  }

  /** Every id in a subtree is a node inserted no earlier than its top. */
  lemma {:induction false} PreBelow(t: Taxonomy, n: int)
    requires Valid(t) && n in t.nodes
    ensures forall y :: y in Pre(t, n) ==> y in t.nodes && Pos(t.order, y) >= Pos(t.order, n)
    decreases |t.order| - Pos(t.order, n), 1, 0
  {
    PreListBelow(t, n, 0);
  }

  lemma {:induction false} PreListBelow(t: Taxonomy, n: int, i: nat)
    requires Valid(t) && n in t.nodes && i <= |t.nodes[n].children|
    ensures forall y :: y in PreList(t, n, i) ==> y in t.nodes && Pos(t.order, y) > Pos(t.order, n)
    decreases |t.order| - Pos(t.order, n), 0, |t.nodes[n].children| - i
  {
    var ch := t.nodes[n].children;
    if i < |ch| {
      ChildAfterParent(t, n, ch[i]);
      PreBelow(t, ch[i]);
      PreListBelow(t, n, i + 1);
    }
  }

  /** The unique node listing `x` among its children. */
  ghost function Parent(t: Taxonomy, x: int): (p: int)
    requires Valid(t) && x in t.nodes && x != RootTaxonId
    ensures p in t.nodes && x in t.nodes[p].children
    ensures Pos(t.order, p) < Pos(t.order, x)
  {
    var p :| p in t.nodes && x in t.nodes[p].children;
    ChildAfterParent(t, p, x);
    p
  }

  lemma SelfOnceInPre(t: Taxonomy, n: int)
    requires Valid(t) && n in t.nodes
    ensures multiset(Pre(t, n))[n] == 1
  {
    PreListBelow(t, n, 0);
    assert n !in PreList(t, n, 0);
  }

  lemma AbsentFromPre(t: Taxonomy, n: int, y: int)
    requires Valid(t) && n in t.nodes
    requires y !in t.nodes || Pos(t.order, y) < Pos(t.order, n)
    ensures multiset(Pre(t, n))[y] == 0
  {
    PreBelow(t, n);
  }

  /** Below the top of a subtree, an id occurs as often as its parent does. */
  lemma {:induction false} CountFollowsParent(t: Taxonomy, n: int, x: int, p: int)
    requires Valid(t) && n in t.nodes && x != n
    requires p in t.nodes && x in t.nodes[p].children
    ensures multiset(Pre(t, n))[x] == multiset(Pre(t, n))[p]
    decreases |t.order| - Pos(t.order, n), 1, 0
  {
    var ch := t.nodes[n].children;
    CountFollowsParentList(t, n, x, p, 0);
    assert ch[0..] == ch;
    if p == n {
      OnceInDistinct(ch, x);
    } else {
      assert x !in ch;
    }
    assert Pre(t, n) == [n] + PreList(t, n, 0);
  }

  lemma {:induction false} CountFollowsParentList(t: Taxonomy, n: int, x: int, p: int, i: nat)
    requires Valid(t) && n in t.nodes && i <= |t.nodes[n].children|
    requires p in t.nodes && x in t.nodes[p].children
    ensures multiset(PreList(t, n, i))[x]
            == multiset(PreList(t, n, i))[p] + multiset(t.nodes[n].children[i..])[x]
    decreases |t.order| - Pos(t.order, n), 0, |t.nodes[n].children| - i
  {
    var ch := t.nodes[n].children;
    if i < |ch| {
      var c := ch[i];
      ChildAfterParent(t, n, c);
      var head := Pre(t, c);
      var rest := PreList(t, n, i + 1);
      assert PreList(t, n, i) == head + rest;
      CountFollowsParentList(t, n, x, p, i + 1);
      HeadCount(t, c, x, p);
      SliceCount(ch, i, x);
      CountAppend(head, rest, x, p, multiset([c])[x], multiset(ch[i + 1..])[x]);
    }
  }

  /** The subtree at child `c` holds `x` once more than its parent `p` when
      `c` is `x` itself, and as often otherwise. */
  lemma HeadCount(t: Taxonomy, c: int, x: int, p: int)
    requires Valid(t) && c in t.nodes && p in t.nodes && x in t.nodes[p].children
    ensures multiset(Pre(t, c))[x] == multiset(Pre(t, c))[p] + multiset([c])[x]
    decreases |t.order| - Pos(t.order, c), 2, 0
  {
    if c == x {
      ChildAfterParent(t, p, x);
      SelfOnceInPre(t, c);
      AbsentFromPre(t, c, p);
    } else {
      CountFollowsParent(t, c, x, p);
    }
  }

  lemma SliceCount(ch: seq<int>, i: nat, x: int)
    requires i < |ch|
    ensures multiset(ch[i..])[x] == multiset([ch[i]])[x] + multiset(ch[i + 1..])[x]
  {
    assert ch[i..] == [ch[i]] + ch[i + 1..];
  }

  lemma CountAppend(a: seq<int>, b: seq<int>, x: int, p: int, da: int, db: int)
    requires multiset(a)[x] == multiset(a)[p] + da
    requires multiset(b)[x] == multiset(b)[p] + db
    ensures multiset(a + b)[x] == multiset(a + b)[p] + da + db
  {
  }

  /** Every node occurs exactly once in the pre-order of the whole tree, and
      nothing else occurs in it. */
  lemma {:induction false} PreorderCountsNode(t: Taxonomy, x: int)
    requires Valid(t) && x in t.nodes
    ensures multiset(Pre(t, RootTaxonId))[x] == 1
    decreases Pos(t.order, x)
  {
    if x == RootTaxonId {
      SelfOnceInPre(t, x);
    } else {
      var p := Parent(t, x);
      CountFollowsParent(t, RootTaxonId, x, p);
      PreorderCountsNode(t, p);
    }
  }

  lemma PreorderIsPermutation(t: Taxonomy)
    requires Valid(t)
    ensures RootTaxonId in t.nodes
    ensures multiset(Pre(t, RootTaxonId)) == multiset(t.order)
  {
    forall x
      ensures multiset(Pre(t, RootTaxonId))[x] == multiset(t.order)[x]
    {
      if x in t.nodes {
        PreorderCountsNode(t, x);
        OnceInDistinct(t.order, x);
      } else {
        PreBelow(t, RootTaxonId);
      }
    }
  }

  lemma {:induction false} OnceInDistinct(xs: seq<int>, x: int)
    requires Distinct(xs) && x in xs
    ensures multiset(xs)[x] == 1
    decreases |xs|
  {
    assert xs == [xs[0]] + xs[1..];
    if xs[0] != x {
      OnceInDistinct(xs[1..], x);
    } else {
      assert x !in xs[1..];
    }
  }

  /** No id occurs twice in any subtree. */
  lemma {:induction false} SubtreeCountsAtMostOne(t: Taxonomy, n: int, x: int)
    requires Valid(t) && n in t.nodes
    ensures multiset(Pre(t, n))[x] <= 1
    decreases if x in t.nodes then Pos(t.order, x) else 0
  {
    if x !in t.nodes {
      AbsentFromPre(t, n, x);
    } else if x == n {
      SelfOnceInPre(t, n);
    } else if x == RootTaxonId {
      PosOfIndex(t.order, 0);
      AbsentFromPre(t, n, x);
    } else {
      var p := Parent(t, x);
      CountFollowsParent(t, n, x, p);
      SubtreeCountsAtMostOne(t, n, p);
    }
  }

  /** The leaf-class ids of the nodes `ids`, node by node in that order. */
  function LeavesAlong(nodes: map<int, Node>, ids: seq<int>): seq<int>
    decreases |ids|
  {
    if |ids| == 0 then []
    else
      var k := ids[|ids| - 1];
      LeavesAlong(nodes, ids[..|ids| - 1]) + (if k in nodes then nodes[k].leafClassIds else [])
  }

  /** Every leaf-class id of the tree, node by node in insertion order. */
  function AllLeaves(t: Taxonomy): seq<int>
  {
    LeavesAlong(t.nodes, t.order)
  }

  lemma {:induction false} LeavesAlongAppend(nodes: map<int, Node>, a: seq<int>, b: seq<int>)
    ensures LeavesAlong(nodes, a + b) == LeavesAlong(nodes, a) + LeavesAlong(nodes, b)
    decreases |b|
  {
    if |b| > 0 {
      var b' := b[..|b| - 1];
      assert (a + b)[..|a + b| - 1] == a + b';
      LeavesAlongAppend(nodes, a, b');
    } else {
      assert a + b == a;
    }
  }

  /** Listing the same nodes in another order lists the same leaf-class ids. */
  lemma {:induction false} LeavesAlongPermutation(nodes: map<int, Node>, a: seq<int>, b: seq<int>)
    requires multiset(a) == multiset(b)
    ensures multiset(LeavesAlong(nodes, a)) == multiset(LeavesAlong(nodes, b))
    decreases |a|
  {
    if |a| == 0 {
      assert b == [];
    } else {
      var x := a[|a| - 1];
      var a' := a[..|a| - 1];
      assert a == a' + [x];
      assert x in multiset(b);
      var j :| 0 <= j < |b| && b[j] == x;
      var front, back := b[..j], b[j + 1..];
      RemoveAt(a, |a| - 1);
      RemoveAt(b, j);
      LeavesAlongPermutation(nodes, a', front + back);
      var lx := LeavesAlong(nodes, [x]);
      LeavesAlongAppend(nodes, a', [x]);
      LeavesAlongAppend(nodes, front + [x], back);
      LeavesAlongAppend(nodes, front, [x]);
      LeavesAlongAppend(nodes, front, back);
      assert front + [x] + back == b;
      assert a' + [x] == a;
      var la', lf, lb := LeavesAlong(nodes, a'), LeavesAlong(nodes, front), LeavesAlong(nodes, back);
      assert LeavesAlong(nodes, a) == la' + lx;
      assert LeavesAlong(nodes, b) == lf + lx + lb;
      assert multiset(la') == multiset(lf + lb);
      MultisetRegroup(la', lf, lb, lx);
    }
  }

  lemma MultisetRegroup(a: seq<int>, f: seq<int>, b: seq<int>, x: seq<int>)
    requires multiset(a) == multiset(f + b)
    ensures multiset(a + x) == multiset(f + x + b)
  {
  }

  lemma RemoveAt(b: seq<int>, j: nat)
    requires j < |b|
    ensures b == b[..j] + [b[j]] + b[j + 1..]
    ensures multiset(b[..j] + b[j + 1..]) == multiset(b) - multiset{b[j]}
  {
    assert b == b[..j] + [b[j]] + b[j + 1..];
  }

  /** Nodes whose leaf-class ids are untouched contribute the same ids. */
  lemma {:induction false} LeavesAlongUnchanged(nodes: map<int, Node>, nodes': map<int, Node>, ids: seq<int>)
    requires forall j :: j in ids ==> (j in nodes <==> j in nodes')
    requires forall j :: j in ids && j in nodes ==> nodes'[j].leafClassIds == nodes[j].leafClassIds
    ensures LeavesAlong(nodes', ids) == LeavesAlong(nodes, ids)
    decreases |ids|
  {
    if |ids| > 0 {
      LeavesAlongUnchanged(nodes, nodes', ids[..|ids| - 1]);
    }
  }

  /** Appending `x` to the leaf-class ids of one listed node adds exactly one `x`. */
  lemma {:induction false} LeavesAlongAddLeaf(nodes: map<int, Node>, nodes': map<int, Node>, ids: seq<int>, k: int, x: int)
    requires Distinct(ids) && k in ids && k in nodes && k in nodes'
    requires nodes'[k].leafClassIds == nodes[k].leafClassIds + [x]
    requires forall j :: j in ids && j != k ==> (j in nodes <==> j in nodes')
    requires forall j :: j in ids && j != k && j in nodes ==> nodes'[j].leafClassIds == nodes[j].leafClassIds
    ensures multiset(LeavesAlong(nodes', ids)) == multiset(LeavesAlong(nodes, ids)) + multiset{x}
    decreases |ids|
  {
    var pre := ids[..|ids| - 1];
    var last := ids[|ids| - 1];
    if last == k {
      assert k !in pre;
      LeavesAlongUnchanged(nodes, nodes', pre);
    } else {
      assert k in pre by { assert k in ids; }
      LeavesAlongAddLeaf(nodes, nodes', pre, k, x);
    }
  }

  /** The node a path position hangs below: the root for the first, else the
      previous one. */
  function PathParent(ids: seq<int>, i: nat): int
    requires i <= |ids|
  {
    if i == 0 then RootTaxonId else ids[i - 1]
  }

  /** Each id of `ids` other than the root is a child of the node before it,
      the first a child of the root. */
  ghost predicate HangsAlong(t: Taxonomy, ids: seq<int>)
  {
    forall i :: 0 <= i < |ids| && ids[i] != RootTaxonId ==>
      PathParent(ids, i) in t.nodes && ids[i] in t.nodes[PathParent(ids, i)].children
  }

  /** `Taxon.get_rank`: pseudo-kingdoms (negative ids) have no rank name;
      any other node shows the registered name of its level. None is the
      AssertionError a pseudo-kingdom off the kingdom level raises. */
  function GetRank(reg: Registry, node: Node): (r: Option<string>)
    ensures r.None? <==> node.id < 0 && node.rankLevel != KingdomRankLevel
    ensures node.id < 0 && r.Some? ==> r.value == ""
    ensures 0 <= node.id && node.rankLevel in reg.levelToName ==> r == Some(reg.levelToName[node.rankLevel])
    ensures 0 <= node.id && node.rankLevel !in reg.levelToName ==> r == Some(DefaultRankName)
  {
    if node.id < 0 then
      if node.rankLevel == KingdomRankLevel then Some("") else None
    else Some(RankName(reg, node.rankLevel))
  }

  /** Every pseudo-kingdom sits on the kingdom level, as the computed tree
      puts them. */
  ghost predicate PseudoKingdomsRanked(t: Taxonomy)
  {
    forall k :: k in t.nodes && t.nodes[k].id < 0 ==> t.nodes[k].rankLevel == KingdomRankLevel
  }

  /** `get_rank` succeeds on every node exactly when every pseudo-kingdom
      sits on the kingdom level. */
  lemma RanksDefined(t: Taxonomy, reg: Registry)
    ensures PseudoKingdomsRanked(t) <==> forall k :: k in t.nodes ==> GetRank(reg, t.nodes[k]).Some?
  {
    if !PseudoKingdomsRanked(t) {
      var k :| k in t.nodes && t.nodes[k].id < 0 && t.nodes[k].rankLevel != KingdomRankLevel;
      assert GetRank(reg, t.nodes[k]).None?;
    }
  }

  /** `Taxon.get_name`: "common (scientific)" when a non-empty common name is
      known, else the scientific name alone. */
  function GetName(node: Node): (r: string)
    ensures (node.commonName == None || node.commonName == Some("")) <==> r == node.name
    ensures node.commonName.Some? && node.commonName.value != "" ==>
              var c := node.commonName.value;
              && |r| == |c| + |node.name| + 3
              && r[..|c|] == c
              && r[|c|..|c| + 2] == " ("
              && r[|c| + 2..|r| - 1] == node.name
              && r[|r| - 1] == ')'
  {
    match node.commonName
    case Some(c) => if c != "" then c + " (" + node.name + ")" else node.name
    case None => node.name
  }
}
