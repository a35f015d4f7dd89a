/** `Taxonomy.compute_taxonomic_tree` of nature_id.py: the tree built from a
    label file by resolving every label against the reference taxonomy and
    merging the label's ancestors into the tree. */
module Synthesis {
  import opened Wrappers
  import opened Ranks
  import opened Reference
  import opened Lineage
  import opened Resolver
  import opened TaxonTree

  /** One entry of a label file: the classifier's score index and its name. */
  datatype Label = Label(idx: int, name: string)

  /** The state threaded through the labels: the tree so far and the last
      id handed to a pseudo-kingdom (0 before the first). */
  datatype Progress = Failed(culprit: Label) | Done(tax: Taxonomy, newId: int)

  /** What the label file turns into: no tree because the reference taxonomy
      could not be loaded (the program then reports label scores only), a
      label whose resolved taxon clashes with the node already holding its id
      (the source's failed `assert`), or the tree. */
  datatype TreeOutcome = LabelsOnly | Inconsistent(culprit: Label) | Built(tax: Taxonomy)

  /** The remote service's answer to a name search, per name. */
  type Responses = string -> Option<seq<RemoteTaxon>>

  /** The existing part of `t` survives in `t'`: ids keep their insertion
      position, nodes keep their name and level, and children and
      leaf-class ids are only ever appended to. */
  ghost predicate Grows(t: Taxonomy, t': Taxonomy)
  {
    && t.order <= t'.order
    && forall k :: k in t.nodes ==>
         && k in t'.nodes
         && t'.nodes[k].name == t.nodes[k].name
         && t'.nodes[k].rankLevel == t.nodes[k].rankLevel
         && t'.nodes[k].commonName == t.nodes[k].commonName
         && t.nodes[k].children <= t'.nodes[k].children
         && t.nodes[k].leafClassIds <= t'.nodes[k].leafClassIds
  }

  lemma GrowsTransitive(t1: Taxonomy, t2: Taxonomy, t3: Taxonomy)
    requires Grows(t1, t2) && Grows(t2, t3)
    ensures Grows(t1, t3)
  {
  }

  /** Pseudo-kingdoms are the only nodes with negative ids: each carries the
      kingdom level, and their ids are exactly -1 down to `newId`, the last id
      handed out. */
  ghost predicate PseudoBelow(t: Taxonomy, newId: int)
  {
    && newId <= 0
    && (forall k :: k in t.nodes && k < 0 ==> newId <= k && t.nodes[k].rankLevel == KingdomRankLevel)
    && (forall k :: newId <= k < 0 ==> k in t.nodes)
  }

  /** Reference taxa all have non-negative ids, so they never collide with a
      pseudo-kingdom. */
  ghost predicate NonNegativeIds(store: Store)
  {
    forall k :: k in store.byId ==> 0 <= k
  }

  /** `id2taxon[c.id] = c` followed by `p.add_child(c)`. */
  function AddChild(t: Taxonomy, p: int, c: Node): (r: Taxonomy)
    requires p in t.nodes
    ensures c.id in r.nodes && p in r.nodes
    ensures r.nodes.Keys == t.nodes.Keys + {c.id}
    ensures c.id !in t.nodes ==>
              && r.nodes[c.id] == c
              && r.nodes[p] == t.nodes[p].(children := t.nodes[p].children + [c.id])
              && forall k :: k in t.nodes && k != p ==> r.nodes[k] == t.nodes[k]
  {
    var nodes1 := t.nodes[c.id := c];
    var parent := nodes1[p];
    Taxonomy(nodes1[p := parent.(children := parent.children + [c.id])],
             if c.id in t.nodes then t.order else t.order + [c.id])
  }

  /** `taxon.leaf_class_ids.append(idx)`. */
  function AppendLeaf(t: Taxonomy, k: int, idx: int): (r: Taxonomy)
    requires k in t.nodes
    ensures r.nodes.Keys == t.nodes.Keys && r.order == t.order
    ensures r.nodes[k].leafClassIds == t.nodes[k].leafClassIds + [idx]
    ensures forall j :: j in t.nodes && j != k ==> r.nodes[j] == t.nodes[j]
  {
    var n := t.nodes[k];
    t.(nodes := t.nodes[k := n.(leafClassIds := n.leafClassIds + [idx])])
  }

  /** The ancestor loop: an ancestor already in the tree becomes the current
      node as it is; a new one is inserted below the current node and becomes
      the current node. Returns the tree and the last current node. */
  function MergeAncestors(t: Taxonomy, prev: int, ancestors: seq<RefTaxon>): (r: (Taxonomy, int))
    requires prev in t.nodes
    ensures r.1 in r.0.nodes
    ensures forall k :: k in t.nodes ==> k in r.0.nodes
    ensures forall i :: 0 <= i < |ancestors| ==> ancestors[i].id in r.0.nodes
    ensures |ancestors| == 0 ==> r == (t, prev)
    ensures 0 < |ancestors| ==> r.1 == ancestors[|ancestors| - 1].id
    decreases |ancestors|
  {
    if |ancestors| == 0 then (t, prev)
    else
      var a := ancestors[0];
      if a.id in t.nodes then MergeAncestors(t, a.id, ancestors[1..])
      else MergeAncestors(AddChild(t, prev, NewNode(a.id, a.name, a.rankLevel)), a.id, ancestors[1..])
  }

  /** The label's own taxon: a node already holding its id must carry the same
      name and level (otherwise `None`); a new one is inserted below `prev`.
      Either way the label's index is appended to its leaf-class ids. */
  function PlaceTaxon(t: Taxonomy, prev: int, taxon: RefTaxon, idx: int): (r: Option<Taxonomy>)
    requires prev in t.nodes
    ensures r.None? <==> taxon.id in t.nodes && (t.nodes[taxon.id].name != taxon.name
                                                  || t.nodes[taxon.id].rankLevel != taxon.rankLevel)
    ensures r.Some? ==> taxon.id in r.value.nodes && idx in r.value.nodes[taxon.id].leafClassIds
    ensures r.Some? ==> r.value.nodes[taxon.id].name == taxon.name && r.value.nodes[taxon.id].rankLevel == taxon.rankLevel
  {
    if taxon.id in t.nodes then
      var n := t.nodes[taxon.id];
      if n.name != taxon.name || n.rankLevel != taxon.rankLevel then None
      else Some(AppendLeaf(t, taxon.id, idx))
    else
      var t1 := AddChild(t, prev, NewNode(taxon.id, taxon.name, taxon.rankLevel));
      Some(AppendLeaf(t1, taxon.id, idx))
  }

  /** A label no taxon could be found for: a pseudo-kingdom below the root
      with the next negative id, the label's name and index. */
  function PseudoKingdom(id: int, lab: Label): Node
  {
    Node(id, lab.name, KingdomRankLevel, None, [], [lab.idx])
  }

  /** One iteration of the label loop. */
  function SynthesizeLabel(store: Store, reg: Registry, responses: Responses, t: Taxonomy,
                           newId: int, lab: Label): (r: Progress)
    requires Coherent(store) && RootTaxonId in t.nodes
    ensures r.Failed? ==> r.culprit == lab
    ensures r.Done? ==> RootTaxonId in r.tax.nodes
  {
    match Resolve(store, reg, lab.name, DefaultDesiredRanks, responses(lab.name))
    case None =>
      Done(AddChild(t, RootTaxonId, PseudoKingdom(newId - 1, lab)), newId - 1)
    case Some(res) =>
      var (t1, prev) := MergeAncestors(t, RootTaxonId, res.ancestors);
      match PlaceTaxon(t1, prev, res.taxon, lab.idx)
      case None => Failed(lab)
      case Some(t2) => Done(t2, newId)
  }

  /** The label loop, in label-file order; the first clash stops it. */
  function Synthesize(store: Store, reg: Registry, responses: Responses, t: Taxonomy,
                      newId: int, labels: seq<Label>): (r: Progress)
    requires Coherent(store) && RootTaxonId in t.nodes
    ensures r.Failed? ==> r.culprit in labels
    ensures r.Done? ==> RootTaxonId in r.tax.nodes
    decreases |labels|
  {
    if |labels| == 0 then Done(t, newId)
    else
      match SynthesizeLabel(store, reg, responses, t, newId, labels[0])
      case Failed(l) => Failed(l)
      case Done(t1, id1) => Synthesize(store, reg, responses, t1, id1, labels[1..])
  }

  /** `compute_taxonomic_tree`, started from the tree holding only the root. */
  function ComputeTaxonomicTree(loaded: bool, store: Store, reg: Registry, responses: Responses,
                                labels: seq<Label>): (r: TreeOutcome)
    requires loaded ==> Coherent(store)
    ensures !loaded <==> r.LabelsOnly?
    ensures r.Inconsistent? ==> r.culprit in labels
  {
    if !loaded then LabelsOnly
    else
      match Synthesize(store, reg, responses, EmptyTaxonomy, 0, labels)
      case Failed(l) => Inconsistent(l)
      case Done(t, _) => Built(t)
  }

  /** Inserting a fresh childless node below an existing one keeps the tree
      invariant, grows the tree, and adds exactly the new node's leaf-class ids. */
  lemma AddChildKeepsValid(t: Taxonomy, p: int, c: Node)
    requires Valid(t) && p in t.nodes && c.id !in t.nodes && c.children == []
    ensures var r := AddChild(t, p, c);
            && Valid(r) && Grows(t, r)
            && r.order == t.order + [c.id]
            && r.nodes[c.id] == c
            && r.nodes[p].children == t.nodes[p].children + [c.id]
            && AllLeaves(r) == AllLeaves(t) + c.leafClassIds
  {
    var r := AddChild(t, p, c);
    AddChildOrder(t, p, c);
    AddChildNodes(t, p, c);
    AddChildLater(t, p, c);
    AddChildParented(t, p, c);
    AddChildGrows(t, p, c);
    LeavesAlongUnchanged(t.nodes, r.nodes, t.order);
    assert AllLeaves(r) == LeavesAlong(r.nodes, t.order + [c.id]);
  }

  lemma AddChildOrder(t: Taxonomy, p: int, c: Node)
    requires OrderOk(t) && p in t.nodes && c.id !in t.nodes
    ensures OrderOk(AddChild(t, p, c)) && AddChild(t, p, c).order == t.order + [c.id]
  {
  }

  lemma AddChildNodes(t: Taxonomy, p: int, c: Node)
    requires NodesOk(t) && p in t.nodes && c.id !in t.nodes && c.children == []
    ensures NodesOk(AddChild(t, p, c))
  {
    var r := AddChild(t, p, c);
    assert c.id !in t.nodes[p].children;
  }

  lemma AddChildLater(t: Taxonomy, p: int, c: Node)
    requires OrderOk(t) && NodesOk(t) && ChildrenLater(t) && p in t.nodes && c.id !in t.nodes && c.children == []
    ensures ChildrenLater(AddChild(t, p, c))
  {
    var r := AddChild(t, p, c);
    var n := |t.order|;
    assert r.order == t.order + [c.id];
    forall i, j | 0 <= i < |r.order| && 0 <= j < |r.order| && r.order[i] in r.nodes
                  && r.order[j] in r.nodes[r.order[i]].children
      ensures i < j
    {
      if j < n && i < n {
        assert r.order[i] == t.order[i] && r.order[j] == t.order[j];
        assert t.order[j] != c.id;
        assert r.order[j] in t.nodes[t.order[i]].children;
      }
    }
  }

  lemma AddChildParented(t: Taxonomy, p: int, c: Node)
    requires NodesOk(t) && Parented(t) && p in t.nodes && c.id !in t.nodes && c.children == []
    ensures Parented(AddChild(t, p, c))
  {
    var r := AddChild(t, p, c);
    assert forall k :: k in t.nodes ==> c.id !in t.nodes[k].children;
    forall k | k in r.nodes && k != RootTaxonId
      ensures exists q :: q in r.nodes && k in r.nodes[q].children
    {
      if k == c.id {
        assert k in r.nodes[p].children;
      } else {
        var q :| q in t.nodes && k in t.nodes[q].children;
        assert k in r.nodes[q].children;
      }
    }
    AddChildUniqueParent(t, p, c);
  }

  lemma AddChildUniqueParent(t: Taxonomy, p: int, c: Node)
    requires NodesOk(t) && Parented(t) && p in t.nodes && c.id !in t.nodes && c.children == []
    ensures var r := AddChild(t, p, c);
            forall a, b, k :: a in r.nodes && b in r.nodes && k in r.nodes[a].children && k in r.nodes[b].children ==> a == b
  {
    var r := AddChild(t, p, c);
    forall a, b, k | a in r.nodes && b in r.nodes && k in r.nodes[a].children && k in r.nodes[b].children
      ensures a == b
    {
      assert a != c.id && b != c.id;
      if k != c.id {
        assert k in t.nodes[a].children && k in t.nodes[b].children;
      }
    }
  }

  lemma AddChildGrows(t: Taxonomy, p: int, c: Node)
    requires p in t.nodes && c.id !in t.nodes
    ensures Grows(t, AddChild(t, p, c))
  {
  }

  /** Appending a leaf-class id keeps the tree invariant and adds exactly that id. */
  lemma AppendLeafKeepsValid(t: Taxonomy, k: int, x: int)
    requires Valid(t) && k in t.nodes
    ensures var r := AppendLeaf(t, k, x);
            && Valid(r) && Grows(t, r)
            && multiset(AllLeaves(r)) == multiset(AllLeaves(t)) + multiset{x}
  {
    var r := AppendLeaf(t, k, x);
    AppendLeafShape(t, k, x);
    SameShapeKeepsValid(t, r);
    AppendLeafGrows(t, k, x);
    LeavesAlongAddLeaf(t.nodes, r.nodes, t.order, k, x);
  }

  lemma AppendLeafShape(t: Taxonomy, k: int, x: int)
    requires k in t.nodes
    ensures var r := AppendLeaf(t, k, x);
            forall j :: j in t.nodes ==>
              && r.nodes[j].id == t.nodes[j].id && r.nodes[j].children == t.nodes[j].children
              && r.nodes[j].name == t.nodes[j].name && r.nodes[j].rankLevel == t.nodes[j].rankLevel
  {
  }

  lemma AppendLeafGrows(t: Taxonomy, k: int, x: int)
    requires k in t.nodes
    ensures Grows(t, AppendLeaf(t, k, x))
  {
    var r := AppendLeaf(t, k, x);
    forall j | j in t.nodes
      ensures t.nodes[j].leafClassIds <= r.nodes[j].leafClassIds
    {
    }
  }

  /** New nodes have non-negative ids, so the pseudo-kingdom bookkeeping holds on. */
  lemma PseudoBelowKept(t: Taxonomy, t': Taxonomy, newId: int)
    requires PseudoBelow(t, newId) && Grows(t, t')
    requires forall k :: k in t'.nodes && k < 0 ==> k in t.nodes
    ensures PseudoBelow(t', newId)
  {
  }

  /** A pseudo-kingdom with the next id extends the pseudo-kingdoms by one. */
  lemma PseudoBelowAdd(t: Taxonomy, newId: int, p: int, c: Node)
    requires PseudoBelow(t, newId) && p in t.nodes
    requires c.id == newId - 1 && c.rankLevel == KingdomRankLevel
    ensures PseudoBelow(AddChild(t, p, c), newId - 1)
  {
    var r := AddChild(t, p, c);
    assert c.id !in t.nodes;
    forall k | k in r.nodes && k < 0
      ensures newId - 1 <= k && r.nodes[k].rankLevel == KingdomRankLevel
    {
      if k != c.id {
        assert k in t.nodes;
      }
    }
  }

  /** Merging the ancestors keeps the tree invariant, grows the tree, adds no
      leaf-class id and no negative id. */
  lemma {:induction false} MergeKeepsValid(t: Taxonomy, prev: int, ancestors: seq<RefTaxon>)
    requires Valid(t) && prev in t.nodes
    requires forall i :: 0 <= i < |ancestors| ==> 0 <= ancestors[i].id
    ensures var r := MergeAncestors(t, prev, ancestors).0;
            && Valid(r) && Grows(t, r) && AllLeaves(r) == AllLeaves(t)
            && (forall k :: k in r.nodes && k < 0 ==> k in t.nodes)
    decreases |ancestors|
  {
    if 0 < |ancestors| {
      var a := ancestors[0];
      var rest := ancestors[1..];
      assert forall i :: 0 <= i < |rest| ==> 0 <= rest[i].id by {
        forall i | 0 <= i < |rest| ensures 0 <= rest[i].id { assert rest[i] == ancestors[i + 1]; }
      }
      if a.id in t.nodes {
        MergeKeepsValid(t, a.id, rest);
        assert MergeAncestors(t, prev, ancestors) == MergeAncestors(t, a.id, rest);
      } else {
        var c := NewNode(a.id, a.name, a.rankLevel);
        var t1 := AddChild(t, prev, c);
        AddChildKeepsValid(t, prev, c);
        assert AllLeaves(t1) == AllLeaves(t) + [];
        MergeKeepsValid(t1, a.id, rest);
        var r := MergeAncestors(t1, a.id, rest).0;
        assert MergeAncestors(t, prev, ancestors).0 == r;
        MergeChain(t, t1, r);
      }
    }
  }

  /** Every node the merge loop inserts copies the id, name and level of one
      of the ancestors, and every node already there keeps its name and level. */
  lemma {:induction false} MergeCopiesAncestors(t: Taxonomy, prev: int, ancestors: seq<RefTaxon>)
    requires prev in t.nodes
    ensures var r := MergeAncestors(t, prev, ancestors).0;
            && (forall k :: k in t.nodes ==>
                  r.nodes[k].name == t.nodes[k].name && r.nodes[k].rankLevel == t.nodes[k].rankLevel)
            && (forall k :: k in r.nodes && k !in t.nodes ==>
                  exists i :: && 0 <= i < |ancestors| && ancestors[i].id == k
                              && r.nodes[k].name == ancestors[i].name
                              && r.nodes[k].rankLevel == ancestors[i].rankLevel)
    decreases |ancestors|
  {
    if 0 < |ancestors| {
      var a := ancestors[0];
      var rest := ancestors[1..];
      var t1 := if a.id in t.nodes then t else AddChild(t, prev, NewNode(a.id, a.name, a.rankLevel));
      var r := MergeAncestors(t1, a.id, rest).0;
      assert MergeAncestors(t, prev, ancestors).0 == r;
      MergeCopiesAncestors(t1, a.id, rest);
      forall k | k in r.nodes && k !in t.nodes
        ensures exists i :: && 0 <= i < |ancestors| && ancestors[i].id == k
                            && r.nodes[k].name == ancestors[i].name
                            && r.nodes[k].rankLevel == ancestors[i].rankLevel
      {
        if k in t1.nodes {
          assert ancestors[0].id == k;
        } else {
          var i :| && 0 <= i < |rest| && rest[i].id == k
                   && r.nodes[k].name == rest[i].name && r.nodes[k].rankLevel == rest[i].rankLevel;
          assert ancestors[i + 1] == rest[i];
        }
      }
    }
  }

  /** Two growth steps that add no negative id make one such step. */
  lemma MergeChain(t: Taxonomy, t1: Taxonomy, t2: Taxonomy)
    requires Grows(t, t1) && Grows(t1, t2)
    requires forall k :: k in t1.nodes && k < 0 ==> k in t.nodes
    requires forall k :: k in t2.nodes && k < 0 ==> k in t1.nodes
    ensures Grows(t, t2) && forall k :: k in t2.nodes && k < 0 ==> k in t.nodes
  {
    GrowsTransitive(t, t1, t2);
  }

  /** Inserting a fresh childless node and appending an index to it keeps
      the tree invariant, grows the tree and adds the index once. */
  lemma AddLeafNodeKeepsValid(t: Taxonomy, p: int, c: Node, idx: int)
    requires Valid(t) && p in t.nodes && c.id !in t.nodes && c.children == [] && c.leafClassIds == []
    ensures var r := AppendLeaf(AddChild(t, p, c), c.id, idx);
            && Valid(r) && Grows(t, r)
            && multiset(AllLeaves(r)) == multiset(AllLeaves(t)) + multiset{idx}
            && r.nodes.Keys == t.nodes.Keys + {c.id}
  {
    var t1 := AddChild(t, p, c);
    AddChildKeepsValid(t, p, c);
    assert AllLeaves(t1) == AllLeaves(t) + [];
    AppendLeafKeepsValid(t1, c.id, idx);
    GrowsTransitive(t, t1, AppendLeaf(t1, c.id, idx));
  }

  /** Placing the label's taxon keeps the tree invariant, grows the tree and
      adds the label's index once. */
  lemma PlaceKeepsValid(t: Taxonomy, prev: int, taxon: RefTaxon, idx: int)
    requires Valid(t) && prev in t.nodes && 0 <= taxon.id
    requires PlaceTaxon(t, prev, taxon, idx).Some?
    ensures var r := PlaceTaxon(t, prev, taxon, idx).value;
            && Valid(r) && Grows(t, r)
            && multiset(AllLeaves(r)) == multiset(AllLeaves(t)) + multiset{idx}
            && (forall k :: k in r.nodes && k < 0 ==> k in t.nodes)
  {
    if taxon.id in t.nodes {
      AppendLeafKeepsValid(t, taxon.id, idx);
    } else {
      AddLeafNodeKeepsValid(t, prev, NewNode(taxon.id, taxon.name, taxon.rankLevel), idx);
    }
  }

  /** The node the computed tree hangs reference taxon `k` below: the root
      from the kingdom level up (the first ancestor `get_ancestors` returns),
      else its parent in the reference taxonomy. */
  function TreeParent(store: Store, k: int): int
    requires k in store.byId
  {
    var x := store.byId[k];
    if x.rankLevel >= KingdomRankLevel || x.parent.None? then RootTaxonId else x.parent.value
  }

  /** The edges of the computed tree: the root is present; every other
      reference taxon in it carries its reference name and level and is a
      child of its tree parent; every pseudo-kingdom is a child of the root
      holding a single index. */
  ghost predicate Attached(store: Store, t: Taxonomy)
  {
    && RootTaxonId in t.nodes
    && (forall k :: k in t.nodes && 0 <= k && k != RootTaxonId ==>
          && k in store.byId
          && t.nodes[k].name == store.byId[k].name
          && t.nodes[k].rankLevel == store.byId[k].rankLevel
          && TreeParent(store, k) in t.nodes
          && k in t.nodes[TreeParent(store, k)].children)
    && (forall k :: k in t.nodes && k < 0 ==>
          k in t.nodes[RootTaxonId].children && |t.nodes[k].leafClassIds| == 1)
  }

  lemma EmptyAttached(store: Store)
    ensures Attached(store, EmptyTaxonomy)
  {
  }

  /** The ancestors handed to the merge loop, starting below `prev`: each is
      a non-negative reference taxon whose tree parent is the one before it. */
  ghost predicate ChainFrom(store: Store, prev: int, ancestors: seq<RefTaxon>)
  {
    forall i :: 0 <= i < |ancestors| ==>
      && 0 <= ancestors[i].id && ancestors[i].id in store.byId && store.byId[ancestors[i].id] == ancestors[i]
      && (ancestors[i].id != RootTaxonId ==> TreeParent(store, ancestors[i].id) == Before(prev, ancestors, i))
  }

  /** The node ancestor `i` is merged below: `prev` for the first, else the
      ancestor before it. */
  function Before(prev: int, ancestors: seq<RefTaxon>, i: nat): int
    requires i <= |ancestors|
  {
    if i == 0 then prev else ancestors[i - 1].id
  }

  lemma ChainRest(store: Store, prev: int, ancestors: seq<RefTaxon>)
    requires 0 < |ancestors| && ChainFrom(store, prev, ancestors)
    ensures ChainFrom(store, ancestors[0].id, ancestors[1..])
  {
    var rest := ancestors[1..];
    forall i | 0 <= i < |rest|
      ensures 0 <= rest[i].id && rest[i].id in store.byId && store.byId[rest[i].id] == rest[i]
      ensures rest[i].id != RootTaxonId ==>
                TreeParent(store, rest[i].id) == Before(ancestors[0].id, rest, i)
    {
      assert rest[i] == ancestors[i + 1];
      if i > 0 {
        assert rest[i - 1] == ancestors[i];
      }
    }
  }

  function RefIds(taxa: seq<RefTaxon>): (ids: seq<int>)
    ensures |ids| == |taxa| && forall i :: 0 <= i < |taxa| ==> ids[i] == taxa[i].id
  {
    seq(|taxa|, i requires 0 <= i < |taxa| => taxa[i].id)
  }

  /** What `lookup_id` resolves a label to hangs where the merge loop puts
      it: its ancestors form a chain below the root, and the taxon itself
      hangs below the last of them (the root when there is none). */
  lemma ResolvedChain(store: Store, taxon: RefTaxon)
    requires Coherent(store) && NonNegativeIds(store)
    requires taxon.id in store.byId && store.byId[taxon.id] == taxon
    ensures var a := AncestorsAbove(store.byId, taxon);
            && ChainFrom(store, RootTaxonId, a)
            && (taxon.id != RootTaxonId ==> TreeParent(store, taxon.id) == PathParent(RefIds(a), |a|))
  {
    var a := AncestorsAbove(store.byId, taxon);
    if taxon.rankLevel < KingdomRankLevel {
      assert taxon.parent == Some(a[|a| - 1].id);
      assert PathParent(RefIds(a), |a|) == a[|a| - 1].id;
    }
    forall i | 0 <= i < |a|
      ensures 0 <= a[i].id && a[i].id in store.byId && store.byId[a[i].id] == a[i]
      ensures a[i].id != RootTaxonId ==>
                TreeParent(store, a[i].id) == Before(RootTaxonId, a, i)
    {
      if i > 0 {
        assert a[i].parent == Some(a[i - 1].id);
      }
    }
  }

  /** Inserting a node where the computed tree hangs it keeps the edges. */
  lemma AddChildAttached(store: Store, t: Taxonomy, p: int, c: Node)
    requires Attached(store, t) && p in t.nodes && c.id !in t.nodes
    requires 0 <= c.id ==> && c.id in store.byId && TreeParent(store, c.id) == p
                           && c.name == store.byId[c.id].name && c.rankLevel == store.byId[c.id].rankLevel
    requires c.id < 0 ==> p == RootTaxonId && |c.leafClassIds| == 1
    ensures Attached(store, AddChild(t, p, c))
  {
    var r := AddChild(t, p, c);
    forall k | k in r.nodes && 0 <= k && k != RootTaxonId
      ensures k in store.byId && TreeParent(store, k) in r.nodes
      ensures r.nodes[k].name == store.byId[k].name && r.nodes[k].rankLevel == store.byId[k].rankLevel
      ensures k in r.nodes[TreeParent(store, k)].children
    {
      if k != c.id {
        var q := TreeParent(store, k);
        assert q != c.id && k in t.nodes[q].children;
      }
    }
    forall k | k in r.nodes && k < 0
      ensures k in r.nodes[RootTaxonId].children && |r.nodes[k].leafClassIds| == 1
    {
      if k != c.id {
        assert k in t.nodes[RootTaxonId].children;
      }
    }
  }

  lemma AppendLeafAttached(store: Store, t: Taxonomy, k: int, x: int)
    requires Attached(store, t) && k in t.nodes && 0 <= k
    ensures Attached(store, AppendLeaf(t, k, x))
  {
    AppendLeafShape(t, k, x);
  }

  /** The merge loop keeps the edges when handed a chain. */
  lemma {:induction false} MergeAttached(store: Store, t: Taxonomy, prev: int, ancestors: seq<RefTaxon>)
    requires Attached(store, t) && prev in t.nodes && ChainFrom(store, prev, ancestors)
    ensures Attached(store, MergeAncestors(t, prev, ancestors).0)
    decreases |ancestors|
  {
    if 0 < |ancestors| {
      var a := ancestors[0];
      ChainRest(store, prev, ancestors);
      if a.id in t.nodes {
        MergeAttached(store, t, a.id, ancestors[1..]);
      } else {
        var c := NewNode(a.id, a.name, a.rankLevel);
        assert c.id == a.id != RootTaxonId;
        assert TreeParent(store, a.id) == prev;
        AddChildAttached(store, t, prev, c);
        MergeAttached(store, AddChild(t, prev, c), a.id, ancestors[1..]);
      }
    }
  }

  /** Placing the label's taxon below its tree parent keeps the edges. */
  lemma PlaceAttached(store: Store, t: Taxonomy, prev: int, taxon: RefTaxon, idx: int)
    requires Attached(store, t) && prev in t.nodes && 0 <= taxon.id && taxon.id in store.byId
    requires store.byId[taxon.id] == taxon
    requires taxon.id != RootTaxonId ==> TreeParent(store, taxon.id) == prev
    requires PlaceTaxon(t, prev, taxon, idx).Some?
    ensures Attached(store, PlaceTaxon(t, prev, taxon, idx).value)
  {
    if taxon.id in t.nodes {
      AppendLeafAttached(store, t, taxon.id, idx);
    } else {
      var c := NewNode(taxon.id, taxon.name, taxon.rankLevel);
      AddChildAttached(store, t, prev, c);
      AppendLeafAttached(store, AddChild(t, prev, c), taxon.id, idx);
    }
  }

  /** One label keeps the edges. */
  lemma SynthesizeLabelAttached(store: Store, reg: Registry, responses: Responses, t: Taxonomy,
                                newId: int, lab: Label)
    requires Coherent(store) && NonNegativeIds(store) && Attached(store, t) && PseudoBelow(t, newId)
    ensures var r := SynthesizeLabel(store, reg, responses, t, newId, lab);
            r.Done? ==> Attached(store, r.tax)
  {
    match Resolve(store, reg, lab.name, DefaultDesiredRanks, responses(lab.name))
    case None =>
      AddChildAttached(store, t, RootTaxonId, PseudoKingdom(newId - 1, lab));
    case Some(res) =>
      var (t1, prev) := MergeAncestors(t, RootTaxonId, res.ancestors);
      ResolvedChain(store, res.taxon);
      MergeAttached(store, t, RootTaxonId, res.ancestors);
      if PlaceTaxon(t1, prev, res.taxon, lab.idx).Some? {
        PlaceAttached(store, t1, prev, res.taxon, lab.idx);
      }
  }

  /** The label loop keeps the edges. */
  lemma {:induction false} SynthesizeKeepsAttached(store: Store, reg: Registry, responses: Responses, t: Taxonomy,
                                                    newId: int, labels: seq<Label>)
    requires Coherent(store) && NonNegativeIds(store) && Valid(t) && PseudoBelow(t, newId) && Attached(store, t)
    ensures var r := Synthesize(store, reg, responses, t, newId, labels);
            r.Done? ==> Attached(store, r.tax)
    decreases |labels|
  {
    if 0 < |labels| {
      var step := SynthesizeLabel(store, reg, responses, t, newId, labels[0]);
      SynthesizeLabelKeepsValid(store, reg, responses, t, newId, labels[0]);
      SynthesizeLabelAttached(store, reg, responses, t, newId, labels[0]);
      if step.Done? {
        SynthesizeKeepsAttached(store, reg, responses, step.tax, step.newId, labels[1..]);
      }
    }
  }

  /** With the edges in place, a merged chain hangs along its ids. */
  lemma AttachedHangs(store: Store, t: Taxonomy, ancestors: seq<RefTaxon>, taxon: RefTaxon)
    requires Attached(store, t) && ChainFrom(store, RootTaxonId, ancestors)
    requires 0 <= taxon.id && taxon.id in store.byId && taxon.id in t.nodes
    requires taxon.id != RootTaxonId ==> TreeParent(store, taxon.id) == PathParent(RefIds(ancestors), |ancestors|)
    requires forall i :: 0 <= i < |ancestors| ==> ancestors[i].id in t.nodes
    ensures HangsAlong(t, RefIds(ancestors) + [taxon.id])
  {
    var ids := RefIds(ancestors) + [taxon.id];
    forall i | 0 <= i < |ids| && ids[i] != RootTaxonId
      ensures PathParent(ids, i) in t.nodes && ids[i] in t.nodes[PathParent(ids, i)].children
    {
      if i < |ancestors| {
        assert ids[i] == ancestors[i].id;
        if i > 0 {
          assert ids[i - 1] == ancestors[i - 1].id;
        }
        assert TreeParent(store, ids[i]) == PathParent(ids, i);
      } else {
        assert ids[i] == taxon.id;
        assert PathParent(ids, i) == PathParent(RefIds(ancestors), |ancestors|);
      }
    }
  }

  lemma HangsGrows(t: Taxonomy, t': Taxonomy, ids: seq<int>)
    requires HangsAlong(t, ids) && Grows(t, t')
    ensures HangsAlong(t', ids)
  {
    forall i | 0 <= i < |ids| && ids[i] != RootTaxonId
      ensures PathParent(ids, i) in t'.nodes && ids[i] in t'.nodes[PathParent(ids, i)].children
    {
      var q := PathParent(ids, i);
      PrefixMember(t.nodes[q].children, t'.nodes[q].children, ids[i]);
    }
  }

  /** Where a label ends up: at the node of its resolved taxon, which
      carries the taxon's name and level and hangs along
      its reference ancestors from the root down, or at a pseudo-kingdom of
      its own name below the root holding just its index. */
  ghost predicate Placed(store: Store, reg: Registry, responses: Responses, t: Taxonomy, lab: Label)
    requires Coherent(store)
  {
    match Resolve(store, reg, lab.name, DefaultDesiredRanks, responses(lab.name))
    case Some(res) =>
      && res.taxon.id in t.nodes && lab.idx in t.nodes[res.taxon.id].leafClassIds
      && t.nodes[res.taxon.id].name == res.taxon.name && t.nodes[res.taxon.id].rankLevel == res.taxon.rankLevel
      && (forall i :: 0 <= i < |res.ancestors| ==> res.ancestors[i].id in t.nodes)
      && HangsAlong(t, RefIds(res.ancestors) + [res.taxon.id])
    case None =>
      && RootTaxonId in t.nodes
      && exists k :: && k in t.nodes && k < 0 && k in t.nodes[RootTaxonId].children
                     && t.nodes[k].name == lab.name && t.nodes[k].leafClassIds == [lab.idx]
  }

  /** Every label of `labels` is placed in `t`. */
  ghost predicate AllPlaced(store: Store, reg: Registry, responses: Responses, t: Taxonomy, labels: seq<Label>)
    requires Coherent(store)
  {
    forall i :: 0 <= i < |labels| ==> Placed(store, reg, responses, t, labels[i])
  }

  lemma PrefixMember(a: seq<int>, b: seq<int>, x: int)
    requires a <= b && x in a
    ensures x in b
  {
    var i :| 0 <= i < |a| && a[i] == x;
    assert b[i] == x;
  }

  /** A placed label stays placed as the tree grows, provided no
      pseudo-kingdom gains a second index. */
  lemma PlacedGrows(store: Store, reg: Registry, responses: Responses, t: Taxonomy, t': Taxonomy, lab: Label)
    requires Coherent(store) && Placed(store, reg, responses, t, lab) && Grows(t, t') && Attached(store, t')
    ensures Placed(store, reg, responses, t', lab)
  {
    match Resolve(store, reg, lab.name, DefaultDesiredRanks, responses(lab.name))
    case Some(res) =>
      PrefixMember(t.nodes[res.taxon.id].leafClassIds, t'.nodes[res.taxon.id].leafClassIds, lab.idx);
      HangsGrows(t, t', RefIds(res.ancestors) + [res.taxon.id]);
    case None =>
      var k :| && k in t.nodes && k < 0 && k in t.nodes[RootTaxonId].children
               && t.nodes[k].name == lab.name && t.nodes[k].leafClassIds == [lab.idx];
      PrefixMember(t.nodes[RootTaxonId].children, t'.nodes[RootTaxonId].children, k);
      assert t'.nodes[k].leafClassIds == [lab.idx] by {
        var l' := t'.nodes[k].leafClassIds;
        assert [lab.idx] <= l' && |l'| == 1;
      }
  }

  /** One label keeps the invariants, grows the tree and adds the label's
      index once. */
  lemma SynthesizeLabelKeepsValid(store: Store, reg: Registry, responses: Responses, t: Taxonomy,
                                  newId: int, lab: Label)
    requires Coherent(store) && NonNegativeIds(store) && Valid(t) && PseudoBelow(t, newId)
    ensures var r := SynthesizeLabel(store, reg, responses, t, newId, lab);
            r.Done? ==>
              && Valid(r.tax) && PseudoBelow(r.tax, r.newId) && Grows(t, r.tax)
              && multiset(AllLeaves(r.tax)) == multiset(AllLeaves(t)) + multiset{lab.idx}
  {
    var r := SynthesizeLabel(store, reg, responses, t, newId, lab);
    match Resolve(store, reg, lab.name, DefaultDesiredRanks, responses(lab.name))
    case None =>
      AddChildKeepsValid(t, RootTaxonId, PseudoKingdom(newId - 1, lab));
      PseudoBelowAdd(t, newId, RootTaxonId, PseudoKingdom(newId - 1, lab));
    case Some(res) =>
      var (t1, prev) := MergeAncestors(t, RootTaxonId, res.ancestors);
      MergeKeepsValid(t, RootTaxonId, res.ancestors);
      PseudoBelowKept(t, t1, newId);
      if PlaceTaxon(t1, prev, res.taxon, lab.idx).Some? {
        var t2 := PlaceTaxon(t1, prev, res.taxon, lab.idx).value;
        PlaceKeepsValid(t1, prev, res.taxon, lab.idx);
        GrowsTransitive(t, t1, t2);
        PseudoBelowKept(t1, t2, newId);
      }
  }

  /** One label is placed by its own step. */
  lemma SynthesizeLabelPlaces(store: Store, reg: Registry, responses: Responses, t: Taxonomy,
                              newId: int, lab: Label)
    requires Coherent(store) && NonNegativeIds(store) && Valid(t) && PseudoBelow(t, newId) && Attached(store, t)
    ensures var r := SynthesizeLabel(store, reg, responses, t, newId, lab);
            r.Done? ==> Placed(store, reg, responses, r.tax, lab)
  {
    var r := SynthesizeLabel(store, reg, responses, t, newId, lab);
    match Resolve(store, reg, lab.name, DefaultDesiredRanks, responses(lab.name))
    case None =>
      var c := PseudoKingdom(newId - 1, lab);
      assert c.id !in t.nodes;
      assert r.tax.nodes[newId - 1] == c;
      assert c.id in r.tax.nodes[RootTaxonId].children;
    case Some(res) =>
      var (t1, prev) := MergeAncestors(t, RootTaxonId, res.ancestors);
      MergeKeepsValid(t, RootTaxonId, res.ancestors);
      if PlaceTaxon(t1, prev, res.taxon, lab.idx).Some? {
        var t2 := PlaceTaxon(t1, prev, res.taxon, lab.idx).value;
        PlaceKeepsValid(t1, prev, res.taxon, lab.idx);
        assert Grows(t1, t2);
        SynthesizeLabelAttached(store, reg, responses, t, newId, lab);
        ResolvedChain(store, res.taxon);
        AttachedHangs(store, t2, res.ancestors, res.taxon);
      }
  }

  function Indices(labels: seq<Label>): (r: seq<int>)
    ensures |r| == |labels| && forall i :: 0 <= i < |labels| ==> r[i] == labels[i].idx
  {
    seq(|labels|, i requires 0 <= i < |labels| => labels[i].idx)
  }

  /** The label loop keeps the invariants, grows the tree and adds every
      label's index exactly once. */
  lemma {:induction false} SynthesizeKeepsValid(store: Store, reg: Registry, responses: Responses, t: Taxonomy,
                                                 newId: int, labels: seq<Label>)
    requires Coherent(store) && NonNegativeIds(store) && Valid(t) && PseudoBelow(t, newId)
    ensures var r := Synthesize(store, reg, responses, t, newId, labels);
            r.Done? ==>
              && Valid(r.tax) && PseudoBelow(r.tax, r.newId) && Grows(t, r.tax)
              && multiset(AllLeaves(r.tax)) == multiset(AllLeaves(t)) + multiset(Indices(labels))
    decreases |labels|
  {
    if 0 < |labels| {
      var lab := labels[0];
      var step := SynthesizeLabel(store, reg, responses, t, newId, lab);
      SynthesizeLabelKeepsValid(store, reg, responses, t, newId, lab);
      if step.Done? {
        var rest := labels[1..];
        SynthesizeKeepsValid(store, reg, responses, step.tax, step.newId, rest);
        var r := Synthesize(store, reg, responses, step.tax, step.newId, rest);
        assert Synthesize(store, reg, responses, t, newId, labels) == r;
        if r.Done? {
          ChainStep(t, step.tax, r.tax, labels);
        }
      }
    }
  }

  /** One label's growth followed by the rest's is the growth by all labels. */
  lemma ChainStep(t: Taxonomy, t1: Taxonomy, t2: Taxonomy, labels: seq<Label>)
    requires 0 < |labels|
    requires Grows(t, t1) && multiset(AllLeaves(t1)) == multiset(AllLeaves(t)) + multiset{labels[0].idx}
    requires Grows(t1, t2) && multiset(AllLeaves(t2)) == multiset(AllLeaves(t1)) + multiset(Indices(labels[1..]))
    ensures Grows(t, t2) && multiset(AllLeaves(t2)) == multiset(AllLeaves(t)) + multiset(Indices(labels))
  {
    GrowsTransitive(t, t1, t2);
    IndicesCons(labels);
    LeavesStep(AllLeaves(t), AllLeaves(t1), AllLeaves(t2), labels[0].idx, Indices(labels[1..]));
  }

  lemma IndicesCons(labels: seq<Label>)
    requires 0 < |labels|
    ensures Indices(labels) == [labels[0].idx] + Indices(labels[1..])
  {
  }

  lemma LeavesStep(a: seq<int>, b: seq<int>, c: seq<int>, x: int, rest: seq<int>)
    requires multiset(b) == multiset(a) + multiset{x}
    requires multiset(c) == multiset(b) + multiset(rest)
    ensures multiset(c) == multiset(a) + multiset([x] + rest)
  {
  }

  lemma PlacedCons(store: Store, reg: Registry, responses: Responses, t: Taxonomy, labels: seq<Label>)
    requires Coherent(store) && 0 < |labels| && Placed(store, reg, responses, t, labels[0])
    requires forall i :: 0 <= i < |labels[1..]| ==> Placed(store, reg, responses, t, labels[1..][i])
    ensures forall i :: 0 <= i < |labels| ==> Placed(store, reg, responses, t, labels[i])
  {
    ConsAll(l => Placed(store, reg, responses, t, l), labels);
  }

  /** A property of the head and of every element of the tail holds of every
      element. */
  lemma ConsAll(P: Label -> bool, labels: seq<Label>)
    requires 0 < |labels| && P(labels[0]) && forall i :: 0 <= i < |labels[1..]| ==> P(labels[1..][i])
    ensures forall i :: 0 <= i < |labels| ==> P(labels[i])
  {
    forall i | 0 < i < |labels|
      ensures P(labels[i])
    {
      assert labels[i] == labels[1..][i - 1];
    }
  }

  lemma PlacedStep(store: Store, reg: Registry, responses: Responses, t1: Taxonomy, t2: Taxonomy, labels: seq<Label>)
    requires Coherent(store) && 0 < |labels| && Grows(t1, t2) && Attached(store, t2)
    requires Placed(store, reg, responses, t1, labels[0])
    requires AllPlaced(store, reg, responses, t2, labels[1..])
    ensures AllPlaced(store, reg, responses, t2, labels)
  {
    PlacedGrows(store, reg, responses, t1, t2, labels[0]);
    PlacedCons(store, reg, responses, t2, labels);
  }

  /** Every label of a finished loop is placed. */
  lemma {:induction false} SynthesizePlacesLabels(store: Store, reg: Registry, responses: Responses, t: Taxonomy,
                                                  newId: int, labels: seq<Label>)
    requires Coherent(store) && NonNegativeIds(store) && Valid(t) && PseudoBelow(t, newId) && Attached(store, t)
    ensures var r := Synthesize(store, reg, responses, t, newId, labels);
            r.Done? ==> AllPlaced(store, reg, responses, r.tax, labels)
    decreases |labels|
  {
    if 0 < |labels| {
      var lab := labels[0];
      var step := SynthesizeLabel(store, reg, responses, t, newId, lab);
      SynthesizeLabelKeepsValid(store, reg, responses, t, newId, lab);
      SynthesizeLabelAttached(store, reg, responses, t, newId, lab);
      if step.Done? {
        SynthesizeLabelPlaces(store, reg, responses, t, newId, lab);
        var rest := labels[1..];
        SynthesizePlacesLabels(store, reg, responses, step.tax, step.newId, rest);
        SynthesizeKeepsValid(store, reg, responses, step.tax, step.newId, rest);
        SynthesizeKeepsAttached(store, reg, responses, step.tax, step.newId, rest);
        var r := Synthesize(store, reg, responses, step.tax, step.newId, rest);
        assert Synthesize(store, reg, responses, t, newId, labels) == r;
        if r.Done? {
          PlacedStep(store, reg, responses, step.tax, r.tax, labels);
        }
      }
    }
  }

  /** The tree computed from a label file satisfies the tree invariant, holds
      every label's index exactly once over all its nodes, places every label,
      and gives every pseudo-kingdom the kingdom level (what `get_rank`
      asserts, so `prediction` never fails on it). */
  lemma ComputedTreeIsValid(store: Store, reg: Registry, responses: Responses, labels: seq<Label>)
    requires Coherent(store) && NonNegativeIds(store)
    ensures var r := ComputeTaxonomicTree(true, store, reg, responses, labels);
            r.Built? ==>
              && Valid(r.tax)
              && multiset(AllLeaves(r.tax)) == multiset(Indices(labels))
              && (forall i :: 0 <= i < |labels| ==> Placed(store, reg, responses, r.tax, labels[i]))
              && (forall k :: k in r.tax.nodes && k < 0 ==> r.tax.nodes[k].rankLevel == KingdomRankLevel)
              && PseudoKingdomsRanked(r.tax)
  {
    EmptyTaxonomyIsValid();
    EmptyAttached(store);
    assert EmptyTaxonomy.order[..0] == [];
    assert AllLeaves(EmptyTaxonomy) == LeavesAlong(EmptyTaxonomy.nodes, []) + RootNode.leafClassIds;
    SynthesizeKeepsValid(store, reg, responses, EmptyTaxonomy, 0, labels);
    SynthesizePlacesLabels(store, reg, responses, EmptyTaxonomy, 0, labels);
  }

  /** Every edge of the computed tree is one the reference taxonomy implies:
      reference taxa hang below their tree parent, pseudo-kingdoms below the
      root. The pseudo-kingdoms' ids are -1, -2, ... without a gap. */
  lemma ComputedTreeIsAttached(store: Store, reg: Registry, responses: Responses, labels: seq<Label>)
    requires Coherent(store) && NonNegativeIds(store)
    ensures var r := ComputeTaxonomicTree(true, store, reg, responses, labels);
            r.Built? ==>
              && Attached(store, r.tax)
              && exists last :: PseudoBelow(r.tax, last)
  {
    EmptyTaxonomyIsValid();
    EmptyAttached(store);
    SynthesizeKeepsAttached(store, reg, responses, EmptyTaxonomy, 0, labels);
    SynthesizeKeepsValid(store, reg, responses, EmptyTaxonomy, 0, labels);
  }
}
