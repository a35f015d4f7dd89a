/** The taxonomy file of nature_id.py (`write_row`, `write_taxonomic_tree`,
    `read_taxonomy`): one row per taxon below the root, in pre-order, each
    naming its parent; and the label files that `read_taxonomy` also accepts. */
module TaxonomyFile {
  import opened Wrappers
  import opened Text
  import opened Ranks
  import opened TaxonTree
  import opened Reference
  import opened Resolver
  import opened Synthesis

  /** One CSV row after field splitting. A label-file row carries an `id`
      column; a taxonomy-file row carries the parent id (empty for a child of
      the root), the id, the rank level, the ';'-joined leaf-class ids and the
      scientific name. */
  datatype Row =
    | LabelRow(idField: string, name: string)
    | TaxonRow(parentField: string, idField: string, rankLevel: real, leafField: string, name: string)

  /** A Python dict from score index to label name: the keys in insertion
      order and the current values. */
  datatype LabelMap = LabelMap(keys: seq<int>, names: map<int, string>)

  const NoLabels: LabelMap := LabelMap([], map[])

  /** `idx2label[k] = name`: a new key goes last, an existing one keeps its place. */
  function PutLabel(m: LabelMap, k: int, name: string): (r: LabelMap)
    ensures r.names == m.names[k := name]
    ensures k in m.names ==> r.keys == m.keys
    ensures k !in m.names ==> r.keys == m.keys + [k]
  {
    LabelMap(if k in m.names then m.keys else m.keys + [k], m.names[k := name])
  }

  /** Every key is listed once, and exactly the keys are listed. */
  ghost predicate LabelMapOk(m: LabelMap)
  {
    && Distinct(m.keys)
    && (forall i :: 0 <= i < |m.keys| ==> m.keys[i] in m.names)
    && (forall k :: k in m.names ==> k in m.keys)
  }

  lemma PutLabelOk(m: LabelMap, k: int, name: string)
    requires LabelMapOk(m)
    ensures LabelMapOk(PutLabel(m, k, name))
  {
  }

  /** What `read_taxonomy` has built so far. */
  datatype Loaded = Loaded(tax: Taxonomy, labels: LabelMap)

  const Unread: Loaded := Loaded(EmptyTaxonomy, NoLabels)

  /** The level a parent gets when its own row has not been read yet (the
      source leaves it `None`; its row later overwrites it). */
  const PlaceholderLevel: real := 0.0

  /** The parent column written for the children of `n`. */
  function ParentField(n: int): (f: string)
    ensures (f == "") <==> n == RootTaxonId
  {
    if n == RootTaxonId then "" else IntToString(n)
  }

  /** `';'.join([str(id) for id in leaf_class_ids])`. */
  function LeafField(ids: seq<int>): string
  {
    if |ids| == 0 then "" else Join(IntStrings(ids), ';')
  }

  /** `int()` of every part, or `None` at the first that is not an integer. */
  function ParseAll(parts: seq<string>): (r: Option<seq<int>>)
    ensures r.Some? <==> forall i :: 0 <= i < |parts| ==> ParseInt(parts[i]).Some?
    ensures r.Some? ==> |r.value| == |parts| && forall i :: 0 <= i < |parts| ==> ParseInt(parts[i]) == Some(r.value[i])
  {
    if |parts| == 0 then Some([])
    else
      match ParseInt(parts[0])
      case None => None
      case Some(v) =>
        match ParseAll(parts[1..])
        case None => None
        case Some(vs) => Some([v] + vs)
  }

  /** The leaf-class column: empty for none, else ';'-separated integers. */
  function ParseLeaves(field: string): Option<seq<int>>
  {
    if |field| == 0 then Some([]) else ParseAll(Split(field, ';'))
  }

  /** The leaf-class column reads back as the ids it was written from. */
  lemma LeafFieldRoundTrip(ids: seq<int>)
    ensures ParseLeaves(LeafField(ids)) == Some(ids)
  {
    if |ids| > 0 {
      var parts := IntStrings(ids);
      forall k | 0 <= k < |parts|
        ensures ';' !in parts[k]
      {
        IntToStringHasNoSeparator(ids[k], ';');
      }
      SplitJoin(parts, ';');
      assert |LeafField(ids)| > 0 by {
        JoinStartsWithFirst(parts, ';');
      }
      ParseIntStrings(ids);
    }
  }

  /** Every id written with `str` is read back by `int`, in order. */
  lemma ParseIntStrings(ids: seq<int>)
    ensures ParseAll(IntStrings(ids)) == Some(ids)
  {
    var parts := IntStrings(ids);
    forall i | 0 <= i < |parts|
      ensures ParseInt(parts[i]) == Some(ids[i])
    {
      ParseIntToString(ids[i]);
    }
    var r := ParseAll(parts);
    assert r.value == ids;
  }

  lemma JoinStartsWithFirst(parts: seq<string>, sep: char)
    requires 0 < |parts| && 0 < |parts[0]|
    ensures 0 < |Join(parts, sep)|
  {
  }

  /** The parent column read back: empty means the root. */
  function ParseParent(field: string): Option<int>
  {
    if |field| == 0 then Some(RootTaxonId) else ParseInt(field)
  }

  lemma ParentFieldRoundTrip(n: int)
    ensures ParseParent(ParentField(n)) == Some(n)
  {
    if n != RootTaxonId {
      ParseIntToString(n);
    }
  }

  /** `idx2label[leaf_class_id] = taxon.name` for each leaf-class id in turn. */
  function PutLabels(m: LabelMap, ids: seq<int>, name: string): (r: LabelMap)
    ensures LabelMapOk(m) ==> LabelMapOk(r)
    ensures forall k :: k in r.names <==> k in m.names || k in ids
    ensures forall k :: k in ids ==> r.names[k] == name
    ensures forall k :: k in m.names && k !in ids ==> r.names[k] == m.names[k]
    decreases |ids|
  {
    if |ids| == 0 then m
    else
      PutLabels(PutLabel(m, ids[0], name), ids[1..], name)
  }

  /** `read_taxonomy` on one row; `None` is the ValueError of a field that is
      not an integer. A taxonomy row (re)defines its taxon, inserting it when
      it is new, appends its leaf-class ids and records their labels, then
      appends it to the children of its parent, inserting a placeholder parent
      when the parent has not been seen yet. */
  function ReadRow(s: Loaded, row: Row): Option<Loaded>
  {
    match row
    case LabelRow(idField, name) =>
      (match ParseInt(idField)
       case None => None
       case Some(k) => Some(s.(labels := PutLabel(s.labels, k, name))))
    case TaxonRow(parentField, idField, rankLevel, leafField, name) =>
      match ParseInt(idField)
      case None => None
      case Some(id) =>
        match ParseLeaves(leafField)
        case None => None
        case Some(leaves) =>
          match ParseParent(parentField)
          case None => None
          case Some(parent) =>
            Some(InsertTaxon(s, parent, id, rankLevel, leaves, name))
  }

  /** The effect of a parsed taxonomy row. */
  function InsertTaxon(s: Loaded, parent: int, id: int, rankLevel: real, leaves: seq<int>, name: string): Loaded
  {
    var nodes := s.tax.nodes;
    var node0 := if id in nodes then nodes[id] else NewNode(id, "", PlaceholderLevel);
    var node1 := node0.(name := name, rankLevel := rankLevel, leafClassIds := node0.leafClassIds + leaves);
    var nodes1 := nodes[id := node1];
    var order1 := if id in nodes then s.tax.order else s.tax.order + [id];
    var pnode := if parent in nodes1 then nodes1[parent] else NewNode(parent, "", PlaceholderLevel);
    var order2 := if parent in nodes1 then order1 else order1 + [parent];
    var nodes2 := nodes1[parent := pnode.(children := pnode.children + [id])];
    Loaded(Taxonomy(nodes2, order2), PutLabels(s.labels, leaves, name))
  }

  /** The rows in file order; the first failure ends the reading. */
  function ReadRows(s: Loaded, rows: seq<Row>): Option<Loaded>
    decreases |rows|
  {
    if |rows| == 0 then Some(s)
    else
      match ReadRow(s, rows[0])
      case None => None
      case Some(s1) => ReadRows(s1, rows[1..])
  }

  /** `read_taxonomy`: starts from the root alone and no labels. */
  function ReadTaxonomy(rows: seq<Row>): Option<Loaded>
  {
    ReadRows(Unread, rows)
  }

  /** `write_row`: the row of `n` below the parent column `parentField`,
      then the rows of its children's subtrees in child order. */
  function WriteRow(t: Taxonomy, n: int, parentField: string): seq<Row>
    requires Valid(t) && n in t.nodes
    decreases |t.order| - Pos(t.order, n), 1, 0
  {
    var node := t.nodes[n];
    [TaxonRow(parentField, IntToString(n), node.rankLevel, LeafField(node.leafClassIds), node.name)]
      + WriteChildren(t, n, 0)
  }

  function WriteChildren(t: Taxonomy, n: int, i: nat): seq<Row>
    requires Valid(t) && n in t.nodes && i <= |t.nodes[n].children|
    decreases |t.order| - Pos(t.order, n), 0, |t.nodes[n].children| - i
  {
    var ch := t.nodes[n].children;
    if i == |ch| then []
    else
      ChildAfterParent(t, n, ch[i]);
      WriteRow(t, ch[i], ParentField(n)) + WriteChildren(t, n, i + 1)
  }

  /** `write_taxonomic_tree`: the subtrees of the root's children, with an
      empty parent column for those children (the header row is left out). */
  function WriteTaxonomy(t: Taxonomy): seq<Row>
    requires Valid(t)
  {
    WriteChildren(t, RootTaxonId, 0)
  }

  /** `ReadRows` over two batches of rows is reading the first, then the second. */
  lemma {:induction false} ReadRowsAppend(s: Loaded, a: seq<Row>, b: seq<Row>)
    ensures ReadRows(s, a + b) == (match ReadRows(s, a) case None => None case Some(s1) => ReadRows(s1, b))
    decreases |a|
  {
    if |a| == 0 {
      assert a + b == b;
    } else {
      assert (a + b)[0] == a[0] && (a + b)[1..] == a[1..] + b;
      match ReadRow(s, a[0])
      case None =>
      case Some(s1) => ReadRowsAppend(s1, a[1..], b);
    }
  }

  /** Reading the row of a new taxon `n` whose parent `q` is already known:
      `n` is inserted last with its name, level and leaf ids and no children,
      and it becomes the last child of `q`. */
  lemma ReadNewTaxonRow(s: Loaded, q: int, n: int, rankLevel: real, leaves: seq<int>, name: string)
    requires n !in s.tax.nodes && q in s.tax.nodes
    ensures ReadRow(s, TaxonRow(ParentField(q), IntToString(n), rankLevel, LeafField(leaves), name))
         == Some(Loaded(Taxonomy(s.tax.nodes[n := Node(n, name, rankLevel, None, [], leaves)]
                                             [q := s.tax.nodes[q].(children := s.tax.nodes[q].children + [n])],
                                 s.tax.order + [n]),
                        PutLabels(s.labels, leaves, name)))
  {
    ParseIntToString(n);
    ParentFieldRoundTrip(q);
    LeafFieldRoundTrip(leaves);
    var r := InsertTaxon(s, q, n, rankLevel, leaves, name);
    InsertNewTaxon(s, q, n, rankLevel, leaves, name);
  }

  lemma InsertNewTaxon(s: Loaded, q: int, n: int, rankLevel: real, leaves: seq<int>, name: string)
    requires n !in s.tax.nodes && q in s.tax.nodes
    ensures InsertTaxon(s, q, n, rankLevel, leaves, name)
         == Loaded(Taxonomy(s.tax.nodes[n := Node(n, name, rankLevel, None, [], leaves)]
                                       [q := s.tax.nodes[q].(children := s.tax.nodes[q].children + [n])],
                            s.tax.order + [n]),
                   PutLabels(s.labels, leaves, name))
  {
    var nodes := s.tax.nodes;
    var node0 := NewNode(n, "", PlaceholderLevel);
    var node1 := node0.(name := name, rankLevel := rankLevel, leafClassIds := node0.leafClassIds + leaves);
    assert node1 == Node(n, name, rankLevel, None, [], leaves);
    var nodes1 := nodes[n := node1];
    assert q in nodes1 && nodes1[q] == nodes[q];
  }

  /** A node as the file keeps it: common names are not written. */
  function Strip(node: Node): Node
  {
    node.(commonName := None)
  }

  function StripAll(nodes: map<int, Node>): map<int, Node>
  {
    map k | k in nodes :: Strip(nodes[k])
  }

  /** `nodes` with the ids `ids` replaced by their stripped nodes in `t`. */
  ghost function Overlay(nodes: map<int, Node>, t: Taxonomy, ids: seq<int>): map<int, Node>
    requires forall y :: y in ids ==> y in t.nodes
  {
    map k | k in nodes.Keys + (set y | y in ids) :: if k in ids then Strip(t.nodes[k]) else nodes[k]
  }

  /** The labels recorded by the rows of the nodes `ids`, in that order. */
  function LabelsAlong(m: LabelMap, nodes: map<int, Node>, ids: seq<int>): LabelMap
    decreases |ids|
  {
    if |ids| == 0 then m
    else
      var m1 := if ids[0] in nodes then PutLabels(m, nodes[ids[0]].leafClassIds, nodes[ids[0]].name) else m;
      LabelsAlong(m1, nodes, ids[1..])
  }

  lemma {:induction false} LabelsAlongAppend(m: LabelMap, nodes: map<int, Node>, a: seq<int>, b: seq<int>)
    ensures LabelsAlong(m, nodes, a + b) == LabelsAlong(LabelsAlong(m, nodes, a), nodes, b)
    decreases |a|
  {
    if |a| == 0 {
      assert a + b == b;
    } else {
      assert (a + b)[0] == a[0] && (a + b)[1..] == a[1..] + b;
      var m1 := if a[0] in nodes then PutLabels(m, nodes[a[0]].leafClassIds, nodes[a[0]].name) else m;
      LabelsAlongAppend(m1, nodes, a[1..], b);
    }
  }

  lemma DistinctSplit(a: seq<int>, b: seq<int>)
    requires Distinct(a + b)
    ensures Distinct(a) && Distinct(b) && forall y :: y in a ==> y !in b
  {
    forall y | y in a
      ensures y !in b
    {
      var i :| 0 <= i < |a| && a[i] == y;
      forall j | 0 <= j < |b|
        ensures b[j] != y
      {
        DistinctApart(a, b, i, j);
      }
    }
    forall i, j | 0 <= i < j < |a|
      ensures a[i] != a[j]
    {
      assert (a + b)[i] == a[i] && (a + b)[j] == a[j];
    }
    forall i, j | 0 <= i < j < |b|
      ensures b[i] != b[j]
    {
      assert (a + b)[|a| + i] == b[i] && (a + b)[|a| + j] == b[j];
    }
  }

  lemma DistinctApart(a: seq<int>, b: seq<int>, i: nat, j: nat)
    requires Distinct(a + b) && i < |a| && j < |b|
    ensures a[i] != b[j]
  {
    assert (a + b)[i] == a[i] && (a + b)[|a| + j] == b[j];
  }

  /** A sequence in which nothing occurs twice has distinct elements. */
  lemma CountsAtMostOneDistinct(xs: seq<int>)
    requires forall x :: multiset(xs)[x] <= 1
    ensures Distinct(xs)
  {
    forall i, j | 0 <= i < j < |xs|
      ensures xs[i] != xs[j]
    {
      RepeatCounted(xs, i, j);
    }
  }

  lemma RepeatCounted(xs: seq<int>, i: nat, j: nat)
    requires i < j < |xs|
    ensures xs[i] == xs[j] ==> multiset(xs)[xs[i]] >= 2
  {
    assert xs == xs[..i] + [xs[i]] + xs[i + 1..j] + [xs[j]] + xs[j + 1..];
  }

  lemma OverlaySubtree(t: Taxonomy, m: map<int, Node>, m1: map<int, Node>, n: int, q: int, rest: seq<int>)
    requires forall y :: y in [n] + rest ==> y in t.nodes
    requires n !in m && q in m && q != n && q !in rest && n !in rest && n in m1
    requires m1 == m[n := m1[n]][q := m[q].(children := m[q].children + [n])]
    ensures Overlay(m1, t, rest)[n := Strip(t.nodes[n])]
         == Overlay(m, t, [n] + rest)[q := m[q].(children := m[q].children + [n])]
  {
  }

  lemma OverlayChildren(t: Taxonomy, m: map<int, Node>, m1: map<int, Node>, n: int, a: seq<int>, b: seq<int>, nn: Node)
    requires forall y :: y in a + b ==> y in t.nodes
    requires n in m && n in t.nodes && n !in a && n !in b
    requires m1 == Overlay(m, t, a)[n := nn]
    ensures Overlay(m1, t, b)[n := Strip(t.nodes[n])] == Overlay(m, t, a + b)[n := Strip(t.nodes[n])]
  {
  }

  lemma SliceGrows(xs: seq<int>, i: nat)
    requires i < |xs|
    ensures xs[..i] + [xs[i]] == xs[..i + 1]
  {
  }

  lemma ConcatAssoc(a: seq<int>, b: seq<int>, c: seq<int>)
    ensures a + b + c == a + (b + c)
  {
  }

  /** Reading the rows `write_row` produces for the subtree at `n` (whose
      parent `q` is known and none of whose ids are) inserts the subtree's ids
      in pre-order, reproduces their nodes without common names, makes `n` the
      last child of `q` and records their labels in pre-order. */
  lemma {:induction false} ReadSubtree(t: Taxonomy, n: int, q: int, s: Loaded)
    requires Valid(t) && n in t.nodes && q in s.tax.nodes
    requires Distinct(Pre(t, n)) && forall y :: y in Pre(t, n) ==> y !in s.tax.nodes
    ensures forall y :: y in Pre(t, n) ==> y in t.nodes
    ensures ReadRows(s, WriteRow(t, n, ParentField(q)))
         == Some(Loaded(Taxonomy(Overlay(s.tax.nodes, t, Pre(t, n))
                                   [q := s.tax.nodes[q].(children := s.tax.nodes[q].children + [n])],
                                 s.tax.order + Pre(t, n)),
                        LabelsAlong(s.labels, t.nodes, Pre(t, n))))
    decreases |t.order| - Pos(t.order, n), 1, 0
  {
    PreBelow(t, n);
    var node := t.nodes[n];
    var row := TaxonRow(ParentField(q), IntToString(n), node.rankLevel, LeafField(node.leafClassIds), node.name);
    ReadNewTaxonRow(s, q, n, node.rankLevel, node.leafClassIds, node.name);
    var m := s.tax.nodes;
    var m1 := m[n := Node(n, node.name, node.rankLevel, None, [], node.leafClassIds)][q := m[q].(children := m[q].children + [n])];
    var s1 := Loaded(Taxonomy(m1, s.tax.order + [n]), PutLabels(s.labels, node.leafClassIds, node.name));
    assert ReadRow(s, row) == Some(s1);
    var rest := PreList(t, n, 0);
    assert Pre(t, n) == [n] + rest;
    DistinctSplit([n], rest);
    assert m1[n] == Strip(node).(children := node.children[..0]);
    ReadChildren(t, n, 0, s1);
    assert WriteRow(t, n, ParentField(q)) == [row] + WriteChildren(t, n, 0);
    ReadRowsAppend(s, [row], WriteChildren(t, n, 0));
    assert ReadRows(s, [row]) == Some(s1) by {
      assert [row][1..] == [];
    }
    assert n !in rest by { assert n in [n]; }
    assert q !in rest by { assert q in m; }
    assert forall y :: y in [n] + rest ==> y in t.nodes;
    OverlaySubtree(t, m, m1, n, q, rest);
    var s2 := Loaded(Taxonomy(Overlay(m1, t, rest)[n := Strip(t.nodes[n])], s.tax.order + [n] + rest),
                     LabelsAlong(s1.labels, t.nodes, rest));
    assert ReadRows(s1, WriteChildren(t, n, 0)) == Some(s2);
    assert ReadRows(s, WriteRow(t, n, ParentField(q))) == Some(s2);
    ConcatAssoc(s.tax.order, [n], rest);
    assert LabelsAlong(s.labels, t.nodes, Pre(t, n)) == s2.labels by {
      assert ([n] + rest)[0] == n && ([n] + rest)[1..] == rest;
    }
  }

  /** Reading the rows of the subtrees of children `i..` of `n`, when `n`
      already has children `..i` and none of those subtrees' ids is known. */
  lemma {:induction false} ReadChildren(t: Taxonomy, n: int, i: nat, s: Loaded)
    requires Valid(t) && n in t.nodes && i <= |t.nodes[n].children|
    requires n in s.tax.nodes && s.tax.nodes[n] == Strip(t.nodes[n]).(children := t.nodes[n].children[..i])
    requires Distinct(PreList(t, n, i)) && forall y :: y in PreList(t, n, i) ==> y !in s.tax.nodes
    ensures forall y :: y in PreList(t, n, i) ==> y in t.nodes
    ensures ReadRows(s, WriteChildren(t, n, i))
         == Some(Loaded(Taxonomy(Overlay(s.tax.nodes, t, PreList(t, n, i))[n := Strip(t.nodes[n])],
                                 s.tax.order + PreList(t, n, i)),
                        LabelsAlong(s.labels, t.nodes, PreList(t, n, i))))
    decreases |t.order| - Pos(t.order, n), 0, |t.nodes[n].children| - i
  {
    PreListBelow(t, n, i);
    var ch := t.nodes[n].children;
    if i == |ch| {
      assert ch[..i] == ch;
      assert Overlay(s.tax.nodes, t, [])[n := Strip(t.nodes[n])] == s.tax.nodes;
      assert s.tax.order + [] == s.tax.order;
    } else {
      var c := ch[i];
      ChildAfterParent(t, n, c);
      var a := Pre(t, c);
      var b := PreList(t, n, i + 1);
      assert PreList(t, n, i) == a + b;
      DistinctSplit(a, b);
      ReadSubtree(t, c, n, s);
      var m := s.tax.nodes;
      var m1 := Overlay(m, t, a)[n := m[n].(children := m[n].children + [c])];
      var s1 := Loaded(Taxonomy(m1, s.tax.order + a), LabelsAlong(s.labels, t.nodes, a));
      SliceGrows(ch, i);
      assert m1[n] == Strip(t.nodes[n]).(children := ch[..i + 1]);
      assert forall y :: y in b ==> y !in m1 by {
        forall y | y in b
          ensures y !in m1
        {
          assert y in a + b;
        }
      }
      assert n in s1.tax.nodes;
      assert s1.tax.nodes[n] == Strip(t.nodes[n]).(children := t.nodes[n].children[..i + 1]);
      assert Distinct(PreList(t, n, i + 1));
      assert forall y :: y in PreList(t, n, i + 1) ==> y !in s1.tax.nodes;
      ReadChildren(t, n, i + 1, s1);
      var s2 := Loaded(Taxonomy(Overlay(m1, t, b)[n := Strip(t.nodes[n])], s.tax.order + a + b),
                       LabelsAlong(s1.labels, t.nodes, b));
      assert ReadRows(s1, WriteChildren(t, n, i + 1)) == Some(s2);
      assert WriteChildren(t, n, i) == WriteRow(t, c, ParentField(n)) + WriteChildren(t, n, i + 1);
      ReadRowsAppend(s, WriteRow(t, c, ParentField(n)), WriteChildren(t, n, i + 1));
      assert ReadRows(s, WriteChildren(t, n, i)) == Some(s2);
      OverlayChildren(t, m, m1, n, a, b, m[n].(children := m[n].children + [c]));
      LabelsAlongAppend(s.labels, t.nodes, a, b);
      ConcatAssoc(s.tax.order, a, b);
    }
  }

  /** `taxonomy_available`: the root has children. */
  function TaxonomyAvailable(t: Taxonomy): bool
  {
    RootTaxonId in t.nodes && 0 < |t.nodes[RootTaxonId].children|
  }

  lemma RootOverlay(t: Taxonomy, rest: seq<int>)
    requires forall y :: y in rest ==> y in t.nodes && y != RootTaxonId
    requires RootTaxonId in t.nodes
    requires forall y :: y in t.nodes ==> y == RootTaxonId || y in rest
    ensures Overlay(map[RootTaxonId := RootNode], t, rest)[RootTaxonId := Strip(t.nodes[RootTaxonId])]
         == StripAll(t.nodes)
  {
    var l := Overlay(map[RootTaxonId := RootNode], t, rest)[RootTaxonId := Strip(t.nodes[RootTaxonId])];
    forall k
      ensures k in l <==> k in t.nodes
    {
      if k in rest { assert k in (set y | y in rest); }
    }
    assert l.Keys == t.nodes.Keys;
    forall k | k in l
      ensures l[k] == Strip(t.nodes[k])
    {
    }
  }

  lemma PreOfRootDistinct(t: Taxonomy)
    requires Valid(t)
    ensures Distinct(Pre(t, RootTaxonId))
  {
    forall x
      ensures multiset(Pre(t, RootTaxonId))[x] <= 1
    {
      SubtreeCountsAtMostOne(t, RootTaxonId, x);
    }
    CountsAtMostOneDistinct(Pre(t, RootTaxonId));
  }

  /** The pre-order of a valid tree is the root followed by every other
      node, each once. */
  lemma RootThenRest(t: Taxonomy)
    requires Valid(t)
    ensures var rest := PreList(t, RootTaxonId, 0);
            && Pre(t, RootTaxonId) == [RootTaxonId] + rest
            && Distinct(rest)
            && (forall y :: y in rest ==> y in t.nodes && y != RootTaxonId)
            && (forall y :: y in t.nodes ==> y == RootTaxonId || y in rest)
  {
    var rest := PreList(t, RootTaxonId, 0);
    assert Pre(t, RootTaxonId) == [RootTaxonId] + rest;
    PreOfRootDistinct(t);
    DistinctSplit([RootTaxonId], rest);
    PreListBelow(t, RootTaxonId, 0);
    PreorderIsPermutation(t);
    forall y | y in t.nodes
      ensures y == RootTaxonId || y in rest
    {
      assert y in multiset(t.order);
      assert y in Pre(t, RootTaxonId);
    }
  }

  /** Writing a tree and reading the file back gives every node again, with
      its name, level, leaf-class ids and children in order but no common
      name; the ids are inserted in pre-order, which lists each id of the tree
      once; and each leaf-class id is labelled as its rows say, in pre-order.
      The root is not written, so it must be the standard "Life" without
      leaf-class ids to come back unchanged. */
  lemma WriteReadRoundTrip(t: Taxonomy)
    requires Valid(t)
    requires var root := t.nodes[RootTaxonId];
             root.name == RootName && root.rankLevel == RootRankLevel && root.leafClassIds == []
    ensures ReadTaxonomy(WriteTaxonomy(t))
         == Some(Loaded(Taxonomy(StripAll(t.nodes), Pre(t, RootTaxonId)),
                        LabelsAlong(NoLabels, t.nodes, Pre(t, RootTaxonId))))
    ensures multiset(Pre(t, RootTaxonId)) == multiset(t.order)
    ensures TaxonomyAvailable(Taxonomy(StripAll(t.nodes), Pre(t, RootTaxonId))) <==> TaxonomyAvailable(t)
  {
    var root := t.nodes[RootTaxonId];
    var rest := PreList(t, RootTaxonId, 0);
    RootThenRest(t);
    PreorderIsPermutation(t);
    assert Unread.tax.nodes[RootTaxonId] == Strip(root).(children := root.children[..0]);
    ReadChildren(t, RootTaxonId, 0, Unread);
    RootOverlay(t, rest);
    assert LabelsAlong(NoLabels, t.nodes, Pre(t, RootTaxonId)) == LabelsAlong(NoLabels, t.nodes, rest) by {
      assert ([RootTaxonId] + rest)[0] == RootTaxonId && ([RootTaxonId] + rest)[1..] == rest;
    }
  }

  /** The labels recorded by the rows of `ids`: the previous ones and the
      leaf-class ids of those nodes, each listed once. */
  lemma {:induction false} LabelsAlongKeys(m: LabelMap, nodes: map<int, Node>, ids: seq<int>)
    requires LabelMapOk(m)
    ensures var r := LabelsAlong(m, nodes, ids);
            LabelMapOk(r) && forall k :: k in r.names <==> k in m.names || k in LeavesAlong(nodes, ids)
    decreases |ids|
  {
    if |ids| > 0 {
      var m1 := if ids[0] in nodes then PutLabels(m, nodes[ids[0]].leafClassIds, nodes[ids[0]].name) else m;
      LabelsAlongKeys(m1, nodes, ids[1..]);
      assert ids == [ids[0]] + ids[1..];
      LeavesAlongAppend(nodes, [ids[0]], ids[1..]);
      assert LeavesAlong(nodes, [ids[0]]) == if ids[0] in nodes then nodes[ids[0]].leafClassIds else [] by {
        assert [ids[0]][..0] == [];
      }
    }
  }

  /** The labels of a label file in the order their ids first appear. */
  function LabelList(m: LabelMap): (r: seq<Label>)
    requires LabelMapOk(m)
    ensures |r| == |m.keys|
    ensures forall i :: 0 <= i < |r| ==> r[i] == Label(m.keys[i], m.names[m.keys[i]])
  {
    seq(|m.keys|, i requires 0 <= i < |m.keys| => Label(m.keys[i], m.names[m.keys[i]]))
  }

  /** The outcome of reading a taxonomy or label file. */
  datatype FileOutcome =
    | Unreadable
    | TreeRead(tax: Taxonomy, labels: LabelMap)
    | LabelsRead(labels: LabelMap, tree: TreeOutcome)

  /** `read_taxonomy` followed, when no tree was read, by computing the tree
      from the labels in the order the file listed them (`loaded` says
      whether the reference taxonomy could be loaded). */
  function ReadTaxonomyOrLabels(rows: seq<Row>, loaded: bool, store: Store, reg: Registry,
                                responses: Responses): (r: FileOutcome)
    requires loaded ==> Coherent(store)
    ensures r.LabelsRead? ==> LabelMapOk(r.labels)
  {
    match ReadTaxonomy(rows)
    case None => Unreadable
    case Some(s) =>
      if TaxonomyAvailable(s.tax) then TreeRead(s.tax, s.labels)
      else
        ReadRowsKeepsLabelMapOk(Unread, rows);
        LabelsRead(s.labels, ComputeTaxonomicTree(loaded, store, reg, responses, LabelList(s.labels)))
  }

  lemma {:induction false} ReadRowsKeepsLabelMapOk(s: Loaded, rows: seq<Row>)
    requires LabelMapOk(s.labels)
    ensures ReadRows(s, rows).Some? ==> LabelMapOk(ReadRows(s, rows).value.labels)
    decreases |rows|
  {
    if |rows| > 0 {
      match ReadRow(s, rows[0])
      case None =>
      case Some(s1) =>
        if rows[0].LabelRow? {
          PutLabelOk(s.labels, ParseInt(rows[0].idField).value, rows[0].name);
        }
        ReadRowsKeepsLabelMapOk(s1, rows[1..]);
    }
  }

  /** Reading rows of a label file leaves the tree at the root alone and
      labels exactly the ids the rows name; a row whose id is not an integer
      makes the file unreadable. */
  lemma {:induction false} LabelRowsReadNoTree(s: Loaded, rows: seq<Row>)
    requires forall i :: 0 <= i < |rows| ==> rows[i].LabelRow?
    ensures ReadRows(s, rows).Some? <==> forall i :: 0 <= i < |rows| ==> ParseInt(rows[i].idField).Some?
    ensures ReadRows(s, rows).Some? ==>
              && ReadRows(s, rows).value.tax == s.tax
              && forall k :: k in ReadRows(s, rows).value.labels.names <==>
                               k in s.labels.names || exists i :: 0 <= i < |rows| && ParseInt(rows[i].idField) == Some(k)
    decreases |rows|
  {
    if |rows| > 0 {
      match ParseInt(rows[0].idField)
      case None =>
      case Some(k0) =>
        var s1 := s.(labels := PutLabel(s.labels, k0, rows[0].name));
        LabelRowsReadNoTree(s1, rows[1..]);
        assert forall i :: 1 <= i < |rows| ==> rows[i] == rows[1..][i - 1];
        if ReadRows(s, rows).Some? {
          forall k
            ensures k in ReadRows(s, rows).value.labels.names <==>
                    k in s.labels.names || exists i :: 0 <= i < |rows| && ParseInt(rows[i].idField) == Some(k)
          {
            if exists i :: 0 <= i < |rows| && ParseInt(rows[i].idField) == Some(k) {
              var i :| 0 <= i < |rows| && ParseInt(rows[i].idField) == Some(k);
              if i > 0 {
                assert ParseInt(rows[1..][i - 1].idField) == Some(k);
              }
            }
          }
        }
    }
  }

  /** A file of labels only is never taken for a taxonomy: its labels go to
      the tree computation, in the order the file lists them. */
  lemma LabelFileComputesTree(rows: seq<Row>, loaded: bool, store: Store, reg: Registry, responses: Responses)
    requires loaded ==> Coherent(store)
    requires forall i :: 0 <= i < |rows| ==> rows[i].LabelRow? && ParseInt(rows[i].idField).Some?
    ensures var r := ReadTaxonomyOrLabels(rows, loaded, store, reg, responses);
            && r.LabelsRead?
            && (forall k :: k in r.labels.names <==> exists i :: 0 <= i < |rows| && ParseInt(rows[i].idField) == Some(k))
            && (!loaded <==> r.tree.LabelsOnly?)
  {
    LabelRowsReadNoTree(Unread, rows);
  }
}
