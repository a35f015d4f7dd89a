/** `lookup_id` of inat_taxonomy.py: resolving a label's scientific name to a
    reference taxon and its ancestors, locally first and through the remote
    service's answer otherwise. */
module Resolver {
  import opened Wrappers
  import opened Ranks
  import opened Reference
  import opened Lineage
  import ReferenceLoad

  /** One name of a remote search result: its locale ("sci" for scientific
      names) and the name. */
  datatype NameEntry = NameEntry(locale: string, name: string)

  /** One result of the remote name search. */
  datatype RemoteTaxon = RemoteTaxon(id: int, names: seq<NameEntry>)

  /** A resolved label: the taxon and its kingdom-first ancestors. */
  datatype Resolution = Resolution(taxon: RefTaxon, ancestors: seq<RefTaxon>)

  /** The ranks `lookup_id` prefers among homonyms by default. */
  const DefaultDesiredRanks: seq<string> := ["species", "subspecies"]

  /** The two indexes agree: every name lists at least one taxon, each of that
      name and each the id index's entry for its id. */
  ghost predicate Coherent(store: Store)
  {
    && WellFormed(store.byId)
    && (forall n :: n in store.byName ==> 0 < |store.byName[n]|)
    && (forall n, t :: n in store.byName && t in store.byName[n] ==>
          t.id in store.byId && store.byId[t.id] == t && t.name == n)
  }

  /** A store loaded from rows with a well-formed id index is coherent. */
  lemma LoadedStoreIsCoherent(store: Store, rows: seq<TaxaRow>, reg: Registry)
    requires ReferenceLoad.Indexes(store, rows, reg) && WellFormed(store.byId)
    ensures Coherent(store)
  {
    forall n | n in store.byName
      ensures 0 < |store.byName[n]|
      ensures forall t :: t in store.byName[n] ==> t.id in store.byId && store.byId[t.id] == t && t.name == n
    {
      var j :| 0 <= j < |rows| && rows[j].scientificName == n;
      NamedContainsRow(rows, n, reg, j);
      NamedInIndex(rows, n, reg, store.byId);
    }
  }

  lemma {:induction false} NamedContainsRow(rows: seq<TaxaRow>, n: string, reg: Registry, j: nat)
    requires ReferenceLoad.RowsReadable(rows, reg) && j < |rows| && rows[j].scientificName == n
    ensures 0 < |ReferenceLoad.Named(rows, n, reg)|
    decreases |rows|
  {
    if j < |rows| - 1 {
      NamedContainsRow(rows[..|rows| - 1], n, reg, j);
    }
  }

  lemma {:induction false} NamedInIndex(rows: seq<TaxaRow>, n: string, reg: Registry, byId: map<int, RefTaxon>)
    requires ReferenceLoad.RowsReadable(rows, reg)
    requires forall i :: 0 <= i < |rows| ==> rows[i].id in byId && byId[rows[i].id] == ReferenceLoad.RowTaxon(rows[i], reg)
    ensures forall t :: t in ReferenceLoad.Named(rows, n, reg) ==> t.id in byId && byId[t.id] == t && t.name == n
    decreases |rows|
  {
    if |rows| > 0 {
      NamedInIndex(rows[..|rows| - 1], n, reg, byId);
    }
  }

  /** Index of the LAST taxon whose rank name is desired: the source's loop
      over homonyms assigns without breaking, so a later match wins. */
  function LastDesired(reg: Registry, taxa: seq<RefTaxon>, desired: seq<string>): (r: Option<nat>)
    ensures r.Some? ==> r.value < |taxa| && RankName(reg, taxa[r.value].rankLevel) in desired
    ensures r.Some? ==> forall j :: r.value < j < |taxa| ==> RankName(reg, taxa[j].rankLevel) !in desired
    ensures r.None? ==> forall j :: 0 <= j < |taxa| ==> RankName(reg, taxa[j].rankLevel) !in desired
    decreases |taxa|
  {
    if |taxa| == 0 then None
    else if RankName(reg, taxa[|taxa| - 1].rankLevel) in desired then Some(|taxa| - 1)
    else LastDesired(reg, taxa[..|taxa| - 1], desired)
  }

  /** The homonym choice: the last taxon of a desired rank, else the first. */
  function PickHomonym(reg: Registry, taxa: seq<RefTaxon>, desired: seq<string>): (t: RefTaxon)
    requires 0 < |taxa|
    ensures t in taxa
  {
    match LastDesired(reg, taxa, desired)
    case Some(i) => taxa[i]
    case None => taxa[0]
  }

  /** Results listing `name` as a scientific name, once per matching entry. */
  function ExactMatches(results: seq<RemoteTaxon>, name: string): (m: seq<RemoteTaxon>)
    ensures forall t :: t in m ==> t in results
    ensures forall t :: t in results && NameEntry("sci", name) in t.names ==> t in m
    decreases |results|
  {
    if |results| == 0 then []
    else
      var t := results[0];
      SciMatches(t, name) + ExactMatches(results[1..], name)
  }

  function SciMatches(t: RemoteTaxon, name: string): (m: seq<RemoteTaxon>)
    ensures forall u :: u in m ==> u == t
    ensures NameEntry("sci", name) in t.names ==> t in m
    ensures NameEntry("sci", name) !in t.names ==> m == []
  {
    PerName(t, t.names, name)
  }

  /** One copy of `t` per entry of `names` that is the scientific name `name`. */
  function PerName(t: RemoteTaxon, names: seq<NameEntry>, name: string): (m: seq<RemoteTaxon>)
    ensures forall u :: u in m ==> u == t
    ensures NameEntry("sci", name) in names ==> t in m
    ensures NameEntry("sci", name) !in names ==> m == []
    decreases |names|
  {
    if |names| == 0 then []
    else (if names[0] == NameEntry("sci", name) then [t] else []) + PerName(t, names[1..], name)
  }

  /** The remote result filter: only with more than one result are they
      narrowed to the exact scientific-name matches, and only when some match. */
  function FilterResults(results: seq<RemoteTaxon>, name: string): (kept: seq<RemoteTaxon>)
    ensures |results| <= 1 ==> kept == results
    ensures forall t :: t in kept ==> t in results
    ensures |results| > 1 && ExactMatches(results, name) != [] ==>
              forall t :: t in kept ==> NameEntry("sci", name) in t.names
    ensures |results| > 1 && ExactMatches(results, name) != [] ==>
              forall t :: t in kept <==> t in results && NameEntry("sci", name) in t.names
    ensures (exists t :: t in results && NameEntry("sci", name) in t.names) ==> 0 < |kept|
    ensures ExactMatches(results, name) == [] ==> kept == results
  {
    if |results| > 1 then
      var exact := ExactMatches(results, name);
      ExactMatchesQualify(results, name);
      if exact != [] then exact else results
    else results
  }

  lemma {:induction false} ExactMatchesQualify(results: seq<RemoteTaxon>, name: string)
    ensures forall t :: t in ExactMatches(results, name) ==> NameEntry("sci", name) in t.names
    decreases |results|
  {
    if |results| > 0 {
      ExactMatchesQualify(results[1..], name);
    }
  }

  /** Sequence without repetitions, first occurrences kept. */
  function Dedup(xs: seq<int>): (r: seq<int>)
    ensures Distinct(r)
    ensures forall x :: x in r <==> x in xs
    decreases |xs|
  {
    if |xs| == 0 then []
    else
      var r := Dedup(xs[..|xs| - 1]);
      if xs[|xs| - 1] in r then r else r + [xs[|xs| - 1]]
  }

  /** The local taxa the remote results name: ids absent from the id index
      are dropped, each id kept once. */
  function Candidates(byId: map<int, RefTaxon>, kept: seq<RemoteTaxon>): (c: seq<int>)
    ensures Distinct(c)
    ensures forall k :: k in c <==> k in byId && exists t :: t in kept && t.id == k
  {
    var ids := seq(|kept|, i requires 0 <= i < |kept| => kept[i].id);
    var local := FilterKnown(byId, ids);
    assert forall k :: k in ids <==> exists t :: t in kept && t.id == k by {
      forall k | (exists t :: t in kept && t.id == k)
        ensures k in ids
      {
        var t :| t in kept && t.id == k;
        var i :| 0 <= i < |kept| && kept[i] == t;
        assert ids[i] == k;
      }
    }
    Dedup(local)
  }

  function FilterKnown(byId: map<int, RefTaxon>, ids: seq<int>): (r: seq<int>)
    ensures forall k :: k in r <==> k in ids && k in byId
    decreases |ids|
  {
    if |ids| == 0 then []
    else (if ids[0] in byId then [ids[0]] else []) + FilterKnown(byId, ids[1..])
  }

  /** Smallest rank level among the candidates. */
  function MinRank(byId: map<int, RefTaxon>, cs: seq<int>): (m: real)
    requires 0 < |cs| && forall i :: 0 <= i < |cs| ==> cs[i] in byId
    ensures forall i :: 0 <= i < |cs| ==> m <= byId[cs[i]].rankLevel
    ensures exists i :: 0 <= i < |cs| && m == byId[cs[i]].rankLevel
    decreases |cs|
  {
    if |cs| == 1 then byId[cs[0]].rankLevel
    else
      var m := MinRank(byId, cs[1..]);
      var r := byId[cs[0]].rankLevel;
      if r <= m then r
      else
        assert exists i :: 1 <= i < |cs| && m == byId[cs[i]].rankLevel by {
          var i :| 0 <= i < |cs[1..]| && m == byId[cs[1..][i]].rankLevel;
          assert cs[1..][i] == cs[i + 1];
        }
        m
  }

  /** One round of the lowest-common-ancestor loop: every candidate at the
      minimum rank level is replaced by its parent, duplicates dropped. */
  function Lift(byId: map<int, RefTaxon>, cs: seq<int>): (r: seq<int>)
    requires WellFormed(byId) && 1 < |cs| && Distinct(cs)
    requires forall i :: 0 <= i < |cs| ==> cs[i] in byId
    ensures Distinct(r) && 0 < |r|
    ensures forall k :: k in r ==> k in byId
    ensures forall k :: k in r <==> exists i :: 0 <= i < |cs| && k == LiftOne(byId, cs, i)
  {
    var m := MinRank(byId, cs);
    var lifted := seq(|cs|, i requires 0 <= i < |cs| => LiftOne(byId, cs, i));
    assert lifted[0] in lifted;
    forall k | (exists i :: 0 <= i < |cs| && k == LiftOne(byId, cs, i))
      ensures k in lifted
    {
      var i :| 0 <= i < |cs| && k == LiftOne(byId, cs, i);
      assert lifted[i] == k;
    }
    Dedup(lifted)
  }

  /** The image of candidate `i` under one round of the loop. */
  function LiftOne(byId: map<int, RefTaxon>, cs: seq<int>, i: nat): (k: int)
    requires WellFormed(byId) && 1 < |cs| && Distinct(cs) && i < |cs|
    requires forall j :: 0 <= j < |cs| ==> cs[j] in byId
    ensures k in byId && byId[k].rankLevel > MinRank(byId, cs)
    ensures byId[cs[i]].rankLevel == MinRank(byId, cs) ==> byId[cs[i]].parent == Some(k)
    ensures byId[cs[i]].rankLevel != MinRank(byId, cs) ==> k == cs[i]
  {
    var m := MinRank(byId, cs);
    if byId[cs[i]].rankLevel == m then
      MinIsNotRoot(byId, cs, i);
      byId[cs[i]].parent.value
    else cs[i]
  }

  /** With two or more candidates, none at the minimum level is the root. */
  lemma MinIsNotRoot(byId: map<int, RefTaxon>, cs: seq<int>, i: nat)
    requires WellFormed(byId) && 1 < |cs| && Distinct(cs) && i < |cs|
    requires forall j :: 0 <= j < |cs| ==> cs[j] in byId
    requires byId[cs[i]].rankLevel == MinRank(byId, cs)
    ensures cs[i] != RootTaxonId && byId[cs[i]].parent.Some?
  {
    var j := if i == 0 then 1 else 0;
    assert cs[j] != cs[i];
  }

  /** Taxa at or above level `r`: the loop's measure, since the minimum level
      strictly rises each round. */
  function AtOrAbove(byId: map<int, RefTaxon>, r: real): set<int>
  {
    set k | k in byId && byId[k].rankLevel >= r
  }

  lemma LiftRaisesMinimum(byId: map<int, RefTaxon>, cs: seq<int>)
    requires WellFormed(byId) && 1 < |cs| && Distinct(cs)
    requires forall i :: 0 <= i < |cs| ==> cs[i] in byId
    ensures var r := Lift(byId, cs);
            |AtOrAbove(byId, MinRank(byId, r))| < |AtOrAbove(byId, MinRank(byId, cs))|
  {
    var m := MinRank(byId, cs);
    var r := Lift(byId, cs);
    var m' := MinRank(byId, r);
    var j :| 0 <= j < |r| && m' == byId[r[j]].rankLevel;
    assert r[j] in r;
    var i :| 0 <= i < |cs| && r[j] == LiftOne(byId, cs, i);
    assert m' > m;
    var w :| 0 <= w < |cs| && m == byId[cs[w]].rankLevel;
    var a := AtOrAbove(byId, m');
    var b := AtOrAbove(byId, m);
    forall k | k in a
      ensures k in b
    {}
    assert cs[w] in b && cs[w] !in a;
    ProperSubsetSmaller(a, b, cs[w]);
  }

  /** The loop of `lookup_id` that lifts candidates until one remains. */
  function Lca(byId: map<int, RefTaxon>, cs: seq<int>): (k: int)
    requires WellFormed(byId) && 0 < |cs| && Distinct(cs)
    requires forall i :: 0 <= i < |cs| ==> cs[i] in byId
    ensures k in byId
    decreases |AtOrAbove(byId, MinRank(byId, cs))|
  {
    if |cs| == 1 then cs[0]
    else
      LiftRaisesMinimum(byId, cs);
      var r := Lift(byId, cs);
      assert forall i :: 0 <= i < |r| ==> r[i] in byId by {
        assert forall i :: 0 <= i < |r| ==> r[i] in r;
      }
      Lca(byId, r)
  }

  /** Every element of `cs` is in the id index. */
  predicate Known(byId: map<int, RefTaxon>, cs: seq<int>)
  {
    forall i :: 0 <= i < |cs| ==> cs[i] in byId
  }

  /** `a` is an ancestor of, or equal to, every element of `cs`. */
  ghost predicate CommonAncestor(byId: map<int, RefTaxon>, a: int, cs: seq<int>)
    requires WellFormed(byId) && Known(byId, cs)
  {
    forall i :: 0 <= i < |cs| ==> a in UpChain(byId, cs[i])
  }

  /** Every element of `orig` has an ancestor-or-self in `cs`. */
  ghost predicate Covers(byId: map<int, RefTaxon>, cs: seq<int>, orig: seq<int>)
    requires WellFormed(byId) && Known(byId, cs) && Known(byId, orig)
  {
    forall i :: 0 <= i < |orig| ==> CoveredBy(byId, cs, orig[i])
  }

  /** Some element of `cs` is an ancestor-or-self of `k`. */
  ghost predicate CoveredBy(byId: map<int, RefTaxon>, cs: seq<int>, k: int)
    requires WellFormed(byId) && Known(byId, cs) && k in byId
  {
    exists j :: 0 <= j < |cs| && cs[j] in UpChain(byId, k)
  }

  lemma LiftOneIsAncestor(byId: map<int, RefTaxon>, cs: seq<int>, i: nat)
    requires WellFormed(byId) && 1 < |cs| && Distinct(cs) && i < |cs| && Known(byId, cs)
    ensures LiftOne(byId, cs, i) in UpChain(byId, cs[i])
  {
    if byId[cs[i]].rankLevel == MinRank(byId, cs) {
      ParentInUpChain(byId, cs[i]);
    }
  }

  lemma LiftKeepsCover(byId: map<int, RefTaxon>, cs: seq<int>, orig: seq<int>)
    requires WellFormed(byId) && 1 < |cs| && Distinct(cs) && Known(byId, cs) && Known(byId, orig)
    requires Covers(byId, cs, orig)
    ensures Known(byId, Lift(byId, cs)) && Covers(byId, Lift(byId, cs), orig)
  {
    var r := Lift(byId, cs);
    assert Known(byId, r) by {
      assert forall x :: 0 <= x < |r| ==> r[x] in r;
    }
    forall i | 0 <= i < |orig|
      ensures CoveredBy(byId, r, orig[i])
    {
      assert CoveredBy(byId, cs, orig[i]);
      var j :| 0 <= j < |cs| && cs[j] in UpChain(byId, orig[i]);
      var k := LiftOne(byId, cs, j);
      LiftOneIsAncestor(byId, cs, j);
      UpChainTransitive(byId, k, cs[j], orig[i]);
      assert k in r;
      var x :| 0 <= x < |r| && r[x] == k;
    }
  }

  lemma LiftKeepsCommon(byId: map<int, RefTaxon>, cs: seq<int>, a: int)
    requires WellFormed(byId) && 1 < |cs| && Distinct(cs) && Known(byId, cs)
    requires CommonAncestor(byId, a, cs)
    ensures Known(byId, Lift(byId, cs)) && CommonAncestor(byId, a, Lift(byId, cs))
  {
    var r := Lift(byId, cs);
    var m := MinRank(byId, cs);
    assert Known(byId, r) by {
      assert forall x :: 0 <= x < |r| ==> r[x] in r;
    }
    forall x | 0 <= x < |r|
      ensures a in UpChain(byId, r[x])
    {
      assert r[x] in r;
      var i :| 0 <= i < |cs| && r[x] == LiftOne(byId, cs, i);
      if byId[cs[i]].rankLevel == m {
        assert a != cs[i] by {
          var j := if i == 0 then 1 else 0;
          assert cs[j] != cs[i];
          UpChainRanks(byId, cs[j], a);
        }
        UpChainOfParent(byId, cs[i], a);
      }
    }
  }

  lemma {:induction false} LcaFromCover(byId: map<int, RefTaxon>, cs: seq<int>, orig: seq<int>)
    requires WellFormed(byId) && 0 < |cs| && Distinct(cs) && Known(byId, cs) && Known(byId, orig)
    requires Covers(byId, cs, orig)
    requires forall a :: CommonAncestor(byId, a, orig) ==> CommonAncestor(byId, a, cs)
    ensures CommonAncestor(byId, Lca(byId, cs), orig)
    ensures forall a :: CommonAncestor(byId, a, orig) ==> a in UpChain(byId, Lca(byId, cs))
    decreases |AtOrAbove(byId, MinRank(byId, cs))|
  {
    if |cs| == 1 {
      forall i | 0 <= i < |orig|
        ensures cs[0] in UpChain(byId, orig[i])
      {
        assert CoveredBy(byId, cs, orig[i]);
      }
    } else {
      LiftRaisesMinimum(byId, cs);
      var r := Lift(byId, cs);
      LiftKeepsCover(byId, cs, orig);
      forall a | CommonAncestor(byId, a, orig)
        ensures CommonAncestor(byId, a, r)
      {
        LiftKeepsCommon(byId, cs, a);
      }
      LcaFromCover(byId, r, orig);
    }
  }

  /** The loop ends with the lowest common ancestor of the candidates: an
      ancestor-or-self of each, and a descendant-or-self of every other
      common ancestor. */
  lemma LcaIsLowestCommonAncestor(byId: map<int, RefTaxon>, cs: seq<int>)
    requires WellFormed(byId) && 0 < |cs| && Distinct(cs) && Known(byId, cs)
    ensures CommonAncestor(byId, Lca(byId, cs), cs)
    ensures forall a :: CommonAncestor(byId, a, cs) ==> a in UpChain(byId, Lca(byId, cs))
  {
    forall i | 0 <= i < |cs|
      ensures CoveredBy(byId, cs, cs[i])
    {
      assert cs[i] in UpChain(byId, cs[i]);
    }
    LcaFromCover(byId, cs, cs);
  }

  /** `lookup_id(name, desired_ranks)`. `response` is what the remote name
      search returned (None for a failed request); it is consulted only when
      the name is not in the local name index. */
  function Resolve(store: Store, reg: Registry, name: string, desired: seq<string>,
                   response: Option<seq<RemoteTaxon>>): (r: Option<Resolution>)
    requires Coherent(store)
    ensures r.Some? ==> r.value.taxon.id in store.byId && store.byId[r.value.taxon.id] == r.value.taxon
    ensures r.Some? ==> r.value.ancestors == AncestorsAbove(store.byId, r.value.taxon)
    ensures store.byName == map[] ==> r.None?
    ensures store.byName != map[] && name in store.byName ==> r.Some? && r.value.taxon in store.byName[name]
    ensures store.byName != map[] && name in store.byName && |store.byName[name]| == 1 ==>
              r.Some? && r.value.taxon == store.byName[name][0]
    ensures name !in store.byName && response.None? ==> r.None?
  {
    if store.byName == map[] then None
    else if name in store.byName then
      var taxa := store.byName[name];
      var t := if |taxa| > 1 then PickHomonym(reg, taxa, desired) else taxa[0];
      Some(Resolution(t, AncestorsAbove(store.byId, t)))
    else
      match response
      case None => None
      case Some(results) =>
        var cs := Candidates(store.byId, FilterResults(results, name));
        if cs == [] then None
        else
          var k := Lca(store.byId, cs);
          Some(Resolution(store.byId[k], AncestorsAbove(store.byId, store.byId[k])))
  }

  /** Among homonyms the chosen taxon is the last of a desired rank, or the
      first of all when none has a desired rank. */
  lemma ResolveHomonyms(store: Store, reg: Registry, name: string, desired: seq<string>,
                        response: Option<seq<RemoteTaxon>>)
    requires Coherent(store) && name in store.byName && 1 < |store.byName[name]|
    ensures var r := Resolve(store, reg, name, desired, response);
            var taxa := store.byName[name];
            && r.Some?
            && ((exists i :: 0 <= i < |taxa| && RankName(reg, taxa[i].rankLevel) in desired) ==>
                  exists i :: 0 <= i < |taxa| && r.value.taxon == taxa[i]
                              && RankName(reg, taxa[i].rankLevel) in desired
                              && forall j :: i < j < |taxa| ==> RankName(reg, taxa[j].rankLevel) !in desired)
            && ((forall i :: 0 <= i < |taxa| ==> RankName(reg, taxa[i].rankLevel) !in desired) ==>
                  r.value.taxon == taxa[0])
  {
  }

  /** Through the remote fallback the result is the lowest common ancestor
      of the local taxa the (filtered) remote results name; with none of
      them known locally the label stays unresolved. */
  lemma ResolveRemoteIsLowestCommonAncestor(store: Store, reg: Registry, name: string, desired: seq<string>,
                                            results: seq<RemoteTaxon>)
    requires Coherent(store) && store.byName != map[] && name !in store.byName
    ensures var cs := Candidates(store.byId, FilterResults(results, name));
            var r := Resolve(store, reg, name, desired, Some(results));
            && (cs == [] <==> r.None?)
            && (r.Some? ==>
                  && CommonAncestor(store.byId, r.value.taxon.id, cs)
                  && forall a :: CommonAncestor(store.byId, a, cs) ==> a in UpChain(store.byId, r.value.taxon.id))
  {
    var cs := Candidates(store.byId, FilterResults(results, name));
    if cs != [] {
      LcaIsLowestCommonAncestor(store.byId, cs);
    }
  }
}
