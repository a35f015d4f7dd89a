/** The reference taxonomy store of inat_taxonomy.py: the taxa of the bulk
    archive indexed by id and by scientific name, the per-row loading rule,
    and the kingdom-first ancestor walk. */
module Reference {
  import opened Wrappers
  import opened Ranks
  import Text

  /** A reference taxon, the source's 4-tuple (id, parent_id, name, rank_level). */
  datatype RefTaxon = RefTaxon(id: int, parent: Option<int>, name: string, rankLevel: real)

  /** The two indexes: id -> taxon, and name -> every taxon of that name in
      the order the archive lists them. */
  datatype Store = Store(byId: map<int, RefTaxon>, byName: map<string, seq<RefTaxon>>)

  const EmptyStore: Store := Store(map[], map[])

  /** The source treats the taxonomy as loaded when both indexes are non-empty. */
  predicate Loaded(store: Store)
  {
    store.byId != map[] && store.byName != map[]
  }

  /** One record of the archive's taxa table, as far as loading reads it. */
  datatype TaxaRow = TaxaRow(id: int, parentNameUsageId: string, scientificName: string, taxonRank: string)

  /** The remote service's answer to a by-id lookup made to learn the level of
      an unregistered rank: no usable answer (a failed request, an empty reply
      or one without results), or the rank levels of the returned results. */
  datatype RankReply = NoAnswer | Answer(rankLevels: seq<real>)

  /** The parent rule of one row: the parent id is the last '/'-separated
      segment of the parent URL; an empty segment means the root, except for
      the root's own row, which has no parent. `None` is the ValueError a
      non-numeric segment raises. */
  function RowParent(row: TaxaRow): (r: Option<Option<int>>)
    ensures var seg := Text.LastPart(row.parentNameUsageId, '/');
            && (seg == "" && row.id != RootTaxonId ==> r == Some(Some(RootTaxonId)))
            && (seg == "" && row.id == RootTaxonId ==> r == Some(None))
            && (seg != "" ==> (r.Some? <==> Text.ParseInt(seg).Some?))
            && (seg != "" && r.Some? ==> r.value == Some(Text.ParseInt(seg).value))
  {
    var seg := Text.LastPart(row.parentNameUsageId, '/');
    if seg == "" then
      if row.id != RootTaxonId then Some(Some(RootTaxonId)) else Some(None)
    else
      match Text.ParseInt(seg)
      case Some(p) => Some(Some(p))
      case None => None
  }

  /** A parent URL ending in a decimal id names that id as the parent. */
  lemma RowParentOfUrl(id: int, prefix: string, parent: int)
    ensures RowParent(TaxaRow(id, prefix + "/" + Text.IntToString(parent), "", "")) == Some(Some(parent))
  {
    var url := prefix + "/" + Text.IntToString(parent);
    var digits := Text.IntToString(parent);
    Text.IntToStringHasNoSeparator(parent, '/');
    assert url == prefix + ['/'] + digits;
    LastPartIsLastSplit(prefix, digits);
    Text.ParseIntToString(parent);
  }

  lemma {:induction false} LastPartIsLastSplit(prefix: string, tail: string)
    requires '/' !in tail
    ensures Text.LastPart(prefix + ['/'] + tail, '/') == tail
    decreases |prefix|
  {
    var s := prefix + ['/'] + tail;
    if |prefix| == 0 {
      assert s[0] == '/' && s[1..] == tail;
      Text.SplitNoSeparator(tail, '/');
    } else {
      assert s[0] == prefix[0] && s[1..] == prefix[1..] + ['/'] + tail;
      LastPartIsLastSplit(prefix[1..], tail);
      assert s[1..][|prefix| - 1] == '/';
      Text.SplitAtSeparator(s[1..], '/');
    }
  }
}

module ReferenceLoad {
  import opened Wrappers
  import opened Ranks
  import opened Reference

  /** Registering a row's rank name when it is not yet known. `None` is the
      IndexError of a reply whose result list is empty. */
  function RegisterRowRank(reg: Registry, rank: string, reply: RankReply): (r: Option<Registry>)
    ensures r.None? <==> rank !in reg.nameToLevel && reply == Answer([])
    ensures r.Some? ==> rank in r.value.nameToLevel && Extends(reg, r.value)
    ensures r.Some? && rank in reg.nameToLevel ==> r.value == reg
    ensures r.Some? && rank !in reg.nameToLevel && reply.NoAnswer? ==> r.value.nameToLevel[rank] == UnknownRankLevel
    ensures r.Some? && rank !in reg.nameToLevel && reply.Answer? ==> r.value.nameToLevel[rank] == reply.rankLevels[0]
  {
    if rank in reg.nameToLevel then Some(reg)
    else match reply
      case NoAnswer => Some(ExtendRegistry(reg, rank, None))
      case Answer(levels) =>
        if |levels| == 0 then None else Some(ExtendRegistry(reg, rank, Some(levels[0])))
  }

  /** `reg'` keeps every name and level registration of `reg`. */
  ghost predicate Extends(reg: Registry, reg': Registry)
  {
    && (forall n :: n in reg.nameToLevel ==> n in reg'.nameToLevel && reg'.nameToLevel[n] == reg.nameToLevel[n])
    && (forall l :: l in reg.levelToName ==> l in reg'.levelToName && reg'.levelToName[l] == reg.levelToName[l])
  }

  /** The taxon a well-formed row becomes once its rank is registered. */
  function RowTaxon(row: TaxaRow, reg: Registry): RefTaxon
    requires RowParent(row).Some? && row.taxonRank in reg.nameToLevel
  {
    RefTaxon(row.id, RowParent(row).value, row.scientificName, reg.nameToLevel[row.taxonRank])
  }

  /** The name index after adding `t`: appended to the taxa of its name. */
  function AddName(byName: map<string, seq<RefTaxon>>, t: RefTaxon): map<string, seq<RefTaxon>>
  {
    if t.name in byName then byName[t.name := byName[t.name] + [t]] else byName[t.name := [t]]
  }

  /** `load_inat_taxonomy`'s loop over the taxa rows. The registry is returned
      even when a row raises, because the source's registry outlives the
      failed load; the store is then `None`. */
  function LoadRows(reg: Registry, store: Store, rows: seq<TaxaRow>, replies: int -> RankReply): (Registry, Option<Store>)
    decreases |rows|
  {
    if |rows| == 0 then (reg, Some(store))
    else
      var row := rows[0];
      match RowParent(row)
      case None => (reg, None)
      case Some(parent) =>
        match RegisterRowRank(reg, row.taxonRank, replies(row.id))
        case None => (reg, None)
        case Some(reg1) =>
          var t := RefTaxon(row.id, parent, row.scientificName, reg1.nameToLevel[row.taxonRank]);
          if row.id in store.byId then (reg1, None)
          else LoadRows(reg1, Store(store.byId[row.id := t], AddName(store.byName, t)), rows[1..], replies)
  }

  /** Outcome of loading: the registry, the store and whether loading succeeded. */
  datatype LoadOutcome = LoadOutcome(reg: Registry, store: Store, ok: bool)

  /** `load_inat_taxonomy`: a no-op when the store is already loaded; otherwise
      every row is loaded and the root must be among them, and any failure
      leaves an empty store. */
  function LoadTaxonomy(reg: Registry, current: Store, rows: seq<TaxaRow>, replies: int -> RankReply): (r: LoadOutcome)
    ensures Loaded(current) ==> r == LoadOutcome(reg, current, true)
    ensures !r.ok ==> r.store == EmptyStore
    ensures r.ok && !Loaded(current) ==> RootTaxonId in r.store.byId
  {
    if Loaded(current) then LoadOutcome(reg, current, true)
    else
      var (reg', loaded) := LoadRows(reg, EmptyStore, rows, replies);
      if loaded.None? || RootTaxonId !in loaded.value.byId then LoadOutcome(reg', EmptyStore, false)
      else LoadOutcome(reg', loaded.value, true)
  }

  /** The taxa of `rows` named `n`, in row order. */
  function Named(rows: seq<TaxaRow>, n: string, reg: Registry): seq<RefTaxon>
    requires forall i :: 0 <= i < |rows| ==> RowParent(rows[i]).Some? && rows[i].taxonRank in reg.nameToLevel
    decreases |rows|
  {
    if |rows| == 0 then []
    else
      var last := rows[|rows| - 1];
      Named(rows[..|rows| - 1], n, reg) + (if last.scientificName == n then [RowTaxon(last, reg)] else [])
  }

  /** Every row parsed and has its rank registered in `reg`. */
  ghost predicate RowsReadable(rows: seq<TaxaRow>, reg: Registry)
  {
    forall i :: 0 <= i < |rows| ==> RowParent(rows[i]).Some? && rows[i].taxonRank in reg.nameToLevel
  }

  ghost predicate DistinctIds(rows: seq<TaxaRow>)
  {
    forall i, j :: 0 <= i < j < |rows| ==> rows[i].id != rows[j].id
  }

  /** The id index maps each row's id, and nothing else, to the row's taxon. */
  ghost predicate IdIndex(byId: map<int, RefTaxon>, rows: seq<TaxaRow>, reg: Registry)
    requires RowsReadable(rows, reg)
  {
    && (forall k :: k in byId <==> exists i :: 0 <= i < |rows| && rows[i].id == k)
    && (forall i :: 0 <= i < |rows| ==> byId[rows[i].id] == RowTaxon(rows[i], reg))
  }

  /** The name index lists, for each name of a row, the taxa of that name in row order. */
  ghost predicate NameIndex(byName: map<string, seq<RefTaxon>>, rows: seq<TaxaRow>, reg: Registry)
    requires RowsReadable(rows, reg)
  {
    && (forall n :: n in byName <==> exists i :: 0 <= i < |rows| && rows[i].scientificName == n)
    && (forall n :: n in byName ==> byName[n] == Named(rows, n, reg))
  }

  /** `store` indexes exactly `rows`, whose ids are distinct. */
  ghost predicate Indexes(store: Store, rows: seq<TaxaRow>, reg: Registry)
  {
    && RowsReadable(rows, reg)
    && DistinctIds(rows)
    && IdIndex(store.byId, rows, reg)
    && NameIndex(store.byName, rows, reg)
  }

  lemma {:induction false} NamedUnderExtension(rows: seq<TaxaRow>, n: string, reg: Registry, reg': Registry)
    requires RowsReadable(rows, reg) && Extends(reg, reg')
    ensures RowsReadable(rows, reg')
    ensures Named(rows, n, reg') == Named(rows, n, reg)
    decreases |rows|
  {
    if |rows| > 0 {
      NamedUnderExtension(rows[..|rows| - 1], n, reg, reg');
    }
  }

  lemma {:induction false} NamedEmpty(rows: seq<TaxaRow>, n: string, reg: Registry)
    requires RowsReadable(rows, reg)
    requires forall i :: 0 <= i < |rows| ==> rows[i].scientificName != n
    ensures Named(rows, n, reg) == []
    decreases |rows|
  {
    if |rows| > 0 {
      NamedEmpty(rows[..|rows| - 1], n, reg);
    }
  }

  lemma AddRowReadable(done: seq<TaxaRow>, reg: Registry, row: TaxaRow, reg1: Registry)
    requires RowsReadable(done, reg) && Extends(reg, reg1)
    requires RowParent(row).Some? && row.taxonRank in reg1.nameToLevel
    ensures RowsReadable(done + [row], reg1)
  {
  }

  lemma AddRowIdIndex(byId: map<int, RefTaxon>, done: seq<TaxaRow>, reg: Registry, row: TaxaRow, reg1: Registry)
    requires RowsReadable(done, reg) && Extends(reg, reg1)
    requires RowParent(row).Some? && row.taxonRank in reg1.nameToLevel
    requires IdIndex(byId, done, reg) && row.id !in byId
    ensures RowsReadable(done + [row], reg1)
    ensures IdIndex(byId[row.id := RowTaxon(row, reg1)], done + [row], reg1)
    ensures DistinctIds(done) ==> DistinctIds(done + [row])
  {
    AddRowReadable(done, reg, row, reg1);
    var rows := done + [row];
    var byId1 := byId[row.id := RowTaxon(row, reg1)];
    forall k
      ensures k in byId1 <==> exists i :: 0 <= i < |rows| && rows[i].id == k
    {
      if k == row.id {
        assert rows[|done|].id == k;
      }
      if k in byId {
        var i :| 0 <= i < |done| && done[i].id == k;
        assert rows[i].id == k;
      }
    }
    forall i | 0 <= i < |rows|
      ensures byId1[rows[i].id] == RowTaxon(rows[i], reg1)
    {
      if i < |done| {
        assert rows[i] == done[i];
        assert done[i].id in byId;
      }
    }
  }

  lemma AddRowNameIndex(byName: map<string, seq<RefTaxon>>, done: seq<TaxaRow>, reg: Registry, row: TaxaRow, reg1: Registry)
    requires RowsReadable(done, reg) && Extends(reg, reg1)
    requires RowParent(row).Some? && row.taxonRank in reg1.nameToLevel
    requires NameIndex(byName, done, reg)
    ensures RowsReadable(done + [row], reg1)
    ensures NameIndex(AddName(byName, RowTaxon(row, reg1)), done + [row], reg1)
  {
    AddRowReadable(done, reg, row, reg1);
    AddRowNameKeys(byName, done, row, RowTaxon(row, reg1));
    AddRowNameValues(byName, done, reg, row, reg1);
  }

  lemma AddRowNameKeys(byName: map<string, seq<RefTaxon>>, done: seq<TaxaRow>, row: TaxaRow, t: RefTaxon)
    requires t.name == row.scientificName
    requires forall n :: n in byName <==> exists i :: 0 <= i < |done| && done[i].scientificName == n
    ensures forall n :: n in AddName(byName, t) <==> exists i :: 0 <= i < |done + [row]| && (done + [row])[i].scientificName == n
  {
    var rows := done + [row];
    forall n
      ensures n in AddName(byName, t) <==> exists i :: 0 <= i < |rows| && rows[i].scientificName == n
    {
      if n == row.scientificName {
        assert rows[|done|].scientificName == n;
      }
      if n in byName {
        var i :| 0 <= i < |done| && done[i].scientificName == n;
        assert rows[i].scientificName == n;
      }
    }
  }

  lemma AddRowNameValues(byName: map<string, seq<RefTaxon>>, done: seq<TaxaRow>, reg: Registry, row: TaxaRow, reg1: Registry)
    requires RowsReadable(done, reg) && Extends(reg, reg1)
    requires RowParent(row).Some? && row.taxonRank in reg1.nameToLevel
    requires NameIndex(byName, done, reg)
    requires RowsReadable(done + [row], reg1)
    ensures forall n :: n in AddName(byName, RowTaxon(row, reg1)) ==>
              AddName(byName, RowTaxon(row, reg1))[n] == Named(done + [row], n, reg1)
  {
    var t := RowTaxon(row, reg1);
    var rows := done + [row];
    var byName1 := AddName(byName, t);
    DropLast(done, row);
    forall n | n in byName1
      ensures byName1[n] == Named(rows, n, reg1)
    {
      NamedUnderExtension(done, n, reg, reg1);
      assert Named(rows, n, reg1) == Named(done, n, reg1) + (if row.scientificName == n then [t] else []);
      if n == t.name && t.name !in byName {
        NamedEmpty(done, n, reg);
      }
    }
  }

  lemma LoadRowKeepsIndexes(store: Store, done: seq<TaxaRow>, reg: Registry, row: TaxaRow, reg1: Registry)
    requires Indexes(store, done, reg)
    requires RowParent(row).Some? && row.taxonRank in reg1.nameToLevel && Extends(reg, reg1)
    requires row.id !in store.byId
    ensures var t := RowTaxon(row, reg1);
            Indexes(Store(store.byId[row.id := t], AddName(store.byName, t)), done + [row], reg1)
  {
    AddRowIdIndex(store.byId, done, reg, row, reg1);
    AddRowNameIndex(store.byName, done, reg, row, reg1);
  }

  lemma ExtendsTransitive(a: Registry, b: Registry, c: Registry)
    requires Extends(a, b) && Extends(b, c)
    ensures Extends(a, c)
  {
  }

  /** A row that does not parse, whose rank cannot be registered or whose id
      is already loaded stops the load, with the registry only grown. */
  lemma LoadRowsHalts(reg: Registry, store: Store, rows: seq<TaxaRow>, replies: int -> RankReply)
    requires 0 < |rows|
    requires || RowParent(rows[0]).None?
             || RegisterRowRank(reg, rows[0].taxonRank, replies(rows[0].id)).None?
             || rows[0].id in store.byId
    ensures Extends(reg, LoadRows(reg, store, rows, replies).0)
    ensures LoadRows(reg, store, rows, replies).1.None?
  {
  }

  /** A row that parses, has its rank registered and a new id is loaded, and
      loading goes on with the next row. */
  lemma LoadRowsStep(reg: Registry, store: Store, rows: seq<TaxaRow>, replies: int -> RankReply)
    requires 0 < |rows| && RowParent(rows[0]).Some?
    requires RegisterRowRank(reg, rows[0].taxonRank, replies(rows[0].id)).Some?
    requires rows[0].id !in store.byId
    ensures var reg1 := RegisterRowRank(reg, rows[0].taxonRank, replies(rows[0].id)).value;
            var t := RowTaxon(rows[0], reg1);
            LoadRows(reg, store, rows, replies) == LoadRows(reg1, Store(store.byId[t.id := t], AddName(store.byName, t)), rows[1..], replies)
  {
  }

  lemma {:induction false} LoadRowsIndexes(reg: Registry, store: Store, done: seq<TaxaRow>, rows: seq<TaxaRow>, replies: int -> RankReply)
    requires Indexes(store, done, reg)
    ensures Extends(reg, LoadRows(reg, store, rows, replies).0)
    ensures LoadRows(reg, store, rows, replies).1.Some? ==>
              Indexes(LoadRows(reg, store, rows, replies).1.value, done + rows, LoadRows(reg, store, rows, replies).0)
    decreases |rows|
  {
    if |rows| == 0 {
      assert done + rows == done;
      return;
    }
    var row := rows[0];
    if || RowParent(row).None?
       || RegisterRowRank(reg, row.taxonRank, replies(row.id)).None?
       || row.id in store.byId {
      LoadRowsHalts(reg, store, rows, replies);
      return;
    }
    var reg1 := RegisterRowRank(reg, row.taxonRank, replies(row.id)).value;
    var t := RowTaxon(row, reg1);
    var store1 := Store(store.byId[row.id := t], AddName(store.byName, t));
    LoadRowsStep(reg, store, rows, replies);
    var done1 := done + [row];
    ShiftHead(done, rows);
    LoadRowKeepsIndexes(store, done, reg, row, reg1);
    var res := LoadRows(reg1, store1, rows[1..], replies);
    LoadRowsIndexes(reg1, store1, done1, rows[1..], replies);
    ExtendsTransitive(reg, reg1, res.0);
  }

  /** A successful fresh load indexes exactly the archive's rows: no id twice,
      the id index holds each row's taxon (parent by the parent rule, level of
      its rank name), and the name index keeps all taxa of a name in row
      order. The registry only grows. */
  lemma LoadTaxonomyIndexesRows(reg: Registry, rows: seq<TaxaRow>, replies: int -> RankReply)
    ensures var r := LoadTaxonomy(reg, EmptyStore, rows, replies);
            && Extends(reg, r.reg)
            && (r.ok ==> Indexes(r.store, rows, r.reg) && RootTaxonId in r.store.byId)
  {
    assert Indexes(EmptyStore, [], reg);
    LoadRowsIndexes(reg, EmptyStore, [], rows, replies);
    assert [] + rows == rows;
  }
}
