/** The rank registry of inat_taxonomy.py: numeric rank levels (larger is
    coarser) and their names, extensible while the reference taxonomy loads. */
module Ranks {
  import opened Wrappers

  /** Id, name and rank level of the synthetic root "Life". */
  const RootTaxonId: int := 48460
  const RootName: string := "Life"
  const RootRankLevel: real := 100.0

  /** Name given to a level that has no registered name. */
  const DefaultRankName: string := "clade"

  /** Level registered for a rank name whose remote lookup failed. */
  const UnknownRankLevel: real := -1.0

  /** The base level-to-name table, in the order the source lists it:
      levels and their names side by side, in four rows of nine. */
  const LevelsA: seq<real> := [RootRankLevel, 70.0, 67.0, 60.0, 57.0, 53.0, 50.0, 47.0, 45.0]
  const LevelsB: seq<real> := [44.0, 43.0, 40.0, 37.0, 35.0, 34.5, 34.0, 33.5, 33.0]
  const LevelsC: seq<real> := [32.0, 30.0, 27.0, 26.0, 25.0, 24.0, 20.0, 19.0, 15.0]
  const LevelsD: seq<real> := [13.0, 12.0, 11.0, 10.0, 9.0, 5.0, 4.0, 3.0, 2.0]
  const BaseLevels: seq<real> := LevelsA + LevelsB + LevelsC + LevelsD

  const NamesA: seq<string> := [
    "stateofmatter", "kingdom", "subkingdom", "phylum", "subphylum", "superclass",
    "class", "subclass", "infraclass"]
  const NamesB: seq<string> := [
    "subterclass", "superorder", "order", "suborder", "infraorder", "parvorder",
    "zoosection", "zoosubsection", "superfamily"]
  const NamesC: seq<string> := [
    "epifamily", "family", "subfamily", "supertribe", "tribe", "subtribe",
    "genus", "genushybrid", "subgenus"]
  const NamesD: seq<string> := [
    "section", "subsection", "complex", "species", "hybrid", "subspecies",
    "variety", "form", "infrahybrid"]
  const BaseNames: seq<string> := NamesA + NamesB + NamesC + NamesD

  const BaseRanks: seq<(real, string)> :=
    seq(|BaseLevels|, i requires 0 <= i < |BaseLevels| => (BaseLevels[i], if i < |BaseNames| then BaseNames[i] else ""))

  /** A dict built from (level, name) pairs; a later pair overrides. */
  function LevelTable(pairs: seq<(real, string)>): map<real, string>
    decreases |pairs|
  {
    if |pairs| == 0 then map[]
    else LevelTable(pairs[..|pairs| - 1])[pairs[|pairs| - 1].0 := pairs[|pairs| - 1].1]
  }

  /** The inverted dict: one `name -> level` entry per pair, in order. */
  function NameTable(pairs: seq<(real, string)>): map<string, real>
    decreases |pairs|
  {
    if |pairs| == 0 then map[]
    else NameTable(pairs[..|pairs| - 1])[pairs[|pairs| - 1].1 := pairs[|pairs| - 1].0]
  }

  predicate DistinctLevels(pairs: seq<(real, string)>)
  {
    forall i, j :: 0 <= i < j < |pairs| ==> pairs[i].0 != pairs[j].0
  }

  predicate DistinctNames(pairs: seq<(real, string)>)
  {
    forall i, j :: 0 <= i < j < |pairs| ==> pairs[i].1 != pairs[j].1
  }

  predicate DistinctPairs(pairs: seq<(real, string)>)
  {
    DistinctLevels(pairs) && DistinctNames(pairs)
  }

  lemma {:induction false} TableLookup(pairs: seq<(real, string)>, i: nat)
    requires DistinctPairs(pairs) && i < |pairs|
    ensures pairs[i].0 in LevelTable(pairs) && LevelTable(pairs)[pairs[i].0] == pairs[i].1
    ensures pairs[i].1 in NameTable(pairs) && NameTable(pairs)[pairs[i].1] == pairs[i].0
    decreases |pairs|
  {
    if i < |pairs| - 1 {
      TableLookup(pairs[..|pairs| - 1], i);
    }
  }

  lemma {:induction false} TableKeys(pairs: seq<(real, string)>)
    ensures forall l :: l in LevelTable(pairs) ==> exists i :: 0 <= i < |pairs| && pairs[i].0 == l
    ensures forall n :: n in NameTable(pairs) ==> exists i :: 0 <= i < |pairs| && pairs[i].1 == n
    decreases |pairs|
  {
    if |pairs| > 0 {
      TableKeys(pairs[..|pairs| - 1]);
      forall l | l in LevelTable(pairs)
        ensures exists i :: 0 <= i < |pairs| && pairs[i].0 == l
      {
        if l != pairs[|pairs| - 1].0 {
          var pre := pairs[..|pairs| - 1];
          assert l in LevelTable(pre);
          var i :| 0 <= i < |pre| && pre[i].0 == l;
          assert pairs[i].0 == l;
        }
      }
      forall n | n in NameTable(pairs)
        ensures exists i :: 0 <= i < |pairs| && pairs[i].1 == n
      {
        if n != pairs[|pairs| - 1].1 {
          var pre := pairs[..|pairs| - 1];
          assert n in NameTable(pre);
          var i :| 0 <= i < |pre| && pre[i].1 == n;
          assert pairs[i].1 == n;
        }
      }
    }
  }

  /** With distinct levels and names the two dicts are inverse to each other. */
  lemma TablesAreInverse(pairs: seq<(real, string)>)
    requires DistinctPairs(pairs)
    ensures forall l :: l in LevelTable(pairs) ==>
              LevelTable(pairs)[l] in NameTable(pairs) && NameTable(pairs)[LevelTable(pairs)[l]] == l
    ensures forall n :: n in NameTable(pairs) ==>
              NameTable(pairs)[n] in LevelTable(pairs) && LevelTable(pairs)[NameTable(pairs)[n]] == n
  {
    TableKeys(pairs);
    forall l | l in LevelTable(pairs)
      ensures LevelTable(pairs)[l] in NameTable(pairs) && NameTable(pairs)[LevelTable(pairs)[l]] == l
    {
      var i :| 0 <= i < |pairs| && pairs[i].0 == l;
      TableLookup(pairs, i);
    }
    forall n | n in NameTable(pairs)
      ensures NameTable(pairs)[n] in LevelTable(pairs) && LevelTable(pairs)[NameTable(pairs)[n]] == n
    {
      var i :| 0 <= i < |pairs| && pairs[i].1 == n;
      TableLookup(pairs, i);
    }
  }

  /** The registry: both directions of the level/name correspondence. */
  datatype Registry = Registry(levelToName: map<real, string>, nameToLevel: map<string, real>)

  /** The registry every process starts with. */
  const BaseRegistry: Registry := Registry(LevelTable(BaseRanks), NameTable(BaseRanks))

  lemma BaseRanksDistinct()
    ensures DistinctPairs(BaseRanks)
  {
    BaseLevelsDistinct();
    BaseNamesDistinct();
  }

  lemma LevelRowsDistinct()
    ensures Distinct(LevelsA) && Distinct(LevelsB) && Distinct(LevelsC) && Distinct(LevelsD)
  {
  }

  lemma LevelRowsApart()
    ensures Apart(LevelsA, LevelsB) && Apart(LevelsA, LevelsC) && Apart(LevelsA, LevelsD)
    ensures Apart(LevelsB, LevelsC) && Apart(LevelsB, LevelsD) && Apart(LevelsC, LevelsD)
  {
  }

  lemma BaseLevelsDistinct()
    ensures DistinctLevels(BaseRanks)
  {
    LevelRowsDistinct();
    LevelRowsApart();
    DistinctFour(LevelsA, LevelsB, LevelsC, LevelsD);
  }

  lemma NameRowsDistinct()
    ensures Distinct(NamesA) && Distinct(NamesB) && Distinct(NamesC) && Distinct(NamesD)
  {
  }

  lemma NameRowsApartFromA()
    ensures Apart(NamesA, NamesB) && Apart(NamesA, NamesC) && Apart(NamesA, NamesD)
  {
  }

  lemma NameRowsApartAfterA()
    ensures Apart(NamesB, NamesC) && Apart(NamesB, NamesD) && Apart(NamesC, NamesD)
  {
  }

  lemma BaseNamesDistinct()
    ensures DistinctNames(BaseRanks)
  {
    NameRowsDistinct();
    NameRowsApartFromA();
    NameRowsApartAfterA();
    DistinctFour(NamesA, NamesB, NamesC, NamesD);
  }

  /** The base registry's two tables are inverse to each other, and
      "kingdom" sits at level 70. */
  lemma BaseRegistryIsInverse()
    ensures forall l :: l in BaseRegistry.levelToName ==>
              BaseRegistry.levelToName[l] in BaseRegistry.nameToLevel
              && BaseRegistry.nameToLevel[BaseRegistry.levelToName[l]] == l
    ensures forall n :: n in BaseRegistry.nameToLevel ==>
              BaseRegistry.nameToLevel[n] in BaseRegistry.levelToName
              && BaseRegistry.levelToName[BaseRegistry.nameToLevel[n]] == n
    ensures "kingdom" in BaseRegistry.nameToLevel && BaseRegistry.nameToLevel["kingdom"] == KingdomRankLevel
  {
    BaseRanksDistinct();
    TablesAreInverse(BaseRanks);
    assert BaseRanks[1] == (70.0, "kingdom");
    TableLookup(BaseRanks, 1);
  }

  /** `KINGDOM_RANK_LEVEL`, read from the base name table as the source does. */
  const KingdomRankLevel: real := 70.0

  /** `get_rank_name`: the registered name of a level, else "clade". */
  function RankName(reg: Registry, level: real): (name: string)
    ensures level in reg.levelToName ==> name == reg.levelToName[level]
    ensures level !in reg.levelToName ==> name == DefaultRankName
  {
    if level in reg.levelToName then reg.levelToName[level] else DefaultRankName
  }

  /** `get_rank_level`: the level of a registered name; the source asserts
      the name is registered, here an unregistered name gives None. */
  function RankLevel(reg: Registry, name: string): (level: Option<real>)
    ensures level.Some? <==> name in reg.nameToLevel
    ensures level.Some? ==> level.value == reg.nameToLevel[name]
  {
    if name in reg.nameToLevel then Some(reg.nameToLevel[name]) else None
  }

  /** Every registered level's name maps back to that level. */
  ghost predicate LevelNamesResolve(reg: Registry)
  {
    forall l :: l in reg.levelToName ==>
      reg.levelToName[l] in reg.nameToLevel && reg.nameToLevel[reg.levelToName[l]] == l
  }

  /** Registering an unknown rank name while loading: a level reported by the
      remote service is registered for the name, and the name for the level
      only when the level has none yet; without a report the name gets the
      sentinel level -1. */
  function ExtendRegistry(reg: Registry, rank: string, reported: Option<real>): (reg': Registry)
    requires rank !in reg.nameToLevel
    ensures rank in reg'.nameToLevel
    ensures reported.Some? ==> reg'.nameToLevel[rank] == reported.value
    ensures reported.None? ==> reg'.nameToLevel[rank] == UnknownRankLevel
    ensures forall n :: n in reg.nameToLevel ==> n in reg'.nameToLevel && reg'.nameToLevel[n] == reg.nameToLevel[n]
    ensures reg'.nameToLevel.Keys == reg.nameToLevel.Keys + {rank}
    ensures forall l :: l in reg.levelToName ==> l in reg'.levelToName && reg'.levelToName[l] == reg.levelToName[l]
    ensures reported.Some? && reported.value !in reg.levelToName ==> reg'.levelToName == reg.levelToName[reported.value := rank]
    ensures (reported.None? || reported.value in reg.levelToName) ==> reg'.levelToName == reg.levelToName
  {
    match reported
    case Some(level) =>
      var names := reg.nameToLevel[rank := level];
      if level in reg.levelToName then Registry(reg.levelToName, names)
      else Registry(reg.levelToName[level := rank], names)
    case None => Registry(reg.levelToName, reg.nameToLevel[rank := UnknownRankLevel])
  }

  /** Extending the registry keeps every registered level's name resolvable. */
  lemma ExtendKeepsLevelNamesResolvable(reg: Registry, rank: string, reported: Option<real>)
    requires rank !in reg.nameToLevel
    requires LevelNamesResolve(reg)
    ensures LevelNamesResolve(ExtendRegistry(reg, rank, reported))
  {
  }
}
