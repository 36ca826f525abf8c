/**
 Parsing a DSP catalog response (`crates/crawler/src/lib.rs`): the recursive parser that pushes
 into one catalog, and the declarative description it is proved to compute.
 */
module CatalogParser {
  import opened Wrappers
  import opened Json
  import opened Seqs
  import opened CatalogCore

  // ---------------------------------------------------------------- pure extraction

  function ParseDataService(v: Json): Option<DataService> {
    match IdOf(v)
    case Some(id) => Some(DataService(id, GetStr(v, "endpointURL").GetOr(""), GetStr(v, "endpointDescription")))
    case None => None
  }

  function AccessServiceOf(distribution: Json): string {
    match Get(distribution, "accessService")
    case Some(Str(id)) => id
    case Some(Obj(members)) => IdOf(Obj(members)).GetOr("")
    case _ => ""
  }

  function DistributionOf(distribution: Json): Distribution {
    Distribution(GetStr(distribution, "format").GetOr(""), AccessServiceOf(distribution))
  }

  // ---------------------------------------------------------------- declarative description

  /** All catalog documents inside `v` in pre-order: `v` itself, then those nested under `catalog`. */
  function Levels(v: Json): seq<Json>
    decreases v, 1
  {
    match AsArray(Get(v, "catalog"))
    case Some(items) => [v] + NestedLevels(items)
    case None => [v]
  }

  function NestedLevels(items: seq<Json>): seq<Json>
    decreases items, 0
  {
    if items == [] then [] else NestedLevels(items[..|items| - 1]) + Levels(items[|items| - 1])
  }

  /** A dataset entry is kept exactly when it has an id. */
  function KeptDataset(entry: Json): seq<Dataset> {
    match IdOf(entry)
    case Some(id) => [Dataset(id, map[], Map(DistributionOf, Entries(entry, "distribution")))]
    case None => []
  }

  function ServiceMention(v: Json): seq<DataService> {
    match ParseDataService(v)
    case Some(service) => [service]
    case None => []
  }

  function AccessServiceMention(distribution: Json): seq<DataService> {
    match Get(distribution, "accessService")
    case Some(Obj(members)) => ServiceMention(Obj(members))
    case _ => []
  }

  function DatasetMentions(entry: Json): seq<DataService> {
    if IdOf(entry).Some? then FlatMap(AccessServiceMention, Entries(entry, "distribution")) else []
  }

  function LevelDatasets(level: Json): seq<Dataset> {
    FlatMap(KeptDataset, Entries(level, "dataset"))
  }

  function LevelMentions(level: Json): seq<DataService> {
    FlatMap(ServiceMention, Entries(level, "service")) + FlatMap(DatasetMentions, Entries(level, "dataset"))
  }

  /** Every identifiable dataset of every nesting level, in pre-order. */
  function DatasetsOf(v: Json): seq<Dataset> {
    FlatMap(LevelDatasets, Levels(v))
  }

  /** Every data service the document mentions, in the order the parser meets them. */
  function MentionsOf(v: Json): seq<DataService> {
    FlatMap(LevelMentions, Levels(v))
  }

  predicate HasService(services: seq<DataService>, id: string) {
    exists s :: s in services && s.id == id
  }

  function AddFirst(services: seq<DataService>, s: DataService): seq<DataService> {
    if HasService(services, s.id) then services else services + [s]
  }

  /** `services` extended by those of `mentions` whose id is new, first mention winning. */
  function AddAll(services: seq<DataService>, mentions: seq<DataService>): seq<DataService> {
    if mentions == [] then services
    else AddFirst(AddAll(services, mentions[..|mentions| - 1]), mentions[|mentions| - 1])
  }

  function ParsedCatalog(v: Json, node: NodeId, freshId: string): Catalog {
    Catalog(GetStr(v, "@id").GetOr(freshId), node, GetStr(v, "participantId"), DatasetsOf(v), AddAll([], MentionsOf(v)), map[])
  }

  // ---------------------------------------------------------------- the parser

  /** The catalog being filled in: the fields `collect_datasets_and_services` pushes to. */
  class CatalogUnderConstruction {
    var datasets: seq<Dataset>
    var dataServices: seq<DataService>

    constructor ()
      ensures datasets == [] && dataServices == []
    {
      datasets, dataServices := [], [];
    }

    method PushIfNew(service: Option<DataService>)
      modifies this`dataServices
      ensures dataServices == if service.Some? then AddFirst(old(dataServices), service.value) else old(dataServices)
    {
      if service.Some? {
        if !HasService(dataServices, service.value.id) {
          dataServices := dataServices + [service.value];
        }
      }
    }

    method CollectServices(services: seq<Json>)
      modifies this`dataServices
      ensures dataServices == AddAll(old(dataServices), FlatMap(ServiceMention, services))
    {
      for i := 0 to |services|
        invariant dataServices == AddAll(old(dataServices), FlatMap(ServiceMention, services[..i]))
      {
        PushIfNew(ParseDataService(services[i]));
        FlatMapStep(ServiceMention, services, i);
        AddAllAppend(old(dataServices), FlatMap(ServiceMention, services[..i]), ServiceMention(services[i]));
        AddAllOption(AddAll(old(dataServices), FlatMap(ServiceMention, services[..i])), services[i]);
      }
      assert services[..|services|] == services;
    }

    method TakeAccessService(distribution: Json) returns (accessService: string)
      modifies this`dataServices
      ensures accessService == AccessServiceOf(distribution)
      ensures dataServices == AddAll(old(dataServices), AccessServiceMention(distribution))
    {
      match Get(distribution, "accessService") {
        case Some(Str(id)) =>
          accessService := id;
        case Some(Obj(members)) =>
          accessService := IdOf(Obj(members)).GetOr("");
          AddAllOption(dataServices, Obj(members));
          PushIfNew(ParseDataService(Obj(members)));
        case _ =>
          accessService := "";
      }
    }

    method CollectDistributions(entries: seq<Json>) returns (distributions: seq<Distribution>)
      modifies this`dataServices
      ensures distributions == Map(DistributionOf, entries)
      ensures dataServices == AddAll(old(dataServices), FlatMap(AccessServiceMention, entries))
    {
      distributions := [];
      for i := 0 to |entries|
        invariant distributions == Map(DistributionOf, entries[..i])
        invariant dataServices == AddAll(old(dataServices), FlatMap(AccessServiceMention, entries[..i]))
      {
        FlatMapStep(AccessServiceMention, entries, i);
        AddAllAppend(old(dataServices), FlatMap(AccessServiceMention, entries[..i]), AccessServiceMention(entries[i]));
        MapStep(DistributionOf, entries, i);
        var format := GetStr(entries[i], "format").GetOr("");
        var accessService := TakeAccessService(entries[i]);
        distributions := distributions + [Distribution(format, accessService)];
      }
      assert entries[..|entries|] == entries;
    }

    method CollectDatasets(entries: seq<Json>)
      modifies this
      ensures datasets == old(datasets) + FlatMap(KeptDataset, entries)
      ensures dataServices == AddAll(old(dataServices), FlatMap(DatasetMentions, entries))
    {
      hide AddAll, FlatMap, Map, IdOf, Entries;
      NoDatasets(dataServices);
      for i := 0 to |entries|
        invariant datasets == old(datasets) + FlatMap(KeptDataset, entries[..i])
        invariant dataServices == AddAll(old(dataServices), FlatMap(DatasetMentions, entries[..i]))
      {
        DatasetsStep(old(dataServices), entries, i);
        var id := IdOf(entries[i]);
        if id.None? {
          continue;
        }
        var distributions := CollectDistributions(Entries(entries[i], "distribution"));
        datasets := datasets + [Dataset(id.value, map[], distributions)];
      }
      assert entries[..|entries|] == entries;
    }

    method CollectLevel(value: Json)
      modifies this
      ensures datasets == old(datasets) + LevelDatasets(value)
      ensures dataServices == AddAll(old(dataServices), LevelMentions(value))
    {
      CollectServices(Entries(value, "service"));
      CollectDatasets(Entries(value, "dataset"));
      AddAllAppend(
        old(dataServices),
        FlatMap(ServiceMention, Entries(value, "service")),
        FlatMap(DatasetMentions, Entries(value, "dataset")));
    }

    /** Pushes everything `value` and the catalogs nested in it list, in document order. */
    method CollectDatasetsAndServices(value: Json)
      modifies this
      ensures datasets == old(datasets) + DatasetsOf(value)
      ensures dataServices == AddAll(old(dataServices), MentionsOf(value))
      decreases value, 1
    {
      CollectLevel(value);
      LevelsUnfold(value);
      var nested := AsArray(Get(value, "catalog"));
      if nested.Some? {
        AddAllAppend(old(dataServices), LevelMentions(value), FlatMap(LevelMentions, NestedLevels(nested.value)));
        ConcatAssociative(old(datasets), LevelDatasets(value), FlatMap(LevelDatasets, NestedLevels(nested.value)));
        CollectNested(nested.value);
      } else {
        assert MentionsOf(value) == LevelMentions(value);
      }
    }

    method CollectNested(nested: seq<Json>)
      modifies this
      ensures datasets == old(datasets) + FlatMap(LevelDatasets, NestedLevels(nested))
      ensures dataServices == AddAll(old(dataServices), FlatMap(LevelMentions, NestedLevels(nested)))
      decreases nested, 0
    {
      for i := 0 to |nested|
        invariant datasets == old(datasets) + FlatMap(LevelDatasets, NestedLevels(nested[..i]))
        invariant dataServices == AddAll(old(dataServices), FlatMap(LevelMentions, NestedLevels(nested[..i])))
      {
        NestedLevelsStep(nested, i);
        AddAllAppend(old(dataServices), FlatMap(LevelMentions, NestedLevels(nested[..i])), MentionsOf(nested[i]));
        ConcatAssociative(old(datasets), FlatMap(LevelDatasets, NestedLevels(nested[..i])), DatasetsOf(nested[i]));
        CollectDatasetsAndServices(nested[i]);
      }
      assert nested[..|nested|] == nested;
    }
  }

  method ParseCatalogResponse(value: Json, node: NodeId, freshId: string) returns (catalog: Catalog)
    ensures catalog == ParsedCatalog(value, node, freshId)
  {
    var sink := new CatalogUnderConstruction();
    sink.CollectDatasetsAndServices(value);
    catalog := Catalog(GetStr(value, "@id").GetOr(freshId), node, GetStr(value, "participantId"), sink.datasets, sink.dataServices, map[]);
  }

  // ---------------------------------------------------------------- what the description means

  lemma AddAllOption(services: seq<DataService>, v: Json)
    ensures AddAll(services, ServiceMention(v)) ==
            if ParseDataService(v).Some? then AddFirst(services, ParseDataService(v).value) else services
  {
    if ParseDataService(v).Some? {
      var mention := [ParseDataService(v).value];
      assert mention[..0] == [];
      assert AddAll(services, mention[..0]) == services;
    }
  }

  lemma NoDatasets(services: seq<DataService>)
    ensures FlatMap(KeptDataset, []) == []
    ensures AddAll(services, FlatMap(DatasetMentions, [])) == services
  {
  }

  lemma DatasetsStep(services: seq<DataService>, entries: seq<Json>, i: nat)
    requires i < |entries|
    ensures FlatMap(KeptDataset, entries[..i + 1]) == FlatMap(KeptDataset, entries[..i]) + KeptDataset(entries[i])
    ensures AddAll(services, FlatMap(DatasetMentions, entries[..i + 1]))
         == if IdOf(entries[i]).None? then AddAll(services, FlatMap(DatasetMentions, entries[..i]))
            else AddAll(
              AddAll(services, FlatMap(DatasetMentions, entries[..i])),
              FlatMap(AccessServiceMention, Entries(entries[i], "distribution")))
  {
    hide Entries, IdOf;
    FlatMapStep(KeptDataset, entries, i);
    FlatMapStep(DatasetMentions, entries, i);
    AddAllAppend(services, FlatMap(DatasetMentions, entries[..i]), DatasetMentions(entries[i]));
  }

  lemma LevelsUnfold(v: Json)
    ensures DatasetsOf(v) == LevelDatasets(v) + FlatMap(LevelDatasets, NestedLevels(Entries(v, "catalog")))
    ensures MentionsOf(v) == LevelMentions(v) + FlatMap(LevelMentions, NestedLevels(Entries(v, "catalog")))
  {
    assert Levels(v) == [v] + NestedLevels(Entries(v, "catalog"));
    FlatMapAppend(LevelDatasets, [v], NestedLevels(Entries(v, "catalog")));
    FlatMapAppend(LevelMentions, [v], NestedLevels(Entries(v, "catalog")));
    FlatMapOne(LevelDatasets, v);
    FlatMapOne(LevelMentions, v);
  }

  lemma NestedLevelsStep(items: seq<Json>, i: nat)
    requires i < |items|
    ensures FlatMap(LevelDatasets, NestedLevels(items[..i + 1]))
         == FlatMap(LevelDatasets, NestedLevels(items[..i])) + DatasetsOf(items[i])
    ensures FlatMap(LevelMentions, NestedLevels(items[..i + 1]))
         == FlatMap(LevelMentions, NestedLevels(items[..i])) + MentionsOf(items[i])
  {
    assert items[..i + 1][..i] == items[..i];
    FlatMapAppend(LevelDatasets, NestedLevels(items[..i]), Levels(items[i]));
    FlatMapAppend(LevelMentions, NestedLevels(items[..i]), Levels(items[i]));
  }

  lemma {:induction false} AddAllAppend(services: seq<DataService>, ms: seq<DataService>, ns: seq<DataService>)
    ensures AddAll(services, ms + ns) == AddAll(AddAll(services, ms), ns)
  {
    if ns == [] {
      assert ms + ns == ms;
    } else {
      var front := ns[..|ns| - 1];
      assert (ms + ns)[..|ms + ns| - 1] == ms + front;
      AddAllAppend(services, ms, front);
    }
  }
}
