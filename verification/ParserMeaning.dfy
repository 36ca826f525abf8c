/**
 What the parser reads, in terms of the members of the JSON: which values are services and datasets, what
 each of their fields is, and in which order services are met.
 */
module ParserMeaning {
  import opened Wrappers
  import opened Json
  import opened Seqs
  import opened CatalogCore
  import opened CatalogParser
  import opened ParserProperties

  // ---------------------------------------------------------------- members

  /** The string under the key, the empty one if there is none. */
  ghost predicate TextOrEmpty(v: Json, key: string, s: string) {
    TextAt(v, key, s) || (s == "" && forall t :: !TextAt(v, key, t))
  }

  ghost predicate TextIfAny(v: Json, key: string, s: Option<string>) {
    match s
    case Some(t) => TextAt(v, key, t)
    case None => forall t :: !TextAt(v, key, t)
  }

  /** The string at `@id`, or at `id` if there is no `@id` at all. */
  ghost predicate Identifies(v: Json, id: string) {
    if v.Obj? && "@id" in v.members then v.members["@id"] == Str(id) else TextAt(v, "id", id)
  }

  ghost predicate ListAt(v: Json, key: string, items: seq<Json>) {
    v.Obj? && key in v.members && v.members[key] == Arr(items)
  }

  ghost predicate ItemAt(v: Json, key: string, item: Json) {
    exists items :: ListAt(v, key, items) && item in items
  }

  lemma ItemsAreEntries(v: Json, key: string, item: Json)
    ensures item in Entries(v, key) <==> ItemAt(v, key, item)
  {
    if item in Entries(v, key) {
      assert ListAt(v, key, Entries(v, key));
    }
  }

  lemma IdentifiesExactly(v: Json, id: string)
    ensures IdOf(v) == Some(id) <==> Identifies(v, id)
  {
  }

  lemma TextsExactly(v: Json, key: string)
    ensures TextOrEmpty(v, key, GetStr(v, key).GetOr(""))
    ensures forall s :: TextOrEmpty(v, key, s) ==> s == GetStr(v, key).GetOr("")
    ensures forall s :: TextIfAny(v, key, s) <==> s == GetStr(v, key)
  {
    forall s ensures TextAt(v, key, s) <==> GetStr(v, key) == Some(s) {}
    forall s ensures TextIfAny(v, key, s) <==> s == GetStr(v, key) {
      if s.None? && GetStr(v, key).Some? {
        assert TextAt(v, key, GetStr(v, key).value);
      }
    }
  }

  // ---------------------------------------------------------------- services

  /** The value mentions this service, field by field. */
  ghost predicate Mentions(v: Json, s: DataService) {
    && Identifies(v, s.id)
    && TextOrEmpty(v, "endpointURL", s.endpointUrl)
    && TextIfAny(v, "endpointDescription", s.endpointDescription)
  }

  lemma MentionsExactly(v: Json, s: DataService)
    ensures s in ServiceMention(v) <==> Mentions(v, s)
    ensures |ServiceMention(v)| <= 1
  {
    hide TextOrEmpty, TextIfAny, Identifies, IdOf;
    IdentifiesExactly(v, s.id);
    TextsExactly(v, "endpointURL");
    TextsExactly(v, "endpointDescription");
  }

  /** The service is an entry of the level's `service` list. */
  ghost predicate Listed(level: Json, s: DataService) {
    exists v :: ItemAt(level, "service", v) && Mentions(v, s)
  }

  /** The distribution's `accessService` is an object that mentions the service. */
  ghost predicate GivesAccessBy(distribution: Json, s: DataService) {
    && distribution.Obj? && "accessService" in distribution.members
    && distribution.members["accessService"].Obj? && Mentions(distribution.members["accessService"], s)
  }

  /** So does one of an identifiable dataset of the level. */
  ghost predicate Embedded(level: Json, s: DataService) {
    exists entry, distribution ::
      && ItemAt(level, "dataset", entry) && (exists id :: Identifies(entry, id))
      && ItemAt(entry, "distribution", distribution) && GivesAccessBy(distribution, s)
  }

  lemma ListedExactly(level: Json, s: DataService)
    ensures s in FlatMap(ServiceMention, Entries(level, "service")) <==> Listed(level, s)
  {
    hide FlatMap, Entries, ServiceMention, Mentions, ItemAt;
    InFlatMap(ServiceMention, Entries(level, "service"), s);
    forall v ensures v in Entries(level, "service") && s in ServiceMention(v) <==> ItemAt(level, "service", v) && Mentions(v, s) {
      ItemsAreEntries(level, "service", v);
      MentionsExactly(v, s);
    }
  }

  lemma GivesAccessExactly(distribution: Json, s: DataService)
    ensures s in AccessServiceMention(distribution) <==> GivesAccessBy(distribution, s)
  {
    hide ServiceMention, Mentions;
    match Get(distribution, "accessService") {
      case Some(Obj(members)) => MentionsExactly(Obj(members), s);
      case _ =>
    }
  }

  lemma EmbeddedExactly(level: Json, s: DataService)
    ensures s in FlatMap(DatasetMentions, Entries(level, "dataset")) <==> Embedded(level, s)
  {
    hide FlatMap, Entries, AccessServiceMention, GivesAccessBy, ItemAt, IdOf, Identifies;
    InFlatMap(DatasetMentions, Entries(level, "dataset"), s);
    forall entry
      ensures entry in Entries(level, "dataset") <==> ItemAt(level, "dataset", entry)
      ensures s in DatasetMentions(entry) <==>
              && (exists id :: Identifies(entry, id))
              && exists distribution :: ItemAt(entry, "distribution", distribution) && GivesAccessBy(distribution, s)
    {
      ItemsAreEntries(level, "dataset", entry);
      EntryEmbedsExactly(entry, s);
    }
  }

  lemma EntryEmbedsExactly(entry: Json, s: DataService)
    ensures s in DatasetMentions(entry) <==>
            && (exists id :: Identifies(entry, id))
            && exists distribution :: ItemAt(entry, "distribution", distribution) && GivesAccessBy(distribution, s)
  {
    hide FlatMap, Entries, AccessServiceMention, GivesAccessBy, ItemAt, IdOf, Identifies;
    forall id ensures IdOf(entry) == Some(id) <==> Identifies(entry, id) {
      IdentifiesExactly(entry, id);
    }
    assert IdOf(entry).Some? <==> exists id :: Identifies(entry, id) by {
      if IdOf(entry).Some? {
        assert Identifies(entry, IdOf(entry).value);
      }
    }
    InFlatMap(AccessServiceMention, Entries(entry, "distribution"), s);
    forall distribution
      ensures distribution in Entries(entry, "distribution") <==> ItemAt(entry, "distribution", distribution)
      ensures s in AccessServiceMention(distribution) <==> GivesAccessBy(distribution, s)
    {
      ItemsAreEntries(entry, "distribution", distribution);
      GivesAccessExactly(distribution, s);
    }
  }

  // ---------------------------------------------------------------- levels and documents

  lemma {:induction false} InNestedLevels(items: seq<Json>, level: Json)
    ensures level in NestedLevels(items) <==> exists v :: v in items && level in Levels(v)
  {
    if items != [] {
      var front, last := items[..|items| - 1], items[|items| - 1];
      InNestedLevels(front, level);
      assert items == front + [last];
      if v :| v in items && level in Levels(v) {
        assert v in front || v == last;
      }
      if v :| v in front && level in Levels(v) {
        assert v in items;
      }
      if level in Levels(last) {
        assert last in items;
      }
    }
  }

  /** The levels of a document are itself and the levels of what its `catalog` lists. */
  lemma LevelsExactly(v: Json, level: Json)
    ensures level in Levels(v) <==> level == v || exists nested :: ItemAt(v, "catalog", nested) && level in Levels(nested)
  {
    hide ItemAt, NestedLevels;
    InNestedLevels(Entries(v, "catalog"), level);
    forall nested ensures nested in Entries(v, "catalog") <==> ItemAt(v, "catalog", nested) {
      ItemsAreEntries(v, "catalog", nested);
    }
    assert AsArray(Get(v, "catalog")).None? ==> NestedLevels(Entries(v, "catalog")) == [] by { NoNestedLevels(v); }
    assert Levels(v) == [v] + NestedLevels(Entries(v, "catalog"));
  }

  lemma NoNestedLevels(v: Json)
    ensures AsArray(Get(v, "catalog")).None? ==> NestedLevels(Entries(v, "catalog")) == []
  {
  }

  /** A document mentions exactly the services listed or embedded at one of its levels. */
  lemma MentionedExactly(v: Json, s: DataService)
    ensures s in MentionsOf(v) <==> exists level :: level in Levels(v) && (Listed(level, s) || Embedded(level, s))
  {
    hide FlatMap, Levels, Listed, Embedded;
    InFlatMap(LevelMentions, Levels(v), s);
    forall level ensures s in LevelMentions(level) <==> Listed(level, s) || Embedded(level, s) {
      ListedExactly(level, s);
      EmbeddedExactly(level, s);
    }
  }

  /**
   The parsed catalog lists nothing but services the document mentions, and one for every id it mentions;
   a service whose id is mentioned in no other way is there with all its fields.
   */
  lemma ParsedServicesExactly(v: Json, node: NodeId, freshId: string, s: DataService)
    ensures
      var services := ParsedCatalog(v, node, freshId).dataServices;
      && (s in services ==> exists level :: level in Levels(v) && (Listed(level, s) || Embedded(level, s)))
      && ((exists level :: level in Levels(v) && (Listed(level, s) || Embedded(level, s))) ==>
            && HasService(services, s.id)
            && ((forall other, level ::
                  level in Levels(v) && (Listed(level, other) || Embedded(level, other)) && other.id == s.id ==> other == s)
                ==> s in services))
  {
    hide MentionsOf, Levels, Listed, Embedded, AddAll, DatasetsOf, Mentioned;
    var ms := MentionsOf(v);
    var services := AddAll([], ms);
    MentionedExactly(v, s);
    FirstMentionWins(ms);
    IdsCovered([], ms, s.id);
    if s in services { MentionedIsIn(ms, s); }
    if s in ms {
      assert HasService(ms, s.id);
      var kept :| kept in services && kept.id == s.id;
      MentionedIsIn(ms, kept);
      MentionedExactly(v, kept);
    }
  }

  lemma MentionedIsIn(ms: seq<DataService>, s: DataService)
    ensures Mentioned(ms, s) ==> s in ms
  {
  }

  // ---------------------------------------------------------------- order

  lemma {:induction false} FirstInPrefix(ms: seq<DataService>, more: seq<DataService>, s: DataService)
    ensures Mentioned(ms, s) ==> Mentioned(ms + more, s)
  {
    if Mentioned(ms, s) {
      var i :| FirstMentionAt(ms, s, i);
      assert FirstMentionAt(ms + more, s, i);
    }
  }

  /** At one level the entries of `service` come before everything embedded in datasets. */
  lemma ListedComeFirst(level: Json) returns (k: nat)
    ensures k <= |LevelMentions(level)|
    ensures forall s :: s in LevelMentions(level)[..k] <==> Listed(level, s)
    ensures forall s :: s in LevelMentions(level)[k..] <==> Embedded(level, s)
  {
    hide FlatMap, Listed, Embedded;
    var listed := FlatMap(ServiceMention, Entries(level, "service"));
    var embedded := FlatMap(DatasetMentions, Entries(level, "dataset"));
    k := |listed|;
    assert LevelMentions(level)[..k] == listed && LevelMentions(level)[k..] == embedded;
    forall s ensures s in listed <==> Listed(level, s) { ListedExactly(level, s); }
    forall s ensures s in embedded <==> Embedded(level, s) { EmbeddedExactly(level, s); }
  }

  lemma {:induction false} LeadingMentionIsFirst(items: seq<Json>, k: nat, s: DataService)
    requires k < |items| && Mentions(items[k], s)
    requires forall j, t :: 0 <= j < k && Mentions(items[j], t) ==> t.id != s.id
    ensures Mentioned(FlatMap(ServiceMention, items), s)
  {
    hide Mentions, ServiceMention;
    var before, rest := items[..k], items[k + 1..];
    assert items == before + [items[k]] + rest;
    FlatMapAppend(ServiceMention, before + [items[k]], rest);
    FlatMapAppend(ServiceMention, before, [items[k]]);
    FlatMapOne(ServiceMention, items[k]);
    var earlier := FlatMap(ServiceMention, before);
    forall i | 0 <= i < |earlier| ensures earlier[i].id != s.id {
      InFlatMap(ServiceMention, before, earlier[i]);
      var v :| v in before && earlier[i] in ServiceMention(v);
      var j :| 0 <= j < k && items[j] == v;
      MentionsExactly(items[j], earlier[i]);
    }
    MentionsExactly(items[k], s);
    assert ServiceMention(items[k]) == [s];
    assert FirstMentionAt(earlier + [s], s, |earlier|);
    FirstInPrefix(earlier + [s], FlatMap(ServiceMention, rest), s);
  }

  /**
   The first entry of its id in the top-level `service` list is in the parsed catalog with all its fields,
   whatever `accessService` objects and nested catalogs say about that id.
   */
  lemma TopLevelEntryWins(v: Json, node: NodeId, freshId: string, items: seq<Json>, k: nat, s: DataService)
    requires ListAt(v, "service", items) && k < |items| && Mentions(items[k], s)
    requires forall j, t :: 0 <= j < k && Mentions(items[j], t) ==> t.id != s.id
    ensures s in ParsedCatalog(v, node, freshId).dataServices
  {
    hide Mentions, FlatMap, ServiceMention, Levels, AddAll, DatasetsOf, MentionsOf, NestedLevels, Mentioned, DatasetMentions;
    var listed := FlatMap(ServiceMention, items);
    assert Entries(v, "service") == items;
    LeadingMentionIsFirst(items, k, s);
    LevelsUnfold(v);
    var embedded := FlatMap(DatasetMentions, Entries(v, "dataset"));
    var nested := FlatMap(LevelMentions, NestedLevels(Entries(v, "catalog")));
    FirstInPrefix(listed, embedded, s);
    FirstInPrefix(listed + embedded, nested, s);
    FirstMentionWins(MentionsOf(v));
  }

  // ---------------------------------------------------------------- datasets

  /** Which service a distribution names: a string, an object's id, or nothing. */
  ghost predicate NamesService(v: Json, name: string) {
    if v.Obj? && "accessService" in v.members && v.members["accessService"].Obj? then
      Identifies(v.members["accessService"], name) || (name == "" && forall id :: !Identifies(v.members["accessService"], id))
    else TextOrEmpty(v, "accessService", name)
  }

  ghost predicate DistributionReads(v: Json, d: Distribution) {
    TextOrEmpty(v, "format", d.format) && NamesService(v, d.accessService)
  }

  /** An entry with an id is a dataset of that id, with one distribution for each element of `distribution`. */
  ghost predicate DatasetReads(v: Json, d: Dataset) {
    && Identifies(v, d.id)
    && d.properties == map[]
    && |d.distributions| == |Entries(v, "distribution")|
    && forall i :: 0 <= i < |d.distributions| ==> DistributionReads(Entries(v, "distribution")[i], d.distributions[i])
  }

  lemma NamesServiceExactly(v: Json, name: string)
    ensures AccessServiceOf(v) == name <==> NamesService(v, name)
  {
    hide TextOrEmpty, Identifies, IdOf;
    TextsExactly(v, "accessService");
    match Get(v, "accessService") {
      case Some(Obj(members)) =>
        forall id ensures IdOf(Obj(members)) == Some(id) <==> Identifies(Obj(members), id) {
          IdentifiesExactly(Obj(members), id);
        }
        if IdOf(Obj(members)).Some? {
          assert Identifies(Obj(members), IdOf(Obj(members)).value);
        }
      case _ =>
    }
  }

  lemma DistributionReadsExactly(v: Json, d: Distribution)
    ensures DistributionOf(v) == d <==> DistributionReads(v, d)
  {
    hide TextOrEmpty, NamesService, AccessServiceOf;
    TextsExactly(v, "format");
    NamesServiceExactly(v, d.accessService);
  }

  lemma DatasetReadsExactly(v: Json, d: Dataset)
    ensures d in KeptDataset(v) <==> DatasetReads(v, d)
    ensures |KeptDataset(v)| <= 1
  {
    hide DistributionOf, DistributionReads, Identifies, IdOf, Entries;
    IdentifiesExactly(v, d.id);
    var items := Entries(v, "distribution");
    forall i | 0 <= i < |items| && i < |d.distributions|
      ensures DistributionOf(items[i]) == d.distributions[i] <==> DistributionReads(items[i], d.distributions[i])
    {
      DistributionReadsExactly(items[i], d.distributions[i]);
    }
    if DatasetReads(v, d) {
      assert Map(DistributionOf, items) == d.distributions;
    }
  }

  /** The parsed catalog has exactly the datasets that entries of `dataset` read as, at any of its levels. */
  lemma ParsedDatasetsExactly(v: Json, node: NodeId, freshId: string, d: Dataset)
    ensures d in ParsedCatalog(v, node, freshId).datasets <==>
            exists level, entry :: level in Levels(v) && ItemAt(level, "dataset", entry) && DatasetReads(entry, d)
  {
    hide FlatMap, Levels, MentionsOf, AddAll, KeptDataset, DatasetReads, ItemAt, Entries;
    InFlatMap(LevelDatasets, Levels(v), d);
    forall level
      ensures d in LevelDatasets(level) <==> exists entry :: ItemAt(level, "dataset", entry) && DatasetReads(entry, d)
    {
      InFlatMap(KeptDataset, Entries(level, "dataset"), d);
      forall entry
        ensures entry in Entries(level, "dataset") && d in KeptDataset(entry) <==> ItemAt(level, "dataset", entry) && DatasetReads(entry, d)
      {
        ItemsAreEntries(level, "dataset", entry);
        DatasetReadsExactly(entry, d);
      }
    }
  }

  /** The catalog's own fields. */
  lemma ParsedHeaderExactly(v: Json, node: NodeId, freshId: string)
    ensures
      var c := ParsedCatalog(v, node, freshId);
      && (TextAt(v, "@id", c.id) || (c.id == freshId && forall t :: !TextAt(v, "@id", t)))
      && c.originNode == node
      && TextIfAny(v, "participantId", c.participantId)
      && c.properties == map[]
  {
    hide DatasetsOf, MentionsOf, AddAll, TextIfAny;
    TextsExactly(v, "participantId");
  }
}
