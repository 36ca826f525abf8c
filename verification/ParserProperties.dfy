/** What the parser promises of every JSON document: complete, ordered, first mention wins. */
module ParserProperties {
  import opened Json
  import opened Seqs
  import opened CatalogCore
  import opened CatalogParser

  ghost predicate FirstMention(ms: seq<DataService>, i: nat)
    requires i < |ms|
  {
    forall j :: 0 <= j < i ==> ms[j].id != ms[i].id
  }

  ghost predicate FirstMentionAt(ms: seq<DataService>, s: DataService, i: int) {
    0 <= i < |ms| && ms[i] == s && FirstMention(ms, i)
  }

  ghost predicate Mentioned(ms: seq<DataService>, s: DataService) {
    exists i :: FirstMentionAt(ms, s, i)
  }

  ghost predicate DistinctIds(services: seq<DataService>) {
    forall a, b :: 0 <= a < b < |services| ==> services[a].id != services[b].id
  }

  ghost predicate InMentionOrder(ms: seq<DataService>, services: seq<DataService>) {
    forall a, b, i, j ::
      && 0 <= a < b < |services|
      && FirstMentionAt(ms, services[a], i)
      && FirstMentionAt(ms, services[b], j)
      ==> i < j
  }

  /** The ids listed are exactly those mentioned. */
  lemma {:induction false} IdsCovered(services: seq<DataService>, ms: seq<DataService>, id: string)
    ensures HasService(AddAll(services, ms), id) <==> HasService(services, id) || HasService(ms, id)
  {
    if ms != [] {
      var front, last := ms[..|ms| - 1], ms[|ms| - 1];
      IdsCovered(services, front, id);
      IdsCovered(services, front, last.id);
      assert HasService(ms, id) <==> HasService(front, id) || last.id == id by {
        assert ms == front + [last];
        if HasService(front, id) {
          var s :| s in front && s.id == id;
          assert s in ms;
        }
        if last.id == id { assert last in ms; }
      }
      var r := AddAll(services, front);
      if HasService(r, id) {
        var s :| s in r && s.id == id;
        assert s in AddFirst(r, last);
      }
      if !HasService(r, last.id) { assert last in AddFirst(r, last); }
    }
  }

  /** A kept service has distinct id, is the first mention of that id, and mention order is kept. */
  lemma {:induction false} FirstMentionWins(ms: seq<DataService>)
    ensures DistinctIds(AddAll([], ms))
    ensures forall s :: s in AddAll([], ms) <==> Mentioned(ms, s)
    ensures InMentionOrder(ms, AddAll([], ms))
  {
    if ms != [] {
      var front, last := ms[..|ms| - 1], ms[|ms| - 1];
      var before, after := AddAll([], front), AddAll([], ms);
      FirstMentionWins(front);
      IdsCovered([], front, last.id);
      LastIsFirst(ms);
      forall s ensures s in after <==> Mentioned(ms, s) {
        MentionedExtend(ms, s);
        assert s in after <==> s in before || (s == last && !HasService(front, last.id));
      }
      forall a, b | 0 <= a < b < |after| ensures after[a].id != after[b].id {
        if b == |before| { assert after[a] in before; }
      }
      forall a, b, i, j |
        0 <= a < b < |after| && FirstMentionAt(ms, after[a], i) && FirstMentionAt(ms, after[b], j)
        ensures i < j
      {
        if b < |before| {
          assert Mentioned(front, before[a]) && Mentioned(front, before[b]);
          assert FirstMentionAt(front, after[a], i) && FirstMentionAt(front, after[b], j);
        } else {
          assert after[a] in before;
          assert Mentioned(front, after[a]);
          assert HasService(front, after[a].id);
        }
      }
    }
  }

  lemma LastIsFirst(ms: seq<DataService>)
    requires ms != []
    ensures FirstMention(ms, |ms| - 1) <==> !HasService(ms[..|ms| - 1], ms[|ms| - 1].id)
  {
    var front, last := ms[..|ms| - 1], ms[|ms| - 1];
    if HasService(front, last.id) {
      var s :| s in front && s.id == last.id;
      var j :| 0 <= j < |front| && front[j] == s;
      assert ms[j].id == last.id;
    }
    if !HasService(front, last.id) {
      forall j | 0 <= j < |ms| - 1 ensures ms[j].id != last.id {
        assert front[j] in front;
      }
    }
  }

  lemma MentionedExtend(ms: seq<DataService>, s: DataService)
    requires ms != []
    ensures Mentioned(ms, s) <==>
            Mentioned(ms[..|ms| - 1], s) || (s == ms[|ms| - 1] && FirstMention(ms, |ms| - 1))
  {
    var front := ms[..|ms| - 1];
    if Mentioned(ms, s) {
      var i :| FirstMentionAt(ms, s, i);
      if i < |front| {
        assert FirstMentionAt(front, s, i);
      }
    }
    if Mentioned(front, s) {
      var i :| FirstMentionAt(front, s, i);
      assert FirstMentionAt(ms, s, i);
    }
    if s == ms[|ms| - 1] && FirstMention(ms, |ms| - 1) {
      assert FirstMentionAt(ms, s, |ms| - 1);
    }
  }

  ghost function Rank(ms: seq<DataService>, s: DataService): int {
    if Mentioned(ms, s) then var i :| FirstMentionAt(ms, s, i); i else 0
  }

  lemma HeadIsIn(s: seq<DataService>)
    ensures s != [] ==> s[0] in s
  {
  }

  lemma SameLast(ms: seq<DataService>, r: seq<DataService>, q: seq<DataService>)
    requires r != [] && q != []
    requires forall s :: s in r <==> s in q
    requires forall a, b :: 0 <= a < b < |r| ==> Rank(ms, r[a]) < Rank(ms, r[b])
    requires forall a, b :: 0 <= a < b < |q| ==> Rank(ms, q[a]) < Rank(ms, q[b])
    ensures r[|r| - 1] == q[|q| - 1]
  {
    var x, y := r[|r| - 1], q[|q| - 1];
    assert x in r && y in q;
    var b :| 0 <= b < |q| && q[b] == x;
    var a :| 0 <= a < |r| && r[a] == y;
  }

  lemma {:induction false} IncreasingRanksAreUnique(ms: seq<DataService>, r: seq<DataService>, q: seq<DataService>)
    requires forall s :: s in r <==> s in q
    requires forall a, b :: 0 <= a < b < |r| ==> Rank(ms, r[a]) < Rank(ms, r[b])
    requires forall a, b :: 0 <= a < b < |q| ==> Rank(ms, q[a]) < Rank(ms, q[b])
    ensures r == q
  {
    HeadIsIn(r);
    HeadIsIn(q);
    hide Rank;
    if r != [] && q != [] {
      var x := r[|r| - 1];
      SameLast(ms, r, q);
      var r', q' := r[..|r| - 1], q[..|q| - 1];
      assert r == r' + [x] && q == q' + [x];
      forall s ensures s in r' <==> s in q' {
        assert s in r <==> s in r' || s == x;
        assert s in q <==> s in q' || s == x;
      }
      IncreasingRanksAreUnique(ms, r', q');
    }
  }

  /** The three properties of `FirstMentionWins` leave no choice: they determine the service list. */
  lemma FirstMentionsAreUnique(ms: seq<DataService>, r: seq<DataService>)
    requires forall s :: s in r <==> Mentioned(ms, s)
    requires DistinctIds(r) && InMentionOrder(ms, r)
    ensures r == AddAll([], ms)
  {
    FirstMentionWins(ms);
    var q := AddAll([], ms);
    forall a, b | 0 <= a < b < |r| ensures Rank(ms, r[a]) < Rank(ms, r[b]) {
      assert r[a] in r && r[b] in r;
    }
    forall a, b | 0 <= a < b < |q| ensures Rank(ms, q[a]) < Rank(ms, q[b]) {
      assert q[a] in q && q[b] in q;
    }
    IncreasingRanksAreUnique(ms, r, q);
  }

  /**
   A distribution whose `accessService` is an object with an id is kept with that id, and the id
   names a service of the parsed catalog - at every nesting level.
   */
  lemma AccessServicesResolve(v: Json, level: Json, entry: Json, distribution: Json)
    requires level in Levels(v) && entry in Entries(level, "dataset") && IdOf(entry).Some?
    requires distribution in Entries(entry, "distribution")
    requires Get(distribution, "accessService").Some? && Get(distribution, "accessService").value.Obj?
    requires IdOf(Get(distribution, "accessService").value).Some?
    ensures exists d :: d in DatasetsOf(v) && d.id == IdOf(entry).value && DistributionOf(distribution) in d.distributions
    ensures HasService(AddAll([], MentionsOf(v)), DistributionOf(distribution).accessService)
  {
    hide DistributionOf, AddAll;
    DatasetIsKept(v, level, entry, distribution);
    AccessServiceIsMentioned(v, level, entry, distribution);
    AccessServiceIsNamed(distribution);
    IdsCovered([], MentionsOf(v), DistributionOf(distribution).accessService);
  }

  lemma DatasetIsKept(v: Json, level: Json, entry: Json, distribution: Json)
    requires level in Levels(v) && entry in Entries(level, "dataset") && IdOf(entry).Some?
    requires distribution in Entries(entry, "distribution")
    ensures exists d :: d in DatasetsOf(v) && d.id == IdOf(entry).value && DistributionOf(distribution) in d.distributions
  {
    hide DistributionOf, Levels, FlatMap, Entries, IdOf;
    var d := KeptDataset(entry)[0];
    var k :| 0 <= k < |Entries(entry, "distribution")| && Entries(entry, "distribution")[k] == distribution;
    assert d.distributions[k] == DistributionOf(distribution);
    InFlatMap(KeptDataset, Entries(level, "dataset"), d);
    InFlatMap(LevelDatasets, Levels(v), d);
  }

  lemma AccessServiceIsMentioned(v: Json, level: Json, entry: Json, distribution: Json)
    requires level in Levels(v) && entry in Entries(level, "dataset") && IdOf(entry).Some?
    requires distribution in Entries(entry, "distribution")
    ensures forall s :: s in AccessServiceMention(distribution) ==> HasService(MentionsOf(v), s.id)
  {
    hide AccessServiceMention, Levels, FlatMap, Entries, IdOf;
    forall s | s in AccessServiceMention(distribution) ensures HasService(MentionsOf(v), s.id) {
      InFlatMap(AccessServiceMention, Entries(entry, "distribution"), s);
      InFlatMap(DatasetMentions, Entries(level, "dataset"), s);
      InFlatMap(LevelMentions, Levels(v), s);
    }
  }

  lemma AccessServiceIsNamed(distribution: Json)
    requires Get(distribution, "accessService").Some? && Get(distribution, "accessService").value.Obj?
    requires IdOf(Get(distribution, "accessService").value).Some?
    ensures exists s :: s in AccessServiceMention(distribution) && s.id == DistributionOf(distribution).accessService
  {
    assert AccessServiceMention(distribution)[0] in AccessServiceMention(distribution);
  }
}
