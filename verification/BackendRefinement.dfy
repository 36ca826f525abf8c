/** The two cache backends over whole operation sequences: the quad store simulates the map. */
module BackendRefinement {
  import opened Wrappers
  import opened CatalogCore
  import opened CatalogCache
  import opened QuadStore
  import Seqs
  import NodeIri

  datatype Operation = Upsert(catalog: Catalog) | Query(query: CatalogQuery) | Delete(node: NodeId)

  datatype Reply = Done | Listed(catalogs: seq<Catalog>) | Deleted(existed: bool)

  /** One successful operation on the quad store. */
  ghost predicate QuadStep(s: StoreState, op: Operation, s': StoreState, reply: Reply) {
    match op
    case Upsert(c) =>
      reply == Done && exists mid :: RemoveStep(s, NodeIri.GraphIri(c.originNode), mid) && InsertStep(mid, QuadFor(c), s')
    case Query(q) =>
      reply.Listed? && s' == s && QueryStep(s, q, reply.catalogs)
    case Delete(n) =>
      var existed := exists q :: q in s.quads && InOwnGraph(q, NodeIri.GraphIri(n));
      reply == Deleted(existed) && if existed then RemoveStep(s, NodeIri.GraphIri(n), s') else s' == s
  }

  function StoreAfter(m: Store, op: Operation): Store {
    match op
    case Upsert(c) => m[c.originNode := c]
    case Query(_) => m
    case Delete(n) => m - {n}
  }

  /** The replies the map may give; only a query leaves a choice. */
  ghost predicate MayReply(m: Store, op: Operation, reply: Reply) {
    match op
    case Upsert(_) => reply == Done
    case Query(q) => reply.Listed? && Answers(m, q, reply.catalogs)
    case Delete(n) => reply == Deleted(n in m)
  }

  function StoreAfterAll(m: Store, ops: seq<Operation>): Store {
    if ops == [] then m else StoreAfter(StoreAfterAll(m, ops[..|ops| - 1]), ops[|ops| - 1])
  }

  ghost predicate QuadRun(states: seq<StoreState>, ops: seq<Operation>, replies: seq<Reply>) {
    && |states| == |ops| + 1
    && |replies| == |ops|
    && forall i :: 0 <= i < |ops| ==> QuadStep(states[i], ops[i], states[i + 1], replies[i])
  }

  /** A run of the in-memory cache: its state is `StoreAfterAll`, its replies are among those allowed. */
  ghost predicate MapRun(m: Store, ops: seq<Operation>, replies: seq<Reply>) {
    && |replies| == |ops|
    && forall i :: 0 <= i < |ops| ==> MayReply(StoreAfterAll(m, ops[..i]), ops[i], replies[i])
  }

  lemma StepRefines(s: StoreState, m: Store, op: Operation, s': StoreState, reply: Reply)
    requires Represents(s, m) && QuadStep(s, op, s', reply)
    ensures Represents(s', StoreAfter(m, op)) && MayReply(m, op, reply)
  {
    match op
    case Upsert(c) =>
      var mid :| RemoveStep(s, NodeIri.GraphIri(c.originNode), mid) && InsertStep(mid, QuadFor(c), s');
      UpsertRefines(s, m, c, mid, s');
    case Query(q) =>
      QueryRefines(s, m, q, reply.catalogs);
    case Delete(n) =>
      SubjectPresent(s, m, n);
      if n in m {
        RemoveRefines(s, m, n, s');
      } else {
        assert m - {n} == m;
      }
  }

  /**
   The simulation: from a store representing `m`, every run of the quad store represents, after each
   operation, what the map holds after the same operations, and every reply is one the map may give.
   */
  lemma {:induction false} QuadStoreSimulatesMap(states: seq<StoreState>, ops: seq<Operation>, replies: seq<Reply>, m: Store)
    requires QuadRun(states, ops, replies) && Represents(states[0], m)
    ensures forall i :: 0 <= i <= |ops| ==> Represents(states[i], StoreAfterAll(m, ops[..i]))
    ensures MapRun(m, ops, replies)
  {
    var k := 0;
    while k < |ops|
      invariant 0 <= k <= |ops|
      invariant forall i :: 0 <= i <= k ==> Represents(states[i], StoreAfterAll(m, ops[..i]))
      invariant forall i :: 0 <= i < k ==> MayReply(StoreAfterAll(m, ops[..i]), ops[i], replies[i])
    {
      StepRefines(states[k], StoreAfterAll(m, ops[..k]), ops[k], states[k + 1], replies[k]);
      assert ops[..k + 1][..k] == ops[..k];
      k := k + 1;
    }
  }

  /**
   The two backends are behaviour-equivalent from empty: whatever each of them replies to the same
   operations, deletions agree, listings have the same ids in the same order, and they are equal
   whenever no two matching nodes share a catalog id.
   */
  lemma BackendsAgree(states: seq<StoreState>, ops: seq<Operation>, quadReplies: seq<Reply>, mapReplies: seq<Reply>, i: nat)
    requires QuadRun(states, ops, quadReplies) && states[0].quads == {}
    requires MapRun(map[], ops, mapReplies)
    requires i < |ops|
    ensures !ops[i].Query? ==> quadReplies[i] == mapReplies[i]
    ensures ops[i].Query? ==>
      var q, r := quadReplies[i], mapReplies[i];
      && q.Listed? && r.Listed?
      && Seqs.Map(IdOfCatalog, q.catalogs) == Seqs.Map(IdOfCatalog, r.catalogs)
      && (DistinctCatalogIds(Matching(StoreAfterAll(map[], ops[..i]), ops[i].query)) ==> q == r)
      && (ops[i].query.offset == 0 && ops[i].query.limit == None ==> multiset(q.catalogs) == multiset(r.catalogs))
  {
    assert Represents(states[0], map[]);
    QuadStoreSimulatesMap(states, ops, quadReplies, map[]);
    assert MayReply(StoreAfterAll(map[], ops[..i]), ops[i], quadReplies[i]);
    assert MayReply(StoreAfterAll(map[], ops[..i]), ops[i], mapReplies[i]);
    if ops[i].Query? {
      AnswersAgree(StoreAfterAll(map[], ops[..i]), ops[i].query, quadReplies[i].catalogs, mapReplies[i].catalogs);
    }
  }

  /** Writing or deleting one node leaves every other node's query answer as it was. */
  lemma OtherNodesUnaffected(s: StoreState, m: Store, op: Operation, s': StoreState, reply: Reply, n: NodeId, r: seq<Catalog>)
    requires Represents(s, m) && QuadStep(s, op, s', reply)
    requires match op case Upsert(c) => c.originNode != n case Delete(d) => d != n case Query(_) => true
    requires QueryStep(s', CatalogQuery(Some(n), 0, None), r)
    ensures r == if n in m then [m[n]] else []
  {
    StepRefines(s, m, op, s', reply);
    QueryRefines(s', StoreAfter(m, op), CatalogQuery(Some(n), 0, None), r);
    SingleNodeAnswer(StoreAfter(m, op), n, r);
  }
}
