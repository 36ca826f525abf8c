/**
 The Oxigraph cache under concurrency. `upsert` is two atomic steps and an unfiltered `query` is one
 listing step and one load step per listed graph; steps of any number of readers and writers interleave.
 */
module ConcurrentCache {
  import opened CatalogCore
  import opened CatalogCache
  import opened NodeIri
  import opened QuadStore

  /** A read in progress: the listed graphs still to load, and the catalogs loaded so far. */
  datatype Read = Read(pending: set<GraphName>, loaded: seq<Catalog>)

  /** The shared store, the upserts between their two steps, and the reads under way or finished. */
  datatype State = State(store: StoreState, writers: map<nat, Catalog>, readers: map<nat, Read>)

  datatype Step =
    | BeginUpsert(w: nat, catalog: Catalog)
    | FinishUpsert(w: nat)
    | AbandonUpsert(w: nat)
    | RemoveNode(node: NodeId)
    | ListGraphs(r: nat)
    | LoadGraph(r: nat, graph: GraphName)

  /** `AbandonUpsert` is an insertion that failed: the removal stands and the writer gives up. */
  ghost predicate Next(s: State, step: Step, s': State) {
    match step
    case BeginUpsert(w, c) =>
      && w !in s.writers
      && RemoveStep(s.store, GraphIri(c.originNode), s'.store)
      && s'.writers == s.writers[w := c]
      && s'.readers == s.readers
    case FinishUpsert(w) =>
      && w in s.writers
      && InsertStep(s.store, QuadFor(s.writers[w]), s'.store)
      && s'.writers == s.writers - {w}
      && s'.readers == s.readers
    case AbandonUpsert(w) =>
      && w in s.writers
      && s' == s.(writers := s.writers - {w})
    case RemoveNode(n) =>
      && RemoveStep(s.store, GraphIri(n), s'.store)
      && s'.writers == s.writers
      && s'.readers == s.readers
    case ListGraphs(r) =>
      && r !in s.readers
      && s' == s.(readers := s.readers[r := Read(s.store.graphs, [])])
    case LoadGraph(r, g) =>
      && r in s.readers && g in s.readers[r].pending
      && exists l :: LoadedInto(s, r, g, l, s')
  }

  ghost predicate LoadedInto(s: State, r: nat, g: GraphName, l: seq<Catalog>, s': State)
    requires r in s.readers
  {
    && Loads(s.store, g, l)
    && s' == s.(readers := s.readers[r := Read(s.readers[r].pending - {g}, s.readers[r].loaded + l)])
  }

  ghost predicate Run(states: seq<State>, steps: seq<Step>) {
    && |states| == |steps| + 1
    && forall i :: 0 <= i < |steps| ==> Next(states[i], steps[i], states[i + 1])
  }

  /** No two upserts in flight are of one node and carry different catalogs. */
  ghost predicate Disciplined(s: State) {
    forall v, w :: v in s.writers && w in s.writers && s.writers[v].originNode == s.writers[w].originNode ==>
      s.writers[v] == s.writers[w]
  }

  lemma SingleWriterIsDisciplined(s: State, writer: nat)
    requires s.writers.Keys <= {writer}
    ensures Disciplined(s)
  {
  }

  ghost predicate Holds(s: State, c: Catalog) {
    QuadFor(c) in s.store.quads
  }

  ghost predicate HoldsNode(s: State, n: NodeId) {
    exists c :: Holds(s, c) && c.originNode == n
  }

  ghost predicate OneQuadPerGraph(s: State) {
    forall p, q :: p in s.store.quads && q in s.store.quads && p.graph == q.graph ==> p == q
  }

  /** Every quad is the one its catalog is stored as, in a listed graph. */
  ghost predicate WellFormed(s: State) {
    forall q :: q in s.store.quads ==> q.term.CatalogLiteral? && q == QuadFor(q.term.catalog) && Named(q.graph) in s.store.graphs
  }

  ghost predicate Inv(s: State) {
    && WellFormed(s)
    && OneQuadPerGraph(s)
    && (forall w, q :: w in s.writers && q in s.store.quads && q.graph == GraphIri(s.writers[w].originNode) ==>
          q == QuadFor(s.writers[w]))
  }

  lemma InvStep(s: State, step: Step, s': State)
    requires Inv(s) && Disciplined(s) && Next(s, step, s')
    ensures Inv(s')
  {
    hide GraphIri;
    match step {
      case FinishUpsert(w) =>
        forall v | v in s'.writers && GraphIri(s.writers[w].originNode) == GraphIri(s'.writers[v].originNode)
          ensures s.writers[v] == s.writers[w]
        {
          GraphIriInjective(s.writers[w].originNode, s.writers[v].originNode);
        }
      case _ =>
    }
  }

  /** Every reachable state has at most one quad per graph, whatever the readers do. */
  lemma {:induction false} StoreIsSafe(states: seq<State>, steps: seq<Step>, k: nat)
    requires Run(states, steps) && Inv(states[0]) && k < |states|
    requires forall i :: 0 <= i < |states| ==> Disciplined(states[i])
    ensures Inv(states[k])
  {
    if k > 0 {
      StoreIsSafe(states, steps, k - 1);
      InvStep(states[k - 1], steps[k - 1], states[k]);
    }
  }

  ghost predicate HeldDuring(states: seq<State>, c: Catalog, from: nat, to: nat) {
    exists k :: from < k < to <= |states| && Holds(states[k], c)
  }

  ghost predicate Contains(loaded: seq<Catalog>, n: NodeId) {
    exists i :: 0 <= i < |loaded| && loaded[i].originNode == n
  }

  /** What is true of a read that listed the graphs at step `b`, in the state before step `e`. */
  ghost predicate ReadInv(states: seq<State>, r: nat, b: nat, e: nat) {
    && b < e < |states|
    && r in states[e].readers
    && var read := states[e].readers[r];
    && (forall i :: 0 <= i < |read.loaded| ==>
          && Named(GraphIri(read.loaded[i].originNode)) !in read.pending
          && HeldDuring(states, read.loaded[i], b, e))
    && (forall i, j :: 0 <= i < j < |read.loaded| ==> read.loaded[i].originNode != read.loaded[j].originNode)
    && (forall n :: (forall k :: b <= k < e ==> HoldsNode(states[k], n)) ==>
          Named(GraphIri(n)) in read.pending || Contains(read.loaded, n))
  }

  lemma ListStarts(states: seq<State>, steps: seq<Step>, r: nat, b: nat)
    requires Run(states, steps) && b < |steps| && steps[b] == ListGraphs(r) && Inv(states[b])
    ensures ReadInv(states, r, b, b + 1)
  {
    forall n | forall k :: b <= k < b + 1 ==> HoldsNode(states[k], n)
      ensures Named(GraphIri(n)) in states[b + 1].readers[r].pending
    {
      assert HoldsNode(states[b], n);
    }
  }

  lemma LoadedIsHeld(s: State, g: GraphName, l: seq<Catalog>)
    requires Inv(s) && Loads(s.store, g, l)
    ensures forall c :: c in l ==> Holds(s, c) && Named(GraphIri(c.originNode)) == g
    ensures forall n :: HoldsNode(s, n) && Named(GraphIri(n)) == g ==> |l| == 1 && l[0].originNode == n
  {
    if |l| == 1 {
      var q :| q in s.store.quads && IsCatalogQuad(q, g) && q.term == CatalogLiteral(l[0]);
      assert q == QuadFor(l[0]);
    }
    forall n | HoldsNode(s, n) && Named(GraphIri(n)) == g ensures |l| == 1 && l[0].originNode == n {
      var c :| Holds(s, c) && c.originNode == n;
      assert IsCatalogQuad(QuadFor(c), g);
      var q :| q in s.store.quads && IsCatalogQuad(q, g) && q.term == CatalogLiteral(l[0]);
      GraphIriInjective(l[0].originNode, n);
    }
  }

  /** A step of anyone else leaves the read alone; its own load adds at most the node of that graph. */
  lemma ReadStep(states: seq<State>, steps: seq<Step>, r: nat, b: nat, e: nat)
    requires Run(states, steps) && e < |steps| && ReadInv(states, r, b, e) && Inv(states[e])
    ensures ReadInv(states, r, b, e + 1)
  {
    var s, s' := states[e], states[e + 1];
    var read := s.readers[r];
    if steps[e].LoadGraph? && steps[e].r == r {
      var g := steps[e].graph;
      var l :| LoadedInto(s, r, g, l, s');
      LoadedIsHeld(s, g, l);
      ReadLoadStep(states, r, b, e, g, l);
    } else {
      assert s'.readers[r] == read;
      forall i | 0 <= i < |read.loaded| ensures HeldDuring(states, read.loaded[i], b, e + 1) {
        var k :| b < k < e <= |states| && Holds(states[k], read.loaded[i]);
      }
    }
  }

  lemma ReadLoadStep(states: seq<State>, r: nat, b: nat, e: nat, g: GraphName, l: seq<Catalog>)
    requires ReadInv(states, r, b, e) && e + 1 < |states|
    requires g in states[e].readers[r].pending && r in states[e + 1].readers
    requires states[e + 1].readers[r] == Read(states[e].readers[r].pending - {g}, states[e].readers[r].loaded + l)
    requires |l| <= 1
    requires forall c :: c in l ==> Holds(states[e], c) && Named(GraphIri(c.originNode)) == g
    requires forall n :: HoldsNode(states[e], n) && Named(GraphIri(n)) == g ==> |l| == 1 && l[0].originNode == n
    ensures ReadInv(states, r, b, e + 1)
  {
    var before, after := states[e].readers[r], states[e + 1].readers[r];
    forall i | 0 <= i < |after.loaded|
      ensures Named(GraphIri(after.loaded[i].originNode)) !in after.pending
      ensures HeldDuring(states, after.loaded[i], b, e + 1)
    {
      if i < |before.loaded| {
        assert after.loaded[i] == before.loaded[i];
        var k :| b < k < e <= |states| && Holds(states[k], before.loaded[i]);
      } else {
        assert after.loaded[i] in l;
        assert Holds(states[e], after.loaded[i]);
      }
    }
    forall i, j | 0 <= i < j < |after.loaded| ensures after.loaded[i].originNode != after.loaded[j].originNode {
      if j == |before.loaded| {
        assert after.loaded[j] in l;
        assert after.loaded[i] == before.loaded[i];
      }
    }
    forall n | forall k :: b <= k < e + 1 ==> HoldsNode(states[k], n)
      ensures Named(GraphIri(n)) in after.pending || Contains(after.loaded, n)
    {
      assert HoldsNode(states[e], n);
      if Contains(before.loaded, n) {
        var i :| 0 <= i < |before.loaded| && before.loaded[i].originNode == n;
        assert after.loaded[i].originNode == n;
      } else if Named(GraphIri(n)) == g {
        assert after.loaded[|before.loaded|].originNode == n;
      }
    }
  }

  lemma {:induction false} ReadIsSafe(states: seq<State>, steps: seq<Step>, r: nat, b: nat, e: nat)
    requires Run(states, steps) && Inv(states[0])
    requires forall i :: 0 <= i < |states| ==> Disciplined(states[i])
    requires b < e <= |steps| && steps[b] == ListGraphs(r)
    ensures ReadInv(states, r, b, e)
    decreases e
  {
    hide Next, ReadInv, Inv;
    if e == b + 1 {
      StoreIsSafe(states, steps, b);
      ListStarts(states, steps, r, b);
    } else {
      ReadIsSafe(states, steps, r, b, e - 1);
      StoreIsSafe(states, steps, e - 1);
      ReadStep(states, steps, r, b, e - 1);
    }
  }

  /** What a finished read returns. */
  function Result(s: State, r: nat): seq<Catalog>
    requires r in s.readers
  {
    SortById(s.readers[r].loaded)
  }

  lemma SortedLoads(loaded: seq<Catalog>)
    requires forall i, j :: 0 <= i < j < |loaded| ==> loaded[i].originNode != loaded[j].originNode
    ensures var result := SortById(loaded);
      && SortedById(result)
      && (forall i, j :: 0 <= i < j < |result| ==> result[i].originNode != result[j].originNode)
      && (forall c :: c in result <==> c in loaded)
  {
    var m := map c | c in loaded :: c.originNode := c;
    assert Lists(m, loaded);
    ListingSorted(m, loaded);
  }

  /**
   Whatever interleaves with it, a finished read returns at most one catalog per node, each held by
   its node at some moment of the read, and one for every node that was cached throughout.
   */
  lemma FinishedReadIsSafe(states: seq<State>, steps: seq<Step>, r: nat, b: nat, e: nat)
    requires Run(states, steps) && Inv(states[0])
    requires forall i :: 0 <= i < |states| ==> Disciplined(states[i])
    requires b < e <= |steps| && steps[b] == ListGraphs(r)
    requires r in states[e].readers && states[e].readers[r].pending == {}
    ensures SortedById(Result(states[e], r))
    ensures var result := Result(states[e], r);
      forall i, j :: 0 <= i < j < |result| ==> result[i].originNode != result[j].originNode
    ensures forall c :: c in Result(states[e], r) ==> HeldDuring(states, c, b, e)
    ensures forall n :: (forall k :: b <= k < e ==> HoldsNode(states[k], n)) ==> Contains(Result(states[e], r), n)
  {
    hide Next, SortById, SortedById, Inv;
    ReadIsSafe(states, steps, r, b, e);
    var loaded := states[e].readers[r].loaded;
    var result := Result(states[e], r);
    SortedLoads(loaded);
    forall n | forall k :: b <= k < e ==> HoldsNode(states[k], n) ensures Contains(result, n) {
      var i :| 0 <= i < |loaded| && loaded[i].originNode == n;
      assert loaded[i] in result;
    }
  }

  // ---------------------------------------------------------------- what does not hold

  /**
   Unlike the map behind its lock, the quad store can make a read miss a node that was cached before the
   read and is cached after it: the read lists and loads between the two steps of a single re-crawl.
   */
  lemma ReadMayMissRecrawledNode(cached: Catalog, recrawled: Catalog) returns (states: seq<State>, steps: seq<Step>)
    requires cached.originNode == recrawled.originNode
    ensures Run(states, steps) && Inv(states[0])
    ensures forall i :: 0 <= i < |states| ==> states[i].writers.Keys <= {0}
    ensures |steps| == 4 && steps[1] == ListGraphs(0) && steps[2].LoadGraph?
    ensures Holds(states[0], cached) && Holds(states[4], recrawled)
    ensures 0 in states[4].readers && states[4].readers[0].pending == {}
    ensures Result(states[4], 0) == []
  {
    var g := Named(GraphIri(cached.originNode));
    var s0 := State(StoreState({QuadFor(cached)}, {g}), map[], map[]);
    var s1 := State(StoreState({}, {g}), map[0 := recrawled], map[]);
    var s2 := s1.(readers := map[0 := Read({g}, [])]);
    var s3 := s1.(readers := map[0 := Read({}, [])]);
    var s4 := State(StoreState({QuadFor(recrawled)}, {g}), map[], map[0 := Read({}, [])]);
    states, steps := [s0, s1, s2, s3, s4], [BeginUpsert(0, recrawled), ListGraphs(0), LoadGraph(0, g), FinishUpsert(0)];
    assert Next(s0, steps[0], s1);
    assert Next(s1, steps[1], s2);
    assert Next(s2, steps[2], s3) by {
      assert Read(s2.readers[0].pending - {g}, s2.readers[0].loaded + []) == Read({}, []);
      assert s2.readers[0 := Read({}, [])] == s3.readers;
      assert LoadedInto(s2, 0, g, [], s3);
    }
    assert Next(s3, steps[3], s4);
  }

  /** A run from the empty store that breaks the discipline and ends with two quads in one graph. */
  lemma RacingUpsertsMayDuplicate(a: Catalog, b: Catalog) returns (states: seq<State>, steps: seq<Step>)
    requires a.originNode == b.originNode && a != b
    ensures Run(states, steps) && Inv(states[0]) && states[0].writers == map[]
    ensures |steps| == 4 && !Disciplined(states[2]) && !OneQuadPerGraph(states[4])
  {
    var s0 := State(StoreState({}, {}), map[], map[]);
    var s1 := s0.(writers := map[0 := a]);
    var s2 := s0.(writers := map[0 := a, 1 := b]);
    assert Next(s0, BeginUpsert(0, a), s1) && Next(s1, BeginUpsert(1, b), s2);
    assert s2.writers[0].originNode == s2.writers[1].originNode;
    RacingUpsertsDuplicate(s2, 0, 1);
    var s3 := Finished(s2, 0);
    states := [s0, s1, s2, s3, Finished(s3, 1)];
    steps := [BeginUpsert(0, a), BeginUpsert(1, b), FinishUpsert(0), FinishUpsert(1)];
  }

  // ---------------------------------------------------------------- exactly when the store stays safe

  function Finished(s: State, w: nat): State
    requires w in s.writers
  {
    var q := QuadFor(s.writers[w]);
    s.(store := StoreState(s.store.quads + {q}, s.store.graphs + {Named(q.graph)}), writers := s.writers - {w})
  }

  /** In any state: two upserts of one node with different catalogs, finished one after the other, duplicate. */
  lemma RacingUpsertsDuplicate(s: State, v: nat, w: nat)
    requires v in s.writers && w in s.writers
    requires s.writers[v].originNode == s.writers[w].originNode && s.writers[v] != s.writers[w]
    ensures
      var s' := Finished(s, v);
      && Next(s, FinishUpsert(v), s')
      && w in s'.writers && Next(s', FinishUpsert(w), Finished(s', w))
      && !OneQuadPerGraph(Finished(s', w))
  {
    var end := Finished(Finished(s, v), w);
    assert QuadFor(s.writers[v]) in end.store.quads && QuadFor(s.writers[w]) in end.store.quads;
  }

  ghost predicate StartsNoUpsert(steps: seq<Step>) {
    forall i :: 0 <= i < |steps| ==> !steps[i].BeginUpsert?
  }

  /** However the upserts in flight end, the store keeps one quad per graph. */
  ghost predicate EndsSafely(s: State) {
    forall states, steps :: Run(states, steps) && states[0] == s && StartsNoUpsert(steps) ==> OneQuadPerGraph(states[|steps|])
  }

  lemma {:induction false} QuietRunIsSafe(states: seq<State>, steps: seq<Step>, k: nat)
    requires Run(states, steps) && Inv(states[0]) && Disciplined(states[0]) && StartsNoUpsert(steps) && k < |states|
    ensures Inv(states[k]) && Disciplined(states[k])
  {
    if k > 0 {
      QuietRunIsSafe(states, steps, k - 1);
      InvStep(states[k - 1], steps[k - 1], states[k]);
      assert Next(states[k - 1], steps[k - 1], states[k]);
    }
  }

  lemma UnsafeNow(s: State)
    requires !OneQuadPerGraph(s)
    ensures !EndsSafely(s)
  {
    var none: seq<Step> := [];
    assert Run([s], none);
  }

  lemma UnsafeAfterOne(s: State, w: nat)
    requires w in s.writers && !OneQuadPerGraph(Finished(s, w))
    ensures !EndsSafely(s)
  {
    var states, steps := [s, Finished(s, w)], [FinishUpsert(w)];
    assert Next(s, FinishUpsert(w), Finished(s, w));
    assert Run(states, steps) && StartsNoUpsert(steps);
  }

  lemma UnsafeAfterTwo(s: State, v: nat, w: nat)
    requires v in s.writers && w in s.writers
    requires s.writers[v].originNode == s.writers[w].originNode && s.writers[v] != s.writers[w]
    ensures !EndsSafely(s)
  {
    RacingUpsertsDuplicate(s, v, w);
    var s' := Finished(s, v);
    var states, steps := [s, s', Finished(s', w)], [FinishUpsert(v), FinishUpsert(w)];
    assert Run(states, steps) && StartsNoUpsert(steps);
  }

  /**
   From any well-formed state the upserts in flight end safely, in every interleaving with readers and
   deletions, exactly when the invariant and the discipline hold: nothing weaker will do.
   */
  lemma SafeExactlyWhenDisciplined(s: State)
    requires WellFormed(s)
    ensures EndsSafely(s) <==> Inv(s) && Disciplined(s)
  {
    hide Run, EndsSafely, Next;
    if Inv(s) && Disciplined(s) {
      assert EndsSafely(s) by { DisciplinedEndsSafely(s); }
    } else if !OneQuadPerGraph(s) {
      UnsafeNow(s);
    } else if !Disciplined(s) {
      var v, w :|
        && v in s.writers && w in s.writers
        && s.writers[v].originNode == s.writers[w].originNode && s.writers[v] != s.writers[w];
      UnsafeAfterTwo(s, v, w);
    } else {
      var w, q :|
        && w in s.writers && q in s.store.quads
        && q.graph == GraphIri(s.writers[w].originNode) && q != QuadFor(s.writers[w]);
      assert q in Finished(s, w).store.quads && QuadFor(s.writers[w]) in Finished(s, w).store.quads;
      UnsafeAfterOne(s, w);
    }
  }

  lemma DisciplinedEndsSafely(s: State)
    requires Inv(s) && Disciplined(s)
    ensures EndsSafely(s)
  {
    hide Next;
    forall states, steps | Run(states, steps) && states[0] == s && StartsNoUpsert(steps)
      ensures OneQuadPerGraph(states[|steps|])
    {
      QuietRunIsSafe(states, steps, |steps|);
    }
  }
}
