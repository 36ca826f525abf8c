/**
 What a catalog cache means (`crates/rdf-store/src/lib.rs`): a map from origin node to catalog, and
 which answers a query may give. Iteration order is free, so several answers may be right.
 */
module CatalogCache {
  import opened Wrappers
  import opened Seqs
  import opened CatalogCore
  import Strings

  type Store = map<NodeId, Catalog>

  datatype CatalogQuery = CatalogQuery(originNode: Option<NodeId>, offset: nat, limit: Option<nat>)

  const ALL := CatalogQuery(None, 0, None)

  ghost predicate KeyedByOrigin(m: Store) {
    forall n :: n in m ==> m[n].originNode == n
  }

  predicate Matches(q: CatalogQuery, c: Catalog) {
    q.originNode.Some? ==> c.originNode == q.originNode.value
  }

  function Matching(m: Store, q: CatalogQuery): Store {
    map n | n in m && Matches(q, m[n]) :: m[n]
  }

  /** `l` lists the catalogs of `m`, each once, in some order. */
  ghost predicate Lists(m: Store, l: seq<Catalog>) {
    && (forall c :: c in l <==> c.originNode in m && m[c.originNode] == c)
    && (forall i, j :: 0 <= i < j < |l| ==> l[i].originNode != l[j].originNode)
  }

  ghost predicate SortedById(l: seq<Catalog>) {
    forall i, j :: 0 <= i < j < |l| ==> Strings.Leq(l[i].id, l[j].id)
  }

  /** Skip `offset`, then take at most `limit`. */
  function Page<T>(l: seq<T>, q: CatalogQuery): seq<T> {
    var skipped := if q.offset <= |l| then l[q.offset..] else [];
    if q.limit.Some? && q.limit.value < |skipped| then skipped[..q.limit.value] else skipped
  }

  /** `r` is a page of some listing of the matching catalogs sorted by id. */
  ghost predicate Answers(m: Store, q: CatalogQuery, r: seq<Catalog>) {
    exists l :: Lists(Matching(m, q), l) && SortedById(l) && r == Page(l, q)
  }

  // ---------------------------------------------------------------- answers spelled out

  /** Ascending by id: one id begins the next, or is smaller where they first differ. */
  ghost predicate Ascending(l: seq<Catalog>) {
    forall i, j :: 0 <= i < j < |l| ==>
      || l[i].id <= l[j].id
      || exists k :: 0 <= k < |l[i].id| && k < |l[j].id| && l[i].id[..k] == l[j].id[..k] && l[i].id[k] < l[j].id[k]
  }

  /** `l` lists the entries of `m`, or of one node only, each once. */
  ghost predicate Selects(m: Store, node: Option<NodeId>, l: seq<Catalog>) {
    && (forall c :: c in l <==> c.originNode in m && m[c.originNode] == c && (node == None || node == Some(c.originNode)))
    && (forall i, j :: 0 <= i < j < |l| ==> l[i].originNode != l[j].originNode)
  }

  /** `r` is what `l` has from `offset` on, up to `limit` elements. */
  ghost predicate IsSlice(l: seq<Catalog>, offset: nat, limit: Option<nat>, r: seq<Catalog>) {
    && |r| == (if |l| <= offset then 0
               else if limit.Some? && limit.value < |l| - offset then limit.value
               else |l| - offset)
    && forall i :: 0 <= i < |r| ==> r[i] == l[offset + i]
  }

  ghost predicate AnswerSpelledOut(m: Store, q: CatalogQuery, r: seq<Catalog>) {
    exists l :: Selects(m, q.originNode, l) && Ascending(l) && IsSlice(l, q.offset, q.limit, r)
  }

  lemma AscendingExactly(l: seq<Catalog>)
    ensures SortedById(l) <==> Ascending(l)
  {
    hide Strings.Leq;
    forall i, j | 0 <= i < j < |l|
      ensures Strings.Leq(l[i].id, l[j].id) <==>
              || l[i].id <= l[j].id
              || exists k :: 0 <= k < |l[i].id| && k < |l[j].id| && l[i].id[..k] == l[j].id[..k] && l[i].id[k] < l[j].id[k]
    {
      Strings.LeqMeans(l[i].id, l[j].id);
    }
  }

  lemma PageExactly(l: seq<Catalog>, q: CatalogQuery, r: seq<Catalog>)
    ensures r == Page(l, q) <==> IsSlice(l, q.offset, q.limit, r)
  {
  }

  lemma SelectsExactly(m: Store, q: CatalogQuery, l: seq<Catalog>)
    ensures Lists(Matching(m, q), l) <==> Selects(m, q.originNode, l)
  {
    if Selects(m, q.originNode, l) {
      forall c ensures c in l <==> c.originNode in Matching(m, q) && Matching(m, q)[c.originNode] == c {}
    }
  }

  /**
   The right answers of a query are the slices, from its offset and up to its limit, of the ascending
   listings of the entries it selects.
   */
  lemma AnswersExactly(m: Store, q: CatalogQuery, r: seq<Catalog>)
    ensures Answers(m, q, r) <==> AnswerSpelledOut(m, q, r)
  {
    hide Lists, Matching, SortedById, Page, Selects, Ascending, IsSlice;
    forall l
      ensures Lists(Matching(m, q), l) && SortedById(l) && r == Page(l, q)
         <==> Selects(m, q.originNode, l) && Ascending(l) && IsSlice(l, q.offset, q.limit, r)
    {
      AscendingExactly(l);
      PageExactly(l, q, r);
      SelectsExactly(m, q, l);
    }
  }

  // ---------------------------------------------------------------- the library sort

  function Insert(c: Catalog, l: seq<Catalog>): seq<Catalog> {
    if l == [] then [c]
    else if Strings.Leq(c.id, l[0].id) then [c] + l
    else [l[0]] + Insert(c, l[1..])
  }

  /** `sort_by(|a, b| a.id.cmp(&b.id))`. */
  function SortById(l: seq<Catalog>): seq<Catalog> {
    if l == [] then [] else Insert(l[0], SortById(l[1..]))
  }

  lemma {:induction false} InsertKeeps(c: Catalog, l: seq<Catalog>)
    ensures multiset(Insert(c, l)) == multiset{c} + multiset(l)
  {
    if l != [] {
      assert l == [l[0]] + l[1..];
      if !Strings.Leq(c.id, l[0].id) {
        InsertKeeps(c, l[1..]);
      }
    }
  }

  lemma PrependKeepsOrder(c: Catalog, l: seq<Catalog>)
    requires SortedById(l) && forall d :: d in multiset(l) ==> Strings.Leq(c.id, d.id)
    ensures SortedById([c] + l)
  {
    forall j | 0 <= j < |l| ensures Strings.Leq(c.id, l[j].id) {
      assert l[j] in multiset(l);
    }
  }

  lemma {:induction false} InsertKeepsOrder(c: Catalog, l: seq<Catalog>)
    requires SortedById(l)
    ensures SortedById(Insert(c, l))
  {
    hide Strings.Leq;
    if l == [] {
    } else if Strings.Leq(c.id, l[0].id) {
      forall d | d in multiset(l) ensures Strings.Leq(c.id, d.id) {
        var j :| 0 <= j < |l| && l[j] == d;
        if j > 0 { Strings.LeqTransitive(c.id, l[0].id, l[j].id); }
      }
      PrependKeepsOrder(c, l);
    } else {
      InsertKeepsOrder(c, l[1..]);
      Strings.LeqTotal(c.id, l[0].id);
      InsertKeeps(c, l[1..]);
      forall d | d in multiset(Insert(c, l[1..])) ensures Strings.Leq(l[0].id, d.id) {
        assert d == c || d in l[1..];
      }
      PrependKeepsOrder(l[0], Insert(c, l[1..]));
    }
  }

  /** The sort returns a sorted permutation of what it was given. */
  lemma {:induction false} SortSorts(l: seq<Catalog>)
    ensures SortedById(SortById(l)) && multiset(SortById(l)) == multiset(l)
  {
    if l != [] {
      SortSorts(l[1..]);
      InsertKeeps(l[0], SortById(l[1..]));
      InsertKeepsOrder(l[0], SortById(l[1..]));
      assert l == [l[0]] + l[1..];
    }
  }

  lemma ListingSorted(m: Store, l: seq<Catalog>)
    requires Lists(m, l)
    ensures Lists(m, SortById(l)) && SortedById(SortById(l))
  {
    var s := SortById(l);
    SortSorts(l);
    forall c ensures c in s <==> c in l {
      assert c in s <==> c in multiset(s);
      assert c in l <==> c in multiset(l);
    }
    forall i, j | 0 <= i < j < |s| ensures s[i].originNode != s[j].originNode {
      if s[i].originNode == s[j].originNode {
        assert s[i] in s && s[j] in s;
        assert s[i] == s[j];
        NoRepetitions(l);
        TwiceMeansTwo(s, i, j);
        assert false;
      }
    }
  }

  lemma TwiceMeansTwo(s: seq<Catalog>, i: nat, j: nat)
    requires i < j < |s| && s[i] == s[j]
    ensures multiset(s)[s[i]] >= 2
  {
    TakeOut(s, i);
    var rest := Without(s, i);
    assert rest[j - 1] == s[j];
    assert s[j] in multiset(rest);
  }

  // ---------------------------------------------------------------- how free the answer is

  function JustId(c: Catalog): seq<string> {
    [c.id]
  }

  function IdOfCatalog(c: Catalog): string {
    c.id
  }

  ghost predicate DistinctCatalogIds(m: Store) {
    forall a, b :: a in m && b in m && a != b ==> m[a].id != m[b].id
  }

  lemma SameIds(m: Store, l1: seq<Catalog>, l2: seq<Catalog>)
    requires Lists(m, l1) && Lists(m, l2) && SortedById(l1) && SortedById(l2)
    ensures multiset(l1) == multiset(l2)
    ensures Map(IdOfCatalog, l1) == Map(IdOfCatalog, l2)
  {
    hide Strings.Leq, FlatMap;
    SameElementsSameMultiset(l1, l2);
    FlatMapPermutation(JustId, l1, l2);
    IdsAreFlat(l1);
    IdsAreFlat(l2);
    Strings.SortedIsUnique(Map(IdOfCatalog, l1), Map(IdOfCatalog, l2));
  }

  lemma ListingsAgree(m: Store, l1: seq<Catalog>, l2: seq<Catalog>)
    requires Lists(m, l1) && Lists(m, l2) && SortedById(l1) && SortedById(l2)
    ensures multiset(l1) == multiset(l2)
    ensures Map(IdOfCatalog, l1) == Map(IdOfCatalog, l2)
    ensures DistinctCatalogIds(m) ==> l1 == l2
  {
    hide SortedById;
    SameIds(m, l1, l2);
    var ids1, ids2 := Map(IdOfCatalog, l1), Map(IdOfCatalog, l2);
    assert |l1| == |ids1| == |ids2| == |l2|;
    if DistinctCatalogIds(m) {
      forall i | 0 <= i < |l1| ensures l1[i] == l2[i] {
        assert ids1[i] == ids2[i];
        assert l1[i] in l1 && l2[i] in l2;
      }
    }
  }

  lemma {:induction false} IdsAreFlat(l: seq<Catalog>)
    ensures FlatMap(JustId, l) == Map(IdOfCatalog, l)
  {
    if l != [] {
      IdsAreFlat(l[..|l| - 1]);
      assert l == l[..|l| - 1] + [l[|l| - 1]];
    }
  }

  /** Any two right answers carry the same ids in the same order; without shared ids they are equal. */
  lemma AnswersAgree(m: Store, q: CatalogQuery, r1: seq<Catalog>, r2: seq<Catalog>)
    requires Answers(m, q, r1) && Answers(m, q, r2)
    ensures Map(IdOfCatalog, r1) == Map(IdOfCatalog, r2)
    ensures DistinctCatalogIds(Matching(m, q)) ==> r1 == r2
    ensures q.offset == 0 && q.limit == None ==> multiset(r1) == multiset(r2)
  {
    hide Lists, SortedById, Matching, DistinctCatalogIds, Page;
    var l1 :| Lists(Matching(m, q), l1) && SortedById(l1) && r1 == Page(l1, q);
    var l2 :| Lists(Matching(m, q), l2) && SortedById(l2) && r2 == Page(l2, q);
    ListingsAgree(Matching(m, q), l1, l2);
    PageOfIds(l1, q);
    PageOfIds(l2, q);
    WholePage(l1, q);
    WholePage(l2, q);
  }

  lemma PageOfIds(l: seq<Catalog>, q: CatalogQuery)
    ensures Map(IdOfCatalog, Page(l, q)) == Page(Map(IdOfCatalog, l), q)
  {
  }

  lemma WholePage(l: seq<Catalog>, q: CatalogQuery)
    ensures q.offset == 0 && q.limit == None ==> Page(l, q) == l
  {
  }

  lemma SingleNodeAnswer(m: Store, n: NodeId, r: seq<Catalog>)
    requires KeyedByOrigin(m) && Answers(m, CatalogQuery(Some(n), 0, None), r)
    ensures r == if n in m then [m[n]] else []
  {
    hide SortedById;
    var q := CatalogQuery(Some(n), 0, None);
    var l: seq<Catalog> :| Lists(Matching(m, q), l) && SortedById(l) && r == Page(l, q);
    assert forall i :: 0 <= i < |l| ==> l[i] in l;
    var expected := if n in m then [m[n]] else [];
    SameElementsSameMultiset(l, expected);
    assert |l| == |multiset(l)| == |multiset(expected)| == |expected|;
    assert l == expected;
  }

  lemma {:induction false} ListingExists(m: Store) returns (l: seq<Catalog>)
    requires KeyedByOrigin(m)
    ensures Lists(m, l)
    decreases m.Keys
  {
    if m == map[] {
      l := [];
    } else {
      var n :| n in m;
      var rest := map k | k in m && k != n :: m[k];
      var tail := ListingExists(rest);
      l := tail + [m[n]];
      forall c ensures c in l <==> c.originNode in m && m[c.originNode] == c {
        assert c in l <==> c in tail || c == m[n];
      }
      forall i, j | 0 <= i < j < |l| ensures l[i].originNode != l[j].originNode {
        assert l[i] in tail;
      }
    }
  }

  function Swap<T>(l: seq<T>, i: nat, j: nat): seq<T>
    requires i < |l| && j < |l|
  {
    l[i := l[j]][j := l[i]]
  }

  lemma SwapListing(m: Store, l: seq<Catalog>, i: nat, j: nat)
    requires Lists(m, l) && SortedById(l)
    requires i < j < |l| && l[i].id == l[j].id
    ensures Lists(m, Swap(l, i, j)) && SortedById(Swap(l, i, j))
  {
    SwapKeepsElements(l, i, j);
    SwapKeepsOrder(l, i, j);
  }

  lemma SwapKeepsElements(l: seq<Catalog>, i: nat, j: nat)
    requires i < j < |l|
    ensures forall c :: c in Swap(l, i, j) <==> c in l
  {
    assert multiset(Swap(l, i, j)) == multiset(l);
    forall c ensures c in Swap(l, i, j) <==> c in l {
      assert c in Swap(l, i, j) <==> c in multiset(Swap(l, i, j));
      assert c in l <==> c in multiset(l);
    }
  }

  lemma SwapKeepsOrder(l: seq<Catalog>, i: nat, j: nat)
    requires SortedById(l) && i < j < |l| && l[i].id == l[j].id
    ensures SortedById(Swap(l, i, j))
  {
    hide Strings.Leq;
    forall k | 0 <= k < |l| ensures Swap(l, i, j)[k].id == l[k].id {}
  }

  /** Every query, under every offset and limit, has one answer only. */
  ghost predicate Determined(m: Store) {
    forall q, r1, r2 :: Answers(m, q, r1) && Answers(m, q, r2) ==> r1 == r2
  }

  /** Pages are reproducible exactly when no two nodes share a catalog id. */
  lemma AnswersAreDeterminedExactlyWhenIdsAreDistinct(m: Store)
    requires KeyedByOrigin(m)
    ensures Determined(m) <==> DistinctCatalogIds(m)
  {
    hide Answers, Page, SortedById;
    if DistinctCatalogIds(m) {
      forall q, r1, r2 | Answers(m, q, r1) && Answers(m, q, r2) ensures r1 == r2 {
        AnswersAgree(m, q, r1, r2);
      }
    } else {
      var a, b :| a in m && b in m && a != b && m[a].id == m[b].id;
      SharedIdIsAmbiguous(m, a, b);
    }
  }

  lemma ListingAnswersAll(m: Store, l: seq<Catalog>)
    requires Lists(m, l) && SortedById(l)
    ensures Answers(m, ALL, l)
  {
    assert Matching(m, ALL) == m;
    assert Page(l, ALL) == l;
  }

  lemma SharedIdIsAmbiguous(m: Store, a: NodeId, b: NodeId)
    requires KeyedByOrigin(m)
    requires a in m && b in m && a != b && m[a].id == m[b].id
    ensures exists r1, r2 :: Answers(m, ALL, r1) && Answers(m, ALL, r2) && r1 != r2
  {
    hide Strings.Leq, SortById, Answers;
    var unsorted := ListingExists(m);
    var l := SortById(unsorted);
    ListingSorted(m, unsorted);
    assert m[a] in l && m[b] in l;
    var i :| 0 <= i < |l| && l[i] == m[a];
    var j :| 0 <= j < |l| && l[j] == m[b];
    var p, q := if i < j then i else j, if i < j then j else i;
    SwapListing(m, l, p, q);
    ListingAnswersAll(m, l);
    ListingAnswersAll(m, Swap(l, p, q));
    assert l[p] != Swap(l, p, q)[p];
  }
}
