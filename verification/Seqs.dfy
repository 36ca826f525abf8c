/** Sequence functions shared by the parser, the renderer and the caches. */
module Seqs {

  function Map<A, B>(f: A -> B, s: seq<A>): (r: seq<B>)
    ensures |r| == |s|
    ensures forall i :: 0 <= i < |s| ==> r[i] == f(s[i])
  {
    seq(|s|, i requires 0 <= i < |s| => f(s[i]))
  }

  lemma ConcatAssociative<A>(a: seq<A>, b: seq<A>, c: seq<A>)
    ensures a + b + c == a + (b + c)
  {
  }

  lemma MapStep<A, B>(f: A -> B, s: seq<A>, i: nat)
    requires i < |s|
    ensures Map(f, s[..i + 1]) == Map(f, s[..i]) + [f(s[i])]
  {
  }

  function FlatMap<A, B>(f: A -> seq<B>, s: seq<A>): seq<B> {
    if s == [] then [] else FlatMap(f, s[..|s| - 1]) + f(s[|s| - 1])
  }

  lemma FlatMapStep<A, B>(f: A -> seq<B>, s: seq<A>, i: nat)
    requires i < |s|
    ensures FlatMap(f, s[..i + 1]) == FlatMap(f, s[..i]) + f(s[i])
  {
    assert s[..i + 1][..i] == s[..i];
  }

  lemma {:induction false} FlatMapAppend<A, B>(f: A -> seq<B>, s: seq<A>, t: seq<A>)
    ensures FlatMap(f, s + t) == FlatMap(f, s) + FlatMap(f, t)
  {
    if t == [] {
      assert s + t == s;
    } else {
      var front := t[..|t| - 1];
      assert (s + t)[..|s + t| - 1] == s + front;
      FlatMapAppend(f, s, front);
    }
  }

  lemma FlatMapOne<A, B>(f: A -> seq<B>, x: A)
    ensures FlatMap(f, [x]) == f(x)
  {
    assert [x][..0] == [];
  }

  lemma {:induction false} InFlatMap<A, B>(f: A -> seq<B>, s: seq<A>, y: B)
    ensures y in FlatMap(f, s) <==> exists x :: x in s && y in f(x)
  {
    if s != [] {
      var front, last := s[..|s| - 1], s[|s| - 1];
      InFlatMap(f, front, y);
      assert s == front + [last];
      if x :| x in s && y in f(x) {
        assert x in front || x == last;
      }
      if x :| x in front && y in f(x) {
        assert x in s;
      }
      if y in f(last) {
        assert last in s;
      }
    }
  }

  /** Two sequences without repetitions and with the same elements are permutations of each other. */
  lemma {:induction false} SameElementsSameMultiset<A>(s: seq<A>, t: seq<A>)
    requires forall i, j :: 0 <= i < j < |s| ==> s[i] != s[j]
    requires forall i, j :: 0 <= i < j < |t| ==> t[i] != t[j]
    requires forall x :: x in s <==> x in t
    ensures multiset(s) == multiset(t)
  {
    NoRepetitions(s);
    NoRepetitions(t);
    forall x ensures multiset(s)[x] == multiset(t)[x] {
      assert x in s <==> x in multiset(s);
      assert x in t <==> x in multiset(t);
    }
  }

  lemma {:induction false} NoRepetitions<A>(s: seq<A>)
    requires forall i, j :: 0 <= i < j < |s| ==> s[i] != s[j]
    ensures forall x :: x in multiset(s) ==> multiset(s)[x] == 1
  {
    if s != [] {
      var front := s[..|s| - 1];
      NoRepetitions(front);
      assert s == front + [s[|s| - 1]];
    }
  }

  lemma {:induction false} FlatMapOfSingletons<A(!new), B, C>(f: B -> seq<C>, g: A -> B, h: A -> C, s: seq<A>)
    requires forall x :: f(g(x)) == [h(x)]
    ensures FlatMap(f, Map(g, s)) == Map(h, s)
  {
    if s != [] {
      var front := s[..|s| - 1];
      assert Map(g, s)[..|s| - 1] == Map(g, front);
      FlatMapOfSingletons(f, g, h, front);
      MapStep(h, s, |front|);
      assert s[..|front| + 1] == s;
    }
  }

  lemma {:induction false} FlatMapOfNothing<A(!new), B, C>(f: B -> seq<C>, g: A -> B, s: seq<A>)
    requires forall x :: f(g(x)) == []
    ensures FlatMap(f, Map(g, s)) == []
  {
    if s != [] {
      var front := s[..|s| - 1];
      assert Map(g, s)[..|s| - 1] == Map(g, front);
      FlatMapOfNothing(f, g, front);
    }
  }

  /** Mapping before flattening commutes with flattening before mapping. */
  lemma {:induction false} FlatMapOfMap<A(!new), B, C, D>(f: B -> seq<C>, g: A -> B, h: D -> C, k: A -> seq<D>, s: seq<A>)
    requires forall x :: f(g(x)) == Map(h, k(x))
    ensures FlatMap(f, Map(g, s)) == Map(h, FlatMap(k, s))
  {
    if s != [] {
      var front, last := s[..|s| - 1], s[|s| - 1];
      assert Map(g, s)[..|s| - 1] == Map(g, front);
      FlatMapOfMap(f, g, h, k, front);
      MapAppend(h, FlatMap(k, front), k(last));
    }
  }

  lemma MapAppend<A, B>(f: A -> B, s: seq<A>, t: seq<A>)
    ensures Map(f, s + t) == Map(f, s) + Map(f, t)
  {
  }

  function Without<A>(s: seq<A>, k: nat): seq<A>
    requires k < |s|
  {
    s[..k] + s[k + 1..]
  }

  lemma TakeOut<A>(s: seq<A>, k: nat)
    requires k < |s|
    ensures multiset(s) == multiset(Without(s, k)) + multiset{s[k]}
    ensures |Without(s, k)| == |s| - 1
  {
    assert s == s[..k] + [s[k]] + s[k + 1..];
  }

  lemma FlatMapTakeOut<A, B>(f: A -> seq<B>, s: seq<A>, k: nat)
    requires k < |s|
    ensures multiset(FlatMap(f, s)) == multiset(FlatMap(f, Without(s, k))) + multiset(f(s[k]))
  {
    hide FlatMap;
    var before, after := s[..k], s[k + 1..];
    assert s == before + [s[k]] + after;
    FlatMapAppend(f, before + [s[k]], after);
    FlatMapAppend(f, before, [s[k]]);
    FlatMapOne(f, s[k]);
    FlatMapAppend(f, before, after);
    MiddleOut(FlatMap(f, before), f(s[k]), FlatMap(f, after));
  }

  lemma MiddleOut<A>(a: seq<A>, b: seq<A>, c: seq<A>)
    ensures multiset(a + b + c) == multiset(a + c) + multiset(b)
  {
  }

  lemma Cancel<A>(a: multiset<A>, b: multiset<A>, c: multiset<A>)
    requires a + c == b + c
    ensures a == b
  {
    assert a == (a + c) - c;
    assert b == (b + c) - c;
  }

  /** A permutation has the first element somewhere, and without it is a permutation of the rest. */
  lemma FindFirst<A>(s: seq<A>, t: seq<A>) returns (k: nat)
    requires s != [] && multiset(s) == multiset(t)
    ensures k < |t| && t[k] == s[0] && multiset(Without(s, 0)) == multiset(Without(t, k))
  {
    hide Without;
    assert s[0] in multiset(t);
    k :| 0 <= k < |t| && t[k] == s[0];
    TakeOut(s, 0);
    TakeOut(t, k);
    Cancel(multiset(Without(s, 0)), multiset(Without(t, k)), multiset{s[0]});
  }

  /** Permuting the input of `FlatMap` permutes its output. */
  lemma {:induction false} FlatMapPermutation<A, B>(f: A -> seq<B>, s: seq<A>, t: seq<A>)
    requires multiset(s) == multiset(t)
    ensures multiset(FlatMap(f, s)) == multiset(FlatMap(f, t))
    decreases |s|
  {
    hide FlatMap, Without;
    if s == [] {
      assert t == [] by {
        assert |multiset(t)| == |t|;
      }
    } else {
      var k := FindFirst(s, t);
      TakeOut(s, 0);
      FlatMapTakeOut(f, s, 0);
      FlatMapTakeOut(f, t, k);
      FlatMapPermutation(f, Without(s, 0), Without(t, k));
    }
  }
}
