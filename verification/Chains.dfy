/**
 Chains of hops through a set of edges.  In a forest there is at most one simple chain
 between two vertices, which makes path search independent of search order.
 */
module Chains {
  import opened Forests

  /** One step of a path: leave vertex `v` over edge `e`. */
  datatype Hop = Hop(v: string, e: Edge)

  ghost predicate Chain(S: set<Edge>, p: seq<Hop>, s: string, t: string)
    decreases p
  {
    if p == [] then s == t
    else p[0].v == s && p[0].e in S && At(p[0].e, s) && Chain(S, p[1..], Other(p[0].e, s), t)
  }

  /** No vertex is visited twice on the way to `t`. */
  ghost predicate Simple(p: seq<Hop>, t: string) {
    && (forall i :: 0 <= i < |p| ==> p[i].v != t)
    && (forall i, j :: 0 <= i < j < |p| ==> p[i].v != p[j].v)
  }

  ghost predicate SimpleChain(S: set<Edge>, p: seq<Hop>, s: string, t: string) {
    Chain(S, p, s, t) && Simple(p, t)
  }

  lemma {:induction false} ChainConnects(S: set<Edge>, p: seq<Hop>, s: string, t: string)
    requires Chain(S, p, s, t)
    ensures Connected(S, s, t)
    decreases p
  {
    if p == [] {
      Reflexive(S, s);
    } else {
      var x := Other(p[0].e, s);
      OneStep(S, p[0].e, s);
      ChainConnects(S, p[1..], x, t);
      Transitive(S, s, x, t);
    }
  }

  /** A chain that never touches `s` does not need an edge at `s`. */
  lemma {:induction false} ChainAvoids(S: set<Edge>, q: seq<Hop>, x: string, t: string, s: string, e: Edge)
    requires Chain(S, q, x, t) && At(e, s) && s != t
    requires forall i :: 0 <= i < |q| ==> q[i].v != s
    ensures Chain(S - {e}, q, x, t)
    decreases q
  {
    if q != [] {
      var y := Other(q[0].e, x);
      assert y == if |q| == 1 then t else q[1..][0].v;
      ChainAvoids(S, q[1..], y, t, s, e);
    }
  }

  /** In a forest there is at most one simple chain between two vertices. */
  lemma {:induction false} UniqueChain(S: set<Edge>, p: seq<Hop>, q: seq<Hop>, s: string, t: string)
    requires Acyclic(S) && SimpleChain(S, p, s, t) && SimpleChain(S, q, s, t)
    ensures p == q
    decreases p
  {
    if p != [] && q != [] {
      var e, g := p[0].e, q[0].e;
      var x, y := Other(e, s), Other(g, s);
      if e == g {
        UniqueChain(S, p[1..], q[1..], x, t);
        assert p == [p[0]] + p[1..] && q == [q[0]] + q[1..];
      } else {
        var R := S - {e};
        ChainAvoids(S, p[1..], x, t, s, e);
        ChainConnects(R, p[1..], x, t);
        ChainAvoids(S, q[1..], y, t, s, e);
        assert Chain(R, q, s, t);
        ChainConnects(R, q, s, t);
        Symmetric(R, x, t);
        Transitive(R, s, t, x);
        Symmetric(R, s, x);
      }
    }
  }

  /** Each hop leads to where the next one starts, and the last one to `t`. */
  lemma {:induction false} ChainLink(S: set<Edge>, p: seq<Hop>, s: string, t: string, k: nat)
    requires Chain(S, p, s, t) && k < |p|
    ensures p[k].e in S && At(p[k].e, p[k].v)
    ensures Other(p[k].e, p[k].v) == if k + 1 < |p| then p[k+1].v else t
    decreases k
  {
    if k > 0 {
      ChainLink(S, p[1..], Other(p[0].e, s), t, k - 1);
    }
  }

  /** Chains can be cut after any number of hops. */
  lemma {:induction false} ChainSuffix(S: set<Edge>, p: seq<Hop>, s: string, t: string, k: nat)
    requires SimpleChain(S, p, s, t) && k < |p|
    ensures SimpleChain(S, p[k..], p[k].v, t)
    decreases k
  {
    if k > 0 {
      assert Simple(p[1..], t);
      ChainSuffix(S, p[1..], Other(p[0].e, s), t, k - 1);
      assert p[1..][k-1..] == p[k..];
    }
  }

  /** The hops of a simple chain inside `known` number fewer than `known`. */
  lemma {:induction false} ChainLength(S: set<Edge>, p: seq<Hop>, s: string, t: string, known: set<string>)
    requires SimpleChain(S, p, s, t) && t in known
    requires forall i :: 0 <= i < |p| ==> p[i].v in known
    ensures |p| < |known|
    decreases p
  {
    if p != [] {
      ChainLength(S, p[1..], Other(p[0].e, s), t, known - {s});
    }
  }

  /** Distinct connected vertices both lie on edges. */
  lemma ConnectedAreKnown(S: set<Edge>, known: set<string>, u: string, v: string)
    requires Connected(S, u, v) && u != v
    requires forall e :: e in S ==> e.first.vertex in known && e.second.vertex in known
    ensures u in known && v in known
  {
    var p :| Walk(S, u, p, v);
    Symmetric(S, u, v);
    var q :| Walk(S, v, q, u);
    assert p[0] in S && q[0] in S;
  }

  // ---------- The path between two vertices of a forest ----------

  /** The simple chain from `s` to `t`, or no hops at all if there is none. */
  ghost function TreePath(T: set<Edge>, s: string, t: string): (p: seq<Hop>)
    ensures p != [] ==> SimpleChain(T, p, s, t)
  {
    if p :| SimpleChain(T, p, s, t) then p else []
  }

  lemma TreePathIs(T: set<Edge>, p: seq<Hop>, s: string, t: string)
    requires Acyclic(T) && SimpleChain(T, p, s, t)
    ensures TreePath(T, s, t) == p
  {
    var q :| SimpleChain(T, q, s, t) && TreePath(T, s, t) == q;
    UniqueChain(T, p, q, s, t);
  }

  lemma {:induction false} WalkToChain(T: set<Edge>, u: string, w: seq<Edge>, v: string) returns (p: seq<Hop>)
    requires Walk(T, u, w, v)
    ensures SimpleChain(T, p, u, v)
    decreases w
  {
    if w == [] || u == v {
      p := [];
    } else {
      var x := Other(w[0], u);
      var q := WalkToChain(T, x, w[1..], v);
      if k :| 0 <= k < |q| && q[k].v == u {
        ChainSuffix(T, q, x, v, k);
        p := q[k..];
      } else {
        p := [Hop(u, w[0])] + q;
        assert p[1..] == q;
      }
    }
  }

  /** There is a path between two distinct vertices exactly when they are connected. */
  lemma TreePathExists(T: set<Edge>, s: string, t: string)
    requires s != t
    ensures TreePath(T, s, t) != [] <==> Connected(T, s, t)
  {
    if Connected(T, s, t) {
      var w :| Walk(T, s, w, t);
      var p := WalkToChain(T, s, w, t);
      var q :| SimpleChain(T, q, s, t) && TreePath(T, s, t) == q;
    } else if TreePath(T, s, t) != [] {
      ChainConnects(T, TreePath(T, s, t), s, t);
    }
  }

  lemma EmptyChain(T: set<Edge>, p: seq<Hop>, s: string, t: string)
    requires SimpleChain(T, p, s, t)
    ensures p == [] <==> s == t
  {
  }

  lemma TreePathToSelf(T: set<Edge>, s: string)
    ensures TreePath(T, s, s) == []
  {
    EmptyChain(T, TreePath(T, s, s), s, s);
  }

  /** Dropping the first hop of a path leaves the path from the next vertex: paths compose hop by hop. */
  lemma TreePathTail(T: set<Edge>, s: string, t: string)
    requires Acyclic(T) && TreePath(T, s, t) != []
    ensures var p := TreePath(T, s, t);
      p[0].v == s && p[0].e in T && At(p[0].e, s) && TreePath(T, Other(p[0].e, s), t) == p[1..]
  {
    var p := TreePath(T, s, t);
    assert SimpleChain(T, p[1..], Other(p[0].e, s), t);
    TreePathIs(T, p[1..], Other(p[0].e, s), t);
  }
}
