/**
 Undirected multigraphs with weighted edges: walks, connectivity, forests, simple chains
 and minimum-weight spanning forests.  Self-loops and parallel edges are allowed.
 */
module Forests {

  /** A spot on a vertex, such as a switch port. */
  datatype Point = Point(id: string, vertex: string)

  /** A bidirectional link between two points. */
  datatype Edge = Edge(id: string, first: Point, second: Point, weight: real)

  predicate At(e: Edge, v: string) {
    e.first.vertex == v || e.second.vertex == v
  }

  /** The vertex on the far side of `e` as seen from `v`. */
  function Other(e: Edge, v: string): string {
    if e.first.vertex == v then e.second.vertex else e.first.vertex
  }

  /** No two edges have a point in common. */
  ghost predicate Unshared(E: set<Edge>) {
    forall e, f :: e in E && f in E && e != f ==>
      {e.first.id, e.second.id} !! {f.first.id, f.second.id}
  }

  // ---------- Walks and connectivity ----------

  ghost predicate Walk(S: set<Edge>, u: string, p: seq<Edge>, v: string)
    decreases p
  {
    if p == [] then u == v
    else p[0] in S && At(p[0], u) && Walk(S, Other(p[0], u), p[1..], v)
  }

  ghost predicate Connected(S: set<Edge>, u: string, v: string) {
    exists p :: Walk(S, u, p, v)
  }

  ghost predicate EndsConnected(S: set<Edge>, e: Edge) {
    Connected(S, e.first.vertex, e.second.vertex)
  }

  lemma Reflexive(S: set<Edge>, u: string)
    ensures Connected(S, u, u)
  {
    assert Walk(S, u, [], u);
  }

  lemma OneStep(S: set<Edge>, e: Edge, u: string)
    requires e in S && At(e, u)
    ensures Connected(S, u, Other(e, u))
  {
    assert Walk(S, Other(e, u), [], Other(e, u));
    assert Walk(S, u, [e], Other(e, u));
  }

  lemma {:induction false} WalkConcat(S: set<Edge>, u: string, p: seq<Edge>, v: string, q: seq<Edge>, w: string)
    requires Walk(S, u, p, v) && Walk(S, v, q, w)
    ensures Walk(S, u, p + q, w)
    decreases p
  {
    if p == [] {
      assert p + q == q;
    } else {
      WalkConcat(S, Other(p[0], u), p[1..], v, q, w);
      assert (p + q)[1..] == p[1..] + q;
    }
  }

  lemma Transitive(S: set<Edge>, u: string, v: string, w: string)
    requires Connected(S, u, v) && Connected(S, v, w)
    ensures Connected(S, u, w)
  {
    var p :| Walk(S, u, p, v);
    var q :| Walk(S, v, q, w);
    WalkConcat(S, u, p, v, q, w);
  }

  lemma {:induction false} WalkReversed(S: set<Edge>, u: string, p: seq<Edge>, v: string)
    requires Walk(S, u, p, v)
    ensures Connected(S, v, u)
    decreases p
  {
    if p == [] {
      Reflexive(S, u);
    } else {
      var x := Other(p[0], u);
      WalkReversed(S, x, p[1..], v);
      OneStep(S, p[0], x);
      Transitive(S, v, x, u);
    }
  }

  lemma Symmetric(S: set<Edge>, u: string, v: string)
    requires Connected(S, u, v)
    ensures Connected(S, v, u)
  {
    var p :| Walk(S, u, p, v);
    WalkReversed(S, u, p, v);
  }

  lemma {:induction false} WalkSubsumed(S: set<Edge>, T: set<Edge>, u: string, p: seq<Edge>, v: string)
    requires forall e :: e in S ==> EndsConnected(T, e)
    requires Walk(S, u, p, v)
    ensures Connected(T, u, v)
    decreases p
  {
    if p == [] {
      Reflexive(T, u);
    } else {
      var x := Other(p[0], u);
      WalkSubsumed(S, T, x, p[1..], v);
      assert EndsConnected(T, p[0]);
      if p[0].first.vertex != u {
        Symmetric(T, x, u);
      }
      Transitive(T, u, x, v);
    }
  }

  /** If `T` connects the ends of every edge of `S`, then it connects all that `S` connects. */
  lemma Subsumed(S: set<Edge>, T: set<Edge>, u: string, v: string)
    requires forall e :: e in S ==> EndsConnected(T, e)
    requires Connected(S, u, v)
    ensures Connected(T, u, v)
  {
    var p :| Walk(S, u, p, v);
    WalkSubsumed(S, T, u, p, v);
  }

  lemma OwnEnds(S: set<Edge>, e: Edge)
    requires e in S
    ensures EndsConnected(S, e)
  {
    OneStep(S, e, e.first.vertex);
  }

  lemma Monotone(S: set<Edge>, T: set<Edge>, u: string, v: string)
    requires S <= T && Connected(S, u, v)
    ensures Connected(T, u, v)
  {
    forall e | e in S ensures EndsConnected(T, e) {
      OwnEnds(T, e);
    }
    Subsumed(S, T, u, v);
  }

  /** `e` joins the component of `u` to that of `v`. */
  ghost predicate Bridges(S: set<Edge>, e: Edge, u: string, v: string) {
    || (Connected(S, u, e.first.vertex) && Connected(S, e.second.vertex, v))
    || (Connected(S, u, e.second.vertex) && Connected(S, e.first.vertex, v))
  }

  lemma {:induction false} WalkSplit(S: set<Edge>, e: Edge, u: string, p: seq<Edge>, v: string)
    requires Walk(S + {e}, u, p, v)
    ensures Connected(S, u, v) || Bridges(S, e, u, v)
    decreases p
  {
    if p == [] {
      Reflexive(S, u);
    } else {
      var x := Other(p[0], u);
      WalkSplit(S, e, x, p[1..], v);
      if p[0] in S {
        OneStep(S, p[0], u);
        ConnectedOrBridges(S, e, u, x, v);
      } else {
        Reflexive(S, u);
      }
    }
  }

  lemma ConnectedOrBridges(S: set<Edge>, e: Edge, u: string, x: string, v: string)
    requires Connected(S, u, x)
    requires Connected(S, x, v) || Bridges(S, e, x, v)
    ensures Connected(S, u, v) || Bridges(S, e, u, v)
  {
    if Connected(S, x, v) {
      Transitive(S, u, x, v);
    } else if Connected(S, x, e.first.vertex) && Connected(S, e.second.vertex, v) {
      Transitive(S, u, x, e.first.vertex);
    } else {
      Transitive(S, u, x, e.second.vertex);
    }
  }

  /** One more edge connects exactly what was connected before and what it bridges. */
  lemma Split(S: set<Edge>, e: Edge, u: string, v: string)
    ensures Connected(S + {e}, u, v) <==> Connected(S, u, v) || Bridges(S, e, u, v)
  {
    if Connected(S + {e}, u, v) {
      var p :| Walk(S + {e}, u, p, v);
      WalkSplit(S, e, u, p, v);
    } else if Connected(S, u, v) {
      Monotone(S, S + {e}, u, v);
    } else if Bridges(S, e, u, v) {
      var T := S + {e};
      var a, b := e.first.vertex, e.second.vertex;
      OwnEnds(T, e);
      Symmetric(T, a, b);
      if Connected(S, u, a) && Connected(S, b, v) {
        Monotone(S, T, u, a);
        Monotone(S, T, b, v);
        Transitive(T, u, a, b);
        Transitive(T, u, b, v);
      } else {
        Monotone(S, T, u, b);
        Monotone(S, T, a, v);
        Transitive(T, u, b, a);
        Transitive(T, u, a, v);
      }
    }
  }

  // ---------- Forests ----------

  /** No edge joins two vertices that the other edges already connect. */
  ghost predicate Acyclic(S: set<Edge>) {
    forall e :: e in S ==> !EndsConnected(S - {e}, e)
  }

  lemma AcyclicSubset(S: set<Edge>, T: set<Edge>)
    requires S <= T && Acyclic(T)
    ensures Acyclic(S)
  {
    forall e | e in S ensures !EndsConnected(S - {e}, e) {
      if EndsConnected(S - {e}, e) {
        Monotone(S - {e}, T - {e}, e.first.vertex, e.second.vertex);
      }
    }
  }

  lemma AcyclicAdd(S: set<Edge>, e: Edge)
    requires Acyclic(S) && !EndsConnected(S, e)
    ensures e !in S && Acyclic(S + {e})
  {
    if e in S { OwnEnds(S, e); }
    forall g | g in S + {e} ensures !EndsConnected(S + {e} - {g}, g) {
      if g == e {
        assert S + {e} - {e} == S;
      } else {
        var R := S - {g};
        var a, b := g.first.vertex, g.second.vertex;
        assert S + {e} - {g} == R + {e};
        Split(R, e, a, b);
        if Bridges(R, e, a, b) {
          OwnEnds(S, g);
          BridgeCloses(R, S, e, a, b);
        }
      }
    }
  }

  /** An edge that bridges two vertices which a larger set connects has connected ends there. */
  lemma BridgeCloses(R: set<Edge>, S: set<Edge>, e: Edge, a: string, b: string)
    requires R <= S && Bridges(R, e, a, b) && Connected(S, a, b)
    ensures EndsConnected(S, e)
  {
    var x, y := e.first.vertex, e.second.vertex;
    Symmetric(S, a, b);
    if Connected(R, a, x) && Connected(R, y, b) {
      Monotone(R, S, a, x);
      Monotone(R, S, y, b);
      Transitive(S, y, b, a);
      Transitive(S, y, a, x);
      Symmetric(S, y, x);
    } else {
      Monotone(R, S, a, y);
      Monotone(R, S, x, b);
      Transitive(S, x, b, a);
      Transitive(S, x, a, y);
    }
  }

  /** `F` is a forest of edges of `E` that connects all that `E` connects. */
  ghost predicate SpanningForest(E: set<Edge>, F: set<Edge>) {
    F <= E && Acyclic(F) && forall e :: e in E ==> EndsConnected(F, e)
  }

  lemma SpanningConnects(E: set<Edge>, F: set<Edge>, u: string, v: string)
    requires SpanningForest(E, F)
    ensures Connected(E, u, v) <==> Connected(F, u, v)
  {
    if Connected(E, u, v) { Subsumed(E, F, u, v); }
    if Connected(F, u, v) { Monotone(F, E, u, v); }
  }

  // ---------- Exchange ----------

  /** In a forest, two edges that are both dispensable for u-v are dispensable together. */
  lemma BothDispensable(F: set<Edge>, f: Edge, g: Edge, u: string, v: string)
    requires Acyclic(F) && f in F
    requires Connected(F - {f}, u, v) && Connected(F - {g}, u, v)
    ensures Connected(F - {f} - {g}, u, v)
  {
    var R := F - {f} - {g};
    if f == g {
      assert R == F - {f};
    } else {
      assert F - {g} == R + {f};
      Split(R, f, u, v);
      if Bridges(R, f, u, v) {
        BridgeCloses(R, F - {f}, f, u, v);
      }
    }
  }

  /** A forest that connects u to v, though its edges inside `P` do not, has a cut edge outside `P`. */
  lemma {:induction false} CutEdge(F: set<Edge>, P: set<Edge>, u: string, v: string) returns (f: Edge)
    requires Acyclic(F) && Connected(F, u, v) && !Connected(P, u, v)
    ensures f in F && f !in P && !Connected(F - {f}, u, v)
    decreases |F|
  {
    if F <= P { Monotone(F, P, u, v); }
    f :| f in F && f !in P;
    if Connected(F - {f}, u, v) {
      AcyclicSubset(F - {f}, F);
      var g := CutEdge(F - {f}, P, u, v);
      if Connected(F - {g}, u, v) {
        BothDispensable(F, f, g, u, v);
      }
      f := g;
    }
  }

  /** Swapping a cut edge of `F` for an edge that rejoins the two sides gives a spanning forest again. */
  lemma Exchange(E: set<Edge>, F: set<Edge>, f: Edge, e: Edge)
    requires SpanningForest(E, F) && e in E && f in F
    requires !EndsConnected(F - {f}, e)
    ensures SpanningForest(E, F - {f} + {e})
  {
    var R := F - {f};
    var T := R + {e};
    var u, v := e.first.vertex, e.second.vertex;
    AcyclicSubset(R, F);
    AcyclicAdd(R, e);
    assert R + {f} == F;
    Split(R, f, u, v);
    OwnEnds(T, e);
    BridgeCloses(R, T, f, u, v);
    forall g | g in F ensures EndsConnected(T, g) {
      if g in R { OwnEnds(T, g); }
    }
    forall g | g in E ensures EndsConnected(T, g) {
      Subsumed(F, T, g.first.vertex, g.second.vertex);
    }
  }

  // ---------- Weight ----------

  ghost function Total(S: set<Edge>): real {
    if S == {} then 0.0 else
    var e :| e in S;
    e.weight + Total(S - {e})
  }

  lemma {:induction false} TotalSplit(S: set<Edge>, e: Edge)
    requires e in S
    ensures Total(S) == e.weight + Total(S - {e})
    decreases |S|
  {
    var d :| d in S && Total(S) == d.weight + Total(S - {d});
    if d != e {
      TotalSplit(S - {d}, e);
      TotalSplit(S - {e}, d);
      assert S - {d} - {e} == S - {e} - {d};
    }
  }

  ghost predicate MinimumSpanningForest(E: set<Edge>, T: set<Edge>) {
    SpanningForest(E, T) && forall F :: SpanningForest(E, F) ==> Total(T) <= Total(F)
  }

  // ---------- Kruskal ----------

  ghost function Elements(s: seq<Edge>): set<Edge> {
    set e | e in s
  }

  ghost predicate SortedByWeight(s: seq<Edge>) {
    && (forall i, j :: 0 <= i < j < |s| ==> s[i].weight <= s[j].weight)
    && (forall i, j :: 0 <= i < j < |s| ==> s[i] != s[j])
  }

  /** `T` holds exactly those edges whose ends the edges before them do not connect. */
  ghost predicate Greedy(s: seq<Edge>, T: set<Edge>) {
    && T <= Elements(s)
    && forall i :: 0 <= i < |s| ==> (s[i] in T <==> !EndsConnected(Elements(s[..i]), s[i]))
  }

  lemma PrefixElements(s: seq<Edge>, k: nat)
    requires k <= |s|
    ensures forall i :: 0 <= i < k ==> s[i] in Elements(s[..k])
  {
    assert forall i :: 0 <= i < k ==> s[..k][i] == s[i];
  }

  /** Swaps some edge that is no lighter than `s[k]` out of `G` to let `s[k]` in. */
  lemma PullIn(s: seq<Edge>, T: set<Edge>, G: set<Edge>, k: nat) returns (f: Edge)
    requires SortedByWeight(s) && Greedy(s, T) && k < |s| && s[k] in T - G
    requires SpanningForest(Elements(s), G)
    ensures f in G && f !in s[..k] && f.weight >= s[k].weight
    ensures SpanningForest(Elements(s), G - {f} + {s[k]})
  {
    var e, P := s[k], Elements(s[..k]);
    OwnEnds(Elements(s), e);
    f := CutEdge(G, P, e.first.vertex, e.second.vertex);
    Exchange(Elements(s), G, f, e);
    PrefixElements(s, k);
    assert f in Elements(s);
  }

  lemma TotalSwap(S: set<Edge>, f: Edge, e: Edge)
    requires f in S && e !in S
    ensures Total(S - {f} + {e}) == Total(S) - f.weight + e.weight
  {
    TotalSplit(S, f);
    TotalSplit(S - {f} + {e}, e);
    assert S - {f} + {e} - {e} == S - {f};
  }

  /** Any spanning forest can be pulled, at no extra weight, onto the greedy choice among the first k edges. */
  lemma {:induction false} PullTowards(s: seq<Edge>, T: set<Edge>, F: set<Edge>, k: nat) returns (G: set<Edge>)
    requires SortedByWeight(s) && Greedy(s, T) && k <= |s|
    requires SpanningForest(Elements(s), F)
    ensures SpanningForest(Elements(s), G) && Total(G) <= Total(F)
    ensures forall i :: 0 <= i < k && s[i] in T ==> s[i] in G
    decreases k
  {
    if k == 0 {
      G := F;
    } else {
      G := PullTowards(s, T, F, k - 1);
      if s[k-1] in T - G {
        var f := PullIn(s, T, G, k - 1);
        TotalSwap(G, f, s[k-1]);
        PrefixElements(s, k - 1);
        G := G - {f} + {s[k-1]};
      }
    }
  }

  /** A spanning forest inside another one is all of it. */
  lemma ForestWithin(E: set<Edge>, T: set<Edge>, G: set<Edge>)
    requires T <= G && SpanningForest(E, G)
    requires forall e :: e in E ==> EndsConnected(T, e)
    ensures T == G
  {
    if g :| g in G && g !in T {
      Monotone(T, G - {g}, g.first.vertex, g.second.vertex);
    }
  }

  /** The greedy choice over a weight-sorted order is a minimum-weight spanning forest. */
  lemma GreedyIsMinimum(s: seq<Edge>, T: set<Edge>)
    requires SortedByWeight(s) && Greedy(s, T) && SpanningForest(Elements(s), T)
    ensures MinimumSpanningForest(Elements(s), T)
  {
    forall F | SpanningForest(Elements(s), F) ensures Total(T) <= Total(F) {
      var G := PullTowards(s, T, F, |s|);
      ForestWithin(Elements(s), T, G);
    }
  }

  lemma {:induction false} SubsetSize<T>(a: set<T>, b: set<T>)
    requires a <= b
    ensures |a| <= |b|
    decreases |a|
  {
    if x :| x in a {
      SubsetSize(a - {x}, b - {x});
    }
  }
}
