/** Breadth-first search over a set of edges: what its bookkeeping means. */
module Search {
  import opened Forests
  import opened Chains

  /** Each vertex reached so far, other than `src`, was entered by one edge from a vertex one step nearer. */
  ghost predicate Reached(T: set<Edge>, src: string, visited: set<string>, prev: map<string, Hop>, depth: map<string,
    nat>) {
    && visited == prev.Keys + {src} && src !in prev && depth.Keys == visited && depth[src] == 0
    && (forall x :: x in prev ==> prev[x].v in visited && depth[x] == depth[prev[x].v] + 1)
    && (forall x :: x in prev ==> prev[x].e in T && At(prev[x].e, prev[x].v) && Other(prev[x].e, prev[x].v) == x)
  }

  ghost predicate Explored(T: set<Edge>, x: string, visited: set<string>) {
    forall e :: e in T && At(e, x) ==> Other(e, x) in visited
  }

  lemma {:induction false} WalkStays(T: set<Edge>, u: string, p: seq<Edge>, v: string, visited: set<string>)
    requires Walk(T, u, p, v) && u in visited
    requires forall x :: x in visited ==> Explored(T, x, visited)
    ensures v in visited
    decreases p
  {
    if p != [] {
      assert Explored(T, u, visited);
      WalkStays(T, Other(p[0], u), p[1..], v, visited);
    }
  }

  /** Every reached vertex is waiting in the queue, or explored, or is `v`, which is being explored. */
  ghost predicate Pending(T: set<Edge>, visited: set<string>, queue: seq<string>, v: string) {
    && (forall x :: x in queue ==> x in visited)
    && (forall x :: x in visited ==> x == v || x in queue || Explored(T, x, visited))
  }

  lemma Enter(T: set<Edge>, src: string, visited: set<string>, prev: map<string, Hop>, depth: map<string, nat>,
    queue: seq<string>, v: string, e: Edge)
    requires Reached(T, src, visited, prev, depth) && Pending(T, visited, queue, v)
    requires v in visited && e in T && At(e, v) && Other(e, v) !in visited
    ensures var x := Other(e, v);
      && Reached(T, src, visited + {x}, prev[x := Hop(v, e)], depth[x := depth[v] + 1])
      && Pending(T, visited + {x}, queue + [x], v)
  {
    var x := Other(e, v);
    EnterReached(T, src, visited, prev, depth, v, e);
    forall y | y in visited && Explored(T, y, visited) ensures Explored(T, y, visited + {x}) {
    }
  }

  lemma EnterReached(T: set<Edge>, src: string, visited: set<string>, prev: map<string, Hop>, depth: map<string, nat>,
    v: string, e: Edge)
    requires Reached(T, src, visited, prev, depth)
    requires v in visited && e in T && At(e, v) && Other(e, v) !in visited
    ensures var x := Other(e, v);
      Reached(T, src, visited + {x}, prev[x := Hop(v, e)], depth[x := depth[v] + 1])
  {
  }

  /** Every reached vertex is waiting in the queue or explored. */
  ghost predicate Waiting(T: set<Edge>, visited: set<string>, queue: seq<string>) {
    && (forall x :: x in queue ==> x in visited)
    && (forall x :: x in visited ==> x in queue || Explored(T, x, visited))
  }

  lemma StartExploring(T: set<Edge>, visited: set<string>, queue: seq<string>)
    requires Waiting(T, visited, queue) && |queue| > 0
    ensures queue[0] in visited && Pending(T, visited, queue[1..], queue[0])
  {
  }

  /** When the queue runs empty, everything connected to the source has been reached. */
  lemma ExploredAll(T: set<Edge>, u: string, v: string, visited: set<string>, queue: seq<string>)
    requires u in visited && Waiting(T, visited, queue) && |queue| == 0
    ensures Connected(T, u, v) ==> v in visited
  {
    if Connected(T, u, v) {
      var p :| Walk(T, u, p, v);
      WalkStays(T, u, p, v, visited);
    }
  }

  lemma Narrows(all: set<string>, a: set<string>, b: set<string>)
    requires a < b && b <= all
    ensures all - b < all - a
  {
    var x :| x in b && x !in a;
    assert x in all - a;
  }

  /** `p` leads from `u` to `dst` with the depth growing by one at each hop. */
  ghost predicate Descends(T: set<Edge>, p: seq<Hop>, u: string, dst: string, depth: map<string, nat>) {
    && Chain(T, p, u, dst)
    && u in depth && dst in depth && depth[u] + |p| == depth[dst]
    && forall i :: 0 <= i < |p| ==> p[i].v in depth && depth[p[i].v] == depth[u] + i
  }

  lemma StepBack(T: set<Edge>, src: string, visited: set<string>, prev: map<string, Hop>, depth: map<string, nat>,
    p: seq<Hop>, u: string, dst: string)
    requires Reached(T, src, visited, prev, depth) && Descends(T, p, u, dst, depth) && u in prev
    ensures Descends(T, [prev[u]] + p, prev[u].v, dst, depth)
  {
    assert ([prev[u]] + p)[1..] == p;
  }

  lemma DescendingIsSimple(T: set<Edge>, p: seq<Hop>, u: string, dst: string, depth: map<string, nat>)
    requires Descends(T, p, u, dst, depth)
    ensures SimpleChain(T, p, u, dst)
  {
  }
}
