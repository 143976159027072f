/** The mutable network graph: four cross-linked indices over edge entries, and a spanning forest. */
module Graphs {
  import opened Forests
  import opened Chains
  import opened Kruskal
  import opened Search

  /** A stored edge with its spanning-tree flag and the time it was last reported. */
  class Entry {
    const value: Edge
    var enabled: bool
    var timestamp: int

    constructor (value: Edge, timestamp: int)
      ensures this.value == value && !enabled && this.timestamp == timestamp
    {
      this.value := value;
      this.enabled := false;
      this.timestamp := timestamp;
    }
  }

  datatype VertexEntry = VertexEntry(value: string, edges: map<string, Entry>)

  /** A list of vertices; two vertices are in one cluster when they map to the same object. */
  class Cluster {
    const members: seq<string>

    constructor (members: seq<string>)
      ensures this.members == members
    {
      this.members := members;
    }
  }

  ghost function Values(order: seq<Entry>): (s: seq<Edge>) {
    seq(|order|, i requires 0 <= i < |order| => order[i].value)
  }

  /** Each vertex is listed in its own cluster and in no other. */
  ghost predicate Partition(clusters: map<string, Cluster>, known: set<string>) {
    && clusters.Keys == known
    && forall u, x :: u in known ==> (x in clusters[u].members <==> x in known && clusters[x] == clusters[u])
  }

  /** Two vertices share a cluster object exactly when `T` connects them. */
  ghost predicate ClustersFollow(clusters: map<string, Cluster>, T: set<Edge>) {
    forall u, v :: u in clusters && v in clusters ==> (clusters[u] == clusters[v] <==> Connected(T, u, v))
  }

  ghost predicate ListedIn(clusters: map<string, Cluster>, l: Cluster) {
    exists u :: u in clusters && clusters[u] == l
  }

  /** All vertices of `l1` and `l2`, and no others, have moved to `v`. */
  ghost predicate Merged(clusters: map<string, Cluster>, merged: map<string, Cluster>, l1: Cluster, l2: Cluster,
    v: Cluster) {
    && merged.Keys == clusters.Keys
    && forall u :: u in clusters ==> merged[u] == if clusters[u] == l1 || clusters[u] == l2 then v else clusters[u]
  }

  method MergeCluster(clusters: map<string, Cluster>, l1: Cluster, l2: Cluster)
    returns (merged: map<string, Cluster>, ghost v: Cluster)
    requires Partition(clusters, clusters.Keys)
    requires ListedIn(clusters, l1) && ListedIn(clusters, l2)
    ensures fresh(v) && v.members == l1.members + l2.members
    ensures Merged(clusters, merged, l1, l2, v)
  {
    var l := new Cluster(l1.members + l2.members);
    v := l;
    merged := clusters;
    var i := 0;
    while i < |l.members|
      invariant 0 <= i <= |l.members|
      invariant merged.Keys == clusters.Keys
      invariant forall u :: u in clusters ==> merged[u] == if u in l.members[..i] then l else clusters[u]
    {
      assert l.members[i] in clusters by { MembersKnown(clusters, l1, l2); }
      assert l.members[..i+1] == l.members[..i] + [l.members[i]];
      merged := merged[l.members[i] := l];
      i := i + 1;
    }
    assert l.members[..i] == l.members;
    MembersKnown(clusters, l1, l2);
  }

  lemma MembersKnown(clusters: map<string, Cluster>, l1: Cluster, l2: Cluster)
    requires Partition(clusters, clusters.Keys)
    requires ListedIn(clusters, l1) && ListedIn(clusters, l2)
    ensures forall u :: u in l1.members + l2.members <==> u in clusters && (clusters[u] == l1 || clusters[u] == l2)
  {
    var x :| x in clusters && clusters[x] == l1;
    var y :| y in clusters && clusters[y] == l2;
  }

  lemma MergedPartition(clusters: map<string, Cluster>, merged: map<string, Cluster>, l1: Cluster, l2: Cluster,
    v: Cluster)
    requires Partition(clusters, clusters.Keys) && Merged(clusters, merged, l1, l2, v)
    requires ListedIn(clusters, l1) && ListedIn(clusters, l2) && !ListedIn(clusters, v)
    requires v.members == l1.members + l2.members
    ensures Partition(merged, clusters.Keys)
  {
    MembersKnown(clusters, l1, l2);
  }

  /** Every vertex maps to one of the clusters in `live`. */
  ghost predicate Uses(clusters: map<string, Cluster>, live: set<Cluster>) {
    forall u :: u in clusters ==> clusters[u] in live
  }

  /** Merging the clusters of an edge's ends keeps cluster identity in step with connectivity. */
  lemma MergeFollows(clusters: map<string, Cluster>, merged: map<string, Cluster>, v: Cluster, T: set<Edge>, e: Edge)
    requires ClustersFollow(clusters, T)
    requires e.first.vertex in clusters && e.second.vertex in clusters
    requires Merged(clusters, merged, clusters[e.first.vertex], clusters[e.second.vertex], v)
    requires forall u :: u in clusters ==> clusters[u] != v
    ensures ClustersFollow(merged, T + {e})
  {
    forall u, w | u in merged && w in merged
      ensures merged[u] == merged[w] <==> Connected(T + {e}, u, w)
    {
      Split(T, e, u, w);
    }
  }

  lemma OneCluster(live: set<Cluster>, a: Cluster, b: Cluster)
    requires |live| <= 1 && a in live && b in live
    ensures a == b
  {
    if a != b {
      SubsetSize({a, b}, live);
    }
  }

  /** Every known vertex has a cluster of its own. */
  ghost predicate Singletons(clusters: map<string, Cluster>, known: set<string>) {
    clusters.Keys == known && forall u :: u in known ==> clusters[u].members == [u]
  }

  /** What holds of the local variables each time round Kruskal's loop. */
  ghost predicate Progress(s: seq<Edge>, k: nat, T: set<Edge>, clusters: map<string, Cluster>, live: set<Cluster>,
    known: set<string>, count: int) {
    && SortedByWeight(s)
    && ChosenAt(s, k, T)
    && Partition(clusters, known)
    && ClustersFollow(clusters, T)
    && Uses(clusters, live)
    && |live| + count == |known|
  }

  lemma {:induction false} ClusterCount(clusters: map<string, Cluster>, known: set<string>) returns (live: set<Cluster>)
    requires Singletons(clusters, known)
    ensures live == (set u | u in known :: clusters[u]) && |live| == |known|
    decreases |known|
  {
    live := {};
    if u :| u in known {
      var rest := map x | x in clusters && x != u :: clusters[x];
      assert rest.Keys == known - {u};
      live := ClusterCount(rest, known - {u});
      assert forall x :: x in rest ==> clusters[x].members[0] == x;
      live := live + {clusters[u]};
    }
  }

  lemma ProgressStarts(clusters: map<string, Cluster>, known: set<string>, s: seq<Edge>) returns (live: set<Cluster>)
    requires Singletons(clusters, known) && SortedByWeight(s)
    ensures live == (set u | u in known :: clusters[u])
    ensures Progress(s, 0, {}, clusters, live, known, 0)
  {
    live := ClusterCount(clusters, known);
    assert forall u :: u in known ==> clusters[u].members[0] == u;
    forall u, v | u in clusters && v in clusters
      ensures clusters[u] == clusters[v] <==> Connected({}, u, v)
    {
      Reflexive({}, u);
    }
  }

  lemma ProgressTakes(s: seq<Edge>, k: nat, T: set<Edge>, clusters: map<string, Cluster>, live: set<Cluster>,
    merged: map<string, Cluster>, v: Cluster, known: set<string>, count: int)
    requires Progress(s, k, T, clusters, live, known, count) && k < |s|
    requires s[k].first.vertex in known && s[k].second.vertex in known
    requires var l1, l2 := clusters[s[k].first.vertex], clusters[s[k].second.vertex];
      && l1 != l2 && v !in live && v.members == l1.members + l2.members
      && Merged(clusters, merged, l1, l2, v)
    ensures var l1, l2 := clusters[s[k].first.vertex], clusters[s[k].second.vertex];
      Progress(s, k + 1, T + {s[k]}, merged, live - {l1, l2} + {v}, known, count + 1)
  {
    var l1, l2 := clusters[s[k].first.vertex], clusters[s[k].second.vertex];
    MergedPartition(clusters, merged, l1, l2, v);
    MergeFollows(clusters, merged, v, T, s[k]);
    Take(s, k, T);
    SwapCount(live, l1, l2, v);
  }

  lemma SwapCount(live: set<Cluster>, l1: Cluster, l2: Cluster, v: Cluster)
    requires l1 in live && l2 in live && l1 != l2 && v !in live
    ensures |live - {l1, l2} + {v}| == |live| - 1
  {
    assert live - {l1, l2} == live - {l1} - {l2};
  }

  lemma ProgressEnds(s: seq<Edge>, k: nat, T: set<Edge>, clusters: map<string, Cluster>, live: set<Cluster>,
    known: set<string>, count: int)
    requires Progress(s, k, T, clusters, live, known, count)
    requires forall e :: e in s ==> e.first.vertex in known && e.second.vertex in known
    requires k == |s| || count >= |known| - 1
    ensures MinimumSpanningForest(Elements(s), T)
    ensures forall i :: k <= i < |s| ==> s[i] !in T
  {
    LaterNotChosen(s, k, T);
    if k < |s| {
      forall e | e in s ensures EndsConnected(T, e) {
        OneCluster(live, clusters[e.first.vertex], clusters[e.second.vertex]);
      }
      StopEarly(s, k, T);
    }
    Completed(s, T);
  }

  lemma {:induction false} LightestExists(entries: set<Entry>)
    requires entries != {}
    ensures exists e :: e in entries && forall f :: f in entries ==> e.value.weight <= f.value.weight
    decreases |entries|
  {
    var x :| x in entries;
    if entries != {x} {
      LightestExists(entries - {x});
      var m :| m in entries - {x} && forall f :: f in entries - {x} ==> m.value.weight <= f.value.weight;
      var e := if x.value.weight <= m.value.weight then x else m;
      assert e in entries && forall f :: f in entries ==> e.value.weight <= f.value.weight;
    } else {
      assert forall f :: f in entries ==> x.value.weight <= f.value.weight;
    }
  }

  /** Sorts by weight; entries of equal weight may come out in any order. */
  method SortEdges(entries: set<Entry>) returns (order: seq<Entry>)
    ensures forall e :: e in order <==> e in entries
    ensures forall i, j :: 0 <= i < j < |order| ==> order[i] != order[j]
    ensures forall i, j :: 0 <= i < j < |order| ==> order[i].value.weight <= order[j].value.weight
  {
    order := [];
    var rest := entries;
    while rest != {}
      invariant rest <= entries
      invariant forall e :: e in order <==> e in entries - rest
      invariant forall i, j :: 0 <= i < j < |order| ==> order[i] != order[j]
      invariant forall i, j :: 0 <= i < j < |order| ==> order[i].value.weight <= order[j].value.weight
      invariant forall e, f :: e in order && f in rest ==> e.value.weight <= f.value.weight
      decreases |rest|
    {
      LightestExists(rest);
      var e :| e in rest && forall f :: f in rest ==> e.value.weight <= f.value.weight;
      order := order + [e];
      rest := rest - {e};
    }
  }

  /** One round of Kruskal's loop: take the k-th lightest edge unless it would close a loop. */
  method Examine(e: Entry, clusters: map<string, Cluster>, count: nat,
    ghost s: seq<Edge>, ghost k: nat, ghost T: set<Edge>, ghost live: set<Cluster>)
    returns (clusters': map<string, Cluster>, count': nat, ghost T': set<Edge>, ghost live': set<Cluster>)
    requires Progress(s, k, T, clusters, live, clusters.Keys, count) && k < |s| && e.value == s[k]
    requires e.value.first.vertex in clusters && e.value.second.vertex in clusters && !e.enabled
    modifies e`enabled
    ensures clusters'.Keys == clusters.Keys
    ensures Progress(s, k + 1, T', clusters', live', clusters.Keys, count')
    ensures T' == if e.enabled then T + {e.value} else T
  {
    clusters', count', T', live' := clusters, count, T, live;
    var v1 := clusters[e.value.first.vertex];
    var v2 := clusters[e.value.second.vertex];
    if v1 == v2 {
      Skip(s, k, T);
      return;
    }

    ghost var v;
    clusters', v := MergeCluster(clusters, v1, v2);
    ProgressTakes(s, k, T, clusters, live, clusters', v, clusters.Keys, count);
    e.enabled := true;
    count', T', live' := count + 1, T + {e.value}, live - {v1, v2} + {v};
  }

  /** Every entry after the k-th is disabled, and the earlier ones are enabled just when they are in `T`. */
  ghost predicate Marked(order: seq<Entry>, k: nat, T: set<Edge>)
    reads set e | e in order
  {
    forall i :: 0 <= i < |order| ==> (order[i].enabled <==> i < k && order[i].value in T)
  }

  /** The main loop of Kruskal's algorithm over a weight-sorted list of disabled entries. */
  method Grow(order: seq<Entry>, initial: map<string, Cluster>, ghost initialLive: set<Cluster>)
    returns (ghost T: set<Edge>)
    requires Progress(Values(order), 0, {}, initial, initialLive, initial.Keys, 0)
    requires forall e :: e in Values(order) ==> e.first.vertex in initial && e.second.vertex in initial
    requires Marked(order, 0, {})
    modifies (set e | e in order)`enabled
    ensures MinimumSpanningForest(Elements(Values(order)), T)
    ensures Marked(order, |order|, T)
  {
    ghost var s, k, live := Values(order), 0, initialLive;
    T := {};
    var rest, clusters := order, initial;
    var count: nat := 0;
    while count < |initial| - 1 && |rest| != 0
      invariant k <= |order| && rest == order[k..]
      invariant Progress(s, k, T, clusters, live, initial.Keys, count)
      invariant Marked(order, k, T)
      decreases |rest|
    {
      var e := rest[0];
      assert e == order[k] && e.value == s[k] && s[k] in s;
      LaterNotChosen(s, k, T);
      clusters, count, T, live := Examine(e, clusters, count, s, k, T, live);
      forall i | 0 <= i < |order| ensures order[i].enabled <==> i < k + 1 && order[i].value in T {
        if i != k {
          assert s[i] != s[k];
          assert order[i] != e;
        }
      }
      rest := rest[1..];
      k := k + 1;
    }
    ProgressEnds(s, k, T, clusters, live, initial.Keys, count);
    forall i | k <= i < |order| ensures order[i].value !in T {
      assert s[i] !in T;
    }
  }

  /** The point identifiers of the edges stored under `ids`. */
  ghost function PointIds(edges: map<string, Entry>, ids: set<string>): set<string> {
    (set id | id in ids && id in edges :: edges[id].value.first.id) +
    (set id | id in ids && id in edges :: edges[id].value.second.id)
  }

  /** `done` and `left` divide `all` between them. */
  ghost predicate Parted(all: set<string>, done: set<string>, left: set<string>) {
    done !! left && all == done + left
  }

  lemma MoveAcross(all: set<string>, done: set<string>, left: set<string>, id: string)
    requires Parted(all, done, left) && id in left
    ensures Parted(all, done + {id}, left - {id}) && id in all && id !in done
  {
  }

  lemma SeenOneMore(seen: set<string>, targets: set<string>, id: string)
    requires id !in seen
    ensures (seen + {id}) * targets == if id in targets then seen * targets + {id} else seen * targets
  {
  }

  /** The edges `ids`, and the point entries of those edges, are gone. */
  ghost predicate Pruned(E: map<string, Entry>, P: map<string, Entry>, ids: set<string>,
    edges: map<string, Entry>, points: map<string, Entry>)
  {
    edges == E - ids && points == P - PointIds(E, ids)
  }

  lemma PrunedNothing(E: map<string, Entry>, P: map<string, Entry>)
    ensures Pruned(E, P, {}, E, P)
  {
    assert PointIds(E, {}) == {};
  }

  lemma PrunedOneMore(E: map<string, Entry>, P: map<string, Entry>, ids: set<string>, id: string,
    edges: map<string, Entry>, points: map<string, Entry>)
    requires Pruned(E, P, ids, edges, points) && id in edges
    ensures var e := E[id].value;
      Pruned(E, P, ids + {id}, edges - {id}, points - {e.first.id, e.second.id})
  {
    var e := E[id].value;
    assert PointIds(E, ids + {id}) == PointIds(E, ids) + {e.first.id, e.second.id};
  }

  /** The identifiers of the edges at `v`, self-loops included. */
  ghost function Incident(edges: map<string, Entry>, v: string): set<string> {
    set id | id in edges && At(edges[id].value, v)
  }

  /** `list` holds exactly the stored edges at `v`. */
  ghost predicate ListsEdgesAt(list: map<string, Entry>, edges: map<string, Entry>, v: string) {
    && (forall id :: id in list <==> id in edges && At(edges[id].value, v))
    && (forall id :: id in list ==> list[id] == edges[id])
  }

  ghost predicate EdgesKnown(edges: map<string, Entry>, known: set<string>) {
    forall id :: id in edges ==>
      var e := edges[id].value;
      e.id == id && e.first.vertex in known && e.second.vertex in known
  }

  ghost predicate VerticesListEdges(vertexies: map<string, VertexEntry>, edges: map<string, Entry>) {
    forall v {:trigger ListsEdgesAt(vertexies[v].edges, edges, v)} :: v in vertexies ==> ListsEdgesAt(vertexies[v].edges, edges, v)
  }

  ghost predicate VerticesKeyed(vertexies: map<string, VertexEntry>) {
    forall v :: v in vertexies ==> vertexies[v].value == v
  }

  ghost predicate PointsNameEdges(points: map<string, Entry>, edges: map<string, Entry>) {
    forall p :: p in points ==>
      var e := points[p].value;
      (p == e.first.id || p == e.second.id) && e.id in edges && edges[e.id] == points[p]
  }

  /**
   The four indices agree: stored edges join known vertices, each vertex lists exactly its own
   edges, and each point entry names a stored edge that has that point.
   */
  ghost predicate Agree(vertexies: map<string, VertexEntry>, edges: map<string, Entry>, points: map<string, Entry>) {
    && EdgesKnown(edges, vertexies.Keys)
    && VerticesKeyed(vertexies)
    && VerticesListEdges(vertexies, edges)
    && PointsNameEdges(points, edges)
  }

  /** Strikes an edge from the list of vertex `v`, if `v` is known. */
  function Unlist(vertexies: map<string, VertexEntry>, id: string, v: string): map<string, VertexEntry> {
    if v in vertexies
    then vertexies[v := VertexEntry(vertexies[v].value, vertexies[v].edges - {id})]
    else vertexies
  }

  lemma UnlistBoth(vertexies: map<string, VertexEntry>, edges: map<string, Entry>, e: Edge)
    requires VerticesListEdges(vertexies, edges) && VerticesKeyed(vertexies)
    requires e.id in edges && edges[e.id].value == e
    ensures var after := Unlist(Unlist(vertexies, e.id, e.first.vertex), e.id, e.second.vertex);
      VerticesListEdges(after, edges - {e.id}) && VerticesKeyed(after) && after.Keys == vertexies.Keys
  {
    var after := Unlist(Unlist(vertexies, e.id, e.first.vertex), e.id, e.second.vertex);
    forall v | v in after ensures ListsEdgesAt(after[v].edges, edges - {e.id}, v) {
      assert ListsEdgesAt(vertexies[v].edges, edges, v);
    }
  }

  lemma RemovalKeepsNames(points: map<string, Entry>, edges: map<string, Entry>, e: Edge)
    requires PointsNameEdges(points, edges)
    requires e.id in edges && edges[e.id].value == e
    ensures PointsNameEdges(points - {e.first.id, e.second.id}, edges - {e.id})
  {
  }

  lemma RemovalKeepsKnown(edges: map<string, Entry>, known: set<string>, id: string)
    requires EdgesKnown(edges, known)
    ensures EdgesKnown(edges - {id}, known)
  {
  }

  /** Enters an edge in the list of vertex `v`. */
  function Enlist(vertexies: map<string, VertexEntry>, entry: Entry, v: string): map<string, VertexEntry>
    requires v in vertexies
  {
    vertexies[v := VertexEntry(vertexies[v].value, vertexies[v].edges[entry.value.id := entry])]
  }

  lemma TwiceIsOnce<T>(m: map<string, T>, k: string, x: T)
    ensures m[k := x][k := x] == m[k := x]
  {
  }

  lemma ListsNewEdge(list: map<string, Entry>, edges: map<string, Entry>, entry: Entry, v: string)
    requires ListsEdgesAt(list, edges, v) && entry.value.id !in edges
    ensures ListsEdgesAt(if At(entry.value, v) then list[entry.value.id := entry] else list, edges[entry.value.id := entry], v)
  {
  }

  lemma EnlistBoth(vertexies: map<string, VertexEntry>, edges: map<string, Entry>, entry: Entry)
    requires VerticesListEdges(vertexies, edges) && VerticesKeyed(vertexies)
    requires entry.value.id !in edges
    requires entry.value.first.vertex in vertexies && entry.value.second.vertex in vertexies
    ensures var after := Enlist(Enlist(vertexies, entry, entry.value.first.vertex), entry, entry.value.second.vertex);
      VerticesListEdges(after, edges[entry.value.id := entry]) && VerticesKeyed(after) && after.Keys == vertexies.Keys
  {
    var after := Enlist(Enlist(vertexies, entry, entry.value.first.vertex), entry, entry.value.second.vertex);
    forall v | v in after ensures ListsEdgesAt(after[v].edges, edges[entry.value.id := entry], v) {
      var list: map<string, Entry> := vertexies[v].edges;
      ListsNewEdge(list, edges, entry, v);
      TwiceIsOnce(list, entry.value.id, entry);
      assert after[v].edges == if At(entry.value, v) then list[entry.value.id := entry] else list;
    }
  }

  lemma AdditionKeepsNames(points: map<string, Entry>, edges: map<string, Entry>, entry: Entry)
    requires PointsNameEdges(points, edges) && entry.value.id !in edges
    ensures PointsNameEdges(points[entry.value.first.id := entry][entry.value.second.id := entry],
      edges[entry.value.id := entry])
  {
  }

  lemma AgreeWithEdge(vertexies: map<string, VertexEntry>, edges: map<string, Entry>, points: map<string, Entry>,
    entry: Entry)
    requires Agree(vertexies, edges, points) && entry.value.id !in edges
    requires entry.value.first.vertex in vertexies && entry.value.second.vertex in vertexies
    ensures var e := entry.value;
      var after := Enlist(Enlist(vertexies, entry, e.first.vertex), entry, e.second.vertex);
      Agree(after, edges[e.id := entry], points[e.first.id := entry][e.second.id := entry]) && after.Keys == vertexies.Keys
  {
    EnlistBoth(vertexies, edges, entry);
    AdditionKeepsNames(points, edges, entry);
  }

  lemma AgreeWithoutVertex(vertexies: map<string, VertexEntry>, edges: map<string, Entry>, points: map<string,
    Entry>, v: string)
    requires Agree(vertexies, edges, points) && Incident(edges, v) == {}
    ensures Agree(vertexies - {v}, edges, points)
  {
    forall id | id in edges ensures edges[id].value.first.vertex != v && edges[id].value.second.vertex != v {
      assert id !in Incident(edges, v);
    }
    forall u | u in vertexies - {v} ensures ListsEdgesAt((vertexies - {v})[u].edges, edges, u) {
      assert ListsEdgesAt(vertexies[u].edges, edges, u);
    }
  }

  lemma AgreeAfterRemoval(vertexies: map<string, VertexEntry>, edges: map<string, Entry>, points: map<string, Entry>,
    e: Edge)
    requires Agree(vertexies, edges, points)
    requires e.id in edges && edges[e.id].value == e
    ensures var after := Unlist(Unlist(vertexies, e.id, e.first.vertex), e.id, e.second.vertex);
      Agree(after, edges - {e.id}, points - {e.first.id, e.second.id}) && after.Keys == vertexies.Keys
  {
    UnlistBoth(vertexies, edges, e);
    RemovalKeepsNames(points, edges, e);
    RemovalKeepsKnown(edges, vertexies.Keys, e.id);
  }

  /** Every edge is found from both of its points. */
  ghost predicate Complete(edges: map<string, Entry>, points: map<string, Entry>) {
    forall id :: id in edges ==>
      var e := edges[id].value;
      && e.first.id in points && points[e.first.id] == edges[id]
      && e.second.id in points && points[e.second.id] == edges[id]
  }

  lemma RemovalKeepsComplete(edges: map<string, Entry>, points: map<string, Entry>, ids: set<string>)
    requires forall id :: id in edges ==> edges[id].value.id == id
    ensures Complete(edges, points) ==> Complete(edges - ids, points - PointIds(edges, ids))
  {
  }

  lemma RemovalOfOneKeepsComplete(edges: map<string, Entry>, points: map<string, Entry>, e: Edge)
    requires e.id in edges && edges[e.id].value == e && forall id :: id in edges ==> edges[id].value.id == id
    ensures Complete(edges, points) ==> Complete(edges - {e.id}, points - {e.first.id, e.second.id})
  {
  }

  /** A new edge keeps every edge reachable by its points just when neither of its points was in use. */
  lemma AdditionKeepsComplete(edges: map<string, Entry>, points: map<string, Entry>, entry: Entry)
    requires PointsNameEdges(points, edges) && entry.value.id !in edges
    requires forall id :: id in edges ==> edges[id].value.id == id
    ensures var e := entry.value;
      Complete(edges, points) ==>
        (Complete(edges[e.id := entry], points[e.first.id := entry][e.second.id := entry]) <==>
          e.first.id !in points && e.second.id !in points)
  {
    var e := entry.value;
    var edges', points' := edges[e.id := entry], points[e.first.id := entry][e.second.id := entry];
    if Complete(edges, points) && e.first.id in points {
      var f := points[e.first.id].value;
      assert edges'[f.id] == points[e.first.id];
    }
    if Complete(edges, points) && e.second.id in points {
      var f := points[e.second.id].value;
      assert edges'[f.id] == points[e.second.id];
    }
  }

  /** `list` holds the edges at `v`; those marked enabled are the edges of `T` there. */
  ghost predicate Adjacent(list: map<string, Entry>, T: set<Edge>, known: set<string>, v: string)
    reads list.Values
  {
    && (forall id :: id in list ==> At(list[id].value, v) && Other(list[id].value, v) in known)
    && (forall id :: id in list ==> (list[id].enabled <==> list[id].value in T))
    && (forall e :: e in T && At(e, v) ==> e.id in list && list[e.id].value == e)
  }

  /** Explores `v`: every vertex one enabled edge away is reached and queued. */
  method Expand(list: map<string, Entry>, v: string, ghost known: set<string>,
    oldVisited: set<string>, oldPrev: map<string, Hop>, oldQueue: seq<string>,
    ghost T: set<Edge>, ghost src: string, ghost oldDepth: map<string, nat>)
    returns (visited: set<string>, prev: map<string, Hop>, queue: seq<string>, ghost depth: map<string, nat>)
    requires Adjacent(list, T, known, v) && v in oldVisited && oldVisited <= known
    requires Reached(T, src, oldVisited, oldPrev, oldDepth) && Pending(T, oldVisited, oldQueue, v)
    ensures Reached(T, src, visited, prev, depth) && Waiting(T, visited, queue)
    ensures oldVisited <= visited <= known
    ensures visited == oldVisited ==> queue == oldQueue
  {
    visited, prev, queue, depth := oldVisited, oldPrev, oldQueue, oldDepth;
    var ids := list.Keys;
    while ids != {}
      invariant Reached(T, src, visited, prev, depth) && Pending(T, visited, queue, v)
      invariant oldVisited <= visited <= known
      invariant visited == oldVisited ==> queue == oldQueue
      invariant ids <= list.Keys
      invariant forall id :: id in list && id !in ids && list[id].value in T ==> Other(list[id].value, v) in visited
      decreases ids
    {
      var id :| id in ids;
      ids := ids - {id};
      var w := list[id];
      if !w.enabled {
        continue;
      }
      var next := Other(w.value, v);
      if next in visited {
        continue;
      }
      Enter(T, src, visited, prev, depth, queue, v, w.value);
      depth := depth[next := depth[v] + 1];
      visited := visited + {next};
      prev := prev[next := Hop(v, w.value)];
      queue := queue + [next];
    }
    assert Explored(T, v, visited);
  }

  ghost predicate Navigable(vertexies: map<string, VertexEntry>, T: set<Edge>)
    reads set v, id | v in vertexies && id in vertexies[v].edges :: vertexies[v].edges[id]
  {
    forall v {:trigger Adjacent(vertexies[v].edges, T, vertexies.Keys, v)} ::
      v in vertexies ==> Adjacent(vertexies[v].edges, T, vertexies.Keys, v)
  }

  /** Breadth-first search over enabled edges; `known` reports that no unknown vertex was met. */
  method Explore(vertexies: map<string, VertexEntry>, src: string, ghost T: set<Edge>)
    returns (known: bool, prev: map<string, Hop>, ghost visited: set<string>, ghost depth: map<string, nat>)
    requires Navigable(vertexies, T)
    ensures known <==> src in vertexies
    ensures known ==> Reached(T, src, visited, prev, depth) && Waiting(T, visited, [])
    ensures known ==> visited <= vertexies.Keys
  {
    var seen, queue := {src}, [src];
    prev, depth, visited := map[], map[src := 0], {};
    while |queue| > 0
      invariant Reached(T, src, seen, prev, depth) && Waiting(T, seen, queue)
      invariant seen <= vertexies.Keys || (queue == [src] && seen == {src})
      decreases vertexies.Keys - seen, |queue|
    {
      var v := queue[0];
      if v !in vertexies {
        known := false;
        return;
      }
      StartExploring(T, seen, queue);
      assert Adjacent(vertexies[v].edges, T, vertexies.Keys, v);
      ghost var before := seen;
      seen, prev, queue, depth := Expand(vertexies[v].edges, v, vertexies.Keys, seen, prev, queue[1..], T, src, depth);
      if seen != before {
        Narrows(vertexies.Keys, before, seen);
      }
    }
    assert queue == [];
    known, visited := true, seen;
  }

  ghost predicate MirrorImage(a: seq<Hop>, b: seq<Hop>) {
    |a| == |b| && forall i :: 0 <= i < |a| ==> a[i] == b[|b| - 1 - i]
  }

  method Reverse(data: seq<Hop>) returns (result: seq<Hop>)
    ensures MirrorImage(result, data)
  {
    result := [];
    var j := |data|;
    while j > 0
      invariant 0 <= j <= |data| && |result| == |data| - j
      invariant forall i :: 0 <= i < |result| ==> result[i] == data[|data| - 1 - i]
    {
      j := j - 1;
      result := result + [data[j]];
    }
  }

  /** Follows the entries of `prev` from `dst` until one is missing, then reverses the steps. */
  method WalkBack(prev: map<string, Hop>, dst: string,
    ghost T: set<Edge>, ghost src: string, ghost visited: set<string>, ghost depth: map<string, nat>)
    returns (path: seq<Hop>)
    requires Reached(T, src, visited, prev, depth)
    ensures path != [] <==> dst in prev
    ensures path != [] ==> SimpleChain(T, path, src, dst) && Connected(T, src, dst)
  {
    if dst !in prev {
      return [];
    }
    var u := dst;
    var result := [];
    ghost var p := [];
    while u in prev
      invariant Descends(T, p, u, dst, depth) && u in visited
      invariant u != dst ==> p != []
      invariant MirrorImage(result, p)
      decreases depth[u]
    {
      StepBack(T, src, visited, prev, depth, p, u, dst);
      result := result + [prev[u]];
      p := [prev[u]] + p;
      u := prev[u].v;
    }
    DescendingIsSimple(T, p, u, dst, depth);
    path := Reverse(result);
    assert path == p;
    ChainConnects(T, p, u, dst);
  }

  /** The search and the walk back together, in terms of the set `T` of enabled edges. */
  method SearchPath(vertexies: map<string, VertexEntry>, src: string, dst: string,
    ghost T: set<Edge>) returns (path: seq<Hop>)
    requires Navigable(vertexies, T) && Acyclic(T)
    requires forall e :: e in T ==> e.first.vertex in vertexies && e.second.vertex in vertexies
    ensures path == TreePath(T, src, dst)
  {
    ghost var visited, depth;
    var known, prev;
    if src == dst {
      TreePathToSelf(T, src);
    } else {
      TreePathExists(T, src, dst);
      if Connected(T, src, dst) {
        ConnectedAreKnown(T, vertexies.Keys, src, dst);
      }
    }
    known, prev, visited, depth := Explore(vertexies, src, T);
    if !known {
      return [];
    }
    path := WalkBack(prev, dst, T, src, visited, depth);
    ExploredAll(T, src, dst, visited, []);
    if path != [] {
      TreePathIs(T, path, src, dst);
    }
  }

  class Graph {
    var vertexies: map<string, VertexEntry>
    var edges: map<string, Entry>
    var points: map<string, Entry>

    ghost function Stored(): set<Edge>
      reads this
    {
      set id | id in edges :: edges[id].value
    }

    ghost function Enabled(): set<Edge>
      reads this, edges.Values
    {
      set id | id in edges && edges[id].enabled :: edges[id].value
    }

    /** The four indices agree. */
    ghost predicate Indexed()
      reads this
    {
      Agree(vertexies, edges, points)
    }

    ghost predicate Unchanged(vertexies: map<string, VertexEntry>, edges: map<string, Entry>, points: map<string,
      Entry>)
      reads this
    {
      this.vertexies == vertexies && this.edges == edges && this.points == points
    }

    /** Every stored edge is found from both of its points. */
    ghost predicate PointsComplete()
      reads this
    {
      Complete(edges, points)
    }

    ghost predicate Valid()
      reads this, edges.Values
    {
      Indexed() && MinimumSpanningForest(Stored(), Enabled())
    }

    constructor ()
      ensures Valid() && PointsComplete()
      ensures vertexies == map[] && edges == map[] && points == map[]
    {
      vertexies, edges, points := map[], map[], map[];
      new;
      assert Stored() == {} && Enabled() == {};
    }

    method ResetEdges() returns (order: seq<Entry>)
      requires EdgesKnown(edges, vertexies.Keys)
      modifies edges.Values`enabled
      ensures forall e :: e in order <==> e in edges.Values
      ensures SortedByWeight(Values(order)) && Elements(Values(order)) == Stored()
      ensures forall e :: e in Values(order) ==> e.first.vertex in vertexies && e.second.vertex in vertexies
      ensures Marked(order, 0, {})
    {
      var ids := edges.Keys;
      while ids != {}
        invariant ids <= edges.Keys
        invariant forall id :: id in edges && id !in ids ==> !edges[id].enabled
        decreases |ids|
      {
        var id :| id in ids;
        edges[id].enabled := false;
        ids := ids - {id};
      }
      order := SortEdges(edges.Values);
      OrderIsStored(order);
      forall i | 0 <= i < |order| ensures !order[i].enabled {
        assert order[i] in order;
      }
    }

    lemma OrderIsStored(order: seq<Entry>)
      requires EdgesKnown(edges, vertexies.Keys)
      requires forall e :: e in order <==> e in edges.Values
      requires forall i, j :: 0 <= i < j < |order| ==> order[i] != order[j]
      requires forall i, j :: 0 <= i < j < |order| ==> order[i].value.weight <= order[j].value.weight
      ensures SortedByWeight(Values(order)) && Elements(Values(order)) == Stored()
      ensures forall e :: e in Values(order) ==> e.first.vertex in vertexies && e.second.vertex in vertexies
    {
      forall i | 0 <= i < |order|
        ensures order[i].value.first.vertex in vertexies && order[i].value.second.vertex in vertexies
      {
        assert order[i] in order;
      }
      forall i, j | 0 <= i < j < |order| ensures order[i].value != order[j].value {
        assert order[i] in order && order[j] in order;
      }
      forall x | x in Elements(Values(order)) ensures x in Stored() {
        var i :| 0 <= i < |order| && order[i].value == x;
        assert order[i] in order;
      }
      forall x | x in Stored() ensures x in Elements(Values(order)) {
        var id :| id in edges && edges[id].value == x;
        assert edges[id] in order;
        var i :| 0 <= i < |order| && order[i] == edges[id];
        assert Values(order)[i] == x;
      }
    }

    method MakeClusters() returns (clusters: map<string, Cluster>)
      requires VerticesKeyed(vertexies)
      ensures Singletons(clusters, vertexies.Keys)
      ensures forall v :: v in clusters ==> fresh(clusters[v])
    {
      clusters := map[];
      var ids := vertexies.Keys;
      while ids != {}
        invariant ids <= vertexies.Keys
        invariant Singletons(clusters, vertexies.Keys - ids)
        invariant forall v :: v in clusters ==> fresh(clusters[v])
        decreases |ids|
      {
        var id :| id in ids;
        var l := new Cluster([vertexies[id].value]);
        clusters := clusters[id := l];
        ids := ids - {id};
      }
    }

    /** Finds a minimum spanning forest with Kruskal's algorithm. */
    method CalculateMST()
      requires EdgesKnown(edges, vertexies.Keys) && VerticesKeyed(vertexies)
      modifies edges.Values`enabled
      ensures MinimumSpanningForest(Stored(), Enabled())
    {
      if |edges| == 0 || |vertexies| == 0 {
        EmptyIsValid();
        return;
      }
      var order := ResetEdges();
      var clusters := MakeClusters();
      ghost var live := ProgressStarts(clusters, vertexies.Keys, Values(order));
      ghost var T := Grow(order, clusters, live);
      EnabledAre(order, T);
    }

    lemma EmptyIsValid()
      requires EdgesKnown(edges, vertexies.Keys) && (edges == map[] || vertexies == map[])
      ensures MinimumSpanningForest(Stored(), Enabled())
    {
      assert forall id :: id in edges ==> edges[id].value.first.vertex in vertexies.Keys;
      assert edges.Keys == {};
      assert Stored() == {} && Enabled() == {};
    }

    lemma EnabledAre(order: seq<Entry>, T: set<Edge>)
      requires T <= Stored() && forall e :: e in order <==> e in edges.Values
      requires Marked(order, |order|, T)
      ensures Enabled() == T
    {
      forall x | x in Enabled() ensures x in T {
        var id :| id in edges && edges[id].enabled && edges[id].value == x;
        assert edges[id] in order;
      }
      forall x | x in T ensures x in Enabled() {
        var id :| id in edges && edges[id].value == x;
        assert edges[id] in order;
      }
    }

    // ---------- Mutators ----------

    method AddVertex(v: string)
      requires Valid()
      modifies this, edges.Values`enabled
      ensures Valid()
      ensures vertexies.Keys == old(vertexies.Keys) + {v} && edges == old(edges) && points == old(points)
      ensures v in old(vertexies) ==> vertexies == old(vertexies) && Enabled() == old(Enabled())
    {
      if v in vertexies {
        return;
      }
      vertexies := vertexies[v := VertexEntry(v, map[])];
      CalculateMST();
    }

    /** Drops a stored edge from all four indices. */
    method RemoveEntry(e: Edge)
      requires Indexed() && e.id in edges && edges[e.id].value == e
      modifies this
      ensures Indexed() && vertexies.Keys == old(vertexies.Keys)
      ensures edges == old(edges) - {e.id} && points == old(points) - {e.first.id, e.second.id}
    {
      AgreeAfterRemoval(vertexies, edges, points, e);
      vertexies := Unlist(vertexies, e.id, e.first.vertex);
      vertexies := Unlist(vertexies, e.id, e.second.vertex);
      edges := edges - {e.id};
      points := points - {e.first.id, e.second.id};
    }

    /** Drops several stored edges, in any order. */
    method RemoveEntries(targets: set<string>)
      requires Indexed() && targets <= edges.Keys
      modifies this
      ensures Indexed() && vertexies.Keys == old(vertexies.Keys)
      ensures Pruned(old(edges), old(points), targets, edges, points)
    {
      ghost var E, P, done := edges, points, {};
      var ids := targets;
      PrunedNothing(E, P);
      while ids != {}
        invariant Indexed() && vertexies.Keys == old(vertexies.Keys)
        invariant Parted(targets, done, ids) && Pruned(E, P, done, edges, points)
        decreases ids
      {
        var id :| id in ids;
        MoveAcross(targets, done, ids, id);
        PrunedOneMore(E, P, done, id, edges, points);
        RemoveEntry(edges[id].value);
        ids := ids - {id};
        done := done + {id};
      }
    }

    method RemoveVertex(v: string)
      requires Valid()
      modifies this, edges.Values`enabled
      ensures Valid()
      ensures vertexies.Keys == old(vertexies.Keys) - {v}
      ensures v in old(vertexies) ==> Pruned(old(edges), old(points), Incident(old(edges), v), edges, points)
      ensures v !in old(vertexies) ==> Unchanged(old(vertexies), old(edges), old(points)) && Enabled() == old(Enabled())
      ensures old(PointsComplete()) ==> PointsComplete()
    {
      if v !in vertexies {
        return;
      }
      ghost var E, P := edges, points;
      assert ListsEdgesAt(vertexies[v].edges, edges, v);
      assert vertexies[v].edges.Keys == Incident(edges, v);
      RemoveEntries(vertexies[v].edges.Keys);
      AgreeWithoutVertex(vertexies, edges, points, v);
      vertexies := vertexies - {v};
      RemovalKeepsComplete(E, P, Incident(E, v));
      CalculateMST();
    }

    method RemoveEdge(p: Point)
      requires Valid()
      modifies this, edges.Values`enabled
      ensures Valid() && vertexies.Keys == old(vertexies.Keys)
      ensures p.id in old(points) ==>
        var e := old(points)[p.id].value;
        edges == old(edges) - {e.id} && points == old(points) - {e.first.id, e.second.id}
      ensures p.id !in old(points) ==>
        Unchanged(old(vertexies), old(edges), old(points)) && Enabled() == old(Enabled())
      ensures old(PointsComplete()) ==> PointsComplete()
    {
      if p.id !in points {
        return;
      }
      ghost var E, P := edges, points;
      var e := points[p.id].value;
      RemoveEntry(e);
      RemovalOfOneKeepsComplete(E, P, e);
      CalculateMST();
    }

    /**
     Adds an edge, or refreshes its timestamp if it is already stored.  `unknown` reports the
     error for an edge at an unknown vertex.
     */
    method AddEdge(e: Edge, now: int) returns (added: bool, unknown: bool)
      requires Valid()
      modifies this, edges.Values`enabled, edges.Values`timestamp
      ensures Valid() && vertexies.Keys == old(vertexies.Keys)
      ensures added <==> e.id !in old(edges) && e.first.vertex in vertexies && e.second.vertex in vertexies
      ensures unknown <==> e.id !in old(edges) && !(e.first.vertex in vertexies && e.second.vertex in vertexies)
      ensures !added ==> Unchanged(old(vertexies), old(edges), old(points)) && Enabled() == old(Enabled())
      ensures added ==>
        && e.id in edges && fresh(edges[e.id]) && edges[e.id].value == e
        && edges == old(edges)[e.id := edges[e.id]]
        && points == old(points)[e.first.id := edges[e.id]][e.second.id := edges[e.id]]
      ensures forall id :: id in old(edges) && id != e.id ==> edges[id].timestamp == old(edges[id].timestamp)
      ensures e.id in edges ==> edges[e.id].timestamp == now
      ensures added && old(PointsComplete()) ==>
        (PointsComplete() <==> e.first.id !in old(points) && e.second.id !in old(points))
    {
      if e.id in edges {
        assert forall id :: id in edges && id != e.id ==> edges[id] != edges[e.id];
        edges[e.id].timestamp := now;
        assert Enabled() == old(Enabled());
        return false, false;
      }
      if e.first.vertex !in vertexies || e.second.vertex !in vertexies {
        return false, true;
      }
      var entry := new Entry(e, now);
      InsertEntry(entry);
      CalculateMST();
      return true, false;
    }

    /** Enters a new edge in all four indices. */
    method InsertEntry(entry: Entry)
      requires Indexed() && entry.value.id !in edges
      requires entry.value.first.vertex in vertexies && entry.value.second.vertex in vertexies
      modifies this
      ensures Indexed() && vertexies.Keys == old(vertexies.Keys)
      ensures edges == old(edges)[entry.value.id := entry]
      ensures points == old(points)[entry.value.first.id := entry][entry.value.second.id := entry]
      ensures old(PointsComplete()) ==>
        (PointsComplete() <==> entry.value.first.id !in old(points) && entry.value.second.id !in old(points))
    {
      AgreeWithEdge(vertexies, edges, points, entry);
      AdditionKeepsComplete(edges, points, entry);
      edges := edges[entry.value.id := entry];
      vertexies := Enlist(vertexies, entry, entry.value.first.vertex);
      vertexies := Enlist(vertexies, entry, entry.value.second.vertex);
      points := points[entry.value.first.id := entry][entry.value.second.id := entry];
    }

    /** The edges not reported again in time; `clock(id)` is the reading taken when edge `id` is examined. */
    ghost function Stale(expiration: int, clock: string -> int): set<string>
      reads this, edges.Values
    {
      set id | id in edges && clock(id) - edges[id].timestamp >= expiration
    }

    /** Drops the entries among `stale` as the loop over all edges meets them, in any order. */
    method DropStale(expiration: int, clock: string -> int) returns (removed: bool)
      requires Indexed()
      modifies this
      ensures Indexed() && vertexies.Keys == old(vertexies.Keys)
      ensures Pruned(old(edges), old(points), old(Stale(expiration, clock)), edges, points)
      ensures removed <==> old(Stale(expiration, clock)) != {}
      ensures !removed ==> Unchanged(old(vertexies), old(edges), old(points))
    {
      ghost var E, P, V, S := edges, points, vertexies, Stale(expiration, clock);
      ghost var seen, gone := {}, {};
      var ids := edges.Keys;
      removed := false;
      PrunedNothing(E, P);
      while ids != {}
        invariant Indexed() && vertexies.Keys == V.Keys
        invariant Parted(E.Keys, seen, ids) && gone == seen * S && Pruned(E, P, gone, edges, points)
        invariant removed <==> gone != {}
        invariant !removed ==> Unchanged(V, E, P)
        decreases ids
      {
        var id :| id in ids;
        MoveAcross(E.Keys, seen, ids, id);
        SeenOneMore(seen, S, id);
        ids := ids - {id};
        seen := seen + {id};
        assert id in S <==> clock(id) - edges[id].timestamp >= expiration;
        if clock(id) - edges[id].timestamp < expiration {
          continue;
        }
        PrunedOneMore(E, P, gone, id, edges, points);
        RemoveEntry(edges[id].value);
        gone := gone + {id};
        removed := true;
      }
      assert gone == S;
    }

    method RemoveStaleEdges(expiration: int, clock: string -> int) returns (removed: bool)
      requires Valid()
      modifies this, edges.Values`enabled
      ensures Valid() && vertexies.Keys == old(vertexies.Keys)
      ensures Pruned(old(edges), old(points), old(Stale(expiration, clock)), edges, points)
      ensures forall id :: id in edges <==> id in old(edges) && clock(id) - old(edges[id].timestamp) < expiration
      ensures removed <==> old(Stale(expiration, clock)) != {}
      ensures !removed ==> Unchanged(old(vertexies), old(edges), old(points)) && Enabled() == old(Enabled())
      ensures old(PointsComplete()) ==> PointsComplete()
    {
      ghost var E, P, S := edges, points, Stale(expiration, clock);
      removed := DropStale(expiration, clock);
      RemovalKeepsComplete(E, P, S);
      if removed {
        CalculateMST();
      } else {
        assert Enabled() == old(Enabled());
      }
    }

    lemma NothingIncident(v: string)
      requires Indexed() && v !in vertexies
      ensures Incident(edges, v) == {}
    {
    }

    // ---------- Queries ----------

    /** Whether `p` is on an edge between two vertices. */
    predicate IsEdge(p: Point)
      reads this
    {
      p.id in points
    }

    /** Whether `p` is on an edge that the spanning forest uses. */
    predicate IsEnabledPoint(p: Point)
      reads this, points.Values
    {
      p.id in points && points[p.id].enabled
    }

    /** What the two point queries mean when no point is shared between edges. */
    lemma PointQueries(p: Point)
      requires Valid() && PointsComplete()
      ensures IsEdge(p) <==> exists e :: e in Stored() && (p.id == e.first.id || p.id == e.second.id)
      ensures IsEnabledPoint(p) <==> exists e :: e in Enabled() && (p.id == e.first.id || p.id == e.second.id)
    {
      if IsEdge(p) {
        var e := points[p.id].value;
        assert e in Stored();
        assert IsEnabledPoint(p) ==> e in Enabled();
      }
      if e :| e in Stored() && (p.id == e.first.id || p.id == e.second.id) {
        assert e.id in edges;
      }
      if e :| e in Enabled() && (p.id == e.first.id || p.id == e.second.id) {
        assert e.id in edges;
      }
    }

    lemma ListsAreAdjacency()
      requires Indexed()
      ensures Navigable(vertexies, Enabled())
    {
      forall v | v in vertexies ensures Adjacent(vertexies[v].edges, Enabled(), vertexies.Keys, v) {
        assert ListsEdgesAt(vertexies[v].edges, edges, v);
      }
    }

    /**
     Finds the path from `src` to `dst` over enabled edges: the one simple chain of enabled edges
     between them.  It exists exactly for two distinct known vertices that the stored edges connect.
     */
    method FindPath(src: string, dst: string) returns (path: seq<Hop>)
      requires Valid()
      ensures path == TreePath(Enabled(), src, dst)
      ensures path != [] <==> src != dst && src in vertexies && dst in vertexies && Connected(Stored(), src, dst)
    {
      PathMeansConnected(src, dst);
      if |vertexies| == 0 || |edges| == 0 {
        return [];
      }
      ListsAreAdjacency();
      path := SearchPath(vertexies, src, dst, Enabled());
    }

    lemma PathMeansConnected(src: string, dst: string)
      requires Valid()
      ensures forall e :: e in Stored() ==> e.first.vertex in vertexies && e.second.vertex in vertexies
      ensures TreePath(Enabled(), src, dst) != [] <==>
        src != dst && src in vertexies && dst in vertexies && Connected(Stored(), src, dst)
      ensures |vertexies| == 0 || |edges| == 0 ==> TreePath(Enabled(), src, dst) == []
    {
      SpanningConnects(Stored(), Enabled(), src, dst);
      if src == dst {
        TreePathToSelf(Enabled(), src);
      } else {
        TreePathExists(Enabled(), src, dst);
        if Connected(Stored(), src, dst) {
          ConnectedAreKnown(Stored(), vertexies.Keys, src, dst);
        }
      }
      if |edges| == 0 {
        NothingConnected(src, dst);
      }
    }

    lemma NothingConnected(src: string, dst: string)
      requires edges == map[]
      ensures Connected(Stored(), src, dst) <==> src == dst
    {
      assert Stored() == {};
      Reflexive({}, src);
    }
  }
}
