/** The controller's packet-in filter, and floods over the graph that a topology holds. */
module Ingress {
  import opened Forests
  import opened Graphs
  import opened Topologies
  import opened Flooding

  /** What becomes of a packet-in: ignored, taken as a topology probe, or handed to the applications. */
  datatype Fate = Ignored | Probe | Delivered

  /** Probes are taken before the spanning-tree filter; everything else must pass it. */
  method OnPacketIn(topo: Topology, ready: bool, known: bool, lldp: bool, ingress: Point) returns (fate: Fate)
    requires topo.Valid()
    ensures fate.Probe? <==> ready && known && lldp
    ensures fate.Delivered? <==>
      ready && known && !lldp && !(topo.graph.IsEdge(ingress) && !topo.graph.IsEnabledPoint(ingress))
  {
    if !ready {
      return Ignored;
    }
    if !known {
      return Ignored;
    }
    if lldp {
      return Probe;
    }
    if topo.graph.IsEdge(ingress) && !topo.graph.IsEnabledPoint(ingress) {
      return Ignored;
    }
    fate := Delivered;
  }

  /** The network of a topology whose devices have the given ports. */
  ghost function NetworkOf(topo: Topology, ports: map<string, set<Point>>): Network
    reads topo, topo.graph, topo.graph.edges.Values
  {
    Network(ports, topo.graph.Stored(), topo.graph.Enabled())
  }

  /** The ports of each device carry its name and unique identifiers, and the stored edges join such ports. */
  ghost predicate PortsFit(topo: Topology, ports: map<string, set<Point>>)
    reads topo, topo.graph
  {
    && (forall d, p :: d in ports && p in ports[d] ==> p.vertex == d)
    && (forall d, e, p, q :: d in ports && e in ports && p in ports[d] && q in ports[e] && p.id == q.id ==> p == q)
    && (forall e :: e in topo.graph.Stored() ==>
      && e.first.vertex in ports && e.first in ports[e.first.vertex]
      && e.second.vertex in ports && e.second in ports[e.second.vertex])
  }

  lemma CompleteMeansUnshared(graph: Graph)
    requires graph.Valid() && graph.PointsComplete()
    ensures Unshared(graph.Stored())
  {
    forall e, f | e in graph.Stored() && f in graph.Stored() && e != f
      ensures {e.first.id, e.second.id} !! {f.first.id, f.second.id}
    {
      assert graph.edges[e.id].value == e && graph.edges[f.id].value == f;
    }
  }

  /** A topology in which no two edges share a port is a network fit for flooding. */
  lemma FitForFlooding(topo: Topology, ports: map<string, set<Point>>)
    requires topo.Valid() && topo.graph.PointsComplete() && PortsFit(topo, ports)
    ensures WellFormed(NetworkOf(topo, ports))
    ensures SpanningForest(topo.graph.Stored(), topo.graph.Enabled())
  {
    CompleteMeansUnshared(topo.graph);
  }

  /** The controller's packet-in filter is the filter of that network. */
  lemma FilterAgrees(topo: Topology, ports: map<string, set<Point>>, p: Point)
    requires topo.Valid() && topo.graph.PointsComplete()
    ensures Admitted(NetworkOf(topo, ports), p) <==> !(topo.graph.IsEdge(p) && !topo.graph.IsEnabledPoint(p))
  {
    topo.graph.PointQueries(p);
    FilterMatches(NetworkOf(topo, ports), p);
  }

  /**
   Broadcast over a topology: a broadcast from a host port is handled at most once by each device,
   ends, and, if the storm controller denies nothing, is handled once by exactly the connected devices.
   */
  lemma BroadcastOverTopology(topo: Topology, ports: map<string, set<Point>>, states: seq<State>,
    choices: seq<Choice>, p: Point)
    requires topo.Valid() && topo.graph.PointsComplete() && PortsFit(topo, ports)
    requires p.vertex in ports && p in ports[p.vertex] && !topo.graph.IsEdge(p)
    requires Run(NetworkOf(topo, ports), states, choices) && states[0] == Start(p)
    ensures EachOnce(states[|choices|])
    ensures |choices| <= 1 + |Ends(topo.graph.Stored())| * |ports|
    ensures states[|choices|].inflight == multiset{} && (forall i :: 0 <= i < |choices| ==> choices[i].allow) ==>
      forall d :: d in states[|choices|].handled <==> Connected(topo.graph.Stored(), p.vertex, d)
  {
    var net := NetworkOf(topo, ports);
    FitForFlooding(topo, ports);
    topo.graph.PointQueries(p);
    FilterMatches(net, p);
    AtMostOnce(net, states, choices, p);
    RunIsBounded(net, states, choices, p);
    if states[|choices|].inflight == multiset{} && (forall i :: 0 <= i < |choices| ==> choices[i].allow) {
      ExactlyOnce(net, states, choices, p);
    }
  }

  lemma FilterMatches(net: Network, p: Point)
    ensures OnCable(net, p) <==> exists e :: e in net.edges && (p.id == e.first.id || p.id == e.second.id)
    ensures OnEnabled(net, p) <==> exists e :: e in net.enabled && (p.id == e.first.id || p.id == e.second.id)
  {
    if e :| e in net.edges && (p.id == e.first.id || p.id == e.second.id) {
      assert HasEnd(e, p);
    }
    if e :| e in net.enabled && (p.id == e.first.id || p.id == e.second.id) {
      assert HasEnd(e, p);
    }
  }
}
