/** The controller's view of the network: devices, their graph, and change notifications. */
module Topologies {
  import opened Forests
  import opened Chains
  import opened Graphs
  import opened Links

  /** One minute, in nanoseconds. */
  const DEVICE_EXPLORER_INTERVAL: int := 60_000_000_000

  datatype Device = Device(id: string)

  /** The two ports of a hop: the one on the device being left, then the one being entered. */
  function PickPort(d: string, e: Edge): (Point, Point) {
    if e.first.vertex == d then (e.first, e.second) else (e.second, e.first)
  }

  function HopPorts(path: seq<Hop>): seq<(Point, Point)> {
    seq(|path|, i requires 0 <= i < |path| => PickPort(path[i].v, path[i].e))
  }

  /** `v` leads from `src` to `dst` over edges of `T`, from port to port and from device to device, none of them twice. */
  ghost predicate Route(T: set<Edge>, v: seq<(Point, Point)>, src: string, dst: string) {
    && |v| > 0 && v[0].0.vertex == src && v[|v|-1].1.vertex == dst
    && (forall i :: 0 <= i < |v| ==> exists e :: e in T && (v[i] == (e.first, e.second) || v[i] == (e.second, e.first)))
    && (forall i :: 0 <= i < |v| - 1 ==> v[i].1.vertex == v[i+1].0.vertex)
    && (forall i, j :: 0 <= i < j < |v| ==> v[i].0.vertex != v[j].0.vertex)
    && (forall i :: 0 <= i < |v| ==> v[i].0.vertex != dst)
  }

  /** The ports along a simple chain are a route. */
  lemma PortsRoute(T: set<Edge>, p: seq<Hop>, src: string, dst: string)
    requires SimpleChain(T, p, src, dst) && p != []
    ensures Route(T, HopPorts(p), src, dst)
  {
    var v := HopPorts(p);
    forall i | 0 <= i < |v|
      ensures v[i].0.vertex == p[i].v && v[i].1.vertex == if i + 1 < |p| then p[i+1].v else dst
      ensures exists e :: e in T && (v[i] == (e.first, e.second) || v[i] == (e.second, e.first))
    {
      ChainLink(T, p, src, dst, i);
      assert p[i].e in T && (v[i] == (p[i].e.first, p[i].e.second) || v[i] == (p[i].e.second, p[i].e.first));
    }
    ChainLink(T, p, src, dst, |p| - 1);
    assert v[|p|-1] == PickPort(p[|p|-1].v, p[|p|-1].e);
  }

  lemma TreeRoute(T: set<Edge>, src: string, dst: string)
    ensures |HopPorts(TreePath(T, src, dst))| == |TreePath(T, src, dst)|
    ensures TreePath(T, src, dst) != [] ==> Route(T, HopPorts(TreePath(T, src, dst)), src, dst)
  {
    if TreePath(T, src, dst) != [] {
      PortsRoute(T, TreePath(T, src, dst), src, dst);
    }
  }

  method PickPorts(path: seq<Hop>) returns (v: seq<(Point, Point)>)
    ensures v == HopPorts(path)
  {
    v := [];
    var i := 0;
    while i < |path|
      invariant 0 <= i <= |path| && |v| == i
      invariant forall k :: 0 <= k < i ==> v[k] == PickPort(path[k].v, path[k].e)
    {
      v := v + [PickPort(path[i].v, path[i].e)];
      i := i + 1;
    }
  }

  ghost predicate IsLink(e: Edge) {
    exists p, q :: Plain(p) && Plain(q) && e == NewLink(p, q)
  }

  /** Every stored edge was built from a pair of ports. */
  ghost predicate AllLinks(edges: map<string, Entry>) {
    forall id :: id in edges ==> IsLink(edges[id].value)
  }

  lemma OneMoreLink(edges: map<string, Entry>, entry: Entry)
    requires AllLinks(edges) && IsLink(entry.value)
    ensures AllLinks(edges[entry.value.id := entry])
  {
  }

  /** Each handler returns whether it sent OnTopologyChange to the listener. */
  class Topology {
    var devices: map<string, Device>
    const graph: Graph

    ghost predicate Valid()
      reads this, graph, graph.edges.Values
    {
      graph.Valid() && devices.Keys == graph.vertexies.Keys
    }

    ghost predicate LinksOnly()
      reads graph
    {
      AllLinks(graph.edges)
    }

    constructor ()
      ensures Valid() && LinksOnly() && graph.PointsComplete() && fresh(graph)
      ensures devices == map[] && graph.edges == map[]
    {
      devices := map[];
      graph := new Graph();
    }

    ghost function PathPorts(src: string, dst: string): seq<(Point, Point)>
      reads this, graph, graph.edges.Values
    {
      if src in devices && dst in devices then HopPorts(TreePath(graph.Enabled(), src, dst)) else []
    }

    /** All that a listener can ask about: devices, edges, enabled edges and every path. */
    twostate predicate NothingNew()
      reads this, graph, graph.edges.Values
    {
      && devices == old(devices)
      && graph.edges == old(graph.edges)
      && graph.Stored() == old(graph.Stored())
      && graph.Enabled() == old(graph.Enabled())
      && graph.points == old(graph.points)
      && forall s, d :: PathPorts(s, d) == old(PathPorts(s, d))
    }

    twostate lemma SameAnswers()
      requires devices == old(devices) && graph.points == old(graph.points)
      requires graph.edges == old(graph.edges) && graph.Enabled() == old(graph.Enabled())
      ensures NothingNew()
    {
    }

    method DeviceAdded(d: Device) returns (sent: bool)
      requires Valid()
      modifies this, graph, graph.edges.Values`enabled
      ensures Valid() && devices == old(devices)[d.id := d]
      ensures graph.edges == old(graph.edges) && graph.points == old(graph.points)
      ensures sent
      ensures old(LinksOnly()) ==> LinksOnly()
      ensures old(graph.PointsComplete()) ==> graph.PointsComplete()
    {
      devices := devices[d.id := d];
      graph.AddVertex(d.id);
      sent := true;
    }

    method DeviceRemoved(d: Device) returns (sent: bool)
      requires Valid()
      modifies this, graph, graph.edges.Values`enabled
      ensures Valid() && devices == old(devices) - {d.id}
      ensures sent
      ensures Pruned(old(graph.edges), old(graph.points), Incident(old(graph.edges), d.id), graph.edges, graph.points)
      ensures forall id :: id in graph.edges <==> id in old(graph.edges) && !At(old(graph.edges)[id].value, d.id)
      ensures old(LinksOnly()) ==> LinksOnly()
      ensures old(graph.PointsComplete()) ==> graph.PointsComplete()
    {
      ghost var E, P := graph.edges, graph.points;
      if d.id !in devices {
        graph.NothingIncident(d.id);
        PrunedNothing(E, P);
      }
      devices := devices - {d.id};
      graph.RemoveVertex(d.id);
      sent := true;
    }

    /** The critical section of DeviceLinked. */
    method Link(p: Port, q: Port, now: int) returns (added: bool)
      requires graph.Valid() && Plain(p) && Plain(q)
      modifies graph, graph.edges.Values`enabled, graph.edges.Values`timestamp
      ensures graph.Valid() && graph.vertexies.Keys == old(graph.vertexies.Keys)
      ensures added <==>
        LinkId(p, q) !in old(graph.edges) && p.device in old(graph.vertexies) && q.device in old(graph.vertexies)
      ensures !added ==> graph.Unchanged(old(graph.vertexies), old(graph.edges), old(graph.points))
      ensures !added ==> graph.Enabled() == old(graph.Enabled())
      ensures old(AllLinks(graph.edges)) ==> AllLinks(graph.edges)
      ensures added ==>
        var id := LinkId(p, q);
        && id in graph.edges && graph.edges[id].value == NewLink(p, q)
        && graph.edges == old(graph.edges)[id := graph.edges[id]]
        && graph.points == old(graph.points)[PortId(p) := graph.edges[id]][PortId(q) := graph.edges[id]]
      ensures LinkId(p, q) in graph.edges ==> graph.edges[LinkId(p, q)].timestamp == now
      ensures forall id :: id in old(graph.edges) && id != LinkId(p, q) ==>
        graph.edges[id].timestamp == old(graph.edges[id].timestamp)
      ensures old(graph.PointsComplete()) && added ==>
        (graph.PointsComplete() <==> PortId(p) !in old(graph.points) && PortId(q) !in old(graph.points))
    {
      ghost var before := graph.edges;
      var unknown;
      added, unknown := graph.AddEdge(NewLink(p, q), now);
      assert IsLink(NewLink(p, q));
      if added && AllLinks(before) {
        OneMoreLink(before, graph.edges[LinkId(p, q)]);
      }
    }

    /** A probe sent from port `q` arrived at port `p`. */
    method DeviceLinked(p: Port, q: Port, now: int) returns (sent: bool)
      requires Valid() && Plain(p) && Plain(q)
      modifies graph, graph.edges.Values`enabled, graph.edges.Values`timestamp
      ensures Valid() && devices == old(devices)
      ensures !sent ==> NothingNew()
      ensures sent <==> LinkId(p, q) !in old(graph.edges) && p.device in devices && q.device in devices
      ensures sent ==>
        var id := LinkId(p, q);
        && id in graph.edges && graph.edges[id].value == NewLink(p, q)
        && graph.edges == old(graph.edges)[id := graph.edges[id]]
        && graph.points == old(graph.points)[PortId(p) := graph.edges[id]][PortId(q) := graph.edges[id]]
      ensures LinkId(p, q) in graph.edges ==> graph.edges[LinkId(p, q)].timestamp == now
      ensures forall id :: id in old(graph.edges) && id != LinkId(p, q) ==>
        graph.edges[id].timestamp == old(graph.edges[id].timestamp)
      ensures old(LinksOnly()) ==> LinksOnly()
      ensures old(graph.PointsComplete()) && PortId(p) !in old(graph.points) && PortId(q) !in old(graph.points) ==>
        graph.PointsComplete()
    {
      var added := Link(p, q, now);
      sent := added;
      if !sent {
        SameAnswers();
      }
    }

    method PortRemoved(p: Port) returns (sent: bool)
      requires Valid()
      modifies graph, graph.edges.Values`enabled
      ensures Valid() && devices == old(devices)
      ensures !sent ==> NothingNew()
      ensures sent <==> PortId(p) in old(graph.points)
      ensures sent ==>
        var e := old(graph.points)[PortId(p)].value;
        graph.edges == old(graph.edges) - {e.id} && graph.points == old(graph.points) - {e.first.id, e.second.id}
      ensures old(LinksOnly()) ==> LinksOnly()
      ensures old(graph.PointsComplete()) ==> graph.PointsComplete()
    {
      var edge := graph.IsEdge(PointOf(p));
      if edge {
        graph.RemoveEdge(PointOf(p));
      }
      sent := edge;
      if !sent {
        SameAnswers();
      }
    }

    /** One round of the background remover of edges that are no longer reported. */
    method RemoveStale(clock: string -> int) returns (sent: bool)
      requires Valid()
      modifies graph, graph.edges.Values`enabled
      ensures Valid() && devices == old(devices)
      ensures !sent ==> NothingNew()
      ensures sent <==>
        exists id :: id in old(graph.edges) && clock(id) - old(graph.edges[id].timestamp) >= 3 * DEVICE_EXPLORER_INTERVAL
      ensures forall id :: id in graph.edges <==>
        id in old(graph.edges) && clock(id) - old(graph.edges[id].timestamp) < 3 * DEVICE_EXPLORER_INTERVAL
      ensures exists gone :: Pruned(old(graph.edges), old(graph.points), gone, graph.edges, graph.points)
      ensures old(LinksOnly()) ==> LinksOnly()
      ensures old(graph.PointsComplete()) ==> graph.PointsComplete()
    {
      ghost var stale := graph.Stale(3 * DEVICE_EXPLORER_INTERVAL, clock);
      var removed := graph.RemoveStaleEdges(3 * DEVICE_EXPLORER_INTERVAL, clock);
      sent := removed;
      assert Pruned(old(graph.edges), old(graph.points), stale, graph.edges, graph.points);
      assert sent ==> exists id :: id in stale;
      if !sent {
        SameAnswers();
      }
    }

    method Path(src: string, dst: string) returns (v: seq<(Point, Point)>)
      requires Valid()
      ensures v == PathPorts(src, dst)
    {
      v := [];
      if src !in devices || dst !in devices {
        return;
      }
      var path := graph.FindPath(src, dst);
      v := PickPorts(path);
    }

    /** There is a path exactly for distinct known devices that any edges connect, and it is a route of enabled edges. */
    lemma PathIsRoute(src: string, dst: string)
      requires Valid()
      ensures PathPorts(src, dst) != [] <==>
        src != dst && src in devices && dst in devices && Connected(graph.Stored(), src, dst)
      ensures PathPorts(src, dst) != [] ==> Route(graph.Enabled(), PathPorts(src, dst), src, dst)
    {
      graph.PathMeansConnected(src, dst);
      TreeRoute(graph.Enabled(), src, dst);
    }

    /** However often and from whichever end a cable is reported, it is stored as one edge. */
    lemma OneEdgePerCable(id: string, other: string)
      requires Valid() && LinksOnly() && id in graph.edges && other in graph.edges
      requires var e, f := graph.edges[id].value, graph.edges[other].value;
        (e.first == f.first && e.second == f.second) || (e.first == f.second && e.second == f.first)
      ensures id == other
    {
      var e, f := graph.edges[id].value, graph.edges[other].value;
      var p, q :| Plain(p) && Plain(q) && e == NewLink(p, q);
      var r, s :| Plain(r) && Plain(s) && f == NewLink(r, s);
      if e.first == f.first {
        PortIdInjective(p, r);
        PortIdInjective(q, s);
      } else {
        PortIdInjective(p, s);
        PortIdInjective(q, r);
      }
      SameLink(p, q, r, s);
    }
  }
}
