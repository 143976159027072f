/** Unicast switching: per-device next hops, and what they do when devices follow them hop by hop. */
module Forwarding {
  import opened Text
  import opened Forests
  import opened Chains
  import opened Graphs
  import opened Topologies

  /** What the location lookup knows of a destination; `down` tells that its port or link is down. */
  datatype Location = Unregistered | Undiscovered | Discovered(port: Point, down: bool)

  datatype Verdict = LimitedBroadcast | Flood | Drop | SendTo(egress: Point)

  /** The port by which device `d` reaches `node`, going by the spanning forest `T`. */
  ghost function NextHop(devices: set<string>, T: set<Edge>, d: string, node: Point): Option<Point> {
    if d == node.vertex then Some(node)
    else if d !in devices || node.vertex !in devices || TreePath(T, d, node.vertex) == [] then None
    else Some(PickPort(TreePath(T, d, node.vertex)[0].v, TreePath(T, d, node.vertex)[0].e).0)
  }

  // ---------- What a next hop is ----------

  /** There is a way from device `d` to the device of `node` over the edges `E`. */
  ghost predicate Reaches(devices: set<string>, E: set<Edge>, d: string, node: Point) {
    d == node.vertex || (d in devices && node.vertex in devices && Connected(E, d, node.vertex))
  }

  /** `p` is the end at `d` of an edge of `T` from whose other end the rest of `T` leads on to `t`. */
  ghost predicate Leads(T: set<Edge>, d: string, t: string, p: Point) {
    exists e :: e in T && (p == e.first || p == e.second) && p.vertex == d && Connected(T - {e}, Other(e, d), t)
  }

  /** `hop` is the node's own port on its device, the port that leads to the node elsewhere, and nothing if there is no way. */
  ghost predicate IsNextHop(devices: set<string>, E: set<Edge>, T: set<Edge>, d: string, node: Point, hop: Option<Point>) {
    && (hop.Some? <==> Reaches(devices, E, d, node))
    && (d == node.vertex ==> hop == Some(node))
    && (hop.Some? && d != node.vertex ==> Leads(T, d, node.vertex, hop.value))
  }

  lemma NextHopIs(devices: set<string>, E: set<Edge>, T: set<Edge>, d: string, node: Point)
    requires SpanningForest(E, T)
    ensures IsNextHop(devices, E, T, d, node, NextHop(devices, T, d, node))
  {
    var t := node.vertex;
    if d != t {
      TreePathExists(T, d, t);
      SpanningConnects(E, T, d, t);
      if TreePath(T, d, t) != [] {
        FirstHopLeads(T, TreePath(T, d, t), d, t);
      }
    }
  }

  lemma FirstHopLeads(T: set<Edge>, p: seq<Hop>, d: string, t: string)
    requires SimpleChain(T, p, d, t) && p != []
    ensures Leads(T, d, t, PickPort(p[0].v, p[0].e).0)
  {
    var e := p[0].e;
    ChainAvoids(T, p[1..], Other(e, d), t, d, e);
    ChainConnects(T - {e}, p[1..], Other(e, d), t);
  }

  /** In a forest only one port leads from a device to another one, so there is just one next hop. */
  lemma NextHopIsUnique(devices: set<string>, E: set<Edge>, T: set<Edge>, d: string, node: Point,
    hop: Option<Point>, other: Option<Point>)
    requires SpanningForest(E, T)
    requires IsNextHop(devices, E, T, d, node, hop) && IsNextHop(devices, E, T, d, node, other)
    ensures hop == other
  {
    if hop.Some? && d != node.vertex {
      LeadsIsFirstHop(T, d, node.vertex, hop.value);
      LeadsIsFirstHop(T, d, node.vertex, other.value);
    }
  }

  lemma LeadsIsFirstHop(T: set<Edge>, d: string, t: string, p: Point)
    requires Acyclic(T) && Leads(T, d, t, p) && d != t
    ensures TreePath(T, d, t) != [] && p == PickPort(d, TreePath(T, d, t)[0].e).0
  {
    var e :| e in T && (p == e.first || p == e.second) && p.vertex == d && Connected(T - {e}, Other(e, d), t);
    var R, x := T - {e}, Other(e, d);
    var w :| Walk(R, x, w, t);
    var q := WalkToChain(R, x, w, t);
    assert !EndsConnected(R, e);
    forall k | 0 <= k < |q| ensures q[k].v != d {
      if q[k].v == d {
        ChainPrefixConnects(R, q, x, t, k);
        Symmetric(R, x, d);
      }
    }
    ChainGrows(R, T, q, x, t);
    var all := [Hop(d, e)] + q;
    assert all[1..] == q;
    TreePathIs(T, all, d, t);
    Reflexive(R, d);
  }

  lemma {:induction false} ChainPrefixConnects(S: set<Edge>, q: seq<Hop>, x: string, t: string, k: nat)
    requires Chain(S, q, x, t) && k < |q|
    ensures Connected(S, x, q[k].v)
    decreases k
  {
    if k == 0 {
      Reflexive(S, x);
    } else {
      var y := Other(q[0].e, x);
      OneStep(S, q[0].e, x);
      ChainPrefixConnects(S, q[1..], y, t, k - 1);
      Transitive(S, x, y, q[k].v);
    }
  }

  lemma {:induction false} ChainGrows(S: set<Edge>, T: set<Edge>, q: seq<Hop>, x: string, t: string)
    requires Chain(S, q, x, t) && S <= T
    ensures Chain(T, q, x, t)
    decreases q
  {
    if q != [] {
      ChainGrows(S, T, q[1..], Other(q[0].e, x), t);
    }
  }

  /** What becomes of a packet for `node` that came in at `ingress`, given the next hop. */
  function VerdictFor(ingress: Point, node: Point, hop: Option<Point>): Verdict {
    if hop.None? || (ingress.vertex != node.vertex && hop.value.id == ingress.id) then Drop else SendTo(hop.value)
  }

  class L2Switch {
    /** The flow rules installed on devices, by device and destination address. */
    var flows: map<(string, string), Point>

    constructor ()
      ensures flows == map[]
    {
      flows := map[];
    }

    /** Computes one device's egress port towards `node`. */
    method Egress(topo: Topology, d: string, node: Point) returns (egress: Option<Point>)
      requires topo.Valid()
      ensures egress == NextHop(topo.devices.Keys, topo.graph.Enabled(), d, node)
      ensures IsNextHop(topo.devices.Keys, topo.graph.Stored(), topo.graph.Enabled(), d, node, egress)
    {
      NextHopIs(topo.devices.Keys, topo.graph.Stored(), topo.graph.Enabled(), d, node);
      if d == node.vertex {
        return Some(node);
      }
      var path := topo.Path(d, node.vertex);
      if |path| == 0 {
        return None;
      }
      egress := Some(path[0].0);
    }

    /** Decides what to do with a packet for `mac` that came in at `ingress`. */
    method ProcessPacket(topo: Topology, broadcast: bool, mac: string, location: Location, ingress: Point)
      returns (verdict: Verdict)
      requires topo.Valid()
      modifies this
      ensures broadcast ==> verdict == LimitedBroadcast
      ensures !broadcast && location == Unregistered ==> verdict == Drop
      ensures !broadcast && location == Undiscovered ==> verdict == Flood
      ensures !broadcast && location.Discovered? && location.down ==> verdict == Drop
      ensures !broadcast && location.Discovered? && !location.down ==>
        exists hop ::
          (verdict == VerdictFor(ingress, location.port, hop) &&
          IsNextHop(topo.devices.Keys, topo.graph.Stored(), topo.graph.Enabled(), ingress.vertex, location.port, hop))
      ensures flows == if verdict.SendTo? then old(flows)[(ingress.vertex, mac) := verdict.egress] else old(flows)
    {
      if broadcast {
        return LimitedBroadcast;
      }
      match location
      case Unregistered => verdict := Drop;
      case Undiscovered => verdict := Flood;
      case Discovered(port, down) =>
        if down {
          return Drop;
        }
        verdict := Switching(topo, ingress, port);
        if verdict.SendTo? {
          flows := flows[(ingress.vertex, mac) := verdict.egress];
        }
    }

    /** A packet for a node behind `port` goes to the next hop, unless that is the port it came in at. */
    method Switching(topo: Topology, ingress: Point, port: Point) returns (verdict: Verdict)
      requires topo.Valid()
      ensures exists hop ::
        (verdict == VerdictFor(ingress, port, hop) &&
        IsNextHop(topo.devices.Keys, topo.graph.Stored(), topo.graph.Enabled(), ingress.vertex, port, hop))
      ensures verdict.SendTo? ==>
        Reaches(topo.devices.Keys, topo.graph.Stored(), ingress.vertex, port)
    {
      var egress := Egress(topo, ingress.vertex, port);
      if egress == None || (ingress.vertex != port.vertex && egress.value.id == ingress.id) {
        assert Drop == VerdictFor(ingress, port, egress);
        return Drop;
      }
      assert SendTo(egress.value) == VerdictFor(ingress, port, egress);
      verdict := SendTo(egress.value);
    }

    /**
     Installs a rule for `mac` on every device that has a way to it.  `accepts(d)` tells whether
     device `d` took the rule; a refusal is logged and skipped.
     */
    method ModifyFlows(topo: Topology, mac: string, location: Location, accepts: string -> bool)
      requires topo.Valid()
      modifies this
      ensures !location.Discovered? || location.down ==> flows == old(flows)
      ensures location.Discovered? && !location.down ==>
        && Updated(old(flows), flows, mac, topo.devices.Keys, topo.devices.Keys, topo.graph.Enabled(), location.port, accepts)
        && Modified(old(flows), flows, mac, topo.devices.Keys, topo.graph.Stored(), topo.graph.Enabled(), location.port, accepts)
    {
      if !location.Discovered? || location.down {
        return;
      }
      ghost var before := flows;
      flows := InstallAll(topo, flows, mac, location.port, accepts);
      UpdatedIsModified(before, flows, mac, topo.devices.Keys, topo.graph.Stored(), topo.graph.Enabled(), location.port, accepts);
    }

    method InstallAll(topo: Topology, before: map<(string, string), Point>, mac: string, node: Point,
      accepts: string -> bool)
      returns (after: map<(string, string), Point>)
      requires topo.Valid()
      ensures Updated(before, after, mac, topo.devices.Keys, topo.devices.Keys, topo.graph.Enabled(), node, accepts)
    {
      after := before;
      ghost var T, done := topo.graph.Enabled(), {};
      var devices := topo.devices.Keys;
      var todo := devices;
      while todo != {}
        invariant done + todo == devices
        invariant Updated(before, after, mac, devices, done, T, node, accepts)
        decreases todo
      {
        var d :| d in todo;
        var egress := Egress(topo, d, node);
        UpdateOne(before, after, mac, devices, done, T, node, accepts, d);
        ghost var updated := if egress.Some? && accepts(d) then after[(d, mac) := egress.value] else after;
        assert Updated(before, updated, mac, devices, done + {d}, T, node, accepts);
        todo := todo - {d};
        done := done + {d};
        if egress == None {
          continue;
        }
        if accepts(d) {
          after := after[(d, mac) := egress.value];
        }
      }
    }
  }

  /**
   The rules for `mac` on the devices `done` are the freshly computed ones, where there is one and it was
   accepted.
   */
  ghost predicate Updated(before: map<(string, string), Point>, after: map<(string, string), Point>, mac: string,
    devices: set<string>, done: set<string>, T: set<Edge>, node: Point, accepts: string -> bool)
  {
    forall d, m :: Rule(after, d, m) == (
      if m == mac && d in done && accepts(d) && NextHop(devices, T, d, node).Some?
      then NextHop(devices, T, d, node)
      else Rule(before, d, m))
  }

  /** Every device that accepts and has a way to `node` got its next hop; all other rules are as they were. */
  ghost predicate Modified(before: map<(string, string), Point>, after: map<(string, string), Point>, mac: string,
    devices: set<string>, E: set<Edge>, T: set<Edge>, node: Point, accepts: string -> bool)
  {
    && (forall d, m :: m != mac || d !in devices || !accepts(d) || !Reaches(devices, E, d, node) ==>
      Rule(after, d, m) == Rule(before, d, m))
    && (forall d :: d in devices && accepts(d) && Reaches(devices, E, d, node) ==>
      IsNextHop(devices, E, T, d, node, Rule(after, d, mac)))
  }

  lemma UpdatedIsModified(before: map<(string, string), Point>, after: map<(string, string), Point>, mac: string,
    devices: set<string>, E: set<Edge>, T: set<Edge>, node: Point, accepts: string -> bool)
    requires SpanningForest(E, T) && Updated(before, after, mac, devices, devices, T, node, accepts)
    ensures Modified(before, after, mac, devices, E, T, node, accepts)
  {
    forall d ensures IsNextHop(devices, E, T, d, node, NextHop(devices, T, d, node)) {
      NextHopIs(devices, E, T, d, node);
    }
  }

  lemma UpdateOne(before: map<(string, string), Point>, after: map<(string, string), Point>, mac: string,
    devices: set<string>, done: set<string>, T: set<Edge>, node: Point, accepts: string -> bool, d: string)
    requires Updated(before, after, mac, devices, done, T, node, accepts)
    ensures var hop := NextHop(devices, T, d, node);
      Updated(before, if hop.Some? && accepts(d) then after[(d, mac) := hop.value] else after,
        mac, devices, done + {d}, T, node, accepts)
  {
    var hop := NextHop(devices, T, d, node);
    var updated := if hop.Some? && accepts(d) then after[(d, mac) := hop.value] else after;
    forall x, m
      ensures Rule(updated, x, m) == (
        if m == mac && x in done + {d} && accepts(x) && NextHop(devices, T, x, node).Some?
        then NextHop(devices, T, x, node)
        else Rule(before, x, m))
    {
      assert Rule(updated, x, m) == if hop.Some? && accepts(d) && x == d && m == mac then hop else Rule(after, x, m);
    }
  }

  /** When every device accepts its rule, the network is programmed for `mac`. */
  lemma UpdateProgramsAll(before: map<(string, string), Point>, after: map<(string, string), Point>, mac: string,
    devices: set<string>, T: set<Edge>, node: Point, accepts: string -> bool)
    requires Updated(before, after, mac, devices, devices, T, node, accepts)
    requires forall d :: d in devices ==> accepts(d)
    ensures Programmed(after, mac, devices, T, node)
  {
  }

  function Rule(flows: map<(string, string), Point>, d: string, mac: string): Option<Point> {
    if (d, mac) in flows then Some(flows[(d, mac)]) else None
  }

  // ---------- Hop-by-hop delivery ----------

  /** Where a packet is: on a device, out of a port towards a host, or on a device without a rule for it. */
  datatype Place = On(device: string) | Out(port: Point) | Missed(device: string)

  /** The cables: each end of an edge leads to the other end. */
  ghost predicate Wired(E: set<Edge>, wire: map<string, Point>) {
    forall e :: e in E ==>
      && e.first.id in wire && wire[e.first.id] == e.second
      && e.second.id in wire && wire[e.second.id] == e.first
  }

  /** Cables that share no port can be wired up. */
  lemma WiringExists(E: set<Edge>) returns (wire: map<string, Point>)
    requires Unshared(E) && forall e :: e in E && e.first.id == e.second.id ==> e.first == e.second
    ensures Wired(E, wire)
  {
    var ids := (set e | e in E :: e.first.id) + (set e | e in E :: e.second.id);
    wire := map id | id in ids :: FarEnd(E, id);
    forall e | e in E
      ensures e.first.id in wire && wire[e.first.id] == e.second && e.second.id in wire && wire[e.second.id] == e.first
    {
      OneAt(E, e, e.first.id);
      OneAt(E, e, e.second.id);
    }
  }

  ghost predicate Ends(e: Edge, id: string) {
    id == e.first.id || id == e.second.id
  }

  ghost function FarEnd(E: set<Edge>, id: string): Point {
    if e :| e in E && Ends(e, id) then (if e.first.id == id then e.second else e.first) else Point(id, "")
  }

  lemma OneAt(E: set<Edge>, e: Edge, id: string)
    requires Unshared(E) && e in E && Ends(e, id)
    ensures FarEnd(E, id) == if e.first.id == id then e.second else e.first
  {
    forall f | f in E && Ends(f, id) ensures f == e {
      assert id in {e.first.id, e.second.id} * {f.first.id, f.second.id};
    }
    assert Ends(e, id);
  }

  /** One device forwards the packet by its rule, and the cable carries it on. */
  function Step(flows: map<(string, string), Point>, wire: map<string, Point>, mac: string, place: Place): Place {
    if !place.On? then place
    else match Rule(flows, place.device, mac) {
      case None => Missed(place.device)
      case Some(p) => if p.id in wire then On(wire[p.id].vertex) else Out(p)
    }
  }

  function After(flows: map<(string, string), Point>, wire: map<string, Point>, mac: string, place: Place,
    k: nat): Place
    decreases k
  {
    if k == 0 then place else After(flows, wire, mac, Step(flows, wire, mac, place), k - 1)
  }

  /** Every device with a way to `node` holds the rule that was computed for it alone. */
  ghost predicate Programmed(flows: map<(string, string), Point>, mac: string, devices: set<string>, T: set<Edge>,
    node: Point) {
    forall d :: d in devices && NextHop(devices, T, d, node).Some? ==> Rule(flows, d, mac) == NextHop(devices, T, d, node)
  }

  ghost predicate Within(T: set<Edge>, devices: set<string>) {
    forall e :: e in T ==> e.first.vertex in devices && e.second.vertex in devices
  }

  /** The device a packet is on after k hops of the path `p` to `t`. */
  function DeviceAfter(p: seq<Hop>, t: string, k: nat): string
    requires k <= |p|
  {
    if k < |p| then p[k].v else t
  }

  /**
   Rules computed independently on each device compose to the whole path: after k steps the
   packet is on the k-th device of the path, and one step later it leaves by the node's port.
   */
  lemma {:induction false} FollowsPath(flows: map<(string, string), Point>, wire: map<string, Point>, mac: string,
    devices: set<string>, T: set<Edge>, node: Point, d: string, k: nat)
    requires Acyclic(T) && Within(T, devices) && Wired(T, wire) && node.id !in wire && node.vertex in devices
    requires Programmed(flows, mac, devices, T, node)
    requires d in devices && (d == node.vertex || Connected(T, d, node.vertex))
    requires k <= |TreePath(T, d, node.vertex)| + 1
    ensures After(flows, wire, mac, On(d), k) ==
      if k <= |TreePath(T, d, node.vertex)| then On(DeviceAfter(TreePath(T, d, node.vertex), node.vertex, k)) else Out(node)
    decreases k
  {
    var t := node.vertex;
    var p := TreePath(T, d, t);
    if d == t {
      TreePathToSelf(T, t);
      assert Rule(flows, d, mac) == Some(node);
      if k == 1 {
        assert Step(flows, wire, mac, On(d)) == Out(node);
        assert After(flows, wire, mac, Out(node), 0) == Out(node);
      }
    } else {
      TreePathExists(T, d, t);
      TreePathTail(T, d, t);
      var x := Other(p[0].e, d);
      if k > 0 {
        assert Rule(flows, d, mac) == Some(PickPort(d, p[0].e).0);
        assert Step(flows, wire, mac, On(d)) == On(x);
        ChainConnects(T, p[1..], x, t);
        FollowsPath(flows, wire, mac, devices, T, node, x, k - 1);
      }
    }
  }

  /** The walk of a packet along the tree path: every stop, and the hop that leaves the network. */
  lemma DeliveryOnTree(flows: map<(string, string), Point>, wire: map<string, Point>, mac: string,
    devices: set<string>, T: set<Edge>, node: Point, d: string) returns (n: nat)
    requires Acyclic(T) && Within(T, devices) && Wired(T, wire) && node.id !in wire && node.vertex in devices
    requires Programmed(flows, mac, devices, T, node)
    requires d in devices && (d == node.vertex || Connected(T, d, node.vertex))
    ensures n < |devices|
    ensures After(flows, wire, mac, On(d), n) == On(node.vertex)
    ensures After(flows, wire, mac, On(d), n + 1) == Out(node)
    ensures forall i :: 0 <= i <= n ==> After(flows, wire, mac, On(d), i).On?
    ensures forall i, j :: 0 <= i < j <= n ==> After(flows, wire, mac, On(d), i) != After(flows, wire, mac, On(d), j)
  {
    var t := node.vertex;
    var p := TreePath(T, d, t);
    n := |p|;
    assert SimpleChain(T, p, d, t) by {
      if d == t { TreePathToSelf(T, t); } else { TreePathExists(T, d, t); }
    }
    forall i | 0 <= i <= n + 1
      ensures After(flows, wire, mac, On(d), i) == if i <= n then On(DeviceAfter(p, t, i)) else Out(node)
    {
      FollowsPath(flows, wire, mac, devices, T, node, d, i);
    }
    forall i | 0 <= i < |p| ensures p[i].v in devices {
      ChainLink(T, p, d, t, i);
    }
    ChainLength(T, p, d, t, devices);
  }

  /**
   Delivery: from any device connected to the node's device, the packet reaches that device in
   fewer hops than there are devices, visits no device twice, and then leaves by the node's port.
   */
  lemma Delivery(topo: Topology, flows: map<(string, string), Point>, wire: map<string, Point>, mac: string,
    node: Point, d: string)
    returns (n: nat)
    requires topo.Valid() && d in topo.devices && node.vertex in topo.devices
    requires Wired(topo.graph.Stored(), wire) && node.id !in wire
    requires Programmed(flows, mac, topo.devices.Keys, topo.graph.Enabled(), node)
    requires Connected(topo.graph.Stored(), d, node.vertex)
    ensures n < |topo.devices|
    ensures After(flows, wire, mac, On(d), n) == On(node.vertex)
    ensures After(flows, wire, mac, On(d), n + 1) == Out(node)
    ensures forall i :: 0 <= i <= n ==> After(flows, wire, mac, On(d), i).On?
    ensures forall i, j :: 0 <= i < j <= n ==> After(flows, wire, mac, On(d), i) != After(flows, wire, mac, On(d), j)
  {
    var devices, T := topo.devices.Keys, topo.graph.Enabled();
    SpanningConnects(topo.graph.Stored(), T, d, node.vertex);
    assert Within(T, devices);
    n := DeliveryOnTree(flows, wire, mac, devices, T, node, d);
    assert |devices| == |topo.devices|;
  }

  /**
   A packet that follows the path never meets the rule against sending it back out of the port
   it came from: each hop leaves by another port than the previous hop arrived at.
   */
  lemma NeverSentBack(T: set<Edge>, d: string, t: string, k: nat)
    requires Acyclic(T) && Unshared(T) && k + 1 < |TreePath(T, d, t)|
    ensures var p := TreePath(T, d, t);
      PickPort(p[k].v, p[k].e).1.id != PickPort(p[k+1].v, p[k+1].e).0.id
  {
    var p := TreePath(T, d, t);
    ChainLink(T, p, d, t, k);
    ChainLink(T, p, d, t, k + 1);
    assert Other(p[k].e, Other(p[k].e, p[k].v)) == p[k].v;
  }

  /** Each hop leaves by a port of its own device and arrives at a port of the next one. */
  lemma HopPortsMatch(T: set<Edge>, d: string, t: string, k: nat)
    requires k < |TreePath(T, d, t)|
    ensures var p := TreePath(T, d, t);
      && PickPort(p[k].v, p[k].e).0.vertex == p[k].v
      && PickPort(p[k].v, p[k].e).1.vertex == DeviceAfter(p, t, k + 1)
  {
    ChainLink(T, TreePath(T, d, t), d, t, k);
  }
}
