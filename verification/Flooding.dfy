/**
 A broadcast in flight.  Each device floods to all its ports but the ingress one, and ignores
 what comes in at the end of a cable that the spanning forest does not use.
 */
module Flooding {
  import opened Forests
  import opened Search

  /** The fixed network a flood runs in: the ports of each device, the cables, and those enabled. */
  datatype Network = Network(ports: map<string, set<Point>>, edges: set<Edge>, enabled: set<Edge>)

  predicate HasEnd(e: Edge, p: Point) {
    p.id == e.first.id || p.id == e.second.id
  }

  /** The end of `e` away from `p`. */
  function Far(e: Edge, p: Point): Point {
    if e.first.id == p.id then e.second else e.first
  }

  ghost predicate IsPort(net: Network, p: Point) {
    p.vertex in net.ports && p in net.ports[p.vertex]
  }

  ghost predicate OnCable(net: Network, p: Point) {
    exists e :: e in net.edges && HasEnd(e, p)
  }

  ghost predicate OnEnabled(net: Network, p: Point) {
    exists e :: e in net.enabled && HasEnd(e, p)
  }

  ghost predicate WellFormed(net: Network) {
    && Acyclic(net.enabled) && net.enabled <= net.edges && Unshared(net.edges)
    && (forall d, p :: d in net.ports && p in net.ports[d] ==> p.vertex == d)
    && (forall p, q :: IsPort(net, p) && IsPort(net, q) && p.id == q.id ==> p == q)
    && (forall e :: e in net.edges ==> IsPort(net, e.first) && IsPort(net, e.second))
  }

  /** Copies waiting at their ingress ports, and the devices that handled one, in order. */
  datatype State = State(inflight: multiset<Point>, handled: seq<string>)

  /** Where the copies sent out of all ports of `p`'s device but `p` arrive. */
  ghost function Arrivals(net: Network, p: Point): set<Point>
    requires IsPort(net, p)
  {
    set x, e | x in net.ports[p.vertex] && x != p && e in net.edges && HasEnd(e, x) :: Far(e, x)
  }

  /** The ingress filter lets a copy through unless it comes in by a cable that is not enabled. */
  ghost predicate Admitted(net: Network, p: Point) {
    !(OnCable(net, p) && !OnEnabled(net, p))
  }

  /** One copy is taken up; `allow` is the storm controller's decision should the copy get that far. */
  ghost predicate Next(net: Network, s: State, s': State, p: Point, allow: bool) {
    && p in s.inflight && IsPort(net, p)
    && s' ==
      if !Admitted(net, p) then State(s.inflight - multiset{p}, s.handled)
      else if !allow then State(s.inflight - multiset{p}, s.handled + [p.vertex])
      else State(s.inflight - multiset{p} + multiset(Arrivals(net, p)), s.handled + [p.vertex])
  }

  // ---------- Invariant ----------

  ghost function Handled(s: State): set<string> {
    set d | d in s.handled
  }

  ghost predicate Live(net: Network, s: State, p: Point) {
    p in s.inflight && Admitted(net, p)
  }

  /** `e` brought the live copy `p` from a device that has handled the broadcast. */
  ghost predicate Carries(s: State, e: Edge, p: Point) {
    HasEnd(e, p) && Far(e, p).vertex in Handled(s)
  }

  ghost predicate EachOnce(s: State) {
    forall i, j :: 0 <= i < j < |s.handled| ==> s.handled[i] != s.handled[j]
  }

  /** Copies in flight sit at ports, and live ones wait at different devices that have not handled one yet. */
  ghost predicate LiveApart(net: Network, s: State) {
    && (forall p :: p in s.inflight ==> IsPort(net, p))
    && (forall p :: Live(net, s, p) ==> s.inflight[p] == 1 && p.vertex !in Handled(s))
    && (forall p, q :: Live(net, s, p) && Live(net, s, q) && p.vertex == q.vertex ==> p == q)
  }

  /**
   `used` are the enabled cables a copy was sent over: they join all devices reached, and each is spent or
   carries a live copy.
   */
  ghost predicate Joined(net: Network, s: State, origin: string, used: set<Edge>) {
    && used <= net.enabled
    && (forall d :: d in Handled(s) ==> Connected(used, origin, d))
    && (forall p :: Live(net, s, p) ==> Connected(used, origin, p.vertex))
  }

  ghost predicate Spent(s: State, e: Edge) {
    e.first.vertex in Handled(s) && e.second.vertex in Handled(s)
  }

  ghost predicate Tracked(net: Network, s: State, used: set<Edge>) {
    && (forall p :: Live(net, s, p) && OnCable(net, p) ==> exists e :: e in used && Carries(s, e, p))
    && (forall e :: e in used ==> Spent(s, e) || exists p :: Live(net, s, p) && HasEnd(e, p))
  }

  ghost predicate Inv(net: Network, s: State, origin: string, used: set<Edge>) {
    EachOnce(s) && LiveApart(net, s) && Joined(net, s, origin, used) && Tracked(net, s, used)
  }

  lemma NoSelfLoop(net: Network, e: Edge)
    requires WellFormed(net) && e in net.enabled
    ensures e.first.vertex != e.second.vertex
  {
    Reflexive(net.enabled - {e}, e.first.vertex);
  }

  lemma SameEdge(net: Network, e: Edge, f: Edge, p: Point)
    requires WellFormed(net) && e in net.edges && f in net.edges && HasEnd(e, p) && HasEnd(f, p)
    ensures e == f
  {
    assert p.id in {e.first.id, e.second.id} * {f.first.id, f.second.id};
  }

  /** A dropped copy leaves the live copies as they are. */
  lemma DropIsQuiet(net: Network, s: State, s': State, p: Point)
    requires !Admitted(net, p) && s' == State(s.inflight - multiset{p}, s.handled)
    ensures Handled(s') == Handled(s)
    ensures forall q :: Live(net, s', q) <==> Live(net, s, q)
  {
  }

  lemma DropKeepsTracked(net: Network, s: State, s': State, used: set<Edge>)
    requires Tracked(net, s, used) && s'.handled == s.handled
    requires forall q :: Live(net, s', q) <==> Live(net, s, q)
    ensures Tracked(net, s', used)
  {
    assert Handled(s') == Handled(s);
    forall q | Live(net, s', q) && OnCable(net, q) ensures exists e :: e in used && Carries(s', e, q) {
      var e :| e in used && Carries(s, e, q);
      assert Carries(s', e, q);
    }
    forall e | e in used ensures Spent(s', e) || exists q :: Live(net, s', q) && HasEnd(e, q) {
      if !Spent(s, e) {
        var q :| Live(net, s, q) && HasEnd(e, q);
        assert Live(net, s', q);
      }
    }
  }

  /** Taking up a copy that the filter drops keeps the invariant. */
  lemma DropKeeps(net: Network, s: State, s': State, origin: string, used: set<Edge>, p: Point)
    requires WellFormed(net) && Inv(net, s, origin, used)
    requires p in s.inflight && !Admitted(net, p) && s' == State(s.inflight - multiset{p}, s.handled)
    ensures Inv(net, s', origin, used)
  {
    DropIsQuiet(net, s, s', p);
    DropKeepsTracked(net, s, s', used);
  }

  /** An end of a cable is one of its two points, and the far end is the other. */
  lemma EndsOf(net: Network, e: Edge, p: Point)
    requires WellFormed(net) && e in net.edges && IsPort(net, p) && HasEnd(e, p)
    ensures (p == e.first && Far(e, p) == e.second) || (p == e.second && Far(e, p) == e.first)
  {
  }

  /** The enabled cables of `p`'s device other than the one `p` is on. */
  ghost function Onward(net: Network, p: Point): set<Edge> {
    set e | e in net.enabled && At(e, p.vertex) && !HasEnd(e, p)
  }

  lemma OnwardArrives(net: Network, p: Point, e: Edge) returns (q: Point)
    requires WellFormed(net) && IsPort(net, p) && e in Onward(net, p)
    ensures q in Arrivals(net, p) && Admitted(net, q)
    ensures HasEnd(e, q) && Far(e, q).vertex == p.vertex && q.vertex == Other(e, p.vertex)
  {
    var x := if e.first.vertex == p.vertex then e.first else e.second;
    NoSelfLoop(net, e);
    assert IsPort(net, e.first) && IsPort(net, e.second);
    q := Far(e, x);
    assert OnEnabled(net, q);
  }

  lemma ArrivesOnward(net: Network, p: Point, q: Point) returns (e: Edge)
    requires WellFormed(net) && IsPort(net, p) && q in Arrivals(net, p) && Admitted(net, q)
    ensures e in Onward(net, p) && IsPort(net, q)
    ensures HasEnd(e, q) && Far(e, q).vertex == p.vertex && q.vertex == Other(e, p.vertex)
  {
    var x, f :| x in net.ports[p.vertex] && x != p && f in net.edges && HasEnd(f, x) && q == Far(f, x);
    EndsOf(net, f, x);
    assert OnCable(net, q);
    e :| e in net.enabled && HasEnd(e, q);
    SameEdge(net, e, f, q);
    NoSelfLoop(net, e);
    if HasEnd(e, p) {
      EndsOf(net, e, p);
    }
  }

  /** An onward cable of a live copy is new, and leads to a device no copy has reached. */
  lemma OnwardIsNew(net: Network, s: State, origin: string, used: set<Edge>, p: Point, e: Edge)
    requires WellFormed(net) && Inv(net, s, origin, used) && Live(net, s, p) && e in Onward(net, p)
    ensures e !in used && !Connected(used, origin, Other(e, p.vertex))
  {
    var d, y := p.vertex, Other(e, p.vertex);
    if e in used {
      assert !Spent(s, e);
      var q :| Live(net, s, q) && HasEnd(e, q);
      assert OnCable(net, q);
      var f :| f in used && Carries(s, f, q);
      SameEdge(net, e, f, q);
      EndsOf(net, e, q);
    } else if Connected(used, origin, y) {
      Symmetric(used, origin, d);
      Transitive(used, d, origin, y);
      Monotone(used, net.enabled - {e}, d, y);
      Symmetric(net.enabled - {e}, d, y);
    }
  }

  /** Two onward cables lead to different devices. */
  lemma OnwardApart(net: Network, p: Point, e: Edge, f: Edge)
    requires WellFormed(net) && e in Onward(net, p) && f in Onward(net, p)
    requires Other(e, p.vertex) == Other(f, p.vertex)
    ensures e == f
  {
    if e != f {
      OneStep(net.enabled - {e}, f, p.vertex);
      Symmetric(net.enabled - {e}, p.vertex, Other(e, p.vertex));
    }
  }

  /** What a device that takes up the copy `p` sends out: all of it, or nothing if the storm controller denies it. */
  ghost predicate Sends(net: Network, p: Point, arrived: set<Point>, onward: set<Edge>) {
    && IsPort(net, p)
    && ((arrived == Arrivals(net, p) && onward == Onward(net, p)) || (arrived == {} && onward == {}))
  }

  ghost function Taken(s: State, p: Point, arrived: set<Point>): State {
    State(s.inflight - multiset{p} + multiset(arrived), s.handled + [p.vertex])
  }

  lemma HandledGrows(s: State, p: Point, arrived: set<Point>)
    ensures Handled(Taken(s, p, arrived)) == Handled(s) + {p.vertex}
  {
  }

  /** Each live copy afterwards is an old one or has just been sent over an onward cable, never both. */
  lemma LiveAfter(net: Network, s: State, origin: string, used: set<Edge>, p: Point, arrived: set<Point>,
    onward: set<Edge>, q: Point)
    requires WellFormed(net) && Inv(net, s, origin, used) && Live(net, s, p) && Sends(net, p, arrived, onward)
    requires Live(net, Taken(s, p, arrived), q)
    ensures Taken(s, p, arrived).inflight[q] == 1 && IsPort(net, q)
    ensures (Live(net, s, q) && q != p && q !in arrived) || (q in arrived && !Live(net, s, q))
  {
    if q in arrived {
      var e := ArrivesOnward(net, p, q);
      OnwardIsNew(net, s, origin, used, p, e);
    }
  }

  lemma NewcomerIsFresh(net: Network, s: State, origin: string, used: set<Edge>, p: Point, arrived: set<Point>,
    onward: set<Edge>, q: Point)
    requires WellFormed(net) && Inv(net, s, origin, used) && Live(net, s, p) && Sends(net, p, arrived, onward)
    requires Live(net, Taken(s, p, arrived), q)
    ensures q.vertex !in Handled(s) && q.vertex != p.vertex
  {
    LiveAfter(net, s, origin, used, p, arrived, onward, q);
    if q in arrived {
      var e := ArrivesOnward(net, p, q);
      OnwardIsNew(net, s, origin, used, p, e);
      NoSelfLoop(net, e);
      assert At(e, p.vertex) && q.vertex != p.vertex;
      assert q.vertex !in Handled(s);
    } else {
      assert q.vertex !in Handled(s) && q.vertex != p.vertex;
    }
  }

  lemma NewcomersApart(net: Network, s: State, origin: string, used: set<Edge>, p: Point, arrived: set<Point>,
    onward: set<Edge>,
    q: Point, r: Point)
    requires WellFormed(net) && Inv(net, s, origin, used) && Live(net, s, p) && Sends(net, p, arrived, onward)
    requires Live(net, Taken(s, p, arrived), q) && Live(net, Taken(s, p, arrived), r) && q.vertex == r.vertex
    ensures q == r
  {
    LiveAfter(net, s, origin, used, p, arrived, onward, q);
    LiveAfter(net, s, origin, used, p, arrived, onward, r);
    if q in arrived {
      ArrivalsApart(net, s, origin, used, p, arrived, onward, q, r);
    } else if r in arrived {
      ArrivalsApart(net, s, origin, used, p, arrived, onward, r, q);
    }
  }

  lemma TakeKeepsOnce(net: Network, s: State, p: Point, arrived: set<Point>)
    requires EachOnce(s) && p.vertex !in Handled(s)
    ensures EachOnce(Taken(s, p, arrived))
  {
    assert p.vertex !in s.handled;
  }

  lemma TakeKeepsPorts(net: Network, s: State, p: Point, arrived: set<Point>, onward: set<Edge>)
    requires WellFormed(net) && Sends(net, p, arrived, onward) && forall q :: q in s.inflight ==> IsPort(net, q)
    ensures forall q :: q in Taken(s, p, arrived).inflight ==> IsPort(net, q)
  {
    forall q | q in Taken(s, p, arrived).inflight ensures IsPort(net, q) {
      if q in arrived {
        ArrivalIsPort(net, p, q);
      }
    }
  }

  lemma TakeKeepsApart(net: Network, s: State, origin: string, used: set<Edge>, p: Point, arrived: set<Point>,
    onward: set<Edge>)
    requires WellFormed(net) && Inv(net, s, origin, used) && Live(net, s, p) && Sends(net, p, arrived, onward)
    ensures EachOnce(Taken(s, p, arrived)) && LiveApart(net, Taken(s, p, arrived))
  {
    var s' := Taken(s, p, arrived);
    TakeKeepsOnce(net, s, p, arrived);
    TakeKeepsPorts(net, s, p, arrived, onward);
    HandledGrows(s, p, arrived);
    forall q | Live(net, s', q) ensures s'.inflight[q] == 1 && q.vertex !in Handled(s') {
      LiveAfter(net, s, origin, used, p, arrived, onward, q);
      NewcomerIsFresh(net, s, origin, used, p, arrived, onward, q);
    }
    forall q, r | Live(net, s', q) && Live(net, s', r) && q.vertex == r.vertex ensures q == r {
      NewcomersApart(net, s, origin, used, p, arrived, onward, q, r);
    }
  }

  lemma ArrivalIsPort(net: Network, p: Point, q: Point)
    requires WellFormed(net) && IsPort(net, p) && q in Arrivals(net, p)
    ensures IsPort(net, q)
  {
  }

  lemma ArrivalsApart(net: Network, s: State, origin: string, used: set<Edge>, p: Point, arrived: set<Point>,
    onward: set<Edge>,
    q: Point, r: Point)
    requires WellFormed(net) && Inv(net, s, origin, used) && Live(net, s, p) && Sends(net, p, arrived, onward)
    requires q in arrived && Admitted(net, q) && q.vertex == r.vertex
    requires Live(net, s, r) || (r in arrived && Admitted(net, r))
    ensures q == r
  {
    var e := ArrivesOnward(net, p, q);
    OnwardIsNew(net, s, origin, used, p, e);
    if r in arrived && Admitted(net, r) {
      var f := ArrivesOnward(net, p, r);
      OnwardApart(net, p, e, f);
      NoSelfLoop(net, e);
      EndsOf(net, e, q);
      EndsOf(net, e, r);
    }
  }

  lemma TakeKeepsJoined(net: Network, s: State, origin: string, used: set<Edge>, p: Point, arrived: set<Point>,
    onward: set<Edge>)
    requires WellFormed(net) && Inv(net, s, origin, used) && Live(net, s, p) && Sends(net, p, arrived, onward)
    ensures Joined(net, Taken(s, p, arrived), origin, used + onward)
  {
    var s', joined := Taken(s, p, arrived), used + onward;
    HandledGrows(s, p, arrived);
    forall d | d in Handled(s') ensures Connected(joined, origin, d) {
      Monotone(used, joined, origin, d);
    }
    forall q | Live(net, s', q) ensures Connected(joined, origin, q.vertex) {
      LiveAfter(net, s, origin, used, p, arrived, onward, q);
      if q in arrived {
        var e := ArrivesOnward(net, p, q);
        Monotone(used, joined, origin, p.vertex);
        OneStep(joined, e, p.vertex);
        Transitive(joined, origin, p.vertex, q.vertex);
      } else {
        Monotone(used, joined, origin, q.vertex);
      }
    }
  }

  lemma CarriedAfter(net: Network, s: State, origin: string, used: set<Edge>, p: Point, arrived: set<Point>,
    onward: set<Edge>, q: Point)
    returns (e: Edge)
    requires WellFormed(net) && Inv(net, s, origin, used) && Live(net, s, p) && Sends(net, p, arrived, onward)
    requires Live(net, Taken(s, p, arrived), q) && OnCable(net, q)
    ensures e in used + onward && Carries(Taken(s, p, arrived), e, q)
  {
    HandledGrows(s, p, arrived);
    LiveAfter(net, s, origin, used, p, arrived, onward, q);
    if q in arrived {
      e := ArrivesOnward(net, p, q);
    } else {
      e :| e in used && Carries(s, e, q);
    }
  }

  lemma SpentOrCarrying(net: Network, s: State, origin: string, used: set<Edge>, p: Point, arrived: set<Point>,
    onward: set<Edge>, e: Edge)
    requires WellFormed(net) && Inv(net, s, origin, used) && Live(net, s, p) && Sends(net, p, arrived, onward)
    requires e in used + onward
    ensures Spent(Taken(s, p, arrived), e) || exists q :: Live(net, Taken(s, p, arrived), q) && HasEnd(e, q)
  {
    var s' := Taken(s, p, arrived);
    HandledGrows(s, p, arrived);
    if e in onward {
      var q := OnwardArrives(net, p, e);
      assert Live(net, s', q) && HasEnd(e, q);
    } else if !Spent(s, e) {
      var q :| Live(net, s, q) && HasEnd(e, q);
      if q == p {
        assert OnCable(net, p);
        var f :| f in used && Carries(s, f, p);
        SameEdge(net, e, f, p);
        EndsOf(net, e, p);
      } else {
        assert Live(net, s', q);
      }
    }
  }

  lemma TakeKeepsTracked(net: Network, s: State, origin: string, used: set<Edge>, p: Point, arrived: set<Point>,
    onward: set<Edge>)
    requires WellFormed(net) && Inv(net, s, origin, used) && Live(net, s, p) && Sends(net, p, arrived, onward)
    ensures Tracked(net, Taken(s, p, arrived), used + onward)
  {
    var s', joined := Taken(s, p, arrived), used + onward;
    forall q | Live(net, s', q) && OnCable(net, q) ensures exists e :: e in joined && Carries(s', e, q) {
      var e := CarriedAfter(net, s, origin, used, p, arrived, onward, q);
    }
    forall e | e in joined ensures Spent(s', e) || exists q :: Live(net, s', q) && HasEnd(e, q) {
      SpentOrCarrying(net, s, origin, used, p, arrived, onward, e);
    }
  }

  /** Handling a live copy keeps the invariant, whether or not the storm controller lets it be flooded. */
  lemma TakeKeeps(net: Network, s: State, origin: string, used: set<Edge>, p: Point, arrived: set<Point>,
    onward: set<Edge>)
    requires WellFormed(net) && Inv(net, s, origin, used) && Live(net, s, p) && Sends(net, p, arrived, onward)
    ensures Inv(net, Taken(s, p, arrived), origin, used + onward)
  {
    TakeKeepsApart(net, s, origin, used, p, arrived, onward);
    TakeKeepsJoined(net, s, origin, used, p, arrived, onward);
    TakeKeepsTracked(net, s, origin, used, p, arrived, onward);
  }
  // ---------- Runs ----------

  /** A broadcast enters at the host port `p`, which is on no cable. */
  function Start(p: Point): State {
    State(multiset{p}, [])
  }

  datatype Choice = Choice(copy: Point, allow: bool)

  /** Any copy may be taken up next, and the storm controller may decide either way. */
  ghost predicate Run(net: Network, states: seq<State>, choices: seq<Choice>) {
    && |states| == |choices| + 1
    && forall i :: 0 <= i < |choices| ==> Next(net, states[i], states[i+1], choices[i].copy, choices[i].allow)
  }

  lemma StartInv(net: Network, p: Point)
    requires WellFormed(net) && IsPort(net, p) && !OnCable(net, p)
    ensures Inv(net, Start(p), p.vertex, {})
  {
    Reflexive({}, p.vertex);
    assert forall q :: q in Start(p).inflight ==> q == p;
  }

  /** The devices that handled the broadcast have passed it on over all their enabled cables. */
  ghost predicate PassedOn(net: Network, s: State, used: set<Edge>) {
    forall e, d :: e in net.enabled && d in Handled(s) && At(e, d) ==> e in used
  }

  lemma AllPassedOn(net: Network, s: State, origin: string, used: set<Edge>, p: Point, e: Edge)
    requires WellFormed(net) && Inv(net, s, origin, used) && Live(net, s, p)
    requires e in net.enabled && At(e, p.vertex)
    ensures e in used + Onward(net, p)
  {
    if HasEnd(e, p) {
      assert OnCable(net, p);
      var f :| f in used && Carries(s, f, p);
      SameEdge(net, e, f, p);
    }
  }

  lemma NextKeeps(net: Network, s: State, s': State, origin: string, used: set<Edge>,
    c: Choice) returns (used': set<Edge>)
    requires WellFormed(net) && Inv(net, s, origin, used) && Next(net, s, s', c.copy, c.allow)
    ensures Inv(net, s', origin, used')
    ensures c.allow && PassedOn(net, s, used) ==> PassedOn(net, s', used')
  {
    var p := c.copy;
    if !Admitted(net, p) {
      DropKeeps(net, s, s', origin, used, p);
      used' := used;
      assert Handled(s') == Handled(s);
    } else {
      var arrived := if c.allow then Arrivals(net, p) else {};
      var onward := if c.allow then Onward(net, p) else {};
      assert s' == Taken(s, p, arrived);
      TakeKeeps(net, s, origin, used, p, arrived, onward);
      used' := used + onward;
      if c.allow && PassedOn(net, s, used) {
        PassOnGrows(net, s, origin, used, p);
      }
    }
  }

  lemma PassOnGrows(net: Network, s: State, origin: string, used: set<Edge>, p: Point)
    requires WellFormed(net) && Inv(net, s, origin, used) && Live(net, s, p) && PassedOn(net, s, used)
    ensures PassedOn(net, Taken(s, p, Arrivals(net, p)), used + Onward(net, p))
  {
    HandledGrows(s, p, Arrivals(net, p));
    forall e | e in net.enabled && At(e, p.vertex) ensures e in used + Onward(net, p) {
      AllPassedOn(net, s, origin, used, p, e);
    }
  }

  lemma {:induction false} RunKeeps(net: Network, states: seq<State>, choices: seq<Choice>, p: Point,
    n: nat) returns (used: set<Edge>)
    requires WellFormed(net) && IsPort(net, p) && !OnCable(net, p)
    requires Run(net, states, choices) && states[0] == Start(p) && n <= |choices|
    ensures Inv(net, states[n], p.vertex, used)
    ensures (forall i :: 0 <= i < n ==> choices[i].allow) ==> PassedOn(net, states[n], used)
    decreases n
  {
    if n == 0 {
      StartInv(net, p);
      used := {};
    } else {
      var before := RunKeeps(net, states, choices, p, n - 1);
      used := NextKeeps(net, states[n-1], states[n], p.vertex, before, choices[n-1]);
    }
  }

  /** No storm: in every run, each device handles the broadcast at most once, and only connected devices do. */
  lemma AtMostOnce(net: Network, states: seq<State>, choices: seq<Choice>, p: Point)
    requires WellFormed(net) && IsPort(net, p) && !OnCable(net, p)
    requires Run(net, states, choices) && states[0] == Start(p)
    ensures EachOnce(states[|choices|])
    ensures forall d :: d in states[|choices|].handled ==> Connected(net.edges, p.vertex, d)
  {
    var used := RunKeeps(net, states, choices, p, |choices|);
    var s := states[|choices|];
    forall d | d in s.handled ensures Connected(net.edges, p.vertex, d) {
      assert d in Handled(s);
      Monotone(used, net.edges, p.vertex, d);
    }
  }

  /** Full reach: a run that denies nothing and has no copy left was handled once by exactly the connected devices. */
  lemma ExactlyOnce(net: Network, states: seq<State>, choices: seq<Choice>, p: Point)
    requires WellFormed(net) && SpanningForest(net.edges, net.enabled) && IsPort(net, p) && !OnCable(net, p)
    requires Run(net, states, choices) && states[0] == Start(p)
    requires forall i :: 0 <= i < |choices| ==> choices[i].allow
    requires states[|choices|].inflight == multiset{}
    ensures EachOnce(states[|choices|])
    ensures forall d :: d in states[|choices|].handled <==> Connected(net.edges, p.vertex, d)
  {
    var s := states[|choices|];
    var used := RunKeeps(net, states, choices, p, |choices|);
    AtMostOnce(net, states, choices, p);
    OriginHandled(net, states, choices, p, |choices|);
    forall d | d in Handled(s) ensures Explored(net.enabled, d, Handled(s)) {
      assert forall e :: e in net.enabled && At(e, d) ==> Spent(s, e);
    }
    forall d | Connected(net.edges, p.vertex, d) ensures d in Handled(s) {
      SpanningConnects(net.edges, net.enabled, p.vertex, d);
      ExploredAll(net.enabled, p.vertex, d, Handled(s), []);
    }
  }

  /** The origin is handled by the first step. */
  lemma {:induction false} OriginHandled(net: Network, states: seq<State>, choices: seq<Choice>, p: Point, n: nat)
    requires !OnCable(net, p) && Run(net, states, choices) && states[0] == Start(p) && n <= |choices|
    ensures p.vertex in Handled(states[n]) || states[n].inflight == multiset{p}
    decreases n
  {
    if n > 0 {
      OriginHandled(net, states, choices, p, n - 1);
      assert Next(net, states[n-1], states[n], choices[n-1].copy, choices[n-1].allow);
    }
  }

  // ---------- Termination ----------

  ghost function Ends(E: set<Edge>): set<Point> {
    (set e | e in E :: e.first) + (set e | e in E :: e.second)
  }

  /** An upper bound on the number of steps still possible. */
  ghost function Work(net: Network, s: State): nat {
    |s.inflight| + |Ends(net.edges)| * |net.ports.Keys - Handled(s)|
  }

  lemma ArrivalsBounded(net: Network, p: Point)
    requires IsPort(net, p)
    ensures |Arrivals(net, p)| <= |Ends(net.edges)|
  {
    SubsetSize(Arrivals(net, p), Ends(net.edges));
  }

  /** Every step uses up work, so no flood runs for ever. */
  lemma WorkDecreases(net: Network, s: State, s': State, c: Choice)
    requires Next(net, s, s', c.copy, c.allow)
    requires Admitted(net, c.copy) ==> c.copy.vertex !in Handled(s)
    ensures Work(net, s') < Work(net, s)
  {
    var p := c.copy;
    if !Admitted(net, p) {
      assert Handled(s') == Handled(s);
    } else {
      var left := net.ports.Keys - Handled(s);
      var arrived := if c.allow then Arrivals(net, p) else {};
      assert s' == Taken(s, p, arrived);
      HandledGrows(s, p, arrived);
      assert net.ports.Keys - Handled(s') == left - {p.vertex};
      ArrivalsBounded(net, p);
      OneLess(|Ends(net.edges)|, left, p.vertex);
    }
  }

  lemma OneLess(m: nat, left: set<string>, d: string)
    requires d in left
    ensures m * |left - {d}| == m * |left| - m
  {
    assert |left - {d}| == |left| - 1;
  }

  lemma TakenUpIsNew(net: Network, states: seq<State>, choices: seq<Choice>, p: Point, n: nat)
    requires WellFormed(net) && IsPort(net, p) && !OnCable(net, p)
    requires Run(net, states, choices) && states[0] == Start(p) && n < |choices|
    ensures Admitted(net, choices[n].copy) ==> choices[n].copy.vertex !in Handled(states[n])
  {
    var used := RunKeeps(net, states, choices, p, n);
    assert Next(net, states[n], states[n+1], choices[n].copy, choices[n].allow);
  }

  lemma {:induction false} RunUsesWork(net: Network, states: seq<State>, choices: seq<Choice>, n: nat)
    requires Run(net, states, choices) && n <= |choices|
    requires forall i :: 0 <= i < |choices| && Admitted(net, choices[i].copy) ==> choices[i].copy.vertex !in Handled(states[i])
    ensures n + Work(net, states[n]) <= Work(net, states[0])
    decreases n
  {
    if n > 0 {
      RunUsesWork(net, states, choices, n - 1);
      WorkDecreases(net, states[n-1], states[n], choices[n-1]);
    }
  }

  /** The flood ends: no run is longer than the network is large. */
  lemma RunIsBounded(net: Network, states: seq<State>, choices: seq<Choice>, p: Point)
    requires WellFormed(net) && IsPort(net, p) && !OnCable(net, p)
    requires Run(net, states, choices) && states[0] == Start(p)
    ensures |choices| <= 1 + |Ends(net.edges)| * |net.ports|
  {
    forall i | 0 <= i < |choices| && Admitted(net, choices[i].copy) ensures choices[i].copy.vertex !in Handled(states[i]) {
      TakenUpIsNew(net, states, choices, p, i);
    }
    RunUsesWork(net, states, choices, |choices|);
    StartWork(net, p);
  }

  lemma StartWork(net: Network, p: Point)
    ensures Work(net, Start(p)) == 1 + |Ends(net.edges)| * |net.ports|
  {
    assert net.ports.Keys - Handled(Start(p)) == net.ports.Keys;
  }
}
