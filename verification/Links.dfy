/** Cables between switch ports and the identifiers by which the graph tells them apart. */
module Links {
  import opened Text
  import opened Forests

  datatype Port = Port(device: string, number: nat)

  function PortId(p: Port): string {
    p.device + ":" + Decimal(p.number)
  }

  function PointOf(p: Port): Point {
    Point(PortId(p), p.device)
  }

  /** The two port identifiers in sorted order, so that either end names the cable alike. */
  function LinkId(p: Port, q: Port): string {
    var a, b := PortId(p), PortId(q);
    if Before(b, a) then b + "/" + a else a + "/" + b
  }

  function NewLink(p: Port, q: Port): Edge {
    Edge(LinkId(p, q), PointOf(p), PointOf(q), 0.0)
  }

  /** Device identifiers are decimal datapath identifiers, so they hold no slash. */
  predicate Plain(p: Port) {
    '/' !in p.device
  }

  lemma NoSlash(p: Port)
    requires Plain(p)
    ensures '/' !in PortId(p)
  {
    DecimalDigits(p.number);
  }

  lemma DecimalHasNoColon(n: nat)
    ensures ':' !in Decimal(n)
  {
    DecimalDigits(n);
  }

  lemma PortIdInjective(p: Port, q: Port)
    ensures PortId(p) == PortId(q) <==> p == q
  {
    if PortId(p) == PortId(q) {
      DecimalHasNoColon(p.number);
      DecimalHasNoColon(q.number);
      SplitAtLast(p.device, Decimal(p.number), q.device, Decimal(q.number), ':');
      DecimalInjective(p.number, q.number);
    }
  }

  lemma LinkIdSymmetric(p: Port, q: Port)
    ensures LinkId(p, q) == LinkId(q, p)
  {
    BeforeIsTotal(PortId(p), PortId(q));
  }

  /** Two reports name the same link exactly when they join the same two ports, in either order. */
  lemma SameLink(p: Port, q: Port, r: Port, s: Port)
    requires Plain(p) && Plain(q) && Plain(r) && Plain(s)
    ensures LinkId(p, q) == LinkId(r, s) <==> (p == r && q == s) || (p == s && q == r)
  {
    LinkIdSymmetric(p, q);
    if LinkId(p, q) == LinkId(r, s) {
      NoSlash(p);
      NoSlash(q);
      NoSlash(r);
      NoSlash(s);
      var a, b := if Before(PortId(q), PortId(p)) then (q, p) else (p, q), if Before(PortId(s), PortId(r)) then (s, r) else (r, s);
      SplitAtFirst(PortId(a.0), PortId(a.1), PortId(b.0), PortId(b.1), '/');
      PortIdInjective(a.0, b.0);
      PortIdInjective(a.1, b.1);
    }
  }
}
