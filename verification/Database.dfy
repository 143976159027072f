/**
 The transactions on the address tables. A transaction works on a copy of the tables and
 either commits it or leaves the tables as they were.
 */
module Databases {
  import opened Tables

  // ---------- The addresses of a new network ----------

  /** The rows for addresses base + 1 to base + k, inserted one by one. */
  function InsertAll(t: Db, n: nat, base: nat, k: nat): Option<Db> {
    if k == 0 then Some(t)
    else match InsertAll(t, n, base, k - 1)
      case None => None
      case Some(s) => InsertIp(s, n, base + k)
  }

  ghost predicate Stored(ips: map<nat, Ip>, a: nat) {
    exists i :: i in ips && ips[i].address == a
  }

  /** No address from base + 1 to base + k has a row. */
  ghost predicate Free(ips: map<nat, Ip>, base: nat, k: nat) {
    forall a :: base < a <= base + k ==> !Stored(ips, a)
  }

  /** `s` has the rows of `ips`, and unused rows of network `n` for exactly base + 1 to base + k. */
  ghost predicate Extended(ips: map<nat, Ip>, s: map<nat, Ip>, n: nat, base: nat, k: nat) {
    && (forall i :: i in ips ==> i in s && s[i] == ips[i])
    && (forall i :: i in s && i !in ips ==> s[i].network == n && !s[i].used && base < s[i].address <= base + k)
    && (forall a :: base < a <= base + k ==> HasRow(s, n, a))
  }

  lemma ExtendOnce(ips: map<nat, Ip>, s: map<nat, Ip>, n: nat, base: nat, k: nat, i: nat)
    requires Extended(ips, s, n, base, k) && i !in s
    ensures Extended(ips, s[i := Ip(n, base + k + 1, false)], n, base, k + 1)
  {
    var r := s[i := Ip(n, base + k + 1, false)];
    assert r[i].address == base + k + 1;
    forall a | base < a <= base + k + 1 ensures HasRow(r, n, a) {
      if a <= base + k {
        assert HasRow(s, n, a);
        var j :| j in s && s[j].network == n && s[j].address == a;
        assert j in r && r[j].network == n && r[j].address == a;
      }
    }
  }

  /** The row after `k` is accepted exactly when its address had no row before the network was added. */
  lemma NextIsFree(ips: map<nat, Ip>, s: map<nat, Ip>, n: nat, base: nat, k: nat)
    requires Extended(ips, s, n, base, k)
    ensures Stored(s, base + k + 1) <==> Stored(ips, base + k + 1)
  {
    if i :| i in ips && ips[i].address == base + k + 1 {
      assert i in s && s[i].address == base + k + 1;
    }
  }

  lemma InsertIpKeeps(t: Db, n: nat, a: nat)
    requires Below(t.ips, t.next) && AddressKey(t.ips)
    ensures InsertIp(t, n, a).Some? <==> !Stored(t.ips, a)
    ensures !Stored(t.ips, a) ==>
              var s := InsertIp(t, n, a).value;
              && s == Db(t.networks, t.ips[t.next := Ip(n, a, false)], t.hosts, t.vips, t.next + 1)
              && Below(s.ips, s.next) && AddressKey(s.ips)
  {
    if !Stored(t.ips, a) {
      var s := t.ips[t.next := Ip(n, a, false)];
      forall i, j | i in s && j in s && s[i].address == s[j].address ensures i == j {
        assert i != t.next ==> s[i].address != a;
      }
    }
  }

  /** Only `k` rows of network `n` were added. */
  ghost predicate Grown(t: Db, s: Db, n: nat, base: nat, k: nat) {
    && s == Db(t.networks, s.ips, t.hosts, t.vips, t.next + k)
    && Extended(t.ips, s.ips, n, base, k) && Below(s.ips, s.next) && AddressKey(s.ips)
  }

  lemma GrowOnce(t: Db, s: Db, n: nat, base: nat, k: nat)
    requires Grown(t, s, n, base, k)
    ensures InsertIp(s, n, base + k + 1).Some? <==> !Stored(t.ips, base + k + 1)
    ensures InsertIp(s, n, base + k + 1).Some? ==> Grown(t, InsertIp(s, n, base + k + 1).value, n, base, k + 1)
  {
    NextIsFree(t.ips, s.ips, n, base, k);
    InsertIpKeeps(s, n, base + k + 1);
    ExtendOnce(t.ips, s.ips, n, base, k, s.next);
  }

  lemma FreeStep(ips: map<nat, Ip>, base: nat, k: nat)
    requires k > 0
    ensures Free(ips, base, k) <==> Free(ips, base, k - 1) && !Stored(ips, base + k)
  {
  }

  /** The insertion loop succeeds exactly when no address of the range is taken, and then adds exactly the range. */
  lemma {:induction false} InsertAllExtends(t: Db, n: nat, base: nat, k: nat)
    requires Below(t.ips, t.next) && AddressKey(t.ips)
    ensures InsertAll(t, n, base, k).Some? <==> Free(t.ips, base, k)
    ensures InsertAll(t, n, base, k).Some? ==> Grown(t, InsertAll(t, n, base, k).value, n, base, k)
  {
    if k > 0 {
      InsertAllExtends(t, n, base, k - 1);
      FreeStep(t.ips, base, k);
      if InsertAll(t, n, base, k - 1).Some? {
        GrowOnce(t, InsertAll(t, n, base, k - 1).value, n, base, k - 1);
      }
    }
  }

  // ---------- Adding a network ----------

  function AddressCount(mask: nat): nat {
    Size(mask) - 2
  }

  /** The transaction that stores a network and the rows of its usable addresses. */
  function StoreNetwork(t: Db, n: Network): Option<Db> {
    match InsertNetwork(t, n)
    case None => None
    case Some(s) => InsertAll(s, t.next, n.address, AddressCount(n.mask))
  }

  /** All addresses of the block but the first, which names the network, and the last, which is for broadcast. */
  lemma AddressCountIsPower(mask: nat)
    requires ValidMask(mask)
    ensures AddressCount(mask) == Pow2(32 - mask) - 2
  {
    SizeIsPower(mask);
  }

  lemma UsableIsInRange(n: Network, a: nat)
    ensures Usable(n, a) <==> n.address < a <= n.address + AddressCount(n.mask)
  {
  }

  /** Stored addresses are the usable addresses of the registered networks. */
  lemma StoredIsUsable(t: Db, a: nat)
    requires Populated(t.networks, t.ips)
    ensures Stored(t.ips, a) <==> exists m :: m in t.networks && Usable(t.networks[m], a)
  {
    if i :| i in t.ips && t.ips[i].address == a {
      assert Usable(t.networks[t.ips[i].network], a);
    }
    if m :| m in t.networks && Usable(t.networks[m], a) {
      assert HasRow(t.ips, m, a);
    }
  }

  ghost predicate DisjointFromAll(t: Db, n: Network) {
    forall m :: m in t.networks ==> Disjoint(t.networks[m], n)
  }

  lemma FreeIsDisjoint(t: Db, n: Network)
    requires Populated(t.networks, t.ips) && Aligned(n)
    ensures Free(t.ips, n.address, AddressCount(n.mask)) <==> DisjointFromAll(t, n)
  {
    if Free(t.ips, n.address, AddressCount(n.mask)) {
      forall m | m in t.networks ensures Disjoint(t.networks[m], n) {
        forall a ensures !(Usable(t.networks[m], a) && Usable(n, a)) {
          StoredIsUsable(t, a);
        }
        DisjointWhenUsableAre(t.networks[m], n);
      }
    }
    if DisjointFromAll(t, n) {
      forall a | n.address < a <= n.address + AddressCount(n.mask) ensures !Stored(t.ips, a) {
        StoredIsUsable(t, a);
        if m :| m in t.networks && Usable(t.networks[m], a) {
          assert Disjoint(t.networks[m], n);
          assert Within(t.networks[m], a);
        }
      }
    }
  }

  /** A network is stored exactly when it is disjoint from every registered network. */
  lemma StoredWhenDisjoint(t: Db, n: Network)
    requires Consistent(t) && Aligned(n)
    ensures StoreNetwork(t, n).Some? <==> DisjointFromAll(t, n)
  {
    FreeIsDisjoint(t, n);
    if m :| m in t.networks && t.networks[m] == n {
      assert Within(n, n.address) && !Disjoint(t.networks[m], n);
    } else {
      InsertAllExtends(InsertNetwork(t, n).value, t.next, n.address, AddressCount(n.mask));
    }
  }

  lemma GrownMarks(t: Db, s: Db, n: nat, base: nat, k: nat)
    requires Marked(t.ips, t.hosts, t.vips) && HostKeys(t.ips.Keys, t.hosts) && VipKeys(t.ips.Keys, t.hosts.Keys, t.vips)
    requires Extended(t.ips, s.ips, n, base, k) && s.hosts == t.hosts && s.vips == t.vips
    ensures Marked(s.ips, s.hosts, s.vips)
  {
  }

  lemma GrownPopulates(networks: map<nat, Network>, ips: map<nat, Ip>, s: map<nat, Ip>, id: nat, n: Network)
    requires Populated(networks, ips) && id !in networks && Aligned(n)
    requires Extended(ips, s, id, n.address, AddressCount(n.mask))
    ensures Populated(networks[id := n], s)
  {
    forall m, a | m in networks[id := n] && Usable(networks[id := n][m], a) ensures HasRow(s, m, a) {
      if m == id {
        UsableIsInRange(n, a);
      } else {
        assert HasRow(ips, m, a);
        var i :| i in ips && ips[i].network == m && ips[i].address == a;
        assert i in s && s[i].network == m && s[i].address == a;
      }
    }
  }

  /** A stored network leaves the tables consistent, and every row they had unchanged. */
  lemma StoreNetworkKeeps(t: Db, n: Network)
    requires Consistent(t) && Aligned(n) && StoreNetwork(t, n).Some?
    ensures Consistent(StoreNetwork(t, n).value)
    ensures StoreNetwork(t, n).value.networks == t.networks[t.next := n]
    ensures Extended(t.ips, StoreNetwork(t, n).value.ips, t.next, n.address, AddressCount(n.mask))
    ensures StoreNetwork(t, n).value.hosts == t.hosts && StoreNetwork(t, n).value.vips == t.vips
  {
    var u, s := InsertNetwork(t, n).value, StoreNetwork(t, n).value;
    InsertAllExtends(u, t.next, n.address, AddressCount(n.mask));
    GrownMarks(u, s, t.next, n.address, AddressCount(n.mask));
    GrownPopulates(t.networks, t.ips, s.ips, t.next, n);
  }

  /** A row that is refused ends the loop for good. */
  lemma {:induction false} InsertAllStops(t: Db, n: nat, base: nat, i: nat, k: nat)
    requires i <= k && InsertAll(t, n, base, i).None?
    ensures InsertAll(t, n, base, k).None?
    decreases k - i
  {
    if i < k {
      InsertAllStops(t, n, base, i, k - 1);
    }
  }

  // ---------- The transactions ----------

  type Ipv4 = a: nat | a < 0x1_0000_0000

  datatype Reply = Created(id: nat) | BadRequest | Conflict | Failed

  function ShiftRight(a: nat, k: nat): nat
    decreases k
  {
    if k == 0 then a else ShiftRight(a / 2, k - 1)
  }

  function ShiftLeft(a: nat, k: nat): nat {
    if k == 0 then a else 2 * ShiftLeft(a, k - 1)
  }

  /** Shifting out the last k bits and zeros back in leads to the start of the block of size 2^k that `a` is in. */
  lemma {:induction false} ShiftsClear(a: nat, k: nat)
    ensures ShiftLeft(ShiftRight(a, k), k) <= a < ShiftLeft(ShiftRight(a, k), k) + Pow2(k)
    decreases k
  {
    if k > 0 {
      ShiftsClear(a / 2, k - 1);
    }
  }

  lemma {:induction false} ShiftedIsMultiple(a: nat, k: nat)
    ensures ShiftLeft(a, k) == Pow2(k) * a && ShiftLeft(a, k) % Pow2(k) == 0
  {
    if k > 0 {
      ShiftedIsMultiple(a, k - 1);
      assert 2 * (Pow2(k - 1) * a) == 2 * Pow2(k - 1) * a;
    }
    MultipleHasNoRest(Pow2(k), a);
  }

  lemma {:induction false} ShiftLeftInjective(a: nat, b: nat, k: nat)
    ensures ShiftLeft(a, k) == ShiftLeft(b, k) <==> a == b
  {
    if k > 0 {
      ShiftLeftInjective(a, b, k - 1);
    }
  }

  /** The block that an address and a mask stand for: the bits that the mask drops are cleared. */
  function Masked(address: Ipv4, mask: nat): (n: Network)
    requires ValidMask(mask)
    ensures Aligned(n) && n.mask == mask && Within(n, address)
  {
    ShiftsClear(address, 32 - mask);
    ShiftedIsMultiple(ShiftRight(address, 32 - mask), 32 - mask);
    SizeIsPower(mask);
    Network(ShiftLeft(ShiftRight(address, 32 - mask), 32 - mask), mask)
  }

  /** Two addresses are in one network exactly when they agree on all bits that the mask keeps. */
  lemma SameNetwork(a: Ipv4, b: Ipv4, mask: nat)
    requires ValidMask(mask)
    ensures Masked(a, mask) == Masked(b, mask) <==> ShiftRight(a, 32 - mask) == ShiftRight(b, 32 - mask)
  {
    ShiftLeftInjective(ShiftRight(a, 32 - mask), ShiftRight(b, 32 - mask), 32 - mask);
  }

  /** The block of a mask has 2^(32 - mask) addresses, and starts at a multiple of that. */
  lemma BlockOfPower(address: Ipv4, mask: nat)
    requires ValidMask(mask)
    ensures var start := Masked(address, mask).address;
      && start % Pow2(32 - mask) == 0 && start <= address < start + Pow2(32 - mask)
      && forall a: nat :: Within(Masked(address, mask), a) <==> start <= a < start + Pow2(32 - mask)
  {
    SizeIsPower(mask);
    ShiftsClear(address, 32 - mask);
    ShiftedIsMultiple(ShiftRight(address, 32 - mask), 32 - mask);
  }

  lemma NothingToRemove<T>(rows: map<nat, T>, k: nat)
    requires k !in rows
    ensures rows - {k} == rows
  {
  }

  /** A host is kept as long as a virtual address refers to it, and only then. */
  lemma DeleteHostRefused(t: Db, h: nat)
    requires VipKeys(t.ips.Keys, t.hosts.Keys, t.vips)
    ensures DeleteHost(t, h).None? <==> exists v :: v in t.vips && (t.vips[v].active == h || t.vips[v].standby == h)
    ensures DeleteHost(t, h).Some? ==>
              DeleteHost(t, h).value == t.(hosts := t.hosts - {h},
                                           ips := if h in t.hosts then Mark(t.ips, t.hosts[h].ip, false) else t.ips)
  {
    if h !in t.hosts {
      NothingToRemove(t.hosts, h);
    }
  }

  // ---------- Runs of transactions ----------

  datatype Transaction =
    | NewNetwork(address: Ipv4, mask: nat)
    | DropNetwork(network: nat)
    | NewHost(ip: nat)
    | DropHost(host: nat)
    | NewVip(vip: Vip)
    | DropVip(id: nat)
    | SwapVip(id: nat)
    | Locate(host: nat, port: nat)

  /** The tables after a transaction, which leaves them alone if it is rolled back. */
  function Committed(t: Db, r: Option<Db>): Db {
    if r.Some? then r.value else t
  }

  function Swapped(v: Vip): Vip {
    Vip(v.ip, v.standby, v.active)
  }

  function SwapHosts(t: Db, v: nat): Db {
    if v in t.vips then UpdateVip(t, v, Swapped(t.vips[v])) else t
  }

  function Exec(t: Db, x: Transaction): Db {
    match x
    case NewNetwork(address, mask) =>
      if ValidMask(mask) then Committed(t, StoreNetwork(t, Masked(address, mask))) else t
    case DropNetwork(n) => Committed(t, DeleteNetwork(t, n))
    case NewHost(i) =>
      if i in t.ips && !t.ips[i].used then Committed(t, InsertHost(t, Host(i, None))) else t
    case DropHost(h) => Committed(t, DeleteHost(t, h))
    case NewVip(v) =>
      if v.active != v.standby && v.ip in t.ips && !t.ips[v.ip].used then Committed(t, InsertVip(t, v)) else t
    case DropVip(v) => DeleteVip(t, v)
    case SwapVip(v) => SwapHosts(t, v)
    case Locate(h, port) =>
      if h in t.hosts then UpdateHost(t, h, Host(t.hosts[h].ip, Some(port))) else t
  }

  lemma ExecSwaps(t: Db, v: nat)
    ensures Exec(t, SwapVip(v)) == SwapHosts(t, v)
  {
  }

  lemma NewHostKeeps(t: Db, i: nat)
    requires Consistent(t) && i in t.ips && !t.ips[i].used
    ensures InsertHost(t, Host(i, None)).Some? && Consistent(InsertHost(t, Host(i, None)).value)
  {
    UnusedIsFree(t, i);
    InsertHostSucceeds(t, Host(i, None));
    InsertHostKeeps(t, Host(i, None));
  }

  lemma NewVipKeeps(t: Db, v: Vip)
    requires Consistent(t) && v.ip in t.ips && !t.ips[v.ip].used
    ensures InsertVip(t, v).Some? <==> v.active in t.hosts && v.standby in t.hosts
    ensures InsertVip(t, v).Some? ==> Consistent(InsertVip(t, v).value)
  {
    UnusedIsFree(t, v.ip);
    InsertVipSucceeds(t, v);
    if v.active in t.hosts && v.standby in t.hosts {
      InsertVipKeeps(t, v);
    }
  }

  lemma SwapKeeps(t: Db, v: nat)
    requires Consistent(t) && v in t.vips
    ensures UpdateVip(t, v, Swapped(t.vips[v])) == t.(vips := t.vips[v := Swapped(t.vips[v])])
    ensures Consistent(t.(vips := t.vips[v := Swapped(t.vips[v])]))
  {
    UpdateVipKeeps(t, v, Swapped(t.vips[v]));
  }

  lemma ExecKeeps(t: Db, x: Transaction)
    requires Consistent(t)
    ensures Consistent(Exec(t, x))
  {
    match x
    case NewNetwork(address, mask) =>
      if ValidMask(mask) && StoreNetwork(t, Masked(address, mask)).Some? {
        StoreNetworkKeeps(t, Masked(address, mask));
      }
    case DropNetwork(n) =>
      if DeleteNetwork(t, n).Some? { DeleteNetworkKeeps(t, n); }
    case NewHost(i) =>
      if i in t.ips && !t.ips[i].used { NewHostKeeps(t, i); }
    case DropHost(h) => DeleteHostKeeps(t, h);
    case NewVip(v) =>
      if v.ip in t.ips && !t.ips[v.ip].used { NewVipKeeps(t, v); }
    case DropVip(v) => DeleteVipKeeps(t, v);
    case SwapVip(v) =>
      if v in t.vips { SwapKeeps(t, v); }
    case Locate(h, port) =>
      if h in t.hosts { UpdateHostKeeps(t, h, Host(t.hosts[h].ip, Some(port))); }
  }

  const EMPTY: Db := Db(map[], map[], map[], map[], 0)

  /** The tables after the given transactions on an empty database. */
  function After(xs: seq<Transaction>): Db
    decreases |xs|
  {
    if xs == [] then EMPTY else Exec(After(xs[..|xs|-1]), xs[|xs|-1])
  }

  lemma AfterOneMore(xs: seq<Transaction>, x: Transaction)
    ensures After(xs + [x]) == Exec(After(xs), x)
  {
    assert (xs + [x])[..|xs|] == xs;
  }

  lemma {:induction false} AfterIsConsistent(xs: seq<Transaction>)
    ensures Consistent(After(xs))
    decreases |xs|
  {
    if xs != [] {
      AfterIsConsistent(xs[..|xs|-1]);
      ExecKeeps(After(xs[..|xs|-1]), xs[|xs|-1]);
    }
  }

  /**
   After any sequence of transactions an address is marked used exactly when a host or a virtual address
   refers to it, never both do, and the registered networks are pairwise disjoint.
   */
  lemma AllocationIsSound(xs: seq<Transaction>)
    ensures var t := After(xs);
      && (forall i :: i in t.ips ==> (t.ips[i].used <==> ByHost(t.hosts, i) || ByVip(t.vips, i)))
      && (forall i :: !(ByHost(t.hosts, i) && ByVip(t.vips, i)))
      && (forall n, m :: n in t.networks && m in t.networks && n != m ==> Disjoint(t.networks[n], t.networks[m]))
  {
    AfterIsConsistent(xs);
    var t := After(xs);
    forall n, m | n in t.networks && m in t.networks && n != m ensures Disjoint(t.networks[n], t.networks[m]) {
      NetworksAreDisjoint(t, n, m);
    }
  }

  class Database {
    var t: Db

    constructor ()
      ensures Consistent(t) && t == EMPTY
    {
      t := EMPTY;
    }

    /** Inserts a row for every usable address of network `id`; the first refused row ends the transaction. */
    method AddIpAddrs(start: Db, id: nat, n: Network) returns (r: Option<Db>)
      ensures r == InsertAll(start, id, n.address, AddressCount(n.mask))
      ensures ValidMask(n.mask) ==> r == InsertAll(start, id, n.address, Pow2(32 - n.mask) - 2)
    {
      if ValidMask(n.mask) { AddressCountIsPower(n.mask); }
      var work, i := start, 0;
      while i < AddressCount(n.mask)
        invariant 0 <= i <= AddressCount(n.mask)
        invariant InsertAll(start, id, n.address, i) == Some(work)
      {
        var row := InsertIp(work, id, n.address + (i + 1));
        if row.None? {
          InsertAllStops(start, id, n.address, i + 1, AddressCount(n.mask));
          return None;
        }
        work := row.value;
        i := i + 1;
      }
      r := Some(work);
    }

    /** None is a transaction that was rolled back. */
    method AddNetwork(n: Network) returns (r: Option<nat>)
      requires Consistent(t) && Aligned(n)
      modifies this
      ensures Consistent(t)
      ensures t == Committed(old(t), StoreNetwork(old(t), n))
      ensures r.Some? <==> DisjointFromAll(old(t), n)
      ensures r.None? ==> t == old(t)
      ensures r.Some? ==> r.value !in old(t).networks && t.networks == old(t).networks[r.value := n]
      ensures r.Some? ==> Extended(old(t).ips, t.ips, r.value, n.address, Pow2(32 - n.mask) - 2)
      ensures r.Some? ==> t.hosts == old(t).hosts && t.vips == old(t).vips
    {
      AddressCountIsPower(n.mask);
      StoredWhenDisjoint(t, n);
      var inserted := InsertNetwork(t, n);
      if inserted.None? { return None; }
      var id := t.next;
      var work := AddIpAddrs(inserted.value, id, n);
      if work.None? { return None; }
      StoreNetworkKeeps(t, n);
      t := work.value;
      r := Some(id);
    }

    /** The request handler: it checks the mask, clears the host bits and looks for the same address first. */
    method HandleAddNetwork(address: Ipv4, mask: nat) returns (r: Reply)
      requires Consistent(t)
      modifies this
      ensures Consistent(t)
      ensures t == Exec(old(t), NewNetwork(address, mask))
      ensures r.BadRequest? <==> !ValidMask(mask)
      ensures r.Created? <==> ValidMask(mask) && DisjointFromAll(old(t), Masked(address, mask))
      ensures r.Conflict? ==> ValidMask(mask)
      ensures ValidMask(mask) ==>
        (r.Conflict? <==> exists m :: m in old(t).networks && old(t).networks[m].address == Masked(address, mask).address)
      ensures !r.Created? ==> t == old(t)
      ensures r.Created? ==> r.id !in old(t).networks && t.networks == old(t).networks[r.id := Masked(address, mask)]
      ensures r.Created? ==>
              Extended(old(t).ips, t.ips, r.id, Masked(address, mask).address, Pow2(32 - mask) - 2)
    {
      if !ValidMask(mask) { return BadRequest; }
      var n := Masked(address, mask);
      StoredWhenDisjoint(t, n);
      if exists m :: m in t.networks && t.networks[m].address == n.address {
        assert !DisjointFromAll(t, n) by {
          var m :| m in t.networks && t.networks[m].address == n.address;
          assert Within(t.networks[m], n.address) && Within(n, n.address);
        }
        return Conflict;
      }
      var id := AddNetwork(n);
      r := if id.Some? then Created(id.value) else Failed;
    }

    method RemoveNetwork(n: nat) returns (r: Option<bool>)
      requires Consistent(t)
      modifies this
      ensures Consistent(t)
      ensures t == Exec(old(t), DropNetwork(n))
      ensures r.None? <==> exists i :: i in old(t).ips && old(t).ips[i].network == n && old(t).ips[i].used
      ensures r.None? ==> t == old(t)
      ensures r.Some? ==> r.value == (n in old(t).networks)
      ensures r.Some? ==> t == old(t).(networks := old(t).networks - {n}, ips := RowsOutside(old(t).ips, n))
    {
      DeleteNetworkWhenUnused(t, n);
      var deleted := DeleteNetwork(t, n);
      if deleted.None? { return None; }
      DeleteNetworkKeeps(t, n);
      r := Some(n in t.networks);
      t := deleted.value;
    }

    /** None when the address is unknown. */
    method IsAvailable(i: nat) returns (r: Option<bool>)
      ensures r.None? <==> i !in t.ips
      ensures r == Some(true) <==> i in t.ips && !t.ips[i].used
    {
      r := if i in t.ips then Some(!t.ips[i].used) else None;
    }

    method AddHost(i: nat) returns (r: Option<nat>)
      requires Consistent(t)
      modifies this
      ensures Consistent(t)
      ensures t == Exec(old(t), NewHost(i))
      ensures r.Some? <==> i in old(t).ips && !ByHost(old(t).hosts, i) && !ByVip(old(t).vips, i)
      ensures r.None? ==> t == old(t)
      ensures r.Some? ==> r.value !in old(t).hosts && t.hosts == old(t).hosts[r.value := Host(i, None)]
      ensures r.Some? ==> t.ips == old(t).ips[i := old(t).ips[i].(used := true)]
      ensures t.vips == old(t).vips && t.networks == old(t).networks
    {
      var available := IsAvailable(i);
      if available != Some(true) { return None; }
      InsertHostSucceeds(t, Host(i, None));
      NewHostKeeps(t, i);
      r := Some(t.next);
      t := InsertHost(t, Host(i, None)).value;
    }

    method RemoveHost(h: nat) returns (r: Option<bool>)
      requires Consistent(t)
      modifies this
      ensures Consistent(t)
      ensures t == Exec(old(t), DropHost(h))
      ensures r.None? <==> exists v :: v in old(t).vips && (old(t).vips[v].active == h || old(t).vips[v].standby == h)
      ensures r.None? ==> t == old(t)
      ensures r.Some? ==> r.value == (h in old(t).hosts)
      ensures r.Some? ==> t == old(t).(hosts := old(t).hosts - {h},
                                       ips := if r.value then Mark(old(t).ips, old(t).hosts[h].ip, false) else old(t).ips)
    {
      DeleteHostRefused(t, h);
      DeleteHostKeeps(t, h);
      var deleted := DeleteHost(t, h);
      if deleted.None? { return None; }
      r := Some(h in t.hosts);
      t := deleted.value;
    }

    /** The handler's check on the two hosts, then the transaction. */
    method AddVip(v: Vip) returns (r: Option<nat>)
      requires Consistent(t)
      modifies this
      ensures Consistent(t)
      ensures t == Exec(old(t), NewVip(v))
      ensures r.Some? <==>
              && v.active != v.standby && v.active in old(t).hosts && v.standby in old(t).hosts
              && v.ip in old(t).ips && !ByHost(old(t).hosts, v.ip) && !ByVip(old(t).vips, v.ip)
      ensures r.None? ==> t == old(t)
      ensures r.Some? ==> r.value !in old(t).vips && t.vips == old(t).vips[r.value := v]
      ensures r.Some? ==> t.ips == old(t).ips[v.ip := old(t).ips[v.ip].(used := true)]
      ensures t.hosts == old(t).hosts && t.networks == old(t).networks
    {
      if v.active == v.standby { return None; }
      var available := IsAvailable(v.ip);
      if available != Some(true) { return None; }
      InsertVipSucceeds(t, v);
      NewVipKeeps(t, v);
      var inserted := InsertVip(t, v);
      if inserted.None? { return None; }
      r := Some(t.next);
      t := inserted.value;
    }

    method RemoveVip(v: nat) returns (ok: bool)
      requires Consistent(t)
      modifies this
      ensures Consistent(t)
      ensures t == Exec(old(t), DropVip(v))
      ensures ok == (v in old(t).vips)
      ensures t == if ok then old(t).(vips := old(t).vips - {v}, ips := Mark(old(t).ips, old(t).vips[v].ip, false)) else old(t)
    {
      DeleteVipKeeps(t, v);
      ok := v in t.vips;
      t := DeleteVip(t, v);
    }

    /** Swaps the hosts of a virtual address; false when it is unknown. */
    method ToggleVip(v: nat) returns (ok: bool)
      requires Consistent(t)
      modifies this
      ensures Consistent(t)
      ensures t == Exec(old(t), SwapVip(v))
      ensures ok == (v in old(t).vips)
      ensures t == if !ok then old(t) else
                   old(t).(vips := old(t).vips[v := Swapped(old(t).vips[v])])
      ensures ok ==> var was, now := old(t).vips[v], t.vips[v];
                     now.ip == was.ip && now.active == was.standby && now.standby == was.active
    {
      if v !in t.vips { return false; }
      ExecSwaps(t, v);
      SwapKeeps(t, v);
      t := UpdateVip(t, v, Vip(t.vips[v].ip, t.vips[v].standby, t.vips[v].active));
      ok := true;
    }

    /** Records where a host is; `updated` tells whether that is news. */
    method UpdateLocation(h: nat, port: nat) returns (updated: bool)
      requires Consistent(t) && h in t.hosts
      modifies this
      ensures Consistent(t)
      ensures t == Exec(old(t), Locate(h, port))
      ensures updated <==> old(t).hosts[h].port != Some(port)
      ensures t == old(t).(hosts := old(t).hosts[h := Host(old(t).hosts[h].ip, Some(port))])
    {
      updated := t.hosts[h].port != Some(port);
      UpdateHostKeeps(t, h, Host(t.hosts[h].ip, Some(port)));
      t := UpdateHost(t, h, Host(t.hosts[h].ip, Some(port)));
    }
  }
}
