/**
 The address tables: their keys, their triggers on `ip.used`, and the statements that
 the transactions are made of.
 */
module Tables {

  datatype Option<+T> = None | Some(value: T)

  datatype Network = Network(address: nat, mask: nat)
  datatype Ip = Ip(network: nat, address: nat, used: bool)
  datatype Host = Host(ip: nat, port: Option<nat>)
  datatype Vip = Vip(ip: nat, active: nat, standby: nat)

  /** The rows of each table by identifier; `next` is the next fresh identifier. */
  datatype Db = Db(networks: map<nat, Network>, ips: map<nat, Ip>, hosts: map<nat, Host>, vips: map<nat, Vip>, next: nat)

  // ---------- Blocks of addresses ----------

  /** The number of addresses in a network. */
  function Size(mask: nat): nat {
    if mask == 24 then 256 else if mask == 25 then 128 else if mask == 26 then 64 else if mask == 27 then 32
    else if mask == 28 then 16 else if mask == 29 then 8 else 4
  }

  function Pow2(k: nat): (p: nat)
    ensures p > 0
  {
    if k == 0 then 1 else 2 * Pow2(k - 1)
  }

  /** A mask of `mask` ones leaves the other bits of a 32-bit address to the hosts. */
  lemma SizeIsPower(mask: nat)
    requires ValidMask(mask)
    ensures Size(mask) == Pow2(32 - mask)
  {
    assert Pow2(2) == 4 && Pow2(4) == 16 && Pow2(6) == 64;
    assert Pow2(8) == 4 * Pow2(6);
  }

  predicate ValidMask(mask: nat) {
    24 <= mask <= 30
  }

  predicate Within(n: Network, a: nat) {
    n.address <= a < n.address + Size(n.mask)
  }

  /** `a` is an address of the network other than its first and its last. */
  predicate Usable(n: Network, a: nat) {
    n.address < a < n.address + Size(n.mask) - 1
  }

  predicate Aligned(n: Network) {
    ValidMask(n.mask) && n.address % Size(n.mask) == 0 && n.address < 0x1_0000_0000
  }

  ghost predicate Disjoint(n: Network, m: Network) {
    forall a: nat :: !(Within(n, a) && Within(m, a))
  }

  lemma TimesGrows(s: nat, x: nat, y: nat)
    requires x <= y
    ensures s * x <= s * y
  {
  }

  lemma MultiplesApart(a: nat, b: nat, s: nat)
    requires s > 0 && a % s == 0 && b % s == 0 && a < b
    ensures a + s <= b
  {
    var p, q := a / s, b / s;
    assert a == s * p && b == s * q;
    if q <= p {
      TimesGrows(s, q, p);
    } else {
      TimesGrows(s, p + 1, q);
      assert s * (p + 1) == s * p + s;
    }
  }

  lemma NextMultiple(a: nat, s: nat)
    requires s > 0 && a % s == 0
    ensures (a + s) % s == 0
  {
    var p, q := a / s, (a + s) / s;
    assert a == s * p && a + s == s * q + (a + s) % s;
    assert s * (p + 1) == s * p + s;
    if q <= p {
      TimesGrows(s, q, p);
    } else {
      TimesGrows(s, p + 1, q);
    }
  }

  lemma {:induction false} MultipleHasNoRest(s: nat, q: nat)
    requires s > 0
    ensures s * q % s == 0
  {
    if q > 0 {
      MultipleHasNoRest(s, q - 1);
      assert s * q == s * (q - 1) + s;
      NextMultiple(s * (q - 1), s);
    }
  }

  lemma HalfDivides(a: nat, s: nat)
    requires s > 0 && a % (2 * s) == 0
    ensures a % s == 0
  {
    var q := a / (2 * s);
    assert a == 2 * s * q;
    assert 2 * s * q == s * (2 * q);
    MultipleHasNoRest(s, 2 * q);
  }

  /** A block's bounds are multiples of every smaller block size. */
  lemma {:induction false} AlignedToSmaller(a: nat, small: nat, big: nat)
    requires ValidMask(small) && ValidMask(big) && big <= small && a % Size(big) == 0
    ensures a % Size(small) == 0
    decreases small - big
  {
    if big < small {
      HalfDivides(a, Size(big + 1));
      AlignedToSmaller(a, small, big + 1);
    }
  }

  /** The block of an aligned network does not run past the last IPv4 address. */
  lemma BlockFits(n: Network)
    requires Aligned(n)
    ensures n.address + Size(n.mask) <= 0x1_0000_0000
  {
    assert 0x1_0000_0000 % Size(n.mask) == 0;
    MultiplesApart(n.address, 0x1_0000_0000, Size(n.mask));
  }

  lemma SmallerIsNested(n: Network, m: Network, a: nat)
    requires Aligned(n) && Aligned(m) && m.mask <= n.mask
    requires Within(n, a) && Within(m, a)
    ensures m.address <= n.address && n.address + Size(n.mask) <= m.address + Size(m.mask)
  {
    var s, t := Size(n.mask), Size(m.mask);
    AlignedToSmaller(m.address, n.mask, m.mask);
    NextMultiple(m.address, t);
    AlignedToSmaller(m.address + t, n.mask, m.mask);
    ApartOrBelow(n.address, m.address, s);
    ApartOrBelow(m.address + t, n.address, s);
    MultiplesApart(n.address, m.address + t, s);
  }

  lemma ApartOrBelow(a: nat, b: nat, s: nat)
    requires s > 0 && a % s == 0 && b % s == 0
    ensures a + s <= b || b <= a
  {
    if a < b { MultiplesApart(a, b, s); }
  }

  /** Two aligned networks share no address at all exactly when they share no usable address. */
  lemma DisjointWhenUsableAre(n: Network, m: Network)
    requires Aligned(n) && Aligned(m)
    ensures Disjoint(n, m) <==> forall a :: !(Usable(n, a) && Usable(m, a))
  {
    if a: nat :| Within(n, a) && Within(m, a) {
      if m.mask <= n.mask {
        SmallerIsNested(n, m, a);
        assert Usable(n, n.address + 1) && Usable(m, n.address + 1);
      } else {
        SmallerIsNested(m, n, a);
        assert Usable(n, m.address + 1) && Usable(m, m.address + 1);
      }
    } else {
      forall a ensures !(Usable(n, a) && Usable(m, a)) {
        assert !(Within(n, a) && Within(m, a));
      }
    }
  }

  // ---------- Consistency ----------

  ghost predicate ByHost(hosts: map<nat, Host>, i: nat) {
    exists h :: h in hosts && hosts[h].ip == i
  }

  ghost predicate ByVip(vips: map<nat, Vip>, i: nat) {
    exists v :: v in vips && vips[v].ip == i
  }

  /** Foreign keys lead to existing rows, and unique keys are unique. */
  ghost predicate HostKeys(ips: set<nat>, hosts: map<nat, Host>) {
    && (forall h :: h in hosts ==> hosts[h].ip in ips)
    && (forall h, k :: h in hosts && k in hosts && hosts[h].ip == hosts[k].ip ==> h == k)
  }

  ghost predicate VipKeys(ips: set<nat>, hosts: set<nat>, vips: map<nat, Vip>) {
    && (forall v :: v in vips ==> vips[v].ip in ips && vips[v].active in hosts && vips[v].standby in hosts)
    && (forall v, w :: v in vips && w in vips && vips[v].ip == vips[w].ip ==> v == w)
  }

  ghost predicate Below<T>(rows: map<nat, T>, next: nat) {
    forall k :: k in rows ==> k < next
  }

  /** An address is marked used exactly when a host or a virtual address refers to it, and never both do. */
  ghost predicate Marked(ips: map<nat, Ip>, hosts: map<nat, Host>, vips: map<nat, Vip>) {
    && (forall i :: i in ips ==> (ips[i].used <==> ByHost(hosts, i) || ByVip(vips, i)))
    && (forall i :: !(ByHost(hosts, i) && ByVip(vips, i)))
  }

  ghost predicate HasRow(ips: map<nat, Ip>, n: nat, a: nat) {
    exists i :: i in ips && ips[i].network == n && ips[i].address == a
  }

  ghost predicate AddressKey(ips: map<nat, Ip>) {
    forall i, j :: i in ips && j in ips && ips[i].address == ips[j].address ==> i == j
  }

  /** Networks are aligned blocks, and the address rows are their usable addresses. */
  ghost predicate Populated(networks: map<nat, Network>, ips: map<nat, Ip>) {
    && (forall n :: n in networks ==> Aligned(networks[n]))
    && (forall i :: i in ips ==> ips[i].network in networks && Usable(networks[ips[i].network], ips[i].address))
    && (forall n, a :: n in networks && Usable(networks[n], a) ==> HasRow(ips, n, a))
  }

  ghost predicate Consistent(t: Db) {
    && HostKeys(t.ips.Keys, t.hosts)
    && VipKeys(t.ips.Keys, t.hosts.Keys, t.vips)
    && Marked(t.ips, t.hosts, t.vips)
    && AddressKey(t.ips)
    && Populated(t.networks, t.ips)
    && Below(t.networks, t.next) && Below(t.ips, t.next) && Below(t.hosts, t.next) && Below(t.vips, t.next)
  }

  /** No code compares ranges, yet in every consistent state the networks are pairwise disjoint. */
  lemma NetworksAreDisjoint(t: Db, n: nat, m: nat)
    requires Consistent(t) && n in t.networks && m in t.networks && n != m
    ensures Disjoint(t.networks[n], t.networks[m])
  {
    DisjointWhenUsableAre(t.networks[n], t.networks[m]);
    forall a ensures !(Usable(t.networks[n], a) && Usable(t.networks[m], a)) {
      assert !(HasRow(t.ips, n, a) && HasRow(t.ips, m, a));
    }
  }

  // ---------- Triggers ----------

  function Mark(ips: map<nat, Ip>, i: nat, used: bool): map<nat, Ip> {
    if i in ips then ips[i := ips[i].(used := used)] else ips
  }

  /** Marking an address does not touch what the address rows say about networks. */
  lemma MarkKeepsRows(networks: map<nat, Network>, ips: map<nat, Ip>, i: nat, used: bool)
    requires Populated(networks, ips) && AddressKey(ips)
    ensures Populated(networks, Mark(ips, i, used)) && AddressKey(Mark(ips, i, used))
    ensures Mark(ips, i, used).Keys == ips.Keys
  {
    var s := Mark(ips, i, used);
    forall n, a | n in networks && Usable(networks[n], a) ensures HasRow(s, n, a) {
      assert HasRow(ips, n, a);
      var j :| j in ips && ips[j].network == n && ips[j].address == a;
      assert j in s && s[j].network == n && s[j].address == a;
    }
  }

  /** The update triggers clear and set the same mark, so an update that keeps the address changes no mark. */
  lemma UpdateTriggerIsNeutral(ips: map<nat, Ip>, i: nat)
    requires i in ips ==> ips[i].used
    ensures Mark(Mark(ips, i, false), i, true) == ips
  {
    if i in ips {
      assert ips[i := ips[i].(used := false)][i := ips[i]] == ips;
    }
  }

  // ---------- Statements ----------

  /** None stands for a violated key, which aborts the transaction. */
  function InsertHost(t: Db, h: Host): Option<Db> {
    if h.ip !in t.ips || exists k :: k in t.hosts && t.hosts[k].ip == h.ip then None
    else Some(t.(hosts := t.hosts[t.next := h], ips := Mark(t.ips, h.ip, true), next := t.next + 1))
  }

  function InsertVip(t: Db, v: Vip): Option<Db> {
    if v.ip !in t.ips || v.active !in t.hosts || v.standby !in t.hosts
      || exists w :: w in t.vips && t.vips[w].ip == v.ip then None
    else Some(t.(vips := t.vips[t.next := v], ips := Mark(t.ips, v.ip, true), next := t.next + 1))
  }

  function DeleteHost(t: Db, h: nat): Option<Db> {
    if h !in t.hosts then Some(t)
    else if exists v :: v in t.vips && (t.vips[v].active == h || t.vips[v].standby == h) then None
    else Some(t.(hosts := t.hosts - {h}, ips := Mark(t.ips, t.hosts[h].ip, false)))
  }

  function DeleteVip(t: Db, v: nat): Db {
    if v !in t.vips then t else t.(vips := t.vips - {v}, ips := Mark(t.ips, t.vips[v].ip, false))
  }

  /** Both triggers on update clear the old address and set the new one. */
  function UpdateHost(t: Db, h: nat, host: Host): Db
    requires h in t.hosts
  {
    t.(hosts := t.hosts[h := host], ips := Mark(Mark(t.ips, t.hosts[h].ip, false), host.ip, true))
  }

  function UpdateVip(t: Db, v: nat, vip: Vip): Db
    requires v in t.vips
  {
    t.(vips := t.vips[v := vip], ips := Mark(Mark(t.ips, t.vips[v].ip, false), vip.ip, true))
  }

  function RowsOutside(ips: map<nat, Ip>, n: nat): map<nat, Ip> {
    map i | i in ips && ips[i].network != n :: ips[i]
  }

  /** Deleting a network deletes its addresses, which fails if one of them is referred to. */
  function DeleteNetwork(t: Db, n: nat): Option<Db> {
    if (exists h :: h in t.hosts && t.hosts[h].ip in t.ips && t.ips[t.hosts[h].ip].network == n)
      || (exists v :: v in t.vips && t.vips[v].ip in t.ips && t.ips[t.vips[v].ip].network == n) then None
    else Some(t.(networks := t.networks - {n}, ips := RowsOutside(t.ips, n)))
  }

  function InsertNetwork(t: Db, n: Network): Option<Db> {
    if exists m :: m in t.networks && t.networks[m] == n then None
    else Some(t.(networks := t.networks[t.next := n], next := t.next + 1))
  }

  function InsertIp(t: Db, n: nat, a: nat): Option<Db> {
    if exists i :: i in t.ips && t.ips[i].address == a then None
    else Some(t.(ips := t.ips[t.next := Ip(n, a, false)], next := t.next + 1))
  }

  // ---------- What the statements keep ----------

  lemma AddedHostMarks(ips: map<nat, Ip>, hosts: map<nat, Host>, vips: map<nat, Vip>, k: nat, h: Host)
    requires Marked(ips, hosts, vips) && k !in hosts && h.ip in ips && !ips[h.ip].used
    ensures Marked(Mark(ips, h.ip, true), hosts[k := h], vips)
  {
    forall i ensures ByHost(hosts[k := h], i) <==> ByHost(hosts, i) || i == h.ip {
      assert hosts[k := h][k].ip == h.ip;
      if g :| g in hosts && hosts[g].ip == i {
        assert g in hosts[k := h] && hosts[k := h][g].ip == i;
      }
    }
  }

  lemma AddedVipMarks(ips: map<nat, Ip>, hosts: map<nat, Host>, vips: map<nat, Vip>, k: nat, v: Vip)
    requires Marked(ips, hosts, vips) && k !in vips && v.ip in ips && !ips[v.ip].used
    ensures Marked(Mark(ips, v.ip, true), hosts, vips[k := v])
  {
    forall i ensures ByVip(vips[k := v], i) <==> ByVip(vips, i) || i == v.ip {
      assert vips[k := v][k].ip == v.ip;
      if w :| w in vips && vips[w].ip == i {
        assert w in vips[k := v] && vips[k := v][w].ip == i;
      }
    }
  }

  lemma RemovedHostMarks(ips: map<nat, Ip>, hosts: map<nat, Host>, vips: map<nat, Vip>, h: nat)
    requires Marked(ips, hosts, vips) && h in hosts && HostKeys(ips.Keys, hosts)
    ensures Marked(Mark(ips, hosts[h].ip, false), hosts - {h}, vips)
  {
    forall i ensures ByHost(hosts - {h}, i) <==> ByHost(hosts, i) && i != hosts[h].ip {
      if g :| g in hosts && hosts[g].ip == i && g != h {
        assert g in hosts - {h} && (hosts - {h})[g].ip == i;
      }
    }
    assert ByHost(hosts, hosts[h].ip);
  }

  lemma RemovedVipMarks(ips: map<nat, Ip>, hosts: map<nat, Host>, vips: map<nat, Vip>, v: nat)
    requires Marked(ips, hosts, vips) && v in vips && VipKeys(ips.Keys, hosts.Keys, vips)
    ensures Marked(Mark(ips, vips[v].ip, false), hosts, vips - {v})
  {
    forall i ensures ByVip(vips - {v}, i) <==> ByVip(vips, i) && i != vips[v].ip {
      if w :| w in vips && vips[w].ip == i && w != v {
        assert w in vips - {v} && (vips - {v})[w].ip == i;
      }
    }
    assert ByVip(vips, vips[v].ip);
  }

  lemma AddedHostKeys(ips: set<nat>, hosts: map<nat, Host>, vips: map<nat, Vip>, k: nat, h: Host)
    requires HostKeys(ips, hosts) && VipKeys(ips, hosts.Keys, vips) && k !in hosts && h.ip in ips && !ByHost(hosts, h.ip)
    ensures HostKeys(ips, hosts[k := h]) && VipKeys(ips, hosts[k := h].Keys, vips)
  {
  }

  lemma AddedVipKeys(ips: set<nat>, hosts: set<nat>, vips: map<nat, Vip>, k: nat, v: Vip)
    requires VipKeys(ips, hosts, vips) && k !in vips && v.ip in ips && v.active in hosts && v.standby in hosts
    requires !ByVip(vips, v.ip)
    ensures VipKeys(ips, hosts, vips[k := v])
  {
  }

  lemma RemovedHostKeys(ips: set<nat>, hosts: map<nat, Host>, vips: map<nat, Vip>, h: nat)
    requires HostKeys(ips, hosts) && VipKeys(ips, hosts.Keys, vips)
    requires forall v :: v in vips ==> vips[v].active != h && vips[v].standby != h
    ensures HostKeys(ips, hosts - {h}) && VipKeys(ips, (hosts - {h}).Keys, vips)
  {
  }

  lemma UpdatedVipKeys(ips: set<nat>, hosts: set<nat>, vips: map<nat, Vip>, v: nat, vip: Vip)
    requires VipKeys(ips, hosts, vips) && v in vips && vip.ip == vips[v].ip && vip.active in hosts && vip.standby in hosts
    ensures VipKeys(ips, hosts, vips[v := vip])
  {
  }

  /** An unused address has neither a host nor a virtual address. */
  lemma UnusedIsFree(t: Db, i: nat)
    requires Marked(t.ips, t.hosts, t.vips) && i in t.ips && !t.ips[i].used
    ensures !ByHost(t.hosts, i) && !ByVip(t.vips, i)
  {
  }

  lemma InsertHostSucceeds(t: Db, h: Host)
    requires HostKeys(t.ips.Keys, t.hosts)
    ensures InsertHost(t, h).Some? <==> h.ip in t.ips && !ByHost(t.hosts, h.ip)
    ensures InsertHost(t, h).Some? ==>
            InsertHost(t, h).value == Db(t.networks, Mark(t.ips, h.ip, true), t.hosts[t.next := h], t.vips, t.next + 1)
  {
  }

  /** A free address can be given to a new host, and the tables stay consistent. */
  lemma InsertHostKeeps(t: Db, h: Host)
    requires Consistent(t) && h.ip in t.ips && !t.ips[h.ip].used
    ensures Consistent(Db(t.networks, Mark(t.ips, h.ip, true), t.hosts[t.next := h], t.vips, t.next + 1))
  {
    UnusedIsFree(t, h.ip);
    AddedHostKeys(t.ips.Keys, t.hosts, t.vips, t.next, h);
    AddedHostMarks(t.ips, t.hosts, t.vips, t.next, h);
    MarkKeepsRows(t.networks, t.ips, h.ip, true);
  }

  /** A new virtual address is accepted exactly when its address is free of others and its hosts exist. */
  lemma InsertVipSucceeds(t: Db, v: Vip)
    requires VipKeys(t.ips.Keys, t.hosts.Keys, t.vips)
    ensures InsertVip(t, v).Some? <==>
            v.ip in t.ips && v.active in t.hosts && v.standby in t.hosts && !ByVip(t.vips, v.ip)
    ensures InsertVip(t, v).Some? ==>
            InsertVip(t, v).value == Db(t.networks, Mark(t.ips, v.ip, true), t.hosts, t.vips[t.next := v], t.next + 1)
  {
  }

  /** A free address can be given to a virtual address whose hosts exist, and the tables stay consistent. */
  lemma InsertVipKeeps(t: Db, v: Vip)
    requires Consistent(t) && v.ip in t.ips && !t.ips[v.ip].used && v.active in t.hosts && v.standby in t.hosts
    ensures Consistent(Db(t.networks, Mark(t.ips, v.ip, true), t.hosts, t.vips[t.next := v], t.next + 1))
  {
    UnusedIsFree(t, v.ip);
    AddedVipKeys(t.ips.Keys, t.hosts.Keys, t.vips, t.next, v);
    AddedVipMarks(t.ips, t.hosts, t.vips, t.next, v);
    MarkKeepsRows(t.networks, t.ips, v.ip, true);
  }

  lemma DeleteHostKeeps(t: Db, h: nat)
    requires Consistent(t)
    ensures DeleteHost(t, h).Some? ==> Consistent(DeleteHost(t, h).value)
  {
    if h in t.hosts && DeleteHost(t, h).Some? {
      RemovedHostKeys(t.ips.Keys, t.hosts, t.vips, h);
      RemovedHostMarks(t.ips, t.hosts, t.vips, h);
      MarkKeepsRows(t.networks, t.ips, t.hosts[h].ip, false);
    }
  }

  lemma DeleteVipKeeps(t: Db, v: nat)
    requires Consistent(t)
    ensures Consistent(DeleteVip(t, v))
  {
    if v in t.vips {
      RemovedVipMarks(t.ips, t.hosts, t.vips, v);
      MarkKeepsRows(t.networks, t.ips, t.vips[v].ip, false);
    }
  }

  lemma UpdatedHostMarks(ips: map<nat, Ip>, hosts: map<nat, Host>, vips: map<nat, Vip>, h: nat, host: Host)
    requires Marked(ips, hosts, vips) && h in hosts && host.ip == hosts[h].ip
    ensures Marked(ips, hosts[h := host], vips)
  {
    var hosts' := hosts[h := host];
    forall i ensures ByHost(hosts', i) <==> ByHost(hosts, i) {
      if k :| k in hosts && hosts[k].ip == i { assert k in hosts' && hosts'[k].ip == i; }
    }
  }

  lemma UpdatedVipMarks(ips: map<nat, Ip>, hosts: map<nat, Host>, vips: map<nat, Vip>, v: nat, vip: Vip)
    requires Marked(ips, hosts, vips) && v in vips && vip.ip == vips[v].ip
    ensures Marked(ips, hosts, vips[v := vip])
  {
    var vips' := vips[v := vip];
    forall i ensures ByVip(vips', i) <==> ByVip(vips, i) {
      if w :| w in vips && vips[w].ip == i { assert w in vips' && vips'[w].ip == i; }
    }
  }

  lemma UpdatedHostKeys(ips: set<nat>, hosts: map<nat, Host>, vips: map<nat, Vip>, h: nat, host: Host)
    requires HostKeys(ips, hosts) && VipKeys(ips, hosts.Keys, vips) && h in hosts && host.ip == hosts[h].ip
    ensures HostKeys(ips, hosts[h := host]) && VipKeys(ips, hosts[h := host].Keys, vips)
  {
    assert hosts[h := host].Keys == hosts.Keys;
  }

  lemma UpdateHostTables(t: Db, h: nat, host: Host)
    requires Marked(t.ips, t.hosts, t.vips) && h in t.hosts && host.ip == t.hosts[h].ip
    ensures UpdateHost(t, h, host) == t.(hosts := t.hosts[h := host])
  {
    assert ByHost(t.hosts, host.ip);
    UpdateTriggerIsNeutral(t.ips, host.ip);
  }

  /** An update that keeps the host's address, such as a new location, changes no address row. */
  lemma UpdateHostKeeps(t: Db, h: nat, host: Host)
    requires Consistent(t) && h in t.hosts && host.ip == t.hosts[h].ip
    ensures UpdateHost(t, h, host) == t.(hosts := t.hosts[h := host])
    ensures Consistent(t.(hosts := t.hosts[h := host]))
  {
    UpdateHostTables(t, h, host);
    UpdatedHostKeys(t.ips.Keys, t.hosts, t.vips, h, host);
    UpdatedHostMarks(t.ips, t.hosts, t.vips, h, host);
  }

  /** Swapping the hosts of a virtual address changes no address row. */
  lemma UpdateVipKeeps(t: Db, v: nat, vip: Vip)
    requires Consistent(t) && v in t.vips && vip.ip == t.vips[v].ip
    requires vip.active in t.hosts && vip.standby in t.hosts
    ensures UpdateVip(t, v, vip) == t.(vips := t.vips[v := vip])
    ensures Consistent(t.(vips := t.vips[v := vip]))
  {
    UpdateVipTables(t, v, vip);
    UpdatedVipKeys(t.ips.Keys, t.hosts.Keys, t.vips, v, vip);
    UpdatedVipMarks(t.ips, t.hosts, t.vips, v, vip);
  }

  lemma UpdateVipTables(t: Db, v: nat, vip: Vip)
    requires Marked(t.ips, t.hosts, t.vips) && v in t.vips && vip.ip == t.vips[v].ip
    ensures UpdateVip(t, v, vip) == t.(vips := t.vips[v := vip])
  {
    assert ByVip(t.vips, vip.ip);
    UpdateTriggerIsNeutral(t.ips, vip.ip);
  }

  /** A network can be deleted exactly when none of its addresses is marked used. */
  lemma DeleteNetworkWhenUnused(t: Db, n: nat)
    requires HostKeys(t.ips.Keys, t.hosts) && VipKeys(t.ips.Keys, t.hosts.Keys, t.vips)
    requires Marked(t.ips, t.hosts, t.vips)
    ensures DeleteNetwork(t, n).None? <==> exists i :: i in t.ips && t.ips[i].network == n && t.ips[i].used
  {
    forall i | i in t.ips && t.ips[i].network == n && t.ips[i].used ensures DeleteNetwork(t, n).None? {
      if h :| h in t.hosts && t.hosts[h].ip == i {
      } else {
        var v :| v in t.vips && t.vips[v].ip == i;
      }
    }
    forall h | h in t.hosts ensures t.ips[t.hosts[h].ip].used {
      assert ByHost(t.hosts, t.hosts[h].ip);
    }
    forall v | v in t.vips ensures t.ips[t.vips[v].ip].used {
      assert ByVip(t.vips, t.vips[v].ip);
    }
  }

  lemma RowsOutsidePopulate(networks: map<nat, Network>, ips: map<nat, Ip>, n: nat)
    requires Populated(networks, ips) && AddressKey(ips)
    ensures Populated(networks - {n}, RowsOutside(ips, n)) && AddressKey(RowsOutside(ips, n))
  {
    var s := RowsOutside(ips, n);
    forall m, a | m in networks - {n} && Usable((networks - {n})[m], a) ensures HasRow(s, m, a) {
      assert HasRow(ips, m, a);
      var j :| j in ips && ips[j].network == m && ips[j].address == a;
      assert j in s && s[j].network == m && s[j].address == a;
    }
  }

  lemma DeleteNetworkKeeps(t: Db, n: nat)
    requires Consistent(t) && DeleteNetwork(t, n).Some?
    ensures Consistent(DeleteNetwork(t, n).value)
  {
    RowsOutsidePopulate(t.networks, t.ips, n);
  }
}
