/** The DHCP lease database as a value: what each operation of bootpd.c does to the address -> lease map. */
module LeaseTable {
  import opened AddressPool
  import opened Basics

  /** The six bytes compared by MACCompare, read as one big-endian number. */
  type Mac = m: int | 0 <= m < 0x1_0000_0000_0000

  const ZERO_MAC: Mac := 0
  /** "FF:FF:", the first six characters of the placeholder given to quarantined addresses. */
  const FREE_DHCP_ADDRESS: Mac := 0x46_46_3A_46_46_3A
  const TWO_MINUTES := 120
  const BOOTP_RENEW_TIME := 0x6666_6666

  datatype Lease = Lease(sMacAddr: Mac, tAllocated: int, tRenewed: int)
  type Table = map<int, Lease>

  /** A record never acknowledged, released, or whose lease time is over. */
  predicate Expired(c: Config, l: Lease, now: int) {
    l.tRenewed == 0 || now - c.nLease * 60 > l.tRenewed
  }

  predicate Live(c: Config, l: Lease, now: int) {
    l.tRenewed != 0 && now <= l.tRenewed + c.nLease * 60
  }

  /** A full pool gives such a record to somebody else. */
  predicate Reusable(c: Config, l: Lease, now: int) {
    l.tAllocated + TWO_MINUTES < now && (l.tRenewed == 0 || now > l.tRenewed + c.nLease * 60)
  }

  predicate IsClient(mac: Mac) {
    mac != ZERO_MAC && mac != FREE_DHCP_ADDRESS
  }

  /** The database invariant: every address lies in the pool, no record has the zeroed MAC, and no client
      has two records. */
  ghost predicate Inv(c: Config, t: Table) {
    && (forall a :: a in t ==> InPool(c, a) && t[a].sMacAddr != ZERO_MAC)
    && (forall a, b :: a in t && b in t && t[a].sMacAddr == t[b].sMacAddr && IsClient(t[a].sMacAddr) ==> a == b)
  }

  // ----- searches

  ghost function SearchByMac(t: Table, mac: Mac): (r: Option<int>)
    ensures r.Some? ==> r.value in t && t[r.value].sMacAddr == mac
    ensures r.None? ==> forall a :: a in t ==> t[a].sMacAddr != mac
  {
    if a :| a in t && t[a].sMacAddr == mac then Some(a) else None
  }

  /** The least pool address nobody holds, from x on. */
  ghost function LeastFreeFrom(c: Config, t: Table, x: int): (r: Option<int>)
    requires c.szAddr <= x
    ensures r.Some? ==> x <= r.value && InPool(c, r.value) && r.value !in t && forall a :: x <= a < r.value ==> a in t
    ensures r.None? ==> forall a :: x <= a && InPool(c, a) ==> a in t
    decreases c.szAddr + c.nPoolSize - x
  {
    if x >= c.szAddr + c.nPoolSize then None
    else if x !in t then Some(x)
    else LeastFreeFrom(c, t, x + 1)
  }

  ghost function LeastFree(c: Config, t: Table): Option<int> {
    LeastFreeFrom(c, t, c.szAddr)
  }

  /** The held addresses of the pool from x on, in order. */
  ghost function HeldFrom(c: Config, t: Table, x: int): (r: seq<int>)
    requires c.szAddr <= x
    ensures Increasing(r) && forall i :: 0 <= i < |r| ==> x <= r[i] && InPool(c, r[i]) && r[i] in t
    decreases c.szAddr + c.nPoolSize - x
  {
    if x >= c.szAddr + c.nPoolSize then []
    else (if x in t then [x] else []) + HeldFrom(c, t, x + 1)
  }

  ghost function Held(c: Config, t: Table): seq<int> {
    HeldFrom(c, t, c.szAddr)
  }

  /** The least pool address from x on whose lease may be given to somebody else. */
  ghost function LeastReusableFrom(c: Config, t: Table, now: int, x: int): (r: Option<int>)
    requires c.szAddr <= x
    ensures r.Some? ==> x <= r.value && r.value in t && Reusable(c, t[r.value], now)
                        && forall a :: x <= a < r.value && a in t ==> !Reusable(c, t[a], now)
    ensures r.None? ==> forall a :: x <= a && InPool(c, a) && a in t ==> !Reusable(c, t[a], now)
    decreases c.szAddr + c.nPoolSize - x
  {
    if x >= c.szAddr + c.nPoolSize then None
    else if x in t && Reusable(c, t[x], now) then Some(x)
    else LeastReusableFrom(c, t, now, x + 1)
  }

  ghost function LeastReusable(c: Config, t: Table, now: int): Option<int> {
    LeastReusableFrom(c, t, now, c.szAddr)
  }

  // ----- allocation

  /** What can break the database. `Dangling`: DHCPDestroyItem has left a freed record in the MAC index, after which the
      C program reads freed memory. `Misplaced`: a new record was created for an address that another record holds or
      that is not in the pool. */
  datatype Fault = Dangling | Misplaced

  /** What an allocation comes to. */
  datatype Outcome =
    | Granted(table: Table, ip: int)
    | Refused(table: Table)
    | Broken(fault: Fault)

  /** Destroying an item leaves a freed record inside the MAC index. */
  predicate DestroyDangles(c: Config, t: Table) {
    c.zeroedMacFirst && |t| > 1
  }

  ghost predicate UsePrevious(c: Config, prev: int) {
    prev != INADDR_ANY && AddrFitsPool(c, prev)
  }

  ghost predicate CanTake(c: Config, t: Table, now: int, prev: int, mac: Mac) {
    prev !in t || Expired(c, t[prev], now) || t[prev].sMacAddr == mac
  }

  ghost function NewOrReused(c: Config, t: Table, now: int, mac: Mac): Outcome {
    if c.nPoolSize > 0 && |t| < c.nPoolSize then
      var a := Hole(c.szAddr, Held(c, t));
      if a in t || !InPool(c, a) then Broken(Misplaced) else Granted(t[a := Lease(mac, now, 0)], a)
    else
      match LeastReusable(c, t, now)
      case Some(a) => Granted(t[a := Lease(mac, now, 0)], a)
      case None => Refused(t)
  }

  ghost function RequestedOrNew(c: Config, t: Table, now: int, prev: int, mac: Mac): Outcome {
    if UsePrevious(c, prev) && CanTake(c, t, now, prev, mac)
    then Granted(t[prev := Lease(mac, now, 0)], prev)
    else NewOrReused(c, t, now, mac)
  }

  /** DHCP_IPAllocate2. */
  ghost function Allocate2(c: Config, t: Table, now: int, prev: int, mac: Mac): Outcome {
    match SearchByMac(t, mac)
    case None => RequestedOrNew(c, t, now, prev, mac)
    case Some(own) =>
      if !UsePrevious(c, prev) || prev == own then Granted(t[own := t[own].(tAllocated := now)], own)
      else if DestroyDangles(c, t) then Broken(Dangling)
      else RequestedOrNew(c, t - {own}, now, prev, mac)
  }

  // ----- the probing loop of DHCP_IPAllocate

  function Quarantined(now: int): Lease {
    Lease(FREE_DHCP_ADDRESS, now, now)
  }

  ghost function Pool(c: Config): (s: set<int>) {
    set a | c.szAddr <= a < c.szAddr + c.nPoolSize && InPool(c, a)
  }

  /** Pool addresses that can still be probed at time `now`. */
  ghost function Probeable(c: Config, t: Table, now: int): set<int> {
    set a | a in Pool(c) && !(a in t && t[a] == Quarantined(now))
  }

  ghost predicate Sane(c: Config, t: Table, now: int, mac: Mac) {
    WellFormed(c) && Inv(c, t) && 0 < now && IsClient(mac)
  }

  /** DHCP_IPAllocate: while the address just granted answers a probe, quarantine it and try again. */
  ghost function Allocate(c: Config, t: Table, now: int, discover: bool, prev: int, mac: Mac,
                          answers: nat -> bool, k: nat): Outcome
    requires Sane(c, t, now, mac)
    decreases |Probeable(c, t, now)|
  {
    var o := Allocate2(c, t, now, prev, mac);
    if o.Granted? && c.bPing && discover && answers(k) then
      ProbeStep(c, t, now, prev, mac);
      Allocate(c, o.table[o.ip := Quarantined(now)], now, discover, prev, mac, answers, k + 1)
    else o
  }

  // ----- proofs

  lemma {:induction false} PoolSize(c: Config)
    ensures |Pool(c)| == c.nPoolSize
    decreases c.nPoolSize
  {
    if c.nPoolSize == 0 {
      assert Pool(c) == {};
    } else {
      var c' := c.(nPoolSize := c.nPoolSize - 1);
      var last := c.szAddr + c'.nPoolSize;
      PoolSize(c');
      assert InPool(c, last) && last !in Pool(c');
      assert Pool(c) == Pool(c') + {last};
    }
  }

  lemma SubsetSize<T>(a: set<T>, b: set<T>)
    requires a <= b
    ensures |a| <= |b|
    ensures |a| == |b| ==> a == b
  {
    assert b == a + (b - a);
  }

  /** Pigeonhole: the table never outgrows the pool, and a table smaller than the pool leaves an address free. */
  lemma {:induction false} Pigeonhole(c: Config, t: Table)
    requires Inv(c, t)
    ensures |t| <= c.nPoolSize
    ensures |t| < c.nPoolSize <==> LeastFree(c, t).Some?
    ensures |t| == c.nPoolSize ==> t.Keys == Pool(c)
  {
    PoolSize(c);
    assert t.Keys <= Pool(c);
    SubsetSize(t.Keys, Pool(c));
    if LeastFree(c, t).Some? {
      assert LeastFree(c, t).value in Pool(c);
    } else {
      assert t.Keys == Pool(c);
    }
  }

  lemma {:induction false} HeldListsAll(c: Config, t: Table, x: int, a: int)
    requires c.szAddr <= x <= a && InPool(c, a) && a in t
    ensures a in HeldFrom(c, t, x)
    decreases c.szAddr + c.nPoolSize - x
  {
    var front := if x in t then [x] else [];
    assert HeldFrom(c, t, x) == front + HeldFrom(c, t, x + 1);
    if x < a {
      HeldListsAll(c, t, x + 1, a);
    }
  }

  lemma IncreasingSize(s: seq<int>, keys: set<int>)
    requires Increasing(s) && forall x <- keys :: x in s
    requires forall x <- s :: x in keys
    ensures |s| == |keys|
    decreases |s|
  {
    if s == [] {
      assert forall x <- keys :: x in s;
      assert keys == {};
    } else {
      var n := |s| - 1;
      forall x | x in keys - {s[n]} ensures x in s[..n] {
        assert x in s;
      }
      IncreasingSize(s[..n], keys - {s[n]});
    }
  }

  /** The held addresses, in order, are a listing of the table. */
  lemma HeldIsListing(c: Config, t: Table)
    requires Inv(c, t)
    ensures |Held(c, t)| == |t| && forall a :: a in t <==> a in Held(c, t)
    ensures |t| < c.nPoolSize ==> HeldInPool(c, Held(c, t))
  {
    forall a | a in t ensures a in Held(c, t) {
      HeldListsAll(c, t, c.szAddr, a);
    }
    IncreasingSize(Held(c, t), t.Keys);
  }

  /** In a gap-free pool with room the new address is the least free one. */
  lemma HoleIsUsable(c: Config, t: Table)
    requires Inv(c, t) && |t| < c.nPoolSize && GapFree(c)
    ensures var a := Hole(c.szAddr, Held(c, t)); a !in t && InPool(c, a) && LeastFree(c, t) == Some(a)
  {
    HeldIsListing(c, t);
    Pigeonhole(c, t);
    HoleIsLeastFree(c, Held(c, t));
  }

  /** What a successful allocation at `ip` for `mac` does to the table: the client gets that record, made or
      touched now; the record was free, its own or expired; nothing else changes, except that the client's previous
      record may be gone. */
  ghost predicate Effect(c: Config, t: Table, now: int, mac: Mac, ip: int, t': Table) {
    && Inv(c, t') && ip in t'
    && t'[ip].sMacAddr == mac && t'[ip].tAllocated == now
    && (ip in t ==> t[ip].sMacAddr == mac || Expired(c, t[ip], now))
    && (forall a :: a in t && a != ip && t[a].sMacAddr != mac ==> a in t' && t'[a] == t[a])
    && (forall a :: a in t' && a != ip ==> a in t && t'[a] == t[a])
  }

  lemma RequestedOrNewEffect(c: Config, t: Table, now: int, prev: int, mac: Mac)
    requires Sane(c, t, now, mac)
    requires forall a :: a in t ==> t[a].sMacAddr != mac
    ensures var o := RequestedOrNew(c, t, now, prev, mac);
      && (o.Granted? ==> Effect(c, t, now, mac, o.ip, o.table))
      && (o.Refused? ==> o.table == t && |t| >= c.nPoolSize)
  {
    hide Hole, HeldFrom, Effect;
    var o := RequestedOrNew(c, t, now, prev, mac);
    if o.Granted? {
      GrantEffect(c, t, now, mac, o.ip);
    }
  }

  lemma GrantEffect(c: Config, t: Table, now: int, mac: Mac, ip: int)
    requires Inv(c, t) && IsClient(mac) && InPool(c, ip)
    requires (forall a :: a in t ==> t[a].sMacAddr != mac) && (ip in t ==> Expired(c, t[ip], now))
    ensures Effect(c, t, now, mac, ip, t[ip := Lease(mac, now, 0)])
  {
  }

  lemma MoveEffect(c: Config, t: Table, own: int, now: int, mac: Mac, ip: int, t': Table)
    requires own in t && t[own].sMacAddr == mac && Effect(c, t - {own}, now, mac, ip, t')
    ensures Effect(c, t, now, mac, ip, t')
  {
    hide Inv;
  }

  lemma TouchEffect(c: Config, t: Table, own: int, now: int, mac: Mac)
    requires Inv(c, t) && own in t && t[own].sMacAddr == mac
    ensures Effect(c, t, now, mac, own, t[own := t[own].(tAllocated := now)])
  {
  }

  lemma Allocate2Effect(c: Config, t: Table, now: int, prev: int, mac: Mac)
    requires Sane(c, t, now, mac)
    ensures var o := Allocate2(c, t, now, prev, mac);
      && (o.Granted? ==> Effect(c, t, now, mac, o.ip, o.table))
      && (o.Refused? ==> o.table == t)
  {
    hide RequestedOrNew, Effect;
    var own := SearchByMac(t, mac);
    if own.None? {
      RequestedOrNewEffect(c, t, now, prev, mac);
    } else if !UsePrevious(c, prev) || prev == own.value {
      TouchEffect(c, t, own.value, now, mac);
    } else if !DestroyDangles(c, t) {
      var t' := t - {own.value};
      RequestedOrNewEffect(c, t', now, prev, mac);
      assert t'.Keys == t.Keys - {own.value};
      Pigeonhole(c, t);
      var o := RequestedOrNew(c, t', now, prev, mac);
      if o.Granted? {
        MoveEffect(c, t, own.value, now, mac, o.ip, o.table);
      }
    }
  }

  lemma ProbeStep(c: Config, t: Table, now: int, prev: int, mac: Mac)
    requires Sane(c, t, now, mac)
    requires Allocate2(c, t, now, prev, mac).Granted?
    ensures var o := Allocate2(c, t, now, prev, mac);
      var t' := o.table[o.ip := Quarantined(now)];
      && Sane(c, t', now, mac)
      && |Probeable(c, t', now)| < |Probeable(c, t, now)|
  {
    var o := Allocate2(c, t, now, prev, mac);
    Allocate2Effect(c, t, now, prev, mac);
    var t' := o.table[o.ip := Quarantined(now)];
    assert o.ip in Probeable(c, t, now) && o.ip !in Probeable(c, t', now);
    assert Probeable(c, t', now) <= Probeable(c, t, now);
    SubsetSize(Probeable(c, t', now), Probeable(c, t, now));
  }

  lemma ProbeableInPool(c: Config, t: Table, now: int)
    ensures |Probeable(c, t, now)| <= c.nPoolSize
  {
    PoolSize(c);
    SubsetSize(Probeable(c, t, now), Pool(c));
  }

  // ----- when an allocation fails

  lemma RefusedByTests(c: Config, t: Table, now: int, prev: int, mac: Mac)
    requires Sane(c, t, now, mac)
    ensures Allocate2(c, t, now, prev, mac).Refused? <==>
      && (forall a :: a in t ==> t[a].sMacAddr != mac)
      && !(UsePrevious(c, prev) && CanTake(c, t, now, prev, mac))
      && (forall a :: InPool(c, a) ==> a in t && (Live(c, t[a], now) || now <= t[a].tAllocated + TWO_MINUTES))
  {
    hide Hole, HeldFrom;
    Pigeonhole(c, t);
    var own := SearchByMac(t, mac);
    if own.Some? {
      var t' := t - {own.value};
      assert t'.Keys == t.Keys - {own.value};
      Pigeonhole(c, t');
    } else if |t| == c.nPoolSize {
      assert forall a :: InPool(c, a) ==> a in Pool(c);
    }
  }

  /** Allocation is refused exactly when the client has no record, cannot take the address it asks for, and every pool
      address is held by a record that is live or was allocated within the last two minutes. */
  lemma RefusedIff(c: Config, t: Table, now: int, prev: int, mac: Mac)
    requires Sane(c, t, now, mac)
    ensures Allocate2(c, t, now, prev, mac).Refused? <==>
      && (forall a :: a in t ==> t[a].sMacAddr != mac)
      && !(InPool(c, prev) && (prev !in t || t[prev].tRenewed == 0 || t[prev].tRenewed + c.nLease * 60 < now))
      && (forall a :: InPool(c, a) ==> a in t && (Live(c, t[a], now) || now <= t[a].tAllocated + TWO_MINUTES))
  {
    hide Allocate2;
    RefusedByTests(c, t, now, prev, mac);
  }

  /** The client has a record and asks for another address of the pool. */
  ghost predicate Moves(c: Config, t: Table, prev: int, mac: Mac) {
    UsePrevious(c, prev) && exists a :: a in t && t[a].sMacAddr == mac && a != prev
  }

  lemma Allocate2DanglesIff(c: Config, t: Table, now: int, prev: int, mac: Mac)
    requires Sane(c, t, now, mac)
    ensures var o := Allocate2(c, t, now, prev, mac);
      && (o == Broken(Dangling) <==> DestroyDangles(c, t) && Moves(c, t, prev, mac))
      && (o.Granted? ==> !Moves(c, o.table[o.ip := Quarantined(now)], prev, mac))
  {
    Allocate2Effect(c, t, now, prev, mac);
  }

  lemma {:induction false} AllocateDanglesIff(c: Config, t: Table, now: int, discover: bool, prev: int, mac: Mac,
                                              answers: nat -> bool, k: nat)
    requires Sane(c, t, now, mac)
    ensures var o := Allocate(c, t, now, discover, prev, mac, answers, k);
      o == Broken(Dangling) <==> DestroyDangles(c, t) && Moves(c, t, prev, mac)
    decreases |Probeable(c, t, now)|
  {
    hide Allocate2, Inv, Moves;
    var o := Allocate2(c, t, now, prev, mac);
    Allocate2DanglesIff(c, t, now, prev, mac);
    if o.Granted? && c.bPing && discover && answers(k) {
      ProbeStep(c, t, now, prev, mac);
      AllocateDanglesIff(c, o.table[o.ip := Quarantined(now)], now, discover, prev, mac, answers, k + 1);
    }
  }
}
