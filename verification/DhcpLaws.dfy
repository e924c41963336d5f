/** What ProcessDHCPMessage answers and what it leaves, said of the lease table alone: who holds which address since
    when. */
module DhcpLaws {
  import opened AddressPool
  import opened Basics
  import opened DhcpProtocol
  import opened LeaseTable

  // ----- the words of the laws

  /** The sender has not been given an address by another server. */
  predicate Unassigned(p: Packet) {
    p.yiaddr == 0 || p.yiaddr == 0xFFFF_FFFF
  }

  /** The message asks for the address: by option 50, or else by its ciaddr. */
  predicate AsksFor(p: Packet, ip: int) {
    p.option50 == Some(ip) || (p.option50 == None && p.ciaddr == ip)
  }

  predicate OfPool(c: Config, ip: int) {
    c.szAddr <= ip < c.szAddr + c.nPoolSize
  }

  ghost predicate Known(t: Table, mac: Mac) {
    exists a :: a in t && t[a].sMacAddr == mac
  }

  /** The client can have the address it asks for: in the pool, and not held, or held by itself, or by a record that was
      never acknowledged or whose lease time is over. */
  ghost predicate Available(c: Config, t: Table, now: int, mac: Mac, ip: int) {
    && OfPool(c, ip)
    && (ip !in t || t[ip].sMacAddr == mac || t[ip].tRenewed == 0 || t[ip].tRenewed + 60 * c.nLease < now)
  }

  /** Two minutes after its allocation, a record that was never acknowledged or whose lease time is over can be given
      away. */
  ghost predicate Stale(c: Config, t: Table, now: int, a: int) {
    a in t && t[a].tAllocated + 120 < now && (t[a].tRenewed == 0 || t[a].tRenewed + 60 * c.nLease < now)
  }

  /** The records of the other clients. */
  ghost function Others(t: Table, mac: Mac): Table {
    map a | a in t && t[a].sMacAddr != mac :: t[a]
  }

  /** The client asks for another address of the pool than its own, and the shipped comparison is in use: its old record
      is destroyed, which leaves a freed record in the MAC index if there are others. */
  ghost predicate LosesRecord(c: Config, t: Table, mac: Mac, ask: int) {
    c.zeroedMacFirst && |t| > 1 && OfPool(c, ask) && Known(t, mac) && !(ask in t && t[ask].sMacAddr == mac)
  }

  /** Address ip is what a client that asks for `ask` is to be given, and tRenewed what its record keeps of an
      acknowledgement: the address asked for, if available; else, if it asks for none of the pool, its own; else, while
      there is room, the one the hole search finds; else the least that can be given away. */
  ghost predicate Due(c: Config, t: Table, now: int, mac: Mac, ask: int, ip: int, tRenewed: int) {
    if Available(c, t, now, mac, ask) then
      ip == ask && tRenewed == if ask in t && t[ask].sMacAddr == mac then t[ask].tRenewed else 0
    else if Known(t, mac) && !OfPool(c, ask) then
      ip in t && t[ip].sMacAddr == mac && tRenewed == t[ip].tRenewed
    else if |Others(t, mac)| < c.nPoolSize then
      ip == Hole(c.szAddr, Held(c, Others(t, mac))) && ip !in Others(t, mac) && OfPool(c, ip) && tRenewed == 0
    else
      Stale(c, t, now, ip) && (forall a :: Stale(c, t, now, a) ==> ip <= a) && tRenewed == 0
  }

  /** The client is new, cannot have what it asks for, and every address of the pool is held by a record that cannot be
      given away. */
  ghost predicate NoAddressFor(c: Config, t: Table, now: int, mac: Mac, ask: int) {
    && !Known(t, mac) && !Available(c, t, now, mac, ask)
    && forall a :: OfPool(c, a) ==> a in t && !Stale(c, t, now, a)
  }

  // ----- one allocation

  lemma OthersAre(c: Config, t: Table, mac: Mac)
    requires Inv(c, t) && IsClient(mac)
    ensures Known(t, mac) <==> SearchByMac(t, mac).Some?
    ensures SearchByMac(t, mac).Some? ==> Others(t, mac) == t - {SearchByMac(t, mac).value}
    ensures SearchByMac(t, mac).None? ==> Others(t, mac) == t
    ensures Inv(c, Others(t, mac)) && Unknown(Others(t, mac), mac)
  {
    var own := SearchByMac(t, mac);
    var o := Others(t, mac);
    if own.Some? {
      assert Known(t, mac);
      forall a ensures a in o <==> a in t - {own.value} {
      }
    } else {
      forall a ensures a in o <==> a in t {
      }
    }
  }

  lemma FullPool(c: Config, t: Table)
    requires WellFormed(c) && Inv(c, t)
    ensures |t| >= c.nPoolSize <==> forall a :: OfPool(c, a) ==> a in t
  {
    Pigeonhole(c, t);
    if forall a :: OfPool(c, a) ==> a in t {
      if LeastFree(c, t).Some? {
        assert OfPool(c, LeastFree(c, t).value);
      }
    } else {
      var a :| OfPool(c, a) && a !in t;
      assert a in Pool(c);
    }
  }

  /** A new client without an address to take. */
  lemma NewLaw(c: Config, t: Table, now: int, mac: Mac)
    requires Sane(c, t, now, mac) && Unknown(t, mac)
    ensures var o := NewOrReused(c, t, now, mac);
      && (|t| < c.nPoolSize ==> var h := Hole(c.szAddr, Held(c, t));
            o == if h in t || !OfPool(c, h) then Broken(Misplaced) else Granted(t[h := Lease(mac, now, 0)], h))
      && (|t| >= c.nPoolSize && o.Granted? ==>
            && Stale(c, t, now, o.ip) && (forall a :: Stale(c, t, now, a) ==> o.ip <= a)
            && o.table == t[o.ip := Lease(mac, now, 0)])
      && (|t| >= c.nPoolSize && !o.Granted? ==> o == Refused(t) && forall a :: !Stale(c, t, now, a))
  {
    hide Hole, HeldFrom;
  }

  lemma RequestedLaw(c: Config, t: Table, now: int, mac: Mac, ask: int)
    requires Sane(c, t, now, mac) && Unknown(t, mac)
    ensures RequestedOrNew(c, t, now, ask, mac) ==
            if Available(c, t, now, mac, ask) then Granted(t[ask := Lease(mac, now, 0)], ask)
            else NewOrReused(c, t, now, mac)
  {
    hide NewOrReused;
  }

  /** The case of a client without a record, or whose record has just been destroyed. */
  lemma NewcomerLaw(c: Config, t: Table, now: int, mac: Mac, ask: int)
    requires Sane(c, t, now, mac) && Unknown(t, mac)
    ensures var o := RequestedOrNew(c, t, now, ask, mac);
      && (o.Granted? ==> Due(c, t, now, mac, ask, o.ip, 0) && o.table == t[o.ip := Lease(mac, now, 0)])
      && (o.Refused? ==> o.table == t)
      && (o.Refused? <==> NoAddressFor(c, t, now, mac, ask)) && o != Broken(Dangling)
      && (|t| < c.nPoolSize ==> !o.Refused?)
  {
    hide Hole, HeldFrom, NewOrReused, RequestedOrNew;
    RequestedLaw(c, t, now, mac, ask);
    NewLaw(c, t, now, mac);
    FullPool(c, t);
    OthersAre(c, t, mac);
  }

  /** What the client whose record was destroyed is due does not depend on that record. */
  lemma DueAfterMove(c: Config, t: Table, now: int, mac: Mac, ask: int, ip: int)
    requires Sane(c, t, now, mac) && Known(t, mac) && OfPool(c, ask) && !(ask in t && t[ask].sMacAddr == mac)
    requires |Others(t, mac)| < c.nPoolSize && Due(c, Others(t, mac), now, mac, ask, ip, 0)
    ensures Due(c, t, now, mac, ask, ip, 0)
  {
    hide Hole, HeldFrom;
    assert Others(Others(t, mac), mac) == Others(t, mac);
  }

  /** DHCP_IPAllocate2: what it grants, when it refuses, and when it breaks the database. */
  lemma AllocationLaw(c: Config, t: Table, now: int, mac: Mac, ask: int) returns (tRenewed: int)
    requires Sane(c, t, now, mac)
    ensures var o := Allocate2(c, t, now, ask, mac);
      && (o.Granted? ==>
            Due(c, t, now, mac, ask, o.ip, tRenewed) && o.table == Others(t, mac)[o.ip := Lease(mac, now, tRenewed)])
      && (o.Refused? ==> o.table == t)
      && (o.Refused? <==> NoAddressFor(c, t, now, mac, ask))
      && (o == Broken(Dangling) <==> LosesRecord(c, t, mac, ask))
  {
    OthersAre(c, t, mac);
    if SearchByMac(t, mac).None? {
      hide Due;
      tRenewed := 0;
      NewcomerLaw(c, t, now, mac, ask);
    } else if OfPool(c, ask) && ask != SearchByMac(t, mac).value {
      tRenewed := 0;
      MoverLaw(c, t, now, mac, ask);
    } else {
      tRenewed := t[SearchByMac(t, mac).value].tRenewed;
      StayerLaw(c, t, now, mac, ask);
    }
  }

  /** A client with a record that asks for another address of the pool. */
  lemma MoverLaw(c: Config, t: Table, now: int, mac: Mac, ask: int)
    requires Sane(c, t, now, mac) && SearchByMac(t, mac).Some? && OfPool(c, ask) && ask != SearchByMac(t, mac).value
    ensures var o := Allocate2(c, t, now, ask, mac);
      && (o.Granted? ==> Due(c, t, now, mac, ask, o.ip, 0) && o.table == Others(t, mac)[o.ip := Lease(mac, now, 0)])
      && !o.Refused? && !NoAddressFor(c, t, now, mac, ask)
      && (o == Broken(Dangling) <==> LosesRecord(c, t, mac, ask))
  {
    hide Due, RequestedOrNew;
    OthersAre(c, t, mac);
    Pigeonhole(c, t);
    var others, own := Others(t, mac), SearchByMac(t, mac).value;
    assert others.Keys == t.Keys - {own};
    NewcomerLaw(c, others, now, mac, ask);
    var o := RequestedOrNew(c, others, now, ask, mac);
    if o.Granted? {
      DueAfterMove(c, t, now, mac, ask, o.ip);
    }
  }

  /** A client with a record that asks for its own address, or for none of the pool. */
  lemma StayerLaw(c: Config, t: Table, now: int, mac: Mac, ask: int)
    requires Sane(c, t, now, mac) && SearchByMac(t, mac).Some?
    requires !OfPool(c, ask) || ask == SearchByMac(t, mac).value
    ensures var own := SearchByMac(t, mac).value;
      && Allocate2(c, t, now, ask, mac) == Granted(Others(t, mac)[own := Lease(mac, now, t[own].tRenewed)], own)
      && Due(c, t, now, mac, ask, own, t[own].tRenewed)
      && !NoAddressFor(c, t, now, mac, ask) && !LosesRecord(c, t, mac, ask)
  {
    hide Hole, HeldFrom, RequestedOrNew;
    OthersAre(c, t, mac);
    var own := SearchByMac(t, mac).value;
    assert t[own := t[own].(tAllocated := now)] == Others(t, mac)[own := Lease(mac, now, t[own].tRenewed)];
  }

  /** One allocation whose first address is not probed or does not answer, and the renewal of its record. */
  lemma RenewLaw(c: Config, t: Table, now: int, discover: bool, ask: int, mac: Mac, answers: nat -> bool,
                 renewed: Option<int>, kind: Option<int>) returns (ip: int, tRenewed: int)
    requires Sane(c, t, now, mac) && !(c.bPing && discover && answers(0))
    ensures var r := AllocateAndRenew(c, t, now, discover, ask, mac, answers, renewed, kind);
      && (r == Fails(Dangling) <==> LosesRecord(c, t, mac, ask))
      && (NoAddressFor(c, t, now, mac, ask) ==> r == Next(t, NoReply))
      && (r.Next? && !NoAddressFor(c, t, now, mac, ask) ==>
            && Due(c, t, now, mac, ask, ip, tRenewed)
            && r == Next(Others(t, mac)[ip := Lease(mac, now, if renewed.Some? then renewed.value else tRenewed)],
                         if kind.Some? then Reply(kind.value, ip) else NoReply))
  {
    hide Allocate, Allocate2, Due, NoAddressFor, LosesRecord, Others;
    tRenewed := AllocationLaw(c, t, now, mac, ask);
    AllocateOnce(c, t, now, discover, ask, mac, answers);
    var o := Allocate2(c, t, now, ask, mac);
    ip := if o.Granted? then o.ip else 0;
  }

  // ----- messages

  /** DISCOVER, as long as the first address is not probed or does not answer: the client is offered the address it is
      due, and its record there is allocated now and keeps an acknowledgement of its own; or there is no address for it.
      */
  lemma DiscoverLaw(c: Config, t: Table, p: Packet, w: World, ask: int) returns (ip: int, tRenewed: int)
    requires WellFormed(c) && Inv(c, t) && EventOk(Message(p, w)) && Unassigned(p) && AsksFor(p, ask)
    requires p.nDhcpType == DHCPDISCOVER && w.staticIP == INADDR_NONE && !(c.bPing && w.answers(0))
    ensures var r := Process(c, t, p, w);
      && (r == Fails(Dangling) <==> LosesRecord(c, t, p.chaddr, ask))
      && (NoAddressFor(c, t, w.now, p.chaddr, ask) ==> r == Next(t, NoReply))
      && (r.Next? && !NoAddressFor(c, t, w.now, p.chaddr, ask) ==>
            && Due(c, t, w.now, p.chaddr, ask, ip, tRenewed)
            && r == Next(Others(t, p.chaddr)[ip := Lease(p.chaddr, w.now, tRenewed)], Reply(DHCPOFFER, ip)))
  {
    hide AllocateAndRenew, Due, NoAddressFor, LosesRecord, Others;
    ip, tRenewed := RenewLaw(c, t, w.now, true, ask, p.chaddr, w.answers, None, Some(DHCPOFFER));
  }

  /** BOOTP, unless it is ignored: the same without probes, and the record counts as acknowledged at a distant time. */
  lemma BootpLaw(c: Config, t: Table, p: Packet, w: World, ask: int) returns (ip: int, tRenewed: int)
    requires WellFormed(c) && Inv(c, t) && EventOk(Message(p, w)) && Unassigned(p) && AsksFor(p, ask)
    requires p.nDhcpType == BOOTP && !c.nIgnoreBootp && w.staticIP == INADDR_NONE
    ensures var r := Process(c, t, p, w);
      && (r == Fails(Dangling) <==> LosesRecord(c, t, p.chaddr, ask))
      && (NoAddressFor(c, t, w.now, p.chaddr, ask) ==> r == Next(t, NoReply))
      && (r.Next? && !NoAddressFor(c, t, w.now, p.chaddr, ask) ==>
            && Due(c, t, w.now, p.chaddr, ask, ip, tRenewed)
            && r == Next(Others(t, p.chaddr)[ip := Lease(p.chaddr, w.now, 0x6666_6666)], Reply(DHCPOFFER, ip)))
  {
    hide AllocateAndRenew, Due, NoAddressFor, LosesRecord, Others;
    ip, tRenewed := RenewLaw(c, t, w.now, false, ask, p.chaddr, w.answers, Some(0x6666_6666), Some(DHCPOFFER));
  }

  /** With PXE compatibility off and no static entry, a REQUEST of a known client for an address it can have is
      acknowledged with exactly that address: afterwards this is its only record, allocated and renewed now, and all
      records of others are as before, but for one that it may have taken over. Any other REQUEST is not answered and
      changes nothing. */
  lemma RequestAcksExactly(c: Config, t: Table, p: Packet, w: World, ask: int)
    requires WellFormed(c) && Inv(c, t) && EventOk(Message(p, w)) && Unassigned(p) && AsksFor(p, ask)
    requires p.nDhcpType == DHCPREQUEST && w.staticIP == INADDR_NONE && !(c.bPXECompatibility && p.ciaddr == 0)
    ensures Process(c, t, p, w) ==
      if !Known(t, p.chaddr) || !Available(c, t, w.now, p.chaddr, ask) then Next(t, NoReply)
      else if LosesRecord(c, t, p.chaddr, ask) then Fails(Dangling)
      else Next(Others(t, p.chaddr)[ask := Lease(p.chaddr, w.now, w.now)], Reply(DHCPACK, ask))
  {
    hide AllocateAndRenew, Others, LosesRecord;
    OthersAre(c, t, p.chaddr);
    if Available(c, t, w.now, p.chaddr, ask) {
      AskedIsGranted(c, t, w.now, ask, p.chaddr, w.answers);
    }
  }

  lemma AskedIsGranted(c: Config, t: Table, now: int, ask: int, mac: Mac, answers: nat -> bool)
    requires Sane(c, t, now, mac) && Available(c, t, now, mac, ask)
    ensures AllocateAndRenew(c, t, now, false, ask, mac, answers, Some(now), Some(DHCPACK)) ==
            if LosesRecord(c, t, mac, ask) then Fails(Dangling)
            else Next(Others(t, mac)[ask := Lease(mac, now, now)], Reply(DHCPACK, ask))
  {
    hide Allocate, Allocate2, Others, LosesRecord, Hole, HeldFrom;
    var ip, tRenewed := RenewLaw(c, t, now, false, ask, mac, answers, Some(now), Some(DHCPACK));
    RequestNeverMisplaces(c, t, now, ask, mac, answers);
    TwoFaults(AllocateAndRenew(c, t, now, false, ask, mac, answers, Some(now), Some(DHCPACK)));
  }

  lemma TwoFaults(r: Result)
    ensures r.Next? || r == Fails(Dangling) || r == Fails(Misplaced)
  {
    match r
    case Next(_, _) =>
    case Fails(fault) =>
      match fault
      case Dangling =>
      case Misplaced =>
  }

  lemma RequestNeverMisplaces(c: Config, t: Table, now: int, ask: int, mac: Mac, answers: nat -> bool)
    requires Sane(c, t, now, mac) && Available(c, t, now, mac, ask)
    ensures Allocate(c, t, now, false, ask, mac, answers, 0) != Broken(Misplaced)
  {
    hide Hole, HeldFrom, NewOrReused;
    AllocateOnce(c, t, now, false, ask, mac, answers);
  }

  /** With PXE compatibility on, a known client without an address of its own gets the address it is due, if it cannot
      have the one it asks for. */
  lemma PxeLaw(c: Config, t: Table, p: Packet, w: World, ask: int) returns (ip: int, tRenewed: int)
    requires WellFormed(c) && Inv(c, t) && EventOk(Message(p, w)) && Unassigned(p) && AsksFor(p, ask)
    requires p.nDhcpType == DHCPREQUEST && w.staticIP == INADDR_NONE && c.bPXECompatibility && p.ciaddr == 0
    ensures var r := Process(c, t, p, w);
      if !Known(t, p.chaddr) then r == Next(t, NoReply)
      else
        && (r == Fails(Dangling) <==> LosesRecord(c, t, p.chaddr, ask))
        && (r.Next? ==>
              && Due(c, t, w.now, p.chaddr, ask, ip, tRenewed)
              && r == Next(Others(t, p.chaddr)[ip := Lease(p.chaddr, w.now, w.now)], Reply(DHCPACK, ip)))
  {
    hide AllocateAndRenew, Due, LosesRecord, Others;
    OthersAre(c, t, p.chaddr);
    ip, tRenewed := RenewLaw(c, t, w.now, false, ask, p.chaddr, w.answers, Some(w.now), Some(DHCPACK));
  }

  /** A static entry is offered and acknowledged as it is, and nothing is recorded. */
  lemma StaticLaw(c: Config, t: Table, p: Packet, w: World)
    requires WellFormed(c) && Inv(c, t) && EventOk(Message(p, w)) && Unassigned(p) && w.staticIP != INADDR_NONE
    ensures p.nDhcpType == DHCPDISCOVER || (p.nDhcpType == BOOTP && !c.nIgnoreBootp) ==>
      Process(c, t, p, w) == Next(t, Reply(DHCPOFFER, w.staticIP))
    ensures p.nDhcpType == DHCPREQUEST ==> Process(c, t, p, w) == Next(t, Reply(DHCPACK, w.staticIP))
  {
  }

  /** RELEASE: the sender's record, if it has one, keeps its address and owner and counts as neither allocated nor
      acknowledged; there is no answer. */
  lemma ReleaseLaw(c: Config, t: Table, p: Packet, w: World)
    requires WellFormed(c) && Inv(c, t) && EventOk(Message(p, w)) && Unassigned(p) && p.nDhcpType == DHCPRELEASE
    ensures Process(c, t, p, w) ==
      Next(map a | a in t :: if t[a].sMacAddr == p.chaddr then Lease(p.chaddr, 0, 0) else t[a], NoReply)
  {
    var own := SearchByMac(t, p.chaddr);
    var t' := map a | a in t :: if t[a].sMacAddr == p.chaddr then Lease(p.chaddr, 0, 0) else t[a];
    if own.Some? {
      forall a | a in t ensures t'[a] == t[own.value := Lease(p.chaddr, 0, 0)][a] {
        assert t[a].sMacAddr == p.chaddr ==> a == own.value;
      }
      assert t' == t[own.value := Lease(p.chaddr, 0, 0)];
    } else {
      assert t' == t;
    }
  }

  /** DECLINE of the sender's own address by option 50. */
  ghost predicate DeclinesOwn(t: Table, p: Packet) {
    p.option50.Some? && p.option50.value in t && t[p.option50.value].sMacAddr == p.chaddr
  }

  /** DECLINE: the declined record is removed if it is the sender's own. Whoever answers the ARP request for the address
      is given a record, at best there, that counts as acknowledged at a distant time. There is no answer. */
  lemma DeclineLaw(c: Config, t: Table, p: Packet, w: World, ask: int) returns (ip: int, tRenewed: int)
    requires WellFormed(c) && Inv(c, t) && EventOk(Message(p, w)) && Unassigned(p) && AsksFor(p, ask)
    requires p.nDhcpType == DHCPDECLINE
    ensures var r := Process(c, t, p, w);
      var t1 := if DeclinesOwn(t, p) then Others(t, p.chaddr) else t;
      if DeclinesOwn(t, p) && c.zeroedMacFirst && |t| > 1 then r == Fails(Dangling)
      else if w.arp.None? then r == Next(t1, NoReply)
      else
        var mac := w.arp.value;
        && (r == Fails(Dangling) <==> LosesRecord(c, t1, mac, ask))
        && (NoAddressFor(c, t1, w.now, mac, ask) ==> r == Next(t1, NoReply))
        && (r.Next? && !NoAddressFor(c, t1, w.now, mac, ask) ==>
              && Due(c, t1, w.now, mac, ask, ip, tRenewed)
              && r == Next(Others(t1, mac)[ip := Lease(mac, w.now, 0x6666_6666)], NoReply))
  {
    hide AllocateAndRenew, Due, NoAddressFor, LosesRecord, Others;
    OthersAre(c, t, p.chaddr);
    var t1 := if DeclinesOwn(t, p) then Others(t, p.chaddr) else t;
    assert DeclinesOwn(t, p) <==> SearchByMac(t, p.chaddr).Some? && p.option50 == SearchByMac(t, p.chaddr);
    ip, tRenewed := 0, 0;
    if w.arp.Some? {
      ip, tRenewed := RenewLaw(c, t1, w.now, false, ask, w.arp.value, w.answers, Some(0x6666_6666), None);
    }
  }

  /** What the GUI deletes is removed, and nothing else. */
  lemma DeleteLaw(c: Config, t: Table, ip: int)
    requires WellFormed(c) && Inv(c, t)
    ensures Step(c, t, DeleteAssignation(ip)) ==
      if ip in t && c.zeroedMacFirst && |t| > 1 then Fails(Dangling)
      else Next(map a | a in t && a != ip :: t[a], NoReply)
  {
    var t' := map a | a in t && a != ip :: t[a];
    assert t' == if ip in t then t - {ip} else t;
  }

  /** Messages that are not processed: an address is already assigned, BOOTP is ignored, or the type is another one. */
  lemma SilentLaw(c: Config, t: Table, p: Packet, w: World)
    requires WellFormed(c) && Inv(c, t) && EventOk(Message(p, w))
    ensures !Unassigned(p) ==> Process(c, t, p, w) == Next(t, NoReply)
    ensures Unassigned(p) && p.nDhcpType == BOOTP && c.nIgnoreBootp ==> Process(c, t, p, w) == Next(t, Unprepared)
    ensures Unassigned(p) && p.nDhcpType !in {BOOTP, DHCPDISCOVER, DHCPREQUEST, DHCPDECLINE, DHCPRELEASE} ==>
      Process(c, t, p, w) == Next(t, NoReply)
    ensures p.nDhcpType !in {BOOTP, DHCPDISCOVER, DHCPREQUEST} ==>
      var r := Process(c, t, p, w); r.Next? ==> r.reply == NoReply
  {
    hide Allocate;
  }

  // ----- probes

  lemma {:induction false} AnswersShift(c: Config, t: Table, now: int, discover: bool, prev: int, mac: Mac,
                                        answers: nat -> bool, later: nat -> bool, k: nat)
    requires Sane(c, t, now, mac) && forall j: nat :: later(j) == answers(j + 1)
    ensures Allocate(c, t, now, discover, prev, mac, answers, k + 1)
         == Allocate(c, t, now, discover, prev, mac, later, k)
    decreases |Probeable(c, t, now)|
  {
    hide Allocate2, Inv, WellFormed;
    var o := Allocate2(c, t, now, prev, mac);
    if o.Granted? && c.bPing && discover && answers(k + 1) {
      ProbeStep(c, t, now, prev, mac);
      AnswersShift(c, o.table[o.ip := Quarantined(now)], now, discover, prev, mac, answers, later, k + 1);
    }
  }

  /** DISCOVER, when the first address answers the probe: it is held by the placeholder, allocated and acknowledged now,
      and the message is processed again on that database with the following probes. */
  lemma ProbeLaw(c: Config, t: Table, p: Packet, w: World, ask: int, w': World) returns (ip: int, tRenewed: int)
    requires WellFormed(c) && Inv(c, t) && EventOk(Message(p, w)) && Unassigned(p) && AsksFor(p, ask)
    requires p.nDhcpType == DHCPDISCOVER && w.staticIP == INADDR_NONE && c.bPing && w.answers(0)
    requires w'.now == w.now && w'.staticIP == w.staticIP && w'.arp == w.arp
    requires forall k: nat :: w'.answers(k) == w.answers(k + 1)
    ensures var r := Process(c, t, p, w);
      && (r == Fails(Dangling) <==> LosesRecord(c, t, p.chaddr, ask))
      && (NoAddressFor(c, t, w.now, p.chaddr, ask) ==> r == Next(t, NoReply))
      && (r.Next? && !NoAddressFor(c, t, w.now, p.chaddr, ask) ==>
            var t1 := Others(t, p.chaddr)[ip := Lease(0x46_46_3A_46_46_3A, w.now, w.now)];
            && Due(c, t, w.now, p.chaddr, ask, ip, tRenewed)
            && Inv(c, t1) && r == Process(c, t1, p, w'))
  {
    hide Allocate2, Due, NoAddressFor, LosesRecord, Others, Inv, WellFormed;
    tRenewed := AllocationLaw(c, t, w.now, p.chaddr, ask);
    AllocateDanglesIff(c, t, w.now, true, ask, p.chaddr, w.answers, 0);
    Allocate2DanglesIff(c, t, w.now, ask, p.chaddr);
    var o := Allocate2(c, t, w.now, ask, p.chaddr);
    ip := if o.Granted? then o.ip else 0;
    if o.Granted? {
      ProbeStep(c, t, w.now, ask, p.chaddr);
      var t1 := o.table[o.ip := Quarantined(w.now)];
      assert t1 == Others(t, p.chaddr)[ip := Lease(0x46_46_3A_46_46_3A, w.now, w.now)];
      AnswersShift(c, t1, w.now, true, ask, p.chaddr, w.answers, w'.answers, 0);
    }
  }

  // ----- runs

  lemma TwoEvents(c: Config, t: Table, e: Event, e': Event)
    requires WellFormed(c) && Inv(c, t) && EventOk(e) && EventOk(e')
    ensures var r := Step(c, t, e);
      Run(c, t, [e, e']) == if r.Next? && Inv(c, r.table) then Step(c, r.table, e') else r
  {
    hide Step;
    StepKeepsInv(c, t, e);
    assert [e, e'][1..] == [e'];
  }

  /** The address of a record that the client has is acknowledged when it requests it. */
  lemma OwnAddressIsAcknowledged(c: Config, t: Table, p: Packet, w: World, ip: int)
    requires WellFormed(c) && Inv(c, t) && EventOk(Message(p, w)) && Unassigned(p) && AsksFor(p, ip)
    requires p.nDhcpType == DHCPREQUEST && w.staticIP == INADDR_NONE
    requires ip in t && t[ip].sMacAddr == p.chaddr
    ensures Process(c, t, p, w) == Next(Others(t, p.chaddr)[ip := Lease(p.chaddr, w.now, w.now)], Reply(DHCPACK, ip))
  {
    hide AllocateAndRenew, Others;
    OthersAre(c, t, p.chaddr);
    AskedIsGranted(c, t, w.now, ip, p.chaddr, w.answers);
  }

  /** Whatever the probes answer: an offered address is acknowledged when the client then requests it, at any later time
      and with nobody else in between. */
  lemma OfferIsAcknowledged(c: Config, t: Table, p: Packet, w: World, p': Packet, w': World)
    requires WellFormed(c) && Inv(c, t) && EventOk(Message(p, w)) && EventOk(Message(p', w'))
    requires Unassigned(p) && p.nDhcpType == DHCPDISCOVER && w.staticIP == INADDR_NONE
    requires var r := Process(c, t, p, w); r.Next? && r.reply.Reply? && AsksFor(p', r.reply.yiaddr)
    requires Unassigned(p') && p'.nDhcpType == DHCPREQUEST && p'.chaddr == p.chaddr && w'.staticIP == INADDR_NONE
    ensures var r := Process(c, t, p, w); var ip := r.reply.yiaddr;
      && r.reply == Reply(DHCPOFFER, ip)
      && Run(c, t, [Message(p, w), Message(p', w')]) ==
         Next(Others(r.table, p.chaddr)[ip := Lease(p.chaddr, w'.now, w'.now)], Reply(DHCPACK, ip))
  {
    hide Allocate, Others, Run;
    AllocateEffect(c, t, w.now, true, RequestedAddr(p), p.chaddr, w.answers, 0);
    var t' := Process(c, t, p, w).table;
    var ip := Process(c, t, p, w).reply.yiaddr;
    assert FreshFor(c, t, w.now, p.chaddr, ip, t') && Inv(c, t');
    OwnAddressIsAcknowledged(c, t', p', w', ip);
    TwoEvents(c, t, Message(p, w), Message(p', w'));
  }
}
