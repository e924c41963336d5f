/** ProcessDHCPMessage on the heap database: it does exactly what the state machine says. */
module DhcpServer {
  import opened AddressPool
  import opened Basics
  import opened LeaseTable
  import opened DhcpProtocol
  import opened LeaseDatabase

  /** The result of a step: the new table and the reply, unless the database breaks. */
  ghost predicate Agrees(db: LeaseDb, spec: Result, reply: Reply, fault: Option<Fault>)
    reads db, db.tFirstIP, db.tMAC, db.records
  {
    match fault
    case None => db.Valid() && spec == Next(db.table, reply)
    case Some(f) => spec == Fails(f)
  }

  method AllocateThenRenew(db: LeaseDb, now: int, discover: bool, prev: int, mac: Mac, answers: nat -> bool,
                           tRenewed: Option<int>, kind: Option<int>) returns (reply: Reply, fault: Option<Fault>)
    requires db.Valid() && Sane(db.c, db.table, now, mac)
    modifies db, db.tFirstIP, db.tMAC, db.records
    ensures Agrees(db, AllocateAndRenew(db.c, old(db.table), now, discover, prev, mac, answers, tRenewed, kind),
                   reply, fault)
    ensures kind.None? ==> reply == NoReply
  {
    hide Allocate, Inv, WellFormed, LeaseDb.Indexed, LeaseDb.Represents, LeaseDb.PermutationsOf, LeaseDb.Holds;
    var r, rounds;
    reply := NoReply;
    r, fault, rounds := db.DHCP_IPAllocate(discover, prev, mac, now, answers);
    if fault.Some? || r == null {
      return;
    }
    AllocateEffect(db.c, old(db.table), now, discover, prev, mac, answers, 0);
    if tRenewed.Some? {
      db.SetRenewTime(r, tRenewed.value);
    }
    if kind.Some? {
      reply := Reply(kind.value, r.dwIP);
    }
  }

  method DoDiscover(db: LeaseDb, p: Packet, w: World) returns (reply: Reply, fault: Option<Fault>)
    requires db.Valid() && Sane(db.c, db.table, w.now, p.chaddr)
    modifies db, db.tFirstIP, db.tMAC, db.records
    ensures Agrees(db, Discover(db.c, old(db.table), p, w), reply, fault)
  {
    hide AllocateAndRenew;
    if w.staticIP != INADDR_NONE {
      return Reply(DHCPOFFER, w.staticIP), None;
    }
    var tRenewed := if p.nDhcpType == BOOTP then Some(BOOTP_RENEW_TIME) else None;
    reply, fault := AllocateThenRenew(db, w.now, p.nDhcpType == DHCPDISCOVER, RequestedAddr(p), p.chaddr, w.answers,
                                         tRenewed, Some(DHCPOFFER));
  }

  method DoRequest(db: LeaseDb, p: Packet, w: World) returns (reply: Reply, fault: Option<Fault>)
    requires db.Valid() && Sane(db.c, db.table, w.now, p.chaddr)
    modifies db, db.tFirstIP, db.tMAC, db.records
    ensures Agrees(db, Request(db.c, old(db.table), p, w), reply, fault)
  {
    hide AllocateAndRenew, Inv, WellFormed, LeaseDb.Indexed, LeaseDb.Represents, LeaseDb.PermutationsOf;
    reply, fault := NoReply, None;
    if w.staticIP != INADDR_NONE {
      return Reply(DHCPACK, w.staticIP), None;
    }
    var pCurIP := db.DHCPSearchByMacAddress(p.chaddr);
    if pCurIP == null {
      return;
    }
    var ip := RequestedAddr(p);
    var bSERVER := false;
    if AddrFitsPool(db.c, ip) {
      var pProposedIP, wasexpired := db.DHCPSearchByIP(ip, w.now);
      if pProposedIP == null {
        bSERVER := true;
      } else {
        var mine := db.HasMac(pProposedIP, p.chaddr);
        bSERVER := wasexpired || mine;
      }
    }
    assert bSERVER <==> Grantable(db.c, db.table, w.now, ip, p.chaddr);
    if bSERVER || (p.ciaddr == 0 && db.c.bPXECompatibility) {
      reply, fault := AllocateThenRenew(db, w.now, false, ip, p.chaddr, w.answers, Some(w.now), Some(DHCPACK));
    }
  }

  /** Destroys the client's record if the message declines its address. */
  method DropDeclined(db: LeaseDb, p: Packet) returns (fault: Option<Fault>)
    requires db.Valid() && Inv(db.c, db.table) && IsClient(p.chaddr)
    modifies db, db.tFirstIP, db.tMAC, db.records
    ensures db.records <= old(db.records)
    ensures var own := SearchByMac(old(db.table), p.chaddr);
      Agrees(db, if own.Some? && p.option50 == own then Destroy(db.c, old(db.table), own.value)
                 else Next(old(db.table), NoReply),
             NoReply, fault)
  {
    hide LeaseDb.Indexed, LeaseDb.Represents, LeaseDb.PermutationsOf, LeaseDb.MacIndexCorrupt;
    hide LeaseDb.Holds, WellFormed, Inv;
    fault := None;
    var pCurIP := db.DHCPSearchByMacAddress(p.chaddr);
    if pCurIP != null {
      db.OwnRecord(pCurIP, p.chaddr);
      if p.option50 == Some(pCurIP.dwIP) {
        var freed, dangling := db.DHCPDestroyItem(pCurIP);
        fault := if dangling then Some(Dangling) else None;
      }
    }
  }

  method DoDecline(db: LeaseDb, p: Packet, w: World) returns (fault: Option<Fault>)
    requires db.Valid() && Sane(db.c, db.table, w.now, p.chaddr) && (w.arp.Some? ==> IsClient(w.arp.value))
    modifies db, db.tFirstIP, db.tMAC, db.records
    ensures Agrees(db, Decline(db.c, old(db.table), p, w), NoReply, fault)
  {
    hide AllocateAndRenew, LeaseDb.Indexed, LeaseDb.Represents, LeaseDb.PermutationsOf, Inv, WellFormed;
    fault := DropDeclined(db, p);
    if fault.None? && w.arp.Some? {
      ghost var own := SearchByMac(old(db.table), p.chaddr);
      if own.Some? {
        db.SaneWithout(old(db.table), own.value, w.now, p.chaddr);
      }
      var reply;
      reply, fault := AllocateThenRenew(db, w.now, false, RequestedAddr(p), w.arp.value, w.answers,
                                        Some(BOOTP_RENEW_TIME), None);
    }
  }

  method DoRelease(db: LeaseDb, p: Packet)
    requires db.Valid() && Inv(db.c, db.table) && IsClient(p.chaddr)
    modifies db, db.tFirstIP, db.tMAC, db.records
    ensures Agrees(db, Release(old(db.table), p), NoReply, None)
  {
    hide LeaseDb.Indexed, LeaseDb.Represents, LeaseDb.PermutationsOf, Inv, WellFormed;
    var pCurIP := db.DHCPSearchByMacAddress(p.chaddr);
    if pCurIP != null {
      db.OwnRecord(pCurIP, p.chaddr);
      db.SetAllocTime(pCurIP, 0);
      db.SetRenewTime(pCurIP, 0);
    }
  }

  /** Every message changes the heap database as the state machine says and prepares the reply it says. */
  method ProcessDHCPMessage(db: LeaseDb, p: Packet, w: World) returns (reply: Reply, fault: Option<Fault>)
    requires db.Valid() && Inv(db.c, db.table) && EventOk(Message(p, w))
    modifies db, db.tFirstIP, db.tMAC, db.records
    ensures Agrees(db, Process(db.c, old(db.table), p, w), reply, fault)
  {
    hide Discover, Request, Decline, Release, Inv;
    hide WellFormed, LeaseDb.Indexed, LeaseDb.Represents, LeaseDb.PermutationsOf;
    reply, fault := NoReply, None;
    if p.yiaddr != INADDR_ANY && p.yiaddr != INADDR_NONE {
      return;
    }
    if p.nDhcpType == BOOTP && db.c.nIgnoreBootp {
      return Unprepared, None;
    }
    if p.nDhcpType == BOOTP || p.nDhcpType == DHCPDISCOVER {
      reply, fault := DoDiscover(db, p, w);
    } else if p.nDhcpType == DHCPREQUEST {
      reply, fault := DoRequest(db, p, w);
    } else if p.nDhcpType == DHCPDECLINE {
      fault := DoDecline(db, p, w);
    } else if p.nDhcpType == DHCPRELEASE {
      DoRelease(db, p);
    }
  }

  /** C_DELETE_ASSIGNATION: the user interface deletes a lease. */
  method DeleteAssignation(db: LeaseDb, ip: int, now: int) returns (fault: Option<Fault>)
    requires db.Valid() && Inv(db.c, db.table)
    modifies db, db.tFirstIP, db.tMAC, db.records
    ensures Agrees(db, Step(db.c, old(db.table), Event.DeleteAssignation(ip)), NoReply, fault)
  {
    hide LeaseDb.Indexed, LeaseDb.Represents, LeaseDb.PermutationsOf, LeaseDb.MacIndexCorrupt;
    hide LeaseDb.Holds, WellFormed, Inv;
    fault := None;
    var pCurIP, dummy := db.DHCPSearchByIP(ip, now);
    if pCurIP != null {
      var freed, dangling := db.DHCPDestroyItem(pCurIP);
      fault := if dangling then Some(Dangling) else None;
    }
  }
}
