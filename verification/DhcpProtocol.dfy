/** ProcessDHCPMessage as a state machine over the lease table, and what holds over all its runs. */
module DhcpProtocol {
  import opened AddressPool
  import opened Basics
  import opened LeaseTable

  const BOOTP := 0
  const DHCPDISCOVER := 1
  const DHCPOFFER := 2
  const DHCPREQUEST := 3
  const DHCPDECLINE := 4
  const DHCPACK := 5
  const DHCPRELEASE := 7

  /** The fields of a packet that matter; `option50` is the requested-address option. */
  datatype Packet = Packet(nDhcpType: int, ciaddr: int, yiaddr: int, chaddr: Mac, option50: Option<int>)

  /** What the outside world contributes while one message is processed: the clock, the statically assigned address
      or INADDR_NONE, whether the k-th probe is answered, and who answers the ARP request for a declined address. */
  datatype World = World(now: int, staticIP: int, answers: nat -> bool, arp: Option<Mac>)

  /** `Unprepared`: the caller is told to send a reply although none was prepared. */
  datatype Reply = NoReply | Reply(nDhcpType: int, yiaddr: int) | Unprepared

  datatype Result = Next(table: Table, reply: Reply) | Fails(fault: Fault)

  datatype Event = Message(p: Packet, w: World) | DeleteAssignation(ip: int)

  ghost predicate EventOk(e: Event) {
    e.Message? ==> 0 < e.w.now && IsClient(e.p.chaddr) && (e.w.arp.Some? ==> IsClient(e.w.arp.value))
  }

  function RequestedAddr(p: Packet): int {
    if p.option50.Some? then p.option50.value else p.ciaddr
  }

  ghost function Destroy(c: Config, t: Table, ip: int): Result {
    if DestroyDangles(c, t) then Fails(Dangling) else Next(t - {ip}, NoReply)
  }

  /** Allocation, then the granted record's renew time is set. */
  ghost function AllocateAndRenew(c: Config, t: Table, now: int, discover: bool, prev: int, mac: Mac,
                                  answers: nat -> bool, tRenewed: Option<int>, reply: Option<int>): Result
    requires Sane(c, t, now, mac)
  {
    match Allocate(c, t, now, discover, prev, mac, answers, 0)
    case Broken(fault) => Fails(fault)
    case Refused(t') => Next(t', NoReply)
    case Granted(t', ip) =>
      AllocateEffect(c, t, now, discover, prev, mac, answers, 0);
      Next(if tRenewed.Some? then t'[ip := t'[ip].(tRenewed := tRenewed.value)] else t',
           if reply.Some? then Reply(reply.value, ip) else NoReply)
  }

  ghost function Discover(c: Config, t: Table, p: Packet, w: World): Result
    requires Sane(c, t, w.now, p.chaddr)
  {
    if w.staticIP != INADDR_NONE then Next(t, Reply(DHCPOFFER, w.staticIP))
    else AllocateAndRenew(c, t, w.now, p.nDhcpType == DHCPDISCOVER, RequestedAddr(p), p.chaddr, w.answers,
                          if p.nDhcpType == BOOTP then Some(BOOTP_RENEW_TIME) else None, Some(DHCPOFFER))
  }

  /** bSERVER: the requested address is in the pool and free, expired or the client's own. */
  ghost predicate Grantable(c: Config, t: Table, now: int, ip: int, mac: Mac) {
    AddrFitsPool(c, ip) && CanTake(c, t, now, ip, mac)
  }

  ghost function Request(c: Config, t: Table, p: Packet, w: World): Result
    requires Sane(c, t, w.now, p.chaddr)
  {
    if w.staticIP != INADDR_NONE then Next(t, Reply(DHCPACK, w.staticIP))
    else if SearchByMac(t, p.chaddr) == None then Next(t, NoReply)
    else if Grantable(c, t, w.now, RequestedAddr(p), p.chaddr) || (p.ciaddr == 0 && c.bPXECompatibility) then
      AllocateAndRenew(c, t, w.now, false, RequestedAddr(p), p.chaddr, w.answers, Some(w.now), Some(DHCPACK))
    else Next(t, NoReply)
  }

  ghost function Decline(c: Config, t: Table, p: Packet, w: World): Result
    requires Sane(c, t, w.now, p.chaddr) && (w.arp.Some? ==> IsClient(w.arp.value))
  {
    var own := SearchByMac(t, p.chaddr);
    var r := if own.Some? && p.option50 == own then Destroy(c, t, own.value) else Next(t, NoReply);
    if r.Fails? || w.arp.None? then r
    else AllocateAndRenew(c, r.table, w.now, false, RequestedAddr(p), w.arp.value, w.answers,
                          Some(BOOTP_RENEW_TIME), None)
  }

  ghost function Release(t: Table, p: Packet): Result {
    match SearchByMac(t, p.chaddr)
    case None => Next(t, NoReply)
    case Some(own) => Next(t[own := t[own].(tAllocated := 0, tRenewed := 0)], NoReply)
  }

  ghost function Process(c: Config, t: Table, p: Packet, w: World): Result
    requires WellFormed(c) && Inv(c, t) && EventOk(Message(p, w))
  {
    if p.yiaddr != INADDR_ANY && p.yiaddr != INADDR_NONE then Next(t, NoReply)
    else if p.nDhcpType == BOOTP && c.nIgnoreBootp then Next(t, Unprepared)
    else if p.nDhcpType == BOOTP || p.nDhcpType == DHCPDISCOVER then Discover(c, t, p, w)
    else if p.nDhcpType == DHCPREQUEST then Request(c, t, p, w)
    else if p.nDhcpType == DHCPDECLINE then Decline(c, t, p, w)
    else if p.nDhcpType == DHCPRELEASE then Release(t, p)
    else Next(t, NoReply)
  }

  ghost function Step(c: Config, t: Table, e: Event): Result
    requires WellFormed(c) && Inv(c, t) && EventOk(e)
  {
    match e
    case Message(p, w) => Process(c, t, p, w)
    case DeleteAssignation(ip) => if ip in t then Destroy(c, t, ip) else Next(t, NoReply)
  }

  /** The table after the events, and the reply to the last one. */
  ghost function Run(c: Config, t: Table, es: seq<Event>): Result
    requires WellFormed(c) && Inv(c, t) && forall e :: e in es ==> EventOk(e)
    decreases |es|
  {
    if es == [] then Next(t, NoReply)
    else
      var r := Step(c, t, es[0]);
      if r.Fails? || |es| == 1 then r
      else
        StepKeepsInv(c, t, es[0]);
        Run(c, r.table, es[1..])
  }

  // ----- allocation with probes

  /** The table is still sound, and the leases live at `now` of all clients but `macs` are untouched. */
  ghost predicate Keeps(c: Config, t: Table, now: int, macs: set<Mac>, t': Table) {
    && Inv(c, t')
    && forall a :: a in t && Live(c, t[a], now) && t[a].sMacAddr !in macs ==> a in t' && t'[a] == t[a]
  }

  ghost predicate FreshFor(c: Config, t: Table, now: int, mac: Mac, ip: int, t': Table) {
    && ip in t' && t'[ip].sMacAddr == mac && t'[ip].tAllocated == now
    && (ip in t && t[ip].sMacAddr != mac ==> !Live(c, t[ip], now))
  }

  /** Whatever the probes answer, an allocation keeps the invariant and the live leases of the other clients; the
      address granted is a record of the client made or touched now. */
  lemma {:induction false} AllocateEffect(c: Config, t: Table, now: int, discover: bool, prev: int, mac: Mac,
                                          answers: nat -> bool, k: nat)
    requires Sane(c, t, now, mac)
    ensures var o := Allocate(c, t, now, discover, prev, mac, answers, k);
      && (!o.Broken? ==> Keeps(c, t, now, {mac}, o.table))
      && (o.Granted? ==> FreshFor(c, t, now, mac, o.ip, o.table))
    decreases |Probeable(c, t, now)|
  {
    hide Allocate2, Inv, Probeable, WellFormed;
    Allocate2Effect(c, t, now, prev, mac);
    var o := Allocate2(c, t, now, prev, mac);
    if o.Granted? && c.bPing && discover && answers(k) {
      ProbeStep(c, t, now, prev, mac);
      AllocateEffect(c, o.table[o.ip := Quarantined(now)], now, discover, prev, mac, answers, k + 1);
    }
  }

  lemma RenewKeeps(c: Config, t: Table, now: int, discover: bool, prev: int, mac: Mac,
                   answers: nat -> bool, tRenewed: Option<int>, reply: Option<int>)
    requires Sane(c, t, now, mac)
    ensures var r := AllocateAndRenew(c, t, now, discover, prev, mac, answers, tRenewed, reply);
      r.Next? ==> Keeps(c, t, now, {mac}, r.table)
  {
    hide Allocate;
    AllocateEffect(c, t, now, discover, prev, mac, answers, 0);
  }

  ghost function Senders(p: Packet, w: World): set<Mac> {
    {p.chaddr} + if w.arp.Some? then {w.arp.value} else {}
  }

  lemma DeclineKeeps(c: Config, t: Table, p: Packet, w: World)
    requires Sane(c, t, w.now, p.chaddr) && (w.arp.Some? ==> IsClient(w.arp.value))
    ensures var r := Decline(c, t, p, w); r.Next? ==> Keeps(c, t, w.now, Senders(p, w), r.table)
  {
    hide AllocateAndRenew;
    var own := SearchByMac(t, p.chaddr);
    var r := if own.Some? && p.option50 == own then Destroy(c, t, own.value) else Next(t, NoReply);
    if r.Next? && w.arp.Some? {
      RenewKeeps(c, r.table, w.now, false, RequestedAddr(p), w.arp.value, w.answers, Some(BOOTP_RENEW_TIME), None);
    }
  }

  lemma ProcessKeeps(c: Config, t: Table, p: Packet, w: World)
    requires WellFormed(c) && Inv(c, t) && EventOk(Message(p, w))
    ensures var r := Process(c, t, p, w); r.Next? ==> Keeps(c, t, w.now, Senders(p, w), r.table)
  {
    hide AllocateAndRenew, Decline;
    DeclineKeeps(c, t, p, w);
    var prev := RequestedAddr(p);
    RenewKeeps(c, t, w.now, p.nDhcpType == DHCPDISCOVER, prev, p.chaddr, w.answers,
               if p.nDhcpType == BOOTP then Some(BOOTP_RENEW_TIME) else None, Some(DHCPOFFER));
    RenewKeeps(c, t, w.now, false, prev, p.chaddr, w.answers, Some(w.now), Some(DHCPACK));
  }

  lemma StepKeepsInv(c: Config, t: Table, e: Event)
    requires WellFormed(c) && Inv(c, t) && EventOk(e)
    ensures Step(c, t, e).Next? ==> Inv(c, Step(c, t, e).table)
  {
    hide Process;
    if e.Message? {
      ProcessKeeps(c, t, e.p, e.w);
    }
  }

  // ----- all runs

  /** In every reachable state no client has two records, every record lies in the pool, and the arrays never overflow.
      */
  lemma {:induction false} RunKeepsInv(c: Config, t: Table, es: seq<Event>)
    requires WellFormed(c) && Inv(c, t) && forall e :: e in es ==> EventOk(e)
    ensures var r := Run(c, t, es); r.Next? ==> Inv(c, r.table) && |r.table| <= c.nPoolSize
    decreases |es|
  {
    if es == [] {
      Pigeonhole(c, t);
    } else if Step(c, t, es[0]).Next? {
      StepKeepsInv(c, t, es[0]);
      RunKeepsInv(c, Step(c, t, es[0]).table, es[1..]);
    }
  }

  /** A message of somebody else than the client `mac`. */
  ghost predicate FromOthers(e: Event, mac: Mac) {
    e.Message? && e.p.chaddr != mac && e.w.arp != Some(mac)
  }

  lemma StepKeepsLiveLease(c: Config, t: Table, e: Event, a: int)
    requires WellFormed(c) && Inv(c, t) && EventOk(e)
    requires a in t && FromOthers(e, t[a].sMacAddr) && Live(c, t[a], e.w.now)
    ensures var r := Step(c, t, e); r.Next? ==> a in r.table && r.table[a] == t[a]
  {
    hide Process;
    ProcessKeeps(c, t, e.p, e.w);
  }

  /** A live lease keeps its address, owner and times through any messages from others, as long as it is live. */
  lemma {:induction false} LiveLeaseSurvives(c: Config, t: Table, es: seq<Event>, a: int)
    requires WellFormed(c) && Inv(c, t) && (forall e :: e in es ==> EventOk(e))
    requires a in t && forall e :: e in es ==> FromOthers(e, t[a].sMacAddr) && Live(c, t[a], e.w.now)
    ensures var r := Run(c, t, es); r.Next? ==> a in r.table && r.table[a] == t[a]
    decreases |es|
  {
    if es != [] && Step(c, t, es[0]).Next? {
      assert es[0] in es;
      StepKeepsInv(c, t, es[0]);
      StepKeepsLiveLease(c, t, es[0], a);
      LiveLeaseSurvives(c, Step(c, t, es[0]).table, es[1..], a);
    }
  }

  // ----- answers

  /** No answer along the run carries the address. */
  ghost predicate NeverAnswered(c: Config, t: Table, es: seq<Event>, ip: int)
    requires WellFormed(c) && Inv(c, t) && forall e :: e in es ==> EventOk(e)
    decreases |es|
  {
    es != [] && Step(c, t, es[0]).Next? ==>
      var r := Step(c, t, es[0]);
      StepKeepsInv(c, t, es[0]);
      !(r.reply.Reply? && r.reply.yiaddr == ip) && NeverAnswered(c, r.table, es[1..], ip)
  }

  lemma AnswerRespectsLease(c: Config, t: Table, p: Packet, w: World, a: int)
    requires WellFormed(c) && Inv(c, t) && EventOk(Message(p, w)) && w.staticIP == INADDR_NONE
    requires a in t && t[a].sMacAddr != p.chaddr && Live(c, t[a], w.now)
    ensures var r := Process(c, t, p, w); r.Next? && r.reply.Reply? ==> r.reply.yiaddr != a
  {
    hide Allocate, Inv;
    AllocateEffect(c, t, w.now, p.nDhcpType == DHCPDISCOVER, RequestedAddr(p), p.chaddr, w.answers, 0);
  }

  /** As long as a lease is live, and no static entry gives its address away, no answer to another client carries it. */
  lemma {:induction false} LiveLeaseIsNotOffered(c: Config, t: Table, es: seq<Event>, a: int)
    requires WellFormed(c) && Inv(c, t) && (forall e :: e in es ==> EventOk(e))
    requires a in t
    requires forall e :: e in es ==>
      FromOthers(e, t[a].sMacAddr) && Live(c, t[a], e.w.now) && e.w.staticIP == INADDR_NONE
    ensures NeverAnswered(c, t, es, a)
    decreases |es|
  {
    hide Process;
    if es != [] && Step(c, t, es[0]).Next? {
      assert es[0] in es;
      AnswerRespectsLease(c, t, es[0].p, es[0].w, a);
      StepKeepsInv(c, t, es[0]);
      StepKeepsLiveLease(c, t, es[0], a);
      LiveLeaseIsNotOffered(c, Step(c, t, es[0]).table, es[1..], a);
    }
  }

  /** The caller is told to send a reply that nobody prepared exactly for an ignored BOOTP request. */
  lemma UnpreparedIff(c: Config, t: Table, p: Packet, w: World)
    requires WellFormed(c) && Inv(c, t) && EventOk(Message(p, w))
    ensures var r := Process(c, t, p, w); r.Next? && r.reply == Unprepared <==>
      (p.yiaddr == INADDR_ANY || p.yiaddr == INADDR_NONE) && p.nDhcpType == BOOTP && c.nIgnoreBootp
  {
    hide Allocate;
  }

  lemma AllocateOnce(c: Config, t: Table, now: int, discover: bool, prev: int, mac: Mac, answers: nat -> bool)
    requires Sane(c, t, now, mac) && !(c.bPing && discover && answers(0))
    ensures Allocate(c, t, now, discover, prev, mac, answers, 0) == Allocate2(c, t, now, prev, mac)
  {
  }

  ghost predicate Unknown(t: Table, mac: Mac) {
    forall a :: a in t ==> t[a].sMacAddr != mac
  }

  // ----- freed records in the MAC index

  /** The messages that destroy an item: a client that has a record is to be given another address of the pool, or
      declines its own. */
  ghost predicate DestroysItem(c: Config, t: Table, p: Packet, w: World) {
    var ip := RequestedAddr(p);
    && (p.yiaddr == INADDR_ANY || p.yiaddr == INADDR_NONE)
    && (p.nDhcpType == BOOTP || p.nDhcpType == DHCPDISCOVER || p.nDhcpType == DHCPREQUEST ==>
          w.staticIP == INADDR_NONE && Moves(c, t, ip, p.chaddr))
    && (p.nDhcpType == BOOTP ==> !c.nIgnoreBootp)
    && (p.nDhcpType == DHCPREQUEST ==>
          Grantable(c, t, w.now, ip, p.chaddr) || (p.ciaddr == 0 && c.bPXECompatibility))
    && (p.nDhcpType == DHCPDECLINE ==>
          || (p.option50.Some? && ip in t && t[ip].sMacAddr == p.chaddr)
          || (w.arp.Some? && Moves(c, t, ip, w.arp.value)))
    && p.nDhcpType in {BOOTP, DHCPDISCOVER, DHCPREQUEST, DHCPDECLINE}
  }

  lemma RenewDanglesIff(c: Config, t: Table, now: int, discover: bool, prev: int, mac: Mac,
                        answers: nat -> bool, tRenewed: Option<int>, reply: Option<int>)
    requires Sane(c, t, now, mac)
    ensures AllocateAndRenew(c, t, now, discover, prev, mac, answers, tRenewed, reply) == Fails(Dangling) <==>
      DestroyDangles(c, t) && Moves(c, t, prev, mac)
  {
    hide Allocate;
    AllocateDanglesIff(c, t, now, discover, prev, mac, answers, 0);
  }

  lemma DeclineDanglesIff(c: Config, t: Table, p: Packet, w: World)
    requires Sane(c, t, w.now, p.chaddr) && (w.arp.Some? ==> IsClient(w.arp.value))
    ensures Decline(c, t, p, w) == Fails(Dangling) <==>
      DestroyDangles(c, t) && ((p.option50.Some? && RequestedAddr(p) in t && t[RequestedAddr(p)].sMacAddr == p.chaddr)
                               || (w.arp.Some? && Moves(c, t, RequestedAddr(p), w.arp.value)))
  {
    hide AllocateAndRenew;
    var own := SearchByMac(t, p.chaddr);
    var r := if own.Some? && p.option50 == own then Destroy(c, t, own.value) else Next(t, NoReply);
    if r.Next? {
      assert r.table != t ==> DestroyDangles(c, r.table) ==> DestroyDangles(c, t) by {
        if own.Some? {
          assert (t - {own.value}).Keys == t.Keys - {own.value};
        }
      }
      if w.arp.Some? {
        RenewDanglesIff(c, r.table, w.now, false, RequestedAddr(p), w.arp.value, w.answers,
                        Some(BOOTP_RENEW_TIME), None);
      }
    }
  }

  /** A message leaves a freed record in the MAC index exactly when the zeroed MAC sorts first, the database holds at
      least two records, and the message destroys one. */
  lemma ProcessDanglesIff(c: Config, t: Table, p: Packet, w: World)
    requires WellFormed(c) && Inv(c, t) && EventOk(Message(p, w))
    ensures Process(c, t, p, w) == Fails(Dangling) <==> c.zeroedMacFirst && |t| > 1 && DestroysItem(c, t, p, w)
  {
    hide AllocateAndRenew, Decline;
    var ip := RequestedAddr(p);
    DeclineDanglesIff(c, t, p, w);
    RenewDanglesIff(c, t, w.now, p.nDhcpType == DHCPDISCOVER, ip, p.chaddr, w.answers,
                    if p.nDhcpType == BOOTP then Some(BOOTP_RENEW_TIME) else None, Some(DHCPOFFER));
    RenewDanglesIff(c, t, w.now, false, ip, p.chaddr, w.answers, Some(w.now), Some(DHCPACK));
  }

  /** With the order DHCPDestroyItem is written for, no run ever leaves a freed record in the MAC index. */
  lemma {:induction false} RunNeverDangles(c: Config, t: Table, es: seq<Event>)
    requires WellFormed(c) && Inv(c, t) && !c.zeroedMacFirst && forall e :: e in es ==> EventOk(e)
    ensures Run(c, t, es) != Fails(Dangling)
    decreases |es|
  {
    if es == [] {
    } else {
      assert es[0] in es;
      if es[0].Message? {
        ProcessDanglesIff(c, t, es[0].p, es[0].w);
      }
      if Step(c, t, es[0]).Next? {
        StepKeepsInv(c, t, es[0]);
        RunNeverDangles(c, Step(c, t, es[0]).table, es[1..]);
      }
    }
  }

  // ----- runs put together

  lemma {:induction false} RunAppend(c: Config, t: Table, es: seq<Event>, e: Event)
    requires WellFormed(c) && Inv(c, t) && EventOk(e) && forall e' :: e' in es ==> EventOk(e')
    ensures var r := Run(c, t, es); var r' := Run(c, t, es + [e]);
      if r.Next? && Inv(c, r.table)
      then r' == Step(c, r.table, e)
      else r' == r
    decreases |es|
  {
    StepKeepsInv(c, t, (es + [e])[0]);
    if es == [] {
      assert [e][1..] == [] && es + [e] == [e];
    } else {
      assert (es + [e])[1..] == es[1..] + [e];
      if Step(c, t, es[0]).Next? {
        RunAppend(c, Step(c, t, es[0]).table, es[1..], e);
      }
    }
  }

  const SOME_TIME := 1000

  /** The world in which nobody answers probes. */
  function Quiet(): World {
    World(SOME_TIME, INADDR_NONE, _ => false, None)
  }

  function Asks(mac: Mac, ip: int): Event {
    Message(Packet(DHCPDISCOVER, 0, 0, mac, Some(ip)), Quiet())
  }

  /** A discover message that asks for no address. */
  function AsksAny(mac: Mac): Event {
    Message(Packet(DHCPDISCOVER, 0, 0, mac, None), Quiet())
  }

  /** Client k + 1 asks for the k-th address. */
  ghost function Claims(ips: seq<int>, k: nat): seq<Event>
    requires k <= |ips| < ADDRESSES
  {
    if k == 0 then [] else Claims(ips, k - 1) + [Asks(k, ips[k - 1])]
  }

  ghost function Claimed(ips: seq<int>, k: nat): Table
    requires k <= |ips| < ADDRESSES
  {
    if k == 0 then map[] else Claimed(ips, k - 1)[ips[k - 1] := Lease(k, SOME_TIME, 0)]
  }

  lemma {:induction false} ClaimsAreGranted(c: Config, ips: seq<int>, k: nat)
    requires WellFormed(c) && HeldInPool(c, ips) && k <= |ips|
    ensures Inv(c, Claimed(ips, k)) && |Claimed(ips, k)| == k
    ensures forall a :: a in Claimed(ips, k) <==> a in ips[..k]
    ensures forall a :: a in Claimed(ips, k) ==> 0 < Claimed(ips, k)[a].sMacAddr <= k
    ensures forall e :: e in Claims(ips, k) ==> EventOk(e)
    ensures var r := Run(c, map[], Claims(ips, k)); r.Next? && r.table == Claimed(ips, k)
  {
    hide Process, Run;
    if k == 0 {
      EmptyRun(c);
    } else {
      ClaimsAreGranted(c, ips, k - 1);
      var t, e := Claimed(ips, k - 1), Asks(k, ips[k - 1]);
      assert ips[..k] == ips[..k - 1] + [ips[k - 1]];
      FirstComer(c, t, e.p, e.w);
      RunAppend(c, map[], Claims(ips, k - 1), e);
      StepKeepsInv(c, t, e);
    }
  }

  lemma EmptyRun(c: Config)
    requires WellFormed(c)
    ensures Run(c, map[], []) == Next(map[], NoReply)
  {
  }

  /** With the shipped memcmp order three messages suffice for any pool of three addresses or more: two clients get an
      address each, then the first asks for a third one. */
  lemma ShippedOrderDangles(c: Config) returns (es: seq<Event>)
    requires WellFormed(c) && c.zeroedMacFirst && c.nPoolSize >= 3
    ensures |es| == 3 && (forall e :: e in es ==> EventOk(e)) && Run(c, map[], es) == Fails(Dangling)
  {
    hide Process, Run;
    var ips := [c.szAddr, c.szAddr + 1];
    ClaimsAreGranted(c, ips, 2);
    var t, e := Claimed(ips, 2), Asks(1, c.szAddr + 2);
    assert t == Claimed(ips, 1)[c.szAddr + 1 := Lease(2, SOME_TIME, 0)];
    assert Claimed(ips, 1) == map[][c.szAddr := Lease(1, SOME_TIME, 0)];
    assert t[c.szAddr].sMacAddr == 1;
    ProcessDanglesIff(c, t, e.p, e.w);
    RunAppend(c, map[], Claims(ips, 2), e);
    assert |Claims(ips, 2)| == |Claims(ips, 1)| + 1 == |Claims(ips, 0)| + 2;
    es := Claims(ips, 2) + [e];
  }

  // ----- records for unusable addresses

  lemma Allocate2NeverMisplaces(c: Config, t: Table, now: int, prev: int, mac: Mac)
    requires Sane(c, t, now, mac) && GapFree(c)
    ensures Allocate2(c, t, now, prev, mac) != Broken(Misplaced)
  {
    hide Hole, HeldFrom, GapFree, Held;
    if |t| < c.nPoolSize {
      HoleIsUsable(c, t);
    }
    var own := SearchByMac(t, mac);
    if own.Some? {
      var t' := t - {own.value};
      assert t'.Keys == t.Keys - {own.value};
      Pigeonhole(c, t);
      HoleIsUsable(c, t');
    }
  }

  lemma {:induction false} AllocateNeverMisplaces(c: Config, t: Table, now: int, discover: bool, prev: int, mac: Mac,
                                                  answers: nat -> bool, k: nat)
    requires Sane(c, t, now, mac) && GapFree(c)
    ensures Allocate(c, t, now, discover, prev, mac, answers, k) != Broken(Misplaced)
    decreases |Probeable(c, t, now)|
  {
    hide Allocate2, Inv, GapFree;
    Allocate2NeverMisplaces(c, t, now, prev, mac);
    var o := Allocate2(c, t, now, prev, mac);
    if o.Granted? && c.bPing && discover && answers(k) {
      ProbeStep(c, t, now, prev, mac);
      AllocateNeverMisplaces(c, o.table[o.ip := Quarantined(now)], now, discover, prev, mac, answers, k + 1);
    }
  }

  lemma StepNeverMisplaces(c: Config, t: Table, e: Event)
    requires WellFormed(c) && Inv(c, t) && EventOk(e) && GapFree(c)
    ensures Step(c, t, e) != Fails(Misplaced)
  {
    hide Allocate, GapFree;
    if e.Message? {
      var p, w := e.p, e.w;
      forall discover: bool {
        AllocateNeverMisplaces(c, t, w.now, discover, RequestedAddr(p), p.chaddr, w.answers, 0);
      }
      var own := SearchByMac(t, p.chaddr);
      var t' := if own.Some? && p.option50 == own then t - {own.value} else t;
      if w.arp.Some? {
        AllocateNeverMisplaces(c, t', w.now, false, RequestedAddr(p), w.arp.value, w.answers, 0);
      }
    }
  }

  lemma {:induction false} RunNeverMisplaces(c: Config, t: Table, es: seq<Event>)
    requires WellFormed(c) && Inv(c, t) && GapFree(c) && forall e :: e in es ==> EventOk(e)
    ensures Run(c, t, es) != Fails(Misplaced)
    decreases |es|
  {
    hide GapFree, Step;
    if es == [] {
    } else {
      StepNeverMisplaces(c, t, es[0]);
      if Step(c, t, es[0]).Next? {
        StepKeepsInv(c, t, es[0]);
        RunNeverMisplaces(c, Step(c, t, es[0]).table, es[1..]);
      }
    }
  }

  ghost predicate EventsOk(es: seq<Event>) {
    forall e :: e in es ==> EventOk(e)
  }

  /** The pools for which no run from the empty database ever creates a record for an address that is held or outside
      the pool are exactly those in which AddrInc skips no address. */
  lemma NeverMisplacedIffGapFree(c: Config)
    requires WellFormed(c)
    ensures GapFree(c) <==> forall es :: EventsOk(es) ==> Run(c, map[], es) != Fails(Misplaced)
  {
    if GapFree(c) {
      forall es | EventsOk(es) ensures Run(c, map[], es) != Fails(Misplaced) {
        RunNeverMisplaces(c, map[], es);
      }
    } else {
      var es := GapMisplaces(c);
    }
  }

  /** In a pool with a gap some clients ask for addresses so that the next one, who asks for none, gets a bad one. */
  lemma GapMisplaces(c: Config) returns (es: seq<Event>)
    requires WellFormed(c) && !GapFree(c)
    ensures EventsOk(es) && Run(c, map[], es) == Fails(Misplaced)
  {
    hide Process, Run, GapFree, Hole, HeldFrom;
    var ips := GapMisleads(c);
    var n := |ips|;
    ClaimsAreGranted(c, ips, n);
    var t, e := Claimed(ips, n), AsksAny(n + 1);
    assert ips[..n] == ips;
    HeldIsListing(c, t);
    SameListing(ips, Held(c, t));
    BadHoleMisplaces(c, t, e.p, e.w);
    RunAppend(c, map[], Claims(ips, n), e);
    es := Claims(ips, n) + [e];
  }

  lemma BadHoleMisplaces(c: Config, t: Table, p: Packet, w: World)
    requires WellFormed(c) && Inv(c, t) && EventOk(Message(p, w)) && w.staticIP == INADDR_NONE
    requires p.nDhcpType == DHCPDISCOVER && p.yiaddr == INADDR_ANY && RequestedAddr(p) == INADDR_ANY
    requires Unknown(t, p.chaddr) && |t| < c.nPoolSize
    requires var a := Hole(c.szAddr, Held(c, t)); a in t || !InPool(c, a)
    ensures Process(c, t, p, w) == Fails(Misplaced)
  {
    hide Hole, HeldFrom;
  }

  /** A new client that asks for a free address of the pool gets it. */
  lemma FirstComer(c: Config, t: Table, p: Packet, w: World)
    requires Sane(c, t, w.now, p.chaddr) && EventOk(Message(p, w)) && w.staticIP == INADDR_NONE
    requires !(c.bPing && w.answers(0))
    requires p.nDhcpType == DHCPDISCOVER && p.yiaddr == INADDR_ANY
    requires InPool(c, RequestedAddr(p)) && RequestedAddr(p) !in t
    requires Unknown(t, p.chaddr)
    ensures var ip := RequestedAddr(p);
      Process(c, t, p, w) == Next(t[ip := Lease(p.chaddr, w.now, 0)], Reply(DHCPOFFER, ip))
  {
    hide Hole, HeldFrom, Allocate;
    AllocateOnce(c, t, w.now, true, RequestedAddr(p), p.chaddr, w.answers);
  }
}
