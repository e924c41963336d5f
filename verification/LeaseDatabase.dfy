/** The two pointer arrays of bootpd.c over one set of heap records, and the operations that change them in place. */
module LeaseDatabase {
  import opened AddressPool
  import opened Basics
  import opened LeaseTable

  class LeaseRecord {
    var dwIP: int
    var sMacAddr: Mac
    var tAllocated: int
    var tRenewed: int

    constructor () {
      dwIP, sMacAddr, tAllocated, tRenewed := INADDR_ANY, ZERO_MAC, 0, 0;
    }

    function Value(): Lease
      reads this
    {
      Lease(sMacAddr, tAllocated, tRenewed)
    }
  }

  /** The function pointers handed to qsort and bsearch. MACCompare with the zeroed MAC first is memcmp. */
  datatype Comparator = QsortCompare | MACCompare(zeroedFirst: bool)

  function Key(r: LeaseRecord, cmp: Comparator): int
    reads r`dwIP, r`sMacAddr
  {
    match cmp
    case QsortCompare => r.dwIP
    case MACCompare(zeroedFirst) =>
      if r.sMacAddr == ZERO_MAC && !zeroedFirst then 0x1_0000_0000_0000 else r.sMacAddr
  }

  ghost predicate Ordered(s: seq<LeaseRecord>, cmp: Comparator)
    reads s`dwIP, s`sMacAddr
  {
    forall i, j :: 0 <= i < j < |s| ==> Key(s[i], cmp) <= Key(s[j], cmp)
  }

  ghost predicate OrderedUpTo(s: seq<LeaseRecord>, n: nat, cmp: Comparator)
    requires n <= |s|
    reads s
  {
    forall i, j :: 0 <= i < j < n ==> Key(s[i], cmp) <= Key(s[j], cmp)
  }

  /** The first |s| slots of a. */
  ghost predicate Slots(a: array<LeaseRecord?>, s: seq<LeaseRecord>)
    reads a
  {
    |s| <= a.Length && forall i :: 0 <= i < |s| ==> a[i] == s[i]
  }

  /** s lists every record once: it is a permutation of the set. */
  ghost predicate Lists(s: seq<LeaseRecord>, records: set<LeaseRecord>) {
    && (forall i :: 0 <= i < |s| ==> s[i] in records)
    && (forall i, j :: 0 <= i < j < |s| ==> s[i] != s[j])
    && (forall r :: r in records ==> r in s)
  }

  method Exchange(a: array<LeaseRecord?>, j: nat, ghost s: seq<LeaseRecord>, ghost records: set<LeaseRecord>)
      returns (ghost s': seq<LeaseRecord>)
    requires Slots(a, s) && 0 < j < |s| && Lists(s, records)
    modifies a
    ensures |s'| == |s| && s'[j - 1] == s[j] && s'[j] == s[j - 1]
    ensures forall k :: 0 <= k < |s| && k != j && k != j - 1 ==> s'[k] == s[k]
    ensures Slots(a, s') && Lists(s', records)
  {
    a[j - 1], a[j] := a[j], a[j - 1];
    s' := s[j - 1 := s[j]][j := s[j - 1]];
    forall r | r in records ensures r in s' {
      var k :| 0 <= k < |s| && s[k] == r;
      assert s'[if k == j then j - 1 else if k == j - 1 then j else k] == r;
    }
  }

  /** The first i + 1 slots are in order, but slot j may belong further down. */
  ghost predicate OrderedBut(s: seq<LeaseRecord>, i: nat, j: nat, cmp: Comparator)
    requires j <= i < |s|
    reads s`dwIP, s`sMacAddr
  {
    forall p, q :: 0 <= p < q <= i && q != j ==> Key(s[p], cmp) <= Key(s[q], cmp)
  }

  lemma OneDown(s: seq<LeaseRecord>, s': seq<LeaseRecord>, i: nat, j: nat, cmp: Comparator)
    requires 0 < j <= i < |s| == |s'| && OrderedBut(s, i, j, cmp) && Key(s[j - 1], cmp) > Key(s[j], cmp)
    requires s'[j - 1] == s[j] && s'[j] == s[j - 1]
    requires forall k :: 0 <= k < |s| && k != j && k != j - 1 ==> s'[k] == s[k]
    ensures OrderedBut(s', i, j - 1, cmp)
  {
  }

  lemma InPlace(s: seq<LeaseRecord>, i: nat, j: nat, cmp: Comparator)
    requires j <= i < |s| && OrderedBut(s, i, j, cmp) && (j > 0 ==> Key(s[j - 1], cmp) <= Key(s[j], cmp))
    ensures OrderedUpTo(s, i + 1, cmp)
  {
    if j > 1 {
      assert forall p :: 0 <= p < j - 1 ==> Key(s[p], cmp) <= Key(s[j - 1], cmp);
    }
  }

  /** Moves slot i down to its place among the sorted slots before it. */
  method Insert(a: array<LeaseRecord?>, i: nat, cmp: Comparator, ghost s: seq<LeaseRecord>,
                ghost records: set<LeaseRecord>)
      returns (ghost s': seq<LeaseRecord>)
    requires Slots(a, s) && Lists(s, records) && i < |s| && OrderedUpTo(s, i, cmp)
    modifies a
    ensures Slots(a, s') && Lists(s', records) && |s'| == |s| && OrderedUpTo(s', i + 1, cmp)
  {
    hide Lists;
    var j := i;
    s' := s;
    assert OrderedBut(s', i, j, cmp);
    hide OrderedBut;
    while j > 0 && Key(a[j - 1], cmp) > Key(a[j], cmp)
      invariant 0 <= j <= i && |s'| == |s| && Slots(a, s') && Lists(s', records)
      invariant OrderedBut(s', i, j, cmp)
    {
      ghost var before := s';
      s' := Exchange(a, j, s', records);
      OneDown(before, s', i, j, cmp);
      j := j - 1;
    }
    InPlace(s', i, j, cmp);
  }

  /** The C library's qsort: callers rely on its contract alone. */
  method Qsort(a: array<LeaseRecord?>, n: nat, cmp: Comparator, ghost s: seq<LeaseRecord>,
               ghost records: set<LeaseRecord>)
      returns (ghost s': seq<LeaseRecord>)
    requires Slots(a, s) && n == |s| && Lists(s, records)
    modifies a
    ensures Slots(a, s') && Lists(s', records) && |s'| == n && Ordered(s', cmp)
  {
    hide Lists;
    s' := s;
    for i := 0 to n
      invariant Slots(a, s') && Lists(s', records) && |s'| == n && OrderedUpTo(s', i, cmp)
    {
      s' := Insert(a, i, cmp, s', records);
    }
  }

  /** The C library's bsearch. */
  method Bsearch(a: array<LeaseRecord?>, n: nat, cmp: Comparator, key: int, ghost s: seq<LeaseRecord>)
      returns (r: LeaseRecord?)
    requires Slots(a, s) && n == |s| && Ordered(s, cmp)
    ensures r != null ==> r in s && Key(r, cmp) == key
    ensures r == null ==> forall q :: q in s ==> Key(q, cmp) != key
  {
    var lo, hi := 0, n;
    while lo < hi
      invariant 0 <= lo <= hi <= n
      invariant forall i :: 0 <= i < lo ==> Key(s[i], cmp) < key
      invariant forall i :: hi <= i < n ==> key < Key(s[i], cmp)
    {
      var mid := (lo + hi) / 2;
      assert a[mid] == s[mid];
      if Key(a[mid], cmp) == key {
        return a[mid];
      } else if Key(a[mid], cmp) < key {
        lo := mid + 1;
      } else {
        hi := mid;
      }
    }
    return null;
  }

  lemma ListsMore(s: seq<LeaseRecord>, records: set<LeaseRecord>, r: LeaseRecord)
    requires Lists(s, records) && r !in records
    ensures Lists(s + [r], records + {r})
  {
    forall q | q in records + {r} ensures q in s + [r] {
      if q != r {
        assert q in s;
      } else {
        assert (s + [r])[|s|] == r;
      }
    }
  }

  lemma ListsFewer(s: seq<LeaseRecord>, records: set<LeaseRecord>, cmp: Comparator, r: LeaseRecord)
    requires 0 < |s| && Lists(s, records) && Ordered(s, cmp)
    ensures Lists(s[..|s| - 1], records - {s[|s| - 1]}) && Ordered(s[..|s| - 1], cmp)
    ensures s[|s| - 1] != r ==> exists q :: q in records - {r} && q !in s[..|s| - 1]
  {
    var last := s[|s| - 1];
    assert last in records && last !in s[..|s| - 1];
    assert last != r ==> last in records - {r};
    forall q | q in records && q != last ensures q in s[..|s| - 1] {
      var k :| 0 <= k < |s| && s[k] == q;
      assert s[..|s| - 1][k] == q;
    }
  }

  /** The record whose key is beyond those of all others is at the corresponding end of a sorted listing. */
  lemma ExtremeSlot(s: seq<LeaseRecord>, records: set<LeaseRecord>, cmp: Comparator, r: LeaseRecord, greatest: bool)
    requires Lists(s, records) && Ordered(s, cmp) && r in records
    requires forall q :: q in records && q != r ==>
      if greatest then Key(q, cmp) < Key(r, cmp) else Key(r, cmp) < Key(q, cmp)
    ensures 0 < |s| && s[if greatest then |s| - 1 else 0] == r
  {
    assert r in s;
    var k :| 0 <= k < |s| && s[k] == r;
    var m := if greatest then |s| - 1 else 0;
    assert s[m] in records;
  }

  ghost function AddressesOf(s: seq<LeaseRecord>): (ips: seq<int>)
    reads s
    ensures |ips| == |s| && forall i :: 0 <= i < |s| ==> ips[i] == s[i].dwIP
  {
    if s == [] then [] else AddressesOf(s[..|s| - 1]) + [s[|s| - 1].dwIP]
  }

  class LeaseDb {
    const c: Config
    // malloc'ed for nPoolSize pointers each; the first nAllocatedIP slots are in use
    const tFirstIP: array<LeaseRecord?>
    const tMAC: array<LeaseRecord?>
    var nAllocatedIP: nat
    // the records of the database, the slots in use of the two arrays, the record holding each address, and the
    // database as a value
    ghost var records: set<LeaseRecord>
    ghost var byIP: seq<LeaseRecord>
    ghost var byMAC: seq<LeaseRecord>
    ghost var holder: map<int, LeaseRecord>
    ghost var table: Table

    /** The slots in use of the two arrays are permutations of one set of records. */
    ghost predicate PermutationsOf(recs: set<LeaseRecord>)
      reads this`nAllocatedIP, this`byIP, this`byMAC, tFirstIP, tMAC
    {
      && tFirstIP != tMAC && tFirstIP.Length == tMAC.Length == c.nPoolSize
      && nAllocatedIP == |byIP| == |byMAC|
      && Slots(tFirstIP, byIP) && Slots(tMAC, byMAC)
      && Lists(byIP, recs) && Lists(byMAC, recs)
    }

    /** Besides, tFirstIP is in address order and tMAC in MAC order. */
    ghost predicate Indexed(recs: set<LeaseRecord>)
      reads this`nAllocatedIP, this`byIP, this`byMAC, tFirstIP, tMAC, recs`dwIP, recs`sMacAddr
    {
      PermutationsOf(recs) && Ordered(byIP, QsortCompare) && Ordered(byMAC, MACCompare(c.zeroedMacFirst))
    }

    /** Record r holds address ip, alone. */
    ghost predicate Holds(r: LeaseRecord, ip: int)
      reads this`holder, this`table, r
    {
      r.dwIP == ip && ip in holder && holder[ip] == r && ip in table && table[ip] == r.Value()
    }

    /** The records are the leases of `table`. */
    ghost predicate Represents()
      reads this`holder, this`records, this`table, records
    {
      && holder.Keys == table.Keys
      && (forall x :: x in holder ==> holder[x] in records && holder[x].dwIP == x)
      && (forall r :: r in records ==> Holds(r, r.dwIP))
    }

    /** All records but r are; address ip is for r, which may not hold it yet or any more. */
    ghost predicate RepresentsBut(r: LeaseRecord, ip: int)
      reads this`holder, this`records, this`table, records
    {
      && holder.Keys == table.Keys && r in records
      && (forall x :: x in holder && x != ip ==> holder[x] in records && holder[x] != r && holder[x].dwIP == x)
      && (forall q :: q in records && q != r ==> Holds(q, q.dwIP) && q.dwIP != ip)
    }

    ghost predicate Valid()
      reads this, tFirstIP, tMAC, records
    {
      WellFormed(c) && Indexed(records) && Represents() && |table| == nAllocatedIP
    }

    constructor (config: Config)
      requires WellFormed(config)
      ensures Valid() && c == config && table == map[]
    {
      c := config;
      tFirstIP := new LeaseRecord?[config.nPoolSize](_ => null);
      tMAC := new LeaseRecord?[config.nPoolSize](_ => null);
      nAllocatedIP := 0;
      records, byIP, byMAC, holder, table := {}, [], [], map[], map[];
    }

    method DHCPSearchByIP(ip: int, now: int) returns (r: LeaseRecord?, wasexpired: bool)
      requires Valid()
      ensures r == null <==> ip !in table
      ensures r != null ==> r in records && r.dwIP == ip && wasexpired == Expired(c, table[ip], now)
    {
      r := Bsearch(tFirstIP, nAllocatedIP, QsortCompare, ip, byIP);
      wasexpired := r != null && (r.tRenewed == 0 || now - c.nLease * 60 > r.tRenewed);
      assert ip in table ==> holder[ip] in byIP && holder[ip].dwIP == ip;
    }

    method DHCPSearchByMacAddress(mac: Mac) returns (r: LeaseRecord?)
      requires Valid() && mac != ZERO_MAC
      ensures r == null <==> SearchByMac(table, mac) == None
      ensures r != null ==> r in records && r.sMacAddr == mac
    {
      r := Bsearch(tMAC, nAllocatedIP, MACCompare(c.zeroedMacFirst), mac, byMAC);
      ghost var own := SearchByMac(table, mac);
      assert own.Some? ==> holder[own.value] in byMAC && holder[own.value].sMacAddr == mac;
    }

    /** Both index arrays are sorted again after a key of one record has changed. */
    method SortBoth()
      requires PermutationsOf(records)
      modifies tFirstIP, tMAC, this`byIP, this`byMAC
      ensures Indexed(records)
    {
      byIP := Qsort(tFirstIP, nAllocatedIP, QsortCompare, byIP, records);
      byMAC := Qsort(tMAC, nAllocatedIP, MACCompare(c.zeroedMacFirst), byMAC, records);
    }

    /** A new record in the first free slot of both arrays, meant for address ip. */
    method Append(ghost ip: int) returns (r: LeaseRecord)
      requires PermutationsOf(records) && Represents() && nAllocatedIP < tFirstIP.Length
      modifies this`nAllocatedIP, this`byIP, this`byMAC, this`records, tFirstIP, tMAC
      ensures PermutationsOf(records) && nAllocatedIP == old(nAllocatedIP) + 1
      ensures fresh(r) && records == old(records) + {r} && (ip !in table ==> RepresentsBut(r, ip))
    {
      r := new LeaseRecord();
      ListsMore(byIP, records, r);
      ListsMore(byMAC, records, r);
      tFirstIP[nAllocatedIP], tMAC[nAllocatedIP] := r, r;
      nAllocatedIP := nAllocatedIP + 1;
      byIP, byMAC, records := byIP + [r], byMAC + [r], records + {r};
    }

    /** SetIP, SetAllocTime, ZeroRenewTime and SetMacAddr. */
    method SetRecord(r: LeaseRecord, ip: int, mac: Mac, now: int)
      requires r in records
      modifies r, this`holder, this`table
      ensures r.dwIP == ip && r.Value() == Lease(mac, now, 0) && table == old(table)[ip := Lease(mac, now, 0)]
      ensures old(RepresentsBut(r, ip)) ==> Represents()
    {
      r.dwIP := ip;
      r.tAllocated, r.tRenewed := now, 0;
      r.sMacAddr := mac;
      holder, table := holder[ip := r], table[ip := Lease(mac, now, 0)];
    }

    lemma ItsOwn(r: LeaseRecord)
      requires Represents() && r in records
      ensures RepresentsBut(r, r.dwIP) && r.dwIP in table
    {
    }

    /** Another record has the address of r. */
    ghost predicate HasTwin(r: LeaseRecord)
      reads this`records, records`dwIP, r`dwIP
    {
      exists q :: q in records && q != r && q.dwIP == r.dwIP
    }

    /** Creates a record for `dwNewIP` when pCur is null; otherwise gives pCur, which holds it, to `mac`. Nothing keeps
        the function from creating a second record for an address. */
    method DHCPReallocItem(pCur: LeaseRecord?, dwNewIP: int, mac: Mac, now: int) returns (r: LeaseRecord)
      requires Valid()
      requires pCur == null ==> nAllocatedIP < tFirstIP.Length
      requires pCur != null ==> pCur in records && pCur.dwIP == dwNewIP
      modifies this, tFirstIP, tMAC, pCur
      ensures Indexed(records) && r in records && r.dwIP == dwNewIP && r.Value() == Lease(mac, now, 0)
      ensures pCur != null || dwNewIP !in old(table) ==> Valid() && table == old(table)[dwNewIP := Lease(mac, now, 0)]
      ensures pCur == null && dwNewIP in old(table) ==> HasTwin(r)
      ensures if pCur == null then fresh(r) && records == old(records) + {r} else r == pCur && records == old(records)
    {
      hide Lists, Ordered, Slots, Represents, RepresentsBut, Holds, WellFormed;
      ghost var twin := HolderOf(dwNewIP);
      if pCur == null {
        r := Append(dwNewIP);
      } else {
        r := pCur;
        ItsOwn(r);
      }
      SetRecord(r, dwNewIP, mac, now);
      SortBoth();
      assert pCur == null && twin != null ==> twin in records && twin != r && twin.dwIP == dwNewIP;
    }

    ghost function HolderOf(ip: int): (q: LeaseRecord?)
      requires Represents()
      reads this`holder, this`records, this`table, records
      ensures if ip in table then q != null && q in records && q.dwIP == ip else q == null
    {
      if ip in holder then holder[ip] else null
    }

    /** Record r has the keys of a destroyed item, and no other record has either of them. */
    ghost predicate Doomed(r: LeaseRecord)
      reads this`records, records
    {
      && r in records && r.dwIP == INADDR_NONE && r.sMacAddr == ZERO_MAC
      && forall q :: q in records && q != r ==> q.dwIP < INADDR_NONE && q.sMacAddr != ZERO_MAC
    }

    method Doom(r: LeaseRecord)
      requires Indexed(records) && Represents() && Inv(c, table) && WellFormed(c) && r in records
      modifies r
      ensures PermutationsOf(records)
      ensures Doomed(r) && RepresentsBut(r, old(r.dwIP)) && old(r.dwIP) in table
    {
      r.dwIP := INADDR_NONE;
      r.sMacAddr := ZERO_MAC;
    }

    /** Where the sorts put a doomed record: last in tFirstIP; in tMAC last or first, as the comparator has it. */
    lemma EndSlots(r: LeaseRecord)
      requires Indexed(records) && Doomed(r)
      ensures nAllocatedIP == |byIP| == |byMAC|
      ensures 0 < nAllocatedIP <= tFirstIP.Length == tMAC.Length
      ensures byIP[nAllocatedIP - 1] == r == tFirstIP[nAllocatedIP - 1]
      ensures byMAC[if c.zeroedMacFirst then 0 else nAllocatedIP - 1] == r
      ensures byMAC[nAllocatedIP - 1] == r <==> !(c.zeroedMacFirst && nAllocatedIP > 1)
      ensures byMAC[nAllocatedIP - 1] == tMAC[nAllocatedIP - 1] && byMAC[0] == tMAC[0]
    {
      ExtremeSlot(byIP, records, QsortCompare, r, true);
      ExtremeSlot(byMAC, records, MACCompare(c.zeroedMacFirst), r, !c.zeroedMacFirst);
    }

    /** tFirstIP still lists the records, but the first slot of the MAC index points at r, which is none of them, and
        one of them is missing there. */
    ghost predicate MacIndexCorrupt(r: LeaseRecord, recs: set<LeaseRecord>)
      reads this`nAllocatedIP, this`byIP, this`byMAC, tFirstIP, tMAC
    {
      && nAllocatedIP == |byIP| == |byMAC| && 0 < |byMAC|
      && Slots(tFirstIP, byIP) && Lists(byIP, recs)
      && Slots(tMAC, byMAC) && tMAC[0] == r && r !in recs
      && exists q :: q in recs && q !in byMAC
    }

    /** DecNumAllocated: one slot less in use in both arrays. */
    method DropSlots(ghost r: LeaseRecord)
      requires Indexed(records) && 0 < nAllocatedIP && byIP[nAllocatedIP - 1] == r
      modifies this`nAllocatedIP, this`byIP, this`byMAC
      requires byMAC[nAllocatedIP - 1] == r || byMAC[0] == r
      ensures nAllocatedIP == old(nAllocatedIP) - 1
      ensures if old(byMAC)[nAllocatedIP] == r then Indexed(records - {r}) else MacIndexCorrupt(r, records - {r})
    {
      hide Lists, Ordered;
      ListsFewer(byIP, records, QsortCompare, r);
      ListsFewer(byMAC, records, MACCompare(c.zeroedMacFirst), r);
      nAllocatedIP := nAllocatedIP - 1;
      byIP, byMAC := byIP[..nAllocatedIP], byMAC[..nAllocatedIP];
    }

    /** free: the record is gone. */
    ghost method Forget(r: LeaseRecord, ip: int)
      requires RepresentsBut(r, ip) && ip in table
      modifies this`records, this`holder, this`table
      ensures records == old(records) - {r} && table == old(table) - {ip} && Represents()
      ensures |table| == old(|table|) - 1
    {
      records, holder := records - {r}, holder - {ip};
      assert (table - {ip}).Keys == table.Keys - {ip};
      table := table - {ip};
    }

    /** The last record of tFirstIP, which is doomed, leaves the database. */
    method FreeLast(ghost r: LeaseRecord, ghost ip: int) returns (freed: LeaseRecord?, dangling: bool)
      requires Indexed(records) && Doomed(r) && RepresentsBut(r, ip) && ip in table && |table| == nAllocatedIP
      modifies this`nAllocatedIP, this`byIP, this`byMAC, this`records, this`holder, this`table
      ensures freed == r && records == old(records) - {r} && table == old(table) - {ip} && |table| == nAllocatedIP
      ensures Represents() && dangling == DestroyDangles(c, old(table))
      ensures if dangling then MacIndexCorrupt(r, records) else Indexed(records)
    {
      hide Lists, Ordered, Slots, Indexed, PermutationsOf, MacIndexCorrupt, Doomed, RepresentsBut, Represents, Holds;
      EndSlots(r);
      freed := tFirstIP[nAllocatedIP - 1];
      dangling := tMAC[nAllocatedIP - 1] != freed;
      DropSlots(r);
      Forget(r, ip);
    }

    /** Frees exactly the record it is given. With the zeroed MAC sorted first and at least one more record, the MAC
        index keeps the freed record and loses a live one. */
    method DHCPDestroyItem(pCur: LeaseRecord) returns (freed: LeaseRecord?, dangling: bool)
      requires Valid() && Inv(c, table) && pCur in records
      modifies this, tFirstIP, tMAC, pCur
      ensures freed == pCur && records == old(records) - {pCur} && table == old(table) - {old(pCur.dwIP)}
      ensures Represents() && dangling == DestroyDangles(c, old(table))
      ensures if dangling then MacIndexCorrupt(pCur, records) else Valid()
    {
      hide Lists, Ordered, Slots, Indexed, PermutationsOf, MacIndexCorrupt;
      hide Doomed, RepresentsBut, Represents, Holds, Inv, WellFormed;
      ghost var ip := pCur.dwIP;
      Doom(pCur);
      SortBoth();
      freed, dangling := FreeLast(pCur, ip);
    }

    /** The addresses of tFirstIP, in its order. */
    ghost function Addresses(): seq<int>
      reads this`byIP, byIP
    {
      AddressesOf(byIP)
    }

    lemma AddressesOfTable()
      requires Valid() && Inv(c, table)
      ensures Increasing(Addresses()) && |Addresses()| == |table|
      ensures forall a :: a in Addresses() <==> a in table
      ensures nAllocatedIP == |byIP| <= tFirstIP.Length
      ensures forall i :: 0 <= i < |byIP| ==>
        tFirstIP[i] == byIP[i] && byIP[i] in records && Holds(byIP[i], Addresses()[i]) && InPool(c, Addresses()[i])
    {
      var ips := Addresses();
      forall i, j | 0 <= i < j < |ips| ensures ips[i] < ips[j] {
        assert byIP[i] != byIP[j] && Key(byIP[i], QsortCompare) <= Key(byIP[j], QsortCompare);
        assert Holds(byIP[i], byIP[i].dwIP) && Holds(byIP[j], byIP[j].dwIP);
      }
      forall a ensures a in ips <==> a in table {
        if a in table {
          var k :| 0 <= k < |byIP| && byIP[k] == holder[a];
          assert ips[k] == a;
        }
        if a in ips {
          var k :| 0 <= k < |ips| && ips[k] == a;
          assert Holds(byIP[k], a);
        }
      }
    }

    /** Searches a hole among the addresses in use, or takes the address after the last. */
    method FindHole() returns (a: int)
      requires Valid() && Inv(c, table)
      ensures a == Hole(c.szAddr, Held(c, table))
    {
      hide Lists, Ordered, Slots, Indexed, PermutationsOf, Represents, HeldFrom;
      ghost var ips := Addresses();
      AddressesOfTable();
      HeldIsListing(c, table);
      SameListing(ips, Held(c, table));
      if nAllocatedIP > 0 && tFirstIP[0].dwIP == c.szAddr {
        var Ark := 1;
        while Ark < nAllocatedIP && tFirstIP[Ark].dwIP == AddrInc(tFirstIP[Ark - 1].dwIP)
          invariant 1 <= Ark <= nAllocatedIP == |ips|
          invariant ScanFrom(ips, 1) == ScanFrom(ips, Ark)
        {
          Ark := Ark + 1;
        }
        a := AddrInc(tFirstIP[Ark - 1].dwIP);
      } else {
        a := c.szAddr;
      }
    }

    ghost predicate NoneReusable(k: nat, now: int)
      requires k <= |byIP|
      reads this`byIP, byIP
    {
      forall i :: 0 <= i < k ==> !Reusable(c, byIP[i].Value(), now)
    }

    /** The reuse scan stops at the least reusable address, or at the end when there is none. */
    lemma LeastReusableIs(k: nat, now: int)
      requires Valid() && Inv(c, table) && k <= |byIP| && NoneReusable(k, now)
      ensures k == |byIP| ==> LeastReusable(c, table, now) == None
      ensures k < |byIP| && Reusable(c, byIP[k].Value(), now) ==> LeastReusable(c, table, now) == Some(byIP[k].dwIP)
    {
      hide Lists, Ordered, Slots, Indexed, PermutationsOf, Represents;
      AddressesOfTable();
      var ips := Addresses();
      var r := LeastReusable(c, table, now);
      if r.Some? {
        assert r.value in ips;
        var m :| 0 <= m < |ips| && ips[m] == r.value;
        assert byIP[m].Value() == table[r.value];
        assert m >= k;
      }
      if k < |byIP| {
        assert byIP[k].Value() == table[ips[k]] && ips[k] in table;
      }
    }

    /** The first record, in address order, that was not acknowledged in time or has expired. */
    method FindReusable(now: int) returns (r: LeaseRecord?)
      requires Valid() && Inv(c, table)
      ensures r == null <==> LeastReusable(c, table, now) == None
      ensures r != null ==> r in records && LeastReusable(c, table, now) == Some(r.dwIP)
    {
      hide Lists, Ordered, Slots, Indexed, PermutationsOf, Represents, Inv, AddressesOf;
      AddressesOfTable();
      var Ark := 0;
      while Ark < nAllocatedIP
        invariant 0 <= Ark <= nAllocatedIP
        invariant NoneReusable(Ark, now)
      {
        r := tFirstIP[Ark];
        if r.tAllocated + TWO_MINUTES < now && (r.tRenewed == 0 || now > r.tRenewed + c.nLease * 60) {
          LeastReusableIs(Ark, now);
          return;
        }
        Ark := Ark + 1;
      }
      r := null;
      LeastReusableIs(Ark, now);
    }

    method SetAllocTime(r: LeaseRecord, now: int)
      requires Valid() && r in records
      modifies r`tAllocated, this`table
      ensures Valid() && r.dwIP in old(table) && table == old(table)[r.dwIP := old(table)[r.dwIP].(tAllocated := now)]
    {
      hide Lists, Ordered, Slots, Indexed, PermutationsOf, WellFormed;
      assert Holds(r, r.dwIP);
      r.tAllocated := now;
      table := table[r.dwIP := table[r.dwIP].(tAllocated := now)];
    }

    lemma OwnRecord(r: LeaseRecord, mac: Mac)
      requires Represents() && Inv(c, table) && r in records && r.sMacAddr == mac && IsClient(mac)
      ensures SearchByMac(table, mac) == Some(r.dwIP)
    {
      assert Holds(r, r.dwIP);
    }

    lemma ArraySize()
      requires Valid()
      ensures tFirstIP.Length == c.nPoolSize
    {
    }

    /** A free pool address leaves room in the arrays. */
    lemma Room(a: int)
      requires Valid() && Inv(c, table) && InPool(c, a) && a !in table
      ensures nAllocatedIP < tFirstIP.Length
    {
      hide Lists, Ordered, Slots, Represents;
      Pigeonhole(c, table);
      assert a in Pool(c);
    }

    /** The requested address if it may be taken, otherwise a new or a reused one. */
    method AllocateRequestedOrNew(useprev: bool, prev: int, mac: Mac, now: int)
        returns (r: LeaseRecord?, fault: Option<Fault>)
      requires Valid() && Sane(c, table, now, mac) && useprev == UsePrevious(c, prev)
      modifies this, tFirstIP, tMAC, records
      ensures Comes(RequestedOrNew(c, old(table), now, prev, mac), r, fault)
      ensures forall q :: q in records ==> q in old(records) || fresh(q)
    {
      hide Lists, Ordered, Slots, Indexed, PermutationsOf, Represents, Holds, Inv, HasTwin, NewOrReused;
      fault := None;
      if useprev {
        var wasexpired;
        r, wasexpired := DHCPSearchByIP(prev, now);
        if r != null {
          var mine := HasMac(r, mac);
          if wasexpired || mine {
            r := DHCPReallocItem(r, prev, mac, now);
            return;
          }
        } else {
          Room(prev);
          r := DHCPReallocItem(null, prev, mac, now);
          return;
        }
      }
      r, fault := AllocateNewOrReused(mac, now);
    }

    /** An allocation came to o: it returned r, or there is a fault. A misplaced record has a twin or is outside the
        pool. */
    ghost predicate Comes(o: Outcome, r: LeaseRecord?, fault: Option<Fault>)
      reads this, tFirstIP, tMAC, records, r
    {
      match o
      case Granted(t, ip) => fault == None && Valid() && table == t && r != null && r in records && r.dwIP == ip
      case Refused(t) => fault == None && Valid() && table == t && r == null
      case Broken(f) => fault == Some(f) && (f.Misplaced? ==> IsMisplaced(r))
    }

    ghost predicate IsMisplaced(r: LeaseRecord?)
      reads this, tFirstIP, tMAC, records, r
    {
      Indexed(records) && r != null && r in records && (HasTwin(r) || !InPool(c, r.dwIP))
    }

    method HasMac(r: LeaseRecord, mac: Mac) returns (b: bool)
      requires Represents() && r in records
      ensures r.dwIP in table && b == (table[r.dwIP].sMacAddr == mac)
    {
      b := r.sMacAddr == mac;
      assert Holds(r, r.dwIP);
    }

    method AllocateNewOrReused(mac: Mac, now: int) returns (r: LeaseRecord?, fault: Option<Fault>)
      requires Valid() && Sane(c, table, now, mac)
      modifies this, tFirstIP, tMAC, records
      ensures Comes(NewOrReused(c, old(table), now, mac), r, fault)
      ensures forall q :: q in records ==> q in old(records) || fresh(q)
    {
      hide Lists, Ordered, Slots, Indexed, PermutationsOf, Represents, Inv, HasTwin, Hole, HeldFrom;
      fault := None;
      if c.nPoolSize > 0 && nAllocatedIP < c.nPoolSize {
        var a := FindHole();
        ArraySize();
        // only the model looks whether the address is held
        var twin, _ := DHCPSearchByIP(a, now);
        fault := if twin != null || !InPool(c, a) then Some(Misplaced) else None;
        r := DHCPReallocItem(null, a, mac, now);
        return;
      }
      r := FindReusable(now);
      if r != null {
        r := DHCPReallocItem(r, r.dwIP, mac, now);
      }
    }

    /** Allocates an address for `mac`, at best `prev`. */
    method DHCP_IPAllocate2(prev: int, mac: Mac, now: int) returns (r: LeaseRecord?, fault: Option<Fault>)
      requires Valid() && Sane(c, table, now, mac)
      modifies this, tFirstIP, tMAC, records
      ensures Comes(Allocate2(c, old(table), now, prev, mac), r, fault)
      ensures forall q :: q in records ==> q in old(records) || fresh(q)
    {
      hide Lists, Ordered, Slots, Indexed, PermutationsOf, Represents, Holds, RequestedOrNew, Inv, IsMisplaced;
      var useprev := prev != INADDR_ANY && AddrFitsPool(c, prev);
      fault := None;
      r := DHCPSearchByMacAddress(mac);
      if r != null {
        OwnRecord(r, mac);
        if !useprev || prev == r.dwIP {
          SetAllocTime(r, now);
          return;
        }
        ghost var own := r.dwIP;
        var _, d := DHCPDestroyItem(r);
        if d {
          return null, Some(Dangling);
        }
        SaneWithout(old(table), own, now, mac);
      }
      r, fault := AllocateRequestedOrNew(useprev, prev, mac, now);
    }

    lemma SaneWithout(t: Table, own: int, now: int, mac: Mac)
      requires Sane(c, t, now, mac)
      ensures Sane(c, t - {own}, now, mac)
    {
    }

    method SetRenewTime(r: LeaseRecord, t: int)
      requires Valid() && r in records
      modifies r`tRenewed, this`table
      ensures Valid() && r.dwIP in old(table) && table == old(table)[r.dwIP := old(table)[r.dwIP].(tRenewed := t)]
    {
      hide Lists, Ordered, Slots, Indexed, PermutationsOf, WellFormed;
      assert Holds(r, r.dwIP);
      r.tRenewed := t;
      table := table[r.dwIP := table[r.dwIP].(tRenewed := t)];
    }

    /** The address answers probes: it is kept, for nobody, until its lease time is over. */
    method Quarantine(r: LeaseRecord, now: int)
      requires Valid() && r in records
      modifies this, tFirstIP, tMAC, r
      ensures Valid() && records == old(records) && table == old(table)[old(r.dwIP) := Quarantined(now)]
    {
      hide Lists, Ordered, Slots, Indexed, PermutationsOf, Represents, WellFormed;
      var r' := DHCPReallocItem(r, r.dwIP, FREE_DHCP_ADDRESS, now);
      SetRenewTime(r, now);
    }

    /** Allocates until an address does not answer the probes; `rounds` counts the passes through the loop. */
    method DHCP_IPAllocate(discover: bool, prev: int, mac: Mac, now: int, answers: nat -> bool)
        returns (r: LeaseRecord?, fault: Option<Fault>, rounds: nat)
      requires Valid() && Sane(c, table, now, mac)
      modifies this, tFirstIP, tMAC, records
      ensures Comes(Allocate(c, old(table), now, discover, prev, mac, answers, 0), r, fault)
      ensures forall q :: q in records ==> q in old(records) || fresh(q)
      ensures 1 <= rounds <= c.nPoolSize + 1
    {
      hide Lists, Ordered, Slots, Indexed, PermutationsOf, Represents;
      hide Holds, Allocate2, Inv, WellFormed, Probeable, IsMisplaced;
      ghost var o := Allocate(c, table, now, discover, prev, mac, answers, 0);
      rounds := 0;
      ProbeableInPool(c, table, now);
      while true
        invariant Valid() && Sane(c, table, now, mac) && forall q :: q in records ==> q in old(records) || fresh(q)
        invariant Allocate(c, table, now, discover, prev, mac, answers, rounds) == o
        invariant rounds + |Probeable(c, table, now)| <= c.nPoolSize
        decreases |Probeable(c, table, now)|
      {
        ghost var before := table;
        r, fault := DHCP_IPAllocate2(prev, mac, now);
        rounds := rounds + 1;
        if fault.Some? || r == null || !c.bPing || !discover || !answers(rounds - 1) {
          return;
        }
        ProbeStep(c, before, now, prev, mac);
        Quarantine(r, now);
      }
    }
  }
}
