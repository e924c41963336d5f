/** The table of TFTP transfers (tftpd_main.c): a linked list of records edited in place by the main TFTP thread. */
module TransferTable {
  import opened Basics

  const TFTP_PERMANENTTHREADS := 2
  const FIRST_TRANSFER_ID := 467
  const DWORDS := 0x1_0000_0000

  /** A record as a value. A record is populated once a request has been put into it. */
  datatype Trf = Trf(permanent: bool, active: bool, populated: bool, id: int)

  const IDLE := Trf(true, false, false, 0)

  // ----- the operations on the list as a value

  predicate Idle(t: Trf) {
    t.permanent && !t.active
  }

  /** The first permanent record that waits, or the length of the list. */
  function FirstIdle(ts: seq<Trf>): (k: nat)
    ensures k <= |ts| && (k < |ts| ==> Idle(ts[k])) && forall i :: 0 <= i < k ==> !Idle(ts[i])
  {
    if ts == [] then 0 else if Idle(ts[0]) then 0 else 1 + FirstIdle(ts[1..])
  }

  function IdOf(n: nat): int {
    (FIRST_TRANSFER_ID + n) % DWORDS
  }

  lemma NextId(n: nat)
    ensures IdOf(n + 1) == (IdOf(n) + 1) % DWORDS
  {
  }

  /** A request arrives when n requests have been given an id before: it goes to a waiting permanent record or to a new
      one at the end; a new record goes away again when the datagram cannot be received. */
  function Arrive(ts: seq<Trf>, n: nat, max: nat, accepted: bool): seq<Trf> {
    var k := FirstIdle(ts);
    if |ts| >= max then ts
    else if k < |ts| then ts[k := Trf(true, accepted, true, IdOf(n))]
    else if accepted then ts + [Trf(false, true, true, IdOf(n))]
    else ts
  }

  predicate Keep(t: Trf) {
    t.permanent || t.active
  }

  /** The records that are permanent or active, in order. */
  function Swept(ts: seq<Trf>): (r: seq<Trf>) {
    if ts == [] then []
    else Swept(ts[..|ts| - 1]) + if Keep(ts[|ts| - 1]) then [ts[|ts| - 1]] else []
  }

  function Without<T>(s: seq<T>, k: nat): (r: seq<T>)
    requires k < |s|
    ensures |r| == |s| - 1
    ensures (forall i :: 0 <= i < k ==> r[i] == s[i]) && forall i :: k <= i < |r| ==> r[i] == s[i + 1]
  {
    s[..k] + s[k + 1..]
  }

  lemma {:induction false} SweptWithout(ts: seq<Trf>, k: nat)
    requires k < |ts| && !Keep(ts[k])
    ensures Swept(Without(ts, k)) == Swept(ts)
  {
    var n := |ts| - 1;
    if k == n {
      assert Without(ts, k) == ts[..n];
    } else {
      SweptWithout(ts[..n], k);
      assert Without(ts, k)[..n - 1] == Without(ts[..n], k) && Without(ts, k)[n - 1] == ts[n];
    }
  }

  lemma {:induction false} SweptAll(ts: seq<Trf>)
    requires forall i :: 0 <= i < |ts| ==> Keep(ts[i])
    ensures Swept(ts) == ts
  {
    if ts == [] {
    } else {
      SweptAll(ts[..|ts| - 1]);
    }
  }

  // ----- the list on the heap

  class LL_TftpInfo {
    var bPermanentThread: bool
    var bActive: bool
    var dwTransferId: int
    var next: LL_TftpInfo?
    ghost var populated: bool

    /** calloc. */
    constructor ()
      ensures next == null && Value() == Trf(false, false, false, 0)
    {
      bPermanentThread, bActive, dwTransferId, next, populated := false, false, 0, null, false;
    }

    ghost function Value(): Trf
      reads this`bPermanentThread, this`bActive, this`dwTransferId, this`populated
    {
      Trf(bPermanentThread, bActive, populated, dwTransferId)
    }
  }

  class Tftpd {
    var pTftpFirst: LL_TftpInfo?
    // the static counter, and how often it was used
    var TransferId: int
    ghost var requests: nat
    // the chain from pTftpFirst and its values
    ghost var nodes: seq<LL_TftpInfo>
    ghost var trfs: seq<Trf>

    ghost predicate Chain()
      reads this`pTftpFirst, this`nodes, nodes`next
    {
      && pTftpFirst == At(0)
      && (forall i :: 0 <= i < |nodes| ==> nodes[i].next == At(i + 1))
      && (forall i, j :: 0 <= i < j < |nodes| ==> nodes[i] != nodes[j])
    }

    /** Node i, or null at the end of the chain. */
    ghost function At(i: nat): LL_TftpInfo?
      reads this`nodes
    {
      if i < |nodes| then nodes[i] else null
    }

    ghost predicate Valid()
      reads this, nodes
    {
      && Chain()
      && |trfs| == |nodes| && (forall i :: 0 <= i < |nodes| ==> nodes[i].Value() == trfs[i])
      && TransferId == IdOf(requests)
    }

    constructor ()
      ensures Valid() && trfs == [] && requests == 0
    {
      pTftpFirst, TransferId, requests, nodes, trfs := null, FIRST_TRANSFER_ID, 0, [], [];
    }

    method FindLast() returns (last: LL_TftpInfo)
      requires Chain() && |nodes| > 0
      ensures last == nodes[|nodes| - 1]
    {
      last := pTftpFirst;
      ghost var k := 0;
      while last.next != null
        invariant 0 <= k < |nodes| && last == nodes[k]
        decreases |nodes| - k
      {
        assert nodes[k].next == At(k + 1);
        last, k := last.next, k + 1;
      }
      assert nodes[k].next == At(k + 1);
    }

    /** Puts p behind the last record, or first into an empty list. */
    method Hook(p: LL_TftpInfo, last: LL_TftpInfo?)
      requires Chain() && p !in nodes && p.next == null && last == if nodes == [] then null else At(|nodes| - 1)
      modifies this`pTftpFirst, this`nodes, nodes`next
      ensures Chain() && nodes == old(nodes) + [p]
    {
      if pTftpFirst == null {
        pTftpFirst := p;
      } else {
        last.next := p;
      }
      nodes := nodes + [p];
    }

    method LinkLast(p: LL_TftpInfo)
      requires Chain() && p !in nodes && p.next == null
      modifies this`pTftpFirst, this`nodes, nodes`next
      ensures Chain() && nodes == old(nodes) + [p]
    {
      var last: LL_TftpInfo? := null;
      if pTftpFirst != null {
        last := FindLast();
      }
      Hook(p, last);
    }

    /** A zeroed record at the end of the list. */
    method Append() returns (p: LL_TftpInfo)
      requires Valid()
      modifies this`pTftpFirst, this`nodes, this`trfs, nodes`next
      ensures Valid() && fresh(p) && nodes == old(nodes) + [p] && trfs == old(trfs) + [Trf(false, false, false, 0)]
    {
      hide Chain;
      p := new LL_TftpInfo();
      LinkLast(p);
      trfs := trfs + [Trf(false, false, false, 0)];
    }

    /** The record before p. */
    method FindPrevious(p: LL_TftpInfo, ghost k: nat) returns (pTmp: LL_TftpInfo)
      requires Chain() && 0 < k < |nodes| && nodes[k] == p
      ensures pTmp == nodes[k - 1]
    {
      pTmp := pTftpFirst;
      ghost var j := 0;
      while pTmp.next != null && pTmp.next != p
        invariant 0 <= j < k && pTmp == nodes[j]
        decreases |nodes| - j
      {
        assert nodes[j].next == At(j + 1);
        pTmp, j := pTmp.next, j + 1;
      }
      assert nodes[j].next == At(j + 1);
    }

    /** Detaches record k from the chain; returns the record before it, or the new first one. */
    method Detach(p: LL_TftpInfo, ghost k: nat) returns (pTmp: LL_TftpInfo?)
      requires Chain() && k < |nodes| && nodes[k] == p
      modifies this`pTftpFirst, this`nodes, nodes`next
      ensures Chain() && nodes == Without(old(nodes), k)
      ensures pTmp == if k > 0 then At(k - 1) else At(0)
    {
      hide Without;
      assert p.next == At(k + 1);
      if p != pTftpFirst {
        pTmp := FindPrevious(p, k);
        pTmp.next := p.next;
      } else {
        pTftpFirst := pTftpFirst.next;
        pTmp := pTftpFirst;
      }
      nodes := Without(nodes, k);
    }

    method Unlink(p: LL_TftpInfo, ghost k: nat) returns (pTmp: LL_TftpInfo?)
      requires Valid() && k < |nodes| && nodes[k] == p
      modifies this`pTftpFirst, this`nodes, this`trfs, nodes`next
      ensures Valid() && nodes == Without(old(nodes), k) && trfs == Without(old(trfs), k)
      ensures pTmp == if k > 0 then At(k - 1) else At(0)
    {
      hide Chain, Without;
      pTmp := Detach(p, k);
      trfs := Without(trfs, k);
    }

    /** TftpdDestroyThreadItem: permanent records stay. */
    method TftpdDestroyThreadItem(p: LL_TftpInfo, ghost k: nat) returns (pTmp: LL_TftpInfo?)
      requires Valid() && k < |nodes| && nodes[k] == p
      modifies this`pTftpFirst, this`nodes, this`trfs, nodes`next
      ensures Valid() && requests == old(requests)
      ensures p.bPermanentThread ==> nodes == old(nodes) && trfs == old(trfs) && pTmp == p
      ensures !p.bPermanentThread ==> nodes == Without(old(nodes), k) && trfs == Without(old(trfs), k)
      ensures !p.bPermanentThread ==> pTmp == if k > 0 then At(k - 1) else At(0)
    {
      pTmp := p;
      if !p.bPermanentThread {
        pTmp := Unlink(p, k);
      }
    }

    lemma OnlyAt(k: nat)
      requires Chain() && k < |nodes|
      ensures forall i :: 0 <= i < |nodes| && i != k ==> nodes[i] != nodes[k]
    {
    }

    /** PopulateTftpdStruct: the record gets the next transfer id. */
    method PopulateTftpdStruct(p: LL_TftpInfo, ghost k: nat)
      requires Valid() && k < |nodes| && nodes[k] == p
      modifies p`dwTransferId, p`populated, this`TransferId, this`requests, this`trfs
      ensures Valid() && requests == old(requests) + 1
      ensures trfs == old(trfs)[k := old(trfs)[k].(populated := true, id := IdOf(old(requests)))]
    {
      hide Chain, IdOf;
      OnlyAt(k);
      NextId(requests);
      p.dwTransferId, p.populated := TransferId, true;
      TransferId := (TransferId + 1) % DWORDS;
      trfs := trfs[k := trfs[k].(populated := true, id := IdOf(requests))];
      requests := requests + 1;
    }

    method SetActive(p: LL_TftpInfo, b: bool, ghost k: nat)
      requires Valid() && k < |nodes| && nodes[k] == p
      modifies p`bActive, this`trfs
      ensures Valid() && trfs == old(trfs)[k := old(trfs)[k].(active := b)]
    {
      hide Chain;
      OnlyAt(k);
      p.bActive := b;
      trfs := trfs[k := trfs[k].(active := b)];
    }

    /** A waiting permanent record, or null. */
    method FindIdle() returns (p: LL_TftpInfo?)
      requires Valid()
      ensures p == At(FirstIdle(trfs))
    {
      p := pTftpFirst;
      ghost var k := 0;
      while p != null && !(p.bPermanentThread && !p.bActive)
        invariant 0 <= k <= |nodes| && p == At(k)
        invariant FirstIdle(trfs) == k + FirstIdle(trfs[k..])
        decreases |nodes| - k
      {
        assert nodes[k].Value() == trfs[k] && trfs[k..][1..] == trfs[k + 1..];
        p, k := p.next, k + 1;
      }
      if p != null {
        assert nodes[k].Value() == trfs[k];
      }
    }

    method CountRecords() returns (nThread: nat)
      requires Valid()
      ensures nThread == |trfs|
    {
      nThread := 0;
      var p := pTftpFirst;
      while p != null
        invariant nThread <= |nodes| && p == At(nThread)
        decreases |nodes| - nThread
      {
        p, nThread := p.next, nThread + 1;
      }
    }

    /** A request arrives, where at most max records are allowed; `accepted` says whether the datagram can be received.
        If not, a new record is looked for behind another one, so the table must not have been empty. */
    method TftpdChooseNewThread(max: nat, accepted: bool)
      requires Valid() && (pTftpFirst != null || accepted || max == 0)
      modifies this, nodes
      ensures Valid() && trfs == Arrive(old(trfs), old(requests), max, accepted)
      ensures requests == old(requests) + if |old(trfs)| < max then 1 else 0
      ensures forall p :: p in nodes ==> p in old(nodes) || fresh(p)
    {
      hide Chain;
      var nThread := CountRecords();
      if nThread >= max {
        return;
      }
      var p := FindIdle();
      ghost var k := FirstIdle(trfs);
      var bNewThread := p == null;
      if bNewThread {
        p := Append();
      }
      PopulateTftpdStruct(p, k);
      if accepted {
        SetActive(p, true, k);
      } else if !p.bPermanentThread {
        var pTmp := Unlink(p, k);
        assert trfs == old(trfs);
      }
    }

    /** One more permanent record, hooked to the last one made. */
    method AddPermanent(last: LL_TftpInfo?) returns (p: LL_TftpInfo)
      requires Valid() && last == if nodes == [] then null else At(|nodes| - 1)
      modifies this`pTftpFirst, this`nodes, this`trfs, nodes`next
      ensures Valid() && requests == old(requests) && fresh(p)
      ensures nodes == old(nodes) + [p] && trfs == old(trfs) + [IDLE]
    {
      hide Chain;
      p := new LL_TftpInfo();
      p.bPermanentThread := true;
      Hook(p, last);
      trfs := trfs + [IDLE];
    }

    /** CreatePermanentThreads on an empty list. */
    method CreatePermanentThreads()
      requires Valid() && pTftpFirst == null
      modifies this`pTftpFirst, this`nodes, this`trfs
      ensures Valid() && trfs == [IDLE, IDLE] && requests == old(requests) && fresh(nodes)
    {
      assert |nodes| == 0;
      var pTftp: LL_TftpInfo? := null;
      for Ark := 0 to TFTP_PERMANENTTHREADS
        invariant Valid() && requests == old(requests) && fresh(nodes)
        invariant |nodes| == Ark && trfs == [IDLE, IDLE][..Ark]
        invariant pTftp == if Ark == 0 then null else At(Ark - 1)
      {
        pTftp := AddPermanent(pTftp);
      }
    }

    /** The first record whose worker has exited, or null. */
    method FindExited() returns (p: LL_TftpInfo?, ghost k: nat)
      requires Valid()
      ensures k <= |nodes| && p == At(k) && forall i :: 0 <= i < k ==> Keep(trfs[i])
      ensures k < |trfs| ==> !Keep(trfs[k])
    {
      p, k := pTftpFirst, 0;
      while p != null && (p.bPermanentThread || p.bActive)
        invariant 0 <= k <= |nodes| && p == At(k) && forall i :: 0 <= i < k ==> Keep(trfs[i])
        decreases |nodes| - k
      {
        assert nodes[k].Value() == trfs[k];
        p, k := p.next, k + 1;
      }
      if p != null {
        assert nodes[k].Value() == trfs[k];
      }
    }

    /** The sweep on E_TFTP_WAKE: starts over after each record it removes, until it finds none. */
    method Sweep()
      requires Valid()
      modifies this`pTftpFirst, this`nodes, this`trfs, nodes`next
      ensures Valid() && trfs == Swept(old(trfs)) && requests == old(requests)
      ensures forall i :: 0 <= i < |nodes| ==> nodes[i] in old(nodes)
    {
      hide Chain;
      var parse := true;
      while parse
        invariant Valid() && Swept(trfs) == Swept(old(trfs)) && requests == old(requests)
        invariant forall i :: 0 <= i < |nodes| ==> nodes[i] in old(nodes)
        invariant !parse ==> forall i :: 0 <= i < |trfs| ==> Keep(trfs[i])
        decreases |nodes|, parse
      {
        parse := false;
        var p;
        ghost var k;
        p, k := FindExited();
        if p != null {
          assert p.Value() == trfs[k];
          SweptWithout(trfs, k);
          p := TftpdDestroyThreadItem(p, k);
          parse := true;
        }
      }
      SweptAll(trfs);
    }

    method MakeTemporary()
      requires Valid() && pTftpFirst != null
      modifies pTftpFirst`bPermanentThread, this`trfs
      ensures Valid() && |nodes| > 0 && pTftpFirst == nodes[0] && !pTftpFirst.bPermanentThread
    {
      assert |nodes| > 0;
      OnlyAt(0);
      pTftpFirst.bPermanentThread := false;
      trfs := trfs[0 := trfs[0].(permanent := false)];
    }

    /** The loop at the end of TftpdMain: every record goes, permanent or not. */
    method Shutdown()
      requires Valid()
      modifies this`pTftpFirst, this`nodes, this`trfs, nodes`next, nodes`bPermanentThread
      ensures Valid() && pTftpFirst == null && trfs == [] && requests == old(requests)
    {
      while pTftpFirst != null
        invariant Valid() && requests == old(requests) && (pTftpFirst != null ==> pTftpFirst in nodes)
        invariant forall i :: 0 <= i < |nodes| ==> nodes[i] in old(nodes)
        decreases |nodes|
      {
        MakeTemporary();
        var pTmp := TftpdDestroyThreadItem(pTftpFirst, 0);
      }
    }

    /** The lookup of C_CONS_KILL_TRF: the first record with the id, or null. */
    method FindTransfer(id: int) returns (p: LL_TftpInfo?, ghost k: nat)
      requires Valid()
      ensures k <= |nodes| && p == At(k) && forall i :: 0 <= i < k ==> trfs[i].id != id
      ensures k < |trfs| ==> trfs[k].id == id
    {
      p, k := pTftpFirst, 0;
      while p != null && p.dwTransferId != id
        invariant 0 <= k <= |nodes| && p == At(k) && forall i :: 0 <= i < k ==> trfs[i].id != id
        decreases |nodes| - k
      {
        assert nodes[k].Value() == trfs[k];
        p, k := p.next, k + 1;
      }
      if p != null {
        assert nodes[k].Value() == trfs[k];
      }
    }
  }

  // ----- all runs between the creation of the permanent records and the shutdown

  datatype Event = Request(accepted: bool) | WorkerExits(k: nat) | Wake

  datatype State = State(ts: seq<Trf>, requests: nat)

  function Step(max: nat, s: State, e: Event): State {
    match e
    case Request(accepted) =>
      State(Arrive(s.ts, s.requests, max, accepted), if |s.ts| < max then s.requests + 1 else s.requests)
    case WorkerExits(k) => if k < |s.ts| then s.(ts := s.ts[k := s.ts[k].(active := false)]) else s
    case Wake => s.(ts := Swept(s.ts))
  }

  function Run(max: nat, s: State, es: seq<Event>): State
    decreases |es|
  {
    if es == [] then s else Run(max, Step(max, s, es[0]), es[1..])
  }

  const START := [IDLE, IDLE]

  /** How many requests before the one that was given this id. */
  function Serial(id: int): nat {
    (id - FIRST_TRANSFER_ID) % DWORDS
  }

  /** The two permanent records come first and no other record is permanent; the list respects the limit; populated
      records were given their id by one of the requests so far and have distinct ids; only populated records are
      active. */
  ghost predicate Inv(max: nat, s: State) {
    && 2 <= |s.ts| && s.ts[0].permanent && s.ts[1].permanent
    && (forall i :: 2 <= i < |s.ts| ==> !s.ts[i].permanent)
    && (|s.ts| <= 2 || |s.ts| <= max)
    && (forall i :: 0 <= i < |s.ts| && s.ts[i].populated ==>
          s.ts[i].id == IdOf(Serial(s.ts[i].id)) && Serial(s.ts[i].id) < s.requests)
    && (forall i :: 0 <= i < |s.ts| && (s.ts[i].active || !s.ts[i].permanent) ==> s.ts[i].populated)
    && DistinctIds(s.ts)
  }

  ghost predicate DistinctIds(ts: seq<Trf>) {
    forall i, j :: 0 <= i < j < |ts| && ts[i].populated && ts[j].populated ==> ts[i].id != ts[j].id
  }

  lemma SerialOfId(n: nat)
    requires n < DWORDS
    ensures Serial(IdOf(n)) == n
  {
  }

  /** The places of the records that the sweep keeps. */
  ghost function Kept(ts: seq<Trf>): (from: seq<nat>)
    ensures forall i :: 0 <= i < |from| ==> from[i] < |ts| && Keep(ts[from[i]])
    ensures forall i, j :: 0 <= i < j < |from| ==> from[i] < from[j]
  {
    if ts == [] then [] else Kept(ts[..|ts| - 1]) + if Keep(ts[|ts| - 1]) then [|ts| - 1] else []
  }

  lemma {:induction false} KeptIsComplete(ts: seq<Trf>, k: nat)
    requires k < |ts| && Keep(ts[k])
    ensures k in Kept(ts)
  {
    if k < |ts| - 1 {
      KeptIsComplete(ts[..|ts| - 1], k);
    } else {
      assert Kept(ts)[|Kept(ts)| - 1] == k;
    }
  }

  lemma {:induction false} SweptAtKept(ts: seq<Trf>)
    ensures |Swept(ts)| == |Kept(ts)| && forall i :: 0 <= i < |Kept(ts)| ==> Swept(ts)[i] == ts[Kept(ts)[i]]
  {
    if ts == [] {
    } else {
      SweptAtKept(ts[..|ts| - 1]);
    }
  }

  /** The sweep leaves the records at those places, in their order: all that are permanent or active, and no others. */
  lemma SweptIsSubsequence(ts: seq<Trf>)
    ensures |Swept(ts)| == |Kept(ts)| && forall i :: 0 <= i < |Kept(ts)| ==> Swept(ts)[i] == ts[Kept(ts)[i]]
    ensures Increasing(Kept(ts))
    ensures forall k :: 0 <= k < |ts| ==> (k in Kept(ts) <==> ts[k].permanent || ts[k].active)
  {
    SweptAtKept(ts);
    forall k | 0 <= k < |ts| && Keep(ts[k]) ensures k in Kept(ts) {
      KeptIsComplete(ts, k);
    }
  }

  lemma {:induction false} SweptFront(ts: seq<Trf>, k: nat)
    requires k <= |ts| && forall i :: 0 <= i < k ==> Keep(ts[i])
    ensures k <= |Swept(ts)| <= |ts| && Swept(ts)[..k] == ts[..k]
  {
    if k == |ts| {
      SweptAll(ts);
    } else {
      SweptFront(ts[..|ts| - 1], k);
    }
  }

  lemma ArriveKeepsInv(max: nat, s: State, accepted: bool)
    requires Inv(max, s) && s.requests < DWORDS
    ensures Inv(max, Step(max, s, Request(accepted)))
  {
    SerialOfId(s.requests);
  }

  lemma SweepKeepsInv(max: nat, s: State)
    requires Inv(max, s)
    ensures Inv(max, Step(max, s, Wake))
  {
    SweptFront(s.ts, 2);
    SweptIsSubsequence(s.ts);
    var from := Kept(s.ts);
    var r := Swept(s.ts);
    assert r[0] == r[..2][0] && r[1] == r[..2][1];
    forall i | 2 <= i < |r| ensures !r[i].permanent {
      assert from[0] < from[1] < from[i];
    }
  }

  lemma StepKeepsInv(max: nat, s: State, e: Event)
    requires Inv(max, s) && Step(max, s, e).requests <= DWORDS
    ensures Inv(max, Step(max, s, e))
  {
    match e
    case Request(accepted) =>
      if |s.ts| < max {
        ArriveKeepsInv(max, s, accepted);
      }
    case WorkerExits(k) =>
    case Wake => SweepKeepsInv(max, s);
  }

  lemma {:induction false} RequestsGrow(max: nat, s: State, es: seq<Event>)
    ensures s.requests <= Run(max, s, es).requests
    decreases |es|
  {
    if es == [] {
    } else {
      RequestsGrow(max, Step(max, s, es[0]), es[1..]);
    }
  }

  lemma {:induction false} RunKeepsInv(max: nat, s: State, es: seq<Event>)
    requires Inv(max, s) && Run(max, s, es).requests <= DWORDS
    ensures Inv(max, Run(max, s, es))
    decreases |es|
  {
    hide Arrive, Swept, DistinctIds;
    if es == [] {
    } else {
      RequestsGrow(max, Step(max, s, es[0]), es[1..]);
      StepKeepsInv(max, s, es[0]);
      RunKeepsInv(max, Step(max, s, es[0]), es[1..]);
    }
  }

  /** From the start, after every run in which no more than 2^32 requests were given an id, the table is sound. */
  lemma TableSafety(max: nat, es: seq<Event>)
    requires Run(max, State(START, 0), es).requests <= DWORDS
    ensures Inv(max, Run(max, State(START, 0), es))
  {
    RunKeepsInv(max, State(START, 0), es);
  }

  /** A request never touches a record in use: all active records stay where they are, as they are. */
  lemma ActiveUndisturbed(ts: seq<Trf>, n: nat, max: nat, accepted: bool)
    ensures var ts' := Arrive(ts, n, max, accepted);
      |ts| <= |ts'| && forall i :: 0 <= i < |ts| && ts[i].active ==> ts'[i] == ts[i]
  {
  }

  /** What the sweep leaves: every permanent and every active record, unchanged, and no other. */
  lemma SweepLaw(ts: seq<Trf>, x: Trf)
    ensures x in Swept(ts) <==> x in ts && (x.permanent || x.active)
  {
    SweptIsSubsequence(ts);
    var from := Kept(ts);
    if x in ts && (x.permanent || x.active) {
      var k :| 0 <= k < |ts| && ts[k] == x;
      assert k in from;
      var i :| 0 <= i < |from| && from[i] == k;
      assert Swept(ts)[i] == x;
    }
    if x in Swept(ts) {
      var i :| 0 <= i < |Swept(ts)| && Swept(ts)[i] == x;
      assert from[i] in from && ts[from[i]] == x;
    }
  }

  /** The transfer with record x does not end in the run. */
  ghost predicate DoesNotEnd(max: nat, s: State, es: seq<Event>, x: Trf)
    decreases |es|
  {
    es != [] ==>
      && !(es[0].WorkerExits? && es[0].k < |s.ts| && s.ts[es[0].k] == x)
      && DoesNotEnd(max, Step(max, s, es[0]), es[1..], x)
  }

  /** The record of a transfer stays in the table, unchanged, until its worker exits: through requests, sweeps and the
      ends of other transfers. */
  lemma {:induction false} ActiveStays(max: nat, s: State, es: seq<Event>, x: Trf)
    requires x in s.ts && x.active && DoesNotEnd(max, s, es, x)
    ensures x in Run(max, s, es).ts
    decreases |es|
  {
    if es == [] {
    } else {
      ActiveStaysOne(max, s, es[0], x);
      ActiveStays(max, Step(max, s, es[0]), es[1..], x);
    }
  }

  lemma ActiveStaysOne(max: nat, s: State, e: Event, x: Trf)
    requires x in s.ts && x.active && !(e.WorkerExits? && e.k < |s.ts| && s.ts[e.k] == x)
    ensures x in Step(max, s, e).ts
  {
    var i :| 0 <= i < |s.ts| && s.ts[i] == x;
    match e
    case Request(accepted) =>
      ActiveUndisturbed(s.ts, s.requests, max, accepted);
      assert Step(max, s, e).ts[i] == x;
    case WorkerExits(k) =>
      assert Step(max, s, e).ts[i] == x;
    case Wake =>
      SweepLaw(s.ts, x);
  }

  /** Where a request goes: at the limit nowhere; else to the first permanent record that is not active; else, if it can
      be received, to a new record at the end. The n-th request, counted from 0, gets the id 467 + n modulo 2^32. */
  lemma RequestLaw(ts: seq<Trf>, n: nat, max: nat, accepted: bool, k: nat)
    requires k <= |ts| && forall i :: 0 <= i < k ==> !ts[i].permanent || ts[i].active
    ensures var ts' := Arrive(ts, n, max, accepted); var id := (467 + n) % 0x1_0000_0000;
      && (|ts| >= max ==> ts' == ts)
      && (|ts| < max && k < |ts| && ts[k].permanent && !ts[k].active ==> ts' == ts[k := Trf(true, accepted, true, id)])
      && (|ts| < max && k == |ts| ==> ts' == if accepted then ts + [Trf(false, true, true, id)] else ts)
  {
    if k < |ts| && ts[k].permanent && !ts[k].active {
      FirstIdleIs(ts, k);
    }
    if k == |ts| {
      FirstIdleIs(ts, k);
    }
  }

  lemma FirstIdleIs(ts: seq<Trf>, k: nat)
    requires k <= |ts| && (forall i :: 0 <= i < k ==> !Idle(ts[i])) && (k < |ts| ==> Idle(ts[k]))
    ensures FirstIdle(ts) == k
  {
  }

  /** A request is dropped only when the table is at its limit; otherwise, if its datagram can be received, exactly one
      record more is active, and it carries the request's id. */
  lemma RequestIsServed(max: nat, s: State)
    requires Inv(max, s) && |s.ts| < max
    ensures var ts' := Arrive(s.ts, s.requests, max, true);
      exists k :: 0 <= k < |ts'| && ts'[k].active && ts'[k].id == (467 + s.requests) % 0x1_0000_0000
        && (k < |s.ts| ==> !s.ts[k].active)
        && forall i :: 0 <= i < |s.ts| && i != k ==> ts'[i] == s.ts[i]
  {
    var k := FirstIdle(s.ts);
    var ts' := Arrive(s.ts, s.requests, max, true);
    assert ts'[k].active && ts'[k].id == IdOf(s.requests);
  }
}
