/** The bounded message lists of linked_list.c: what they contain, and the heap lists that implement them. */
module MessageQueue {
  type Payload = seq<int>

  datatype Msg = Msg(msg_id: int, data: Payload, kind: int)

  /** A list as its clients see it: all messages accepted so far, those already popped, and those still queued. */
  datatype Queue = Queue(accepted: seq<Msg>, popped: seq<Msg>, items: seq<Msg>)

  /** Popped and queued messages together are the accepted ones in order, with consecutive ids from 1, and the list
      stays below its limit. */
  ghost predicate QueueInv(max_items: int, q: Queue) {
    && q.accepted == q.popped + q.items
    && (forall i :: 0 <= i < |q.accepted| ==> q.accepted[i].msg_id == i + 1)
    && (q.items != [] ==> |q.items| < max_items)
  }

  predicate Full(max_items: int, q: Queue) {
    |q.items| >= max_items - 1
  }

  /** One try of LL_PushTypedMsg: a full list is left alone. */
  function Push(max_items: int, q: Queue, data: Payload, kind: int): Queue {
    var m := Msg(|q.accepted| + 1, data, kind);
    if Full(max_items, q) then q else Queue(q.accepted + [m], q.popped, q.items + [m])
  }

  function Pop(q: Queue): Queue
    requires q.items != []
  {
    Queue(q.accepted, q.popped + q.items[..1], q.items[1..])
  }

  lemma PushKeepsInv(max_items: int, q: Queue, data: Payload, kind: int)
    requires QueueInv(max_items, q)
    ensures QueueInv(max_items, Push(max_items, q, data, kind))
  {
  }

  lemma PopKeepsInv(max_items: int, q: Queue)
    requires QueueInv(max_items, q) && q.items != []
    ensures QueueInv(max_items, Pop(q))
  {
    assert q.items == q.items[..1] + q.items[1..];
    assert q.popped + q.items == (q.popped + q.items[..1]) + q.items[1..];
  }

  class SaveMsg {
    var next: SaveMsg?
    var msg_id: int
    var data: Payload
    var kind: int

    constructor (msg_id: int, data: Payload, kind: int)
      ensures next == null && Value() == Msg(msg_id, data, kind)
    {
      this.next, this.msg_id, this.data, this.kind := null, msg_id, data, kind;
    }

    function Value(): Msg
      reads this`msg_id, this`data, this`kind
    {
      Msg(msg_id, data, kind)
    }
  }

  datatype Popped = Nothing | Got(m: Msg)

  /** One struct S_LL. */
  class MsgList {
    var phead: SaveMsg?
    var ptail: SaveMsg?
    var nb_items: int
    var cur_msg_id: int
    var max_items: int
    // the chain from phead, and the list as its clients see it
    ghost var nodes: seq<SaveMsg>
    ghost var q: Queue

    /** `nodes` is the chain from phead: without cycles, null-terminated. */
    ghost predicate Chain()
      reads this`phead, this`nodes, nodes`next
    {
      && (phead == null <==> |nodes| == 0)
      && (|nodes| > 0 ==> phead == nodes[0] && nodes[|nodes| - 1].next == null)
      && (forall i :: 0 <= i < |nodes| - 1 ==> nodes[i].next == nodes[i + 1])
      && (forall i, j :: 0 <= i < j < |nodes| ==> nodes[i] != nodes[j])
    }

    /** The tail may be stale while the list is empty; otherwise it is null or the last node. */
    ghost predicate TailOk()
      reads this`ptail, this`nodes
    {
      |nodes| > 0 ==> ptail == null || ptail == nodes[|nodes| - 1]
    }

    ghost predicate Valid()
      reads this, nodes
    {
      && Chain() && TailOk()
      && nb_items == |nodes| == |q.items|
      && (forall i :: 0 <= i < |nodes| ==> nodes[i].Value() == q.items[i])
      && cur_msg_id == |q.accepted| + 1
      && QueueInv(max_items, q)
    }

    constructor (max_msg: int)
      ensures Valid() && q == Queue([], [], []) && max_items == max_msg && nodes == []
    {
      phead, ptail, nb_items, cur_msg_id, max_items := null, null, 0, 1, max_msg;
      nodes, q := [], Queue([], [], []);
    }

    /** The walk that finds the last node when the tail has been cleared. */
    method FindTail()
      requires Chain() && TailOk() && |nodes| > 0
      modifies this`ptail
      ensures ptail == nodes[|nodes| - 1]
    {
      if ptail == null {
        var ptmp := phead;
        ghost var k := 0;
        while ptmp != null
          invariant 0 <= k <= |nodes|
          invariant ptmp == if k < |nodes| then nodes[k] else null
          invariant k > 0 ==> ptail == nodes[k - 1]
          decreases |nodes| - k
        {
          ptail := ptmp;
          ptmp := ptmp.next;
          k := k + 1;
        }
      }
    }

    /** Hooks a message to the end of the chain. */
    method Link(pmsg: SaveMsg)
      requires Chain() && TailOk() && pmsg !in nodes && pmsg.next == null
      modifies this`phead, this`ptail, this`nodes, nodes`next
      ensures Chain() && TailOk() && nodes == old(nodes) + [pmsg]
    {
      if phead == null {
        phead, ptail := pmsg, pmsg;
      } else {
        FindTail();
        ptail.next := pmsg;
        ptail := pmsg;
      }
      nodes := nodes + [pmsg];
    }

    /** What one pass through the loop of LL_PushTypedMsg does while it holds the lock. */
    method TryPush(data: Payload, kind: int) returns (bSuccess: bool)
      requires Valid()
      modifies this, nodes
      ensures Valid() && q == Push(max_items, old(q), data, kind) && max_items == old(max_items)
      ensures bSuccess == (|old(q).items| < max_items - 1)
      ensures bSuccess ==> q.items == old(q).items + [Msg(old(cur_msg_id), data, kind)]
      ensures bSuccess ==> cur_msg_id == old(cur_msg_id) + 1
      ensures !bSuccess ==> unchanged(this) && nodes == old(nodes)
      ensures forall n :: n in nodes ==> n in old(nodes) || fresh(n)
    {
      hide Chain, TailOk, QueueInv;
      PushKeepsInv(max_items, q, data, kind);
      bSuccess := nb_items < max_items - 1;
      if bSuccess {
        nb_items := nb_items + 1;
        var pmsg := new SaveMsg(cur_msg_id, data, kind);
        cur_msg_id := cur_msg_id + 1;
        Link(pmsg);
        q := Push(max_items, q, data, kind);
      }
    }

    /** LL_PopTypedMsg: `Nothing` when the list is empty. */
    method TryPop() returns (m: Popped)
      requires Valid()
      modifies this
      ensures Valid() && max_items == old(max_items) && forall n :: n in nodes ==> n in old(nodes)
      ensures old(q).items == [] ==> m == Nothing && unchanged(this)
      ensures old(q).items != [] ==> m == Got(old(q).items[0]) && q == Pop(old(q)) && q.items == old(q).items[1..]
    {
      if phead == null {
        return Nothing;
      }
      PopKeepsInv(max_items, q);
      var pcur := phead;
      assert pcur == nodes[0] && (|nodes| > 1 ==> nodes[0].next == nodes[1]);
      if ptail == phead {
        ptail := null;
      }
      phead := phead.next;
      nb_items := nb_items - 1;
      nodes, q := nodes[1..], Pop(q);
      m := Got(pcur.Value());
    }
  }

  // ----- the table of lists

  const LISTS := 10
  /** NB_LL is never changed: LL_Create always clears the tail of this list. */
  const NB_LL := 0

  ghost predicate Separate(tLL: seq<MsgList>) {
    |tLL| == LISTS && forall i, j :: 0 <= i < j < LISTS ==> tLL[i] != tLL[j]
  }

  /** LL_Create empties list `id`; that it clears the tail of list 0 harms no list. */
  method LL_Create(tLL: seq<MsgList>, id: nat, max_msg: int) returns (r: int)
    requires Separate(tLL)
    modifies tLL
    ensures r == if id >= LISTS - 1 then -1 else id
    ensures r == -1 ==> forall i :: 0 <= i < LISTS ==> unchanged(tLL[i])
    ensures r != -1 ==> tLL[id].Valid() && tLL[id].q == Queue([], [], []) && tLL[id].max_items == max_msg
    ensures forall i :: 0 <= i < LISTS && i != id && old(tLL[i].Valid()) ==>
      tLL[i].Valid() && tLL[i].q == old(tLL[i].q) && tLL[i].max_items == old(tLL[i].max_items)
  {
    if id >= LISTS - 1 {
      return -1;
    }
    tLL[NB_LL].ptail := null;
    var l := tLL[id];
    l.phead := null;
    l.nb_items := 0;
    l.cur_msg_id := 1;
    l.max_items := max_msg;
    l.nodes, l.q := [], Queue([], [], []);
    r := id;
  }
}
