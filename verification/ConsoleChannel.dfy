/** The channel from the worker threads to the GUI (to_console.c): any number of producers and the console thread,
    interleaved step by step, over one message list, the mutex hMsgRequestSemaf and two auto-reset events. */
module ConsoleChannel {
  import opened Basics
  import opened MessageQueue

  type Thread = nat

  const BLOCKING_FLAG := 0x10000
  const MAX_TRIES := 5

  datatype Request = Request(msgType: int, data: Payload, blocking: bool)

  function Kind(r: Request): int {
    if r.blocking then r.msgType + BLOCKING_FLAG else r.msgType
  }

  predicate Flagged(m: Msg) {
    m.kind >= BLOCKING_FLAG
  }

  predicate RequestOk(r: Request) {
    0 <= r.msgType < BLOCKING_FLAG
  }

  /** Where a producer is inside SendMsgRequest. From `Emptying` to `Releasing` it owns the mutex. A blocking request
      carries the id of its message once it is pushed. */
  datatype Producer =
    | Idle
    | Acquiring(r: Request)
    | Emptying(r: Request)             // first WaitForMsgQueueToFinish
    | Pushing(r: Request, tries: nat)  // at the lock of the list, `tries` tries made before
    | Waking(r: Request, id: int)      // between LL_PushTypedMsg and WakeUpThread
    | AwaitingSent(id: int)            // WaitForSingleObject (hEvMsgSent)
    | EmptyingAgain(id: int)           // second WaitForMsgQueueToFinish
    | Releasing

  /** Where the console thread is. */
  datatype Console =
    | Waiting            // WaitForMultipleObjects
    | Dispatching        // a message from the GUI
    | Testing            // the unlocked test of phead in LL_PopTypedMsg
    | Locking            // phead was seen to be non-null
    | Sending(m: Msg)    // SendMsg
    | Signalling(m: Msg) // SetEvent (hEvMsgSent)

  datatype State = State(
    pc: map<Thread, Producer>,
    console: Console,
    owner: seq<Thread>,     // who owns hMsgRequestSemaf: nobody or one thread
    q: Queue,
    wakeUp: bool,           // the event of the console thread
    sent: bool,             // hEvMsgSent
    sentToGui: seq<Msg>,    // messages given to the GUI, in order
    raised: seq<int>)       // ids of the messages hEvMsgSent was raised for, in order

  datatype Step =
    | Call(t: Thread, r: Request)
    | Acquire(t: Thread)
    | SeeEmpty(t: Thread)
    | TryToPush(t: Thread)
    | WakeUp(t: Thread)
    | TakeSent(t: Thread)
    | SeeEmptyAgain(t: Thread)
    | Release(t: Thread)
    | ConsoleWake
    | GuiMessage
    | GuiDone
    | Test
    | TakeMsg
    | MsgSent
    | Signal

  ghost function Init(threads: set<Thread>): State {
    State(map t | t in threads :: Idle, Waiting, [], Queue([], [], []), false, false, [], [])
  }

  /** The step can be made in s. A thread that waits in WaitForMsgQueueToFinish, or for the lock of the list, just stays
      where it is until its step is enabled. */
  predicate Enabled(s: State, e: Step) {
    match e
    case Call(t, r) => t in s.pc && s.pc[t].Idle? && RequestOk(r)
    case Acquire(t) => t in s.pc && s.pc[t].Acquiring? && s.owner == []
    case SeeEmpty(t) => t in s.pc && s.pc[t].Emptying? && s.q.items == []
    case TryToPush(t) => t in s.pc && s.pc[t].Pushing?
    case WakeUp(t) => t in s.pc && s.pc[t].Waking?
    case TakeSent(t) => t in s.pc && s.pc[t].AwaitingSent? && s.sent
    case SeeEmptyAgain(t) => t in s.pc && s.pc[t].EmptyingAgain? && s.q.items == []
    case Release(t) => t in s.pc && s.pc[t].Releasing?
    case ConsoleWake => s.console.Waiting? && s.wakeUp
    case GuiMessage => s.console.Waiting?
    case GuiDone => s.console.Dispatching?
    case Test => s.console.Testing?
    case TakeMsg => s.console.Locking? && s.q.items != []
    case MsgSent => s.console.Sending?
    case Signal => s.console.Signalling?
  }

  function At(s: State, t: Thread, p: Producer): State {
    s.(pc := s.pc[t := p])
  }

  function Next(max_items: int, s: State, e: Step): State
    requires Enabled(s, e)
  {
    match e
    case Call(t, r) => At(s, t, Acquiring(r))
    case Acquire(t) =>
      var r := s.pc[t].r;
      At(s, t, if r.blocking then Emptying(r) else Pushing(r, 0)).(owner := [t])
    case SeeEmpty(t) => At(s, t, Pushing(s.pc[t].r, 0))
    case TryToPush(t) =>
      var r, tries := s.pc[t].r, s.pc[t].tries;
      if !Full(max_items, s.q) then
        At(s, t, Waking(r, |s.q.accepted| + 1)).(q := Push(max_items, s.q, r.data, Kind(r)))
      else if tries + 2 < MAX_TRIES then At(s, t, Pushing(r, tries + 1))
      else At(s, t, Waking(r, 0))
    case WakeUp(t) =>
      At(s, t, if s.pc[t].r.blocking then AwaitingSent(s.pc[t].id) else Releasing).(wakeUp := true)
    case TakeSent(t) => At(s, t, EmptyingAgain(s.pc[t].id)).(sent := false)
    case SeeEmptyAgain(t) => At(s, t, Releasing)
    case Release(t) => At(s, t, Idle).(owner := [])
    case ConsoleWake => s.(console := Testing, wakeUp := false)
    case GuiMessage => s.(console := Dispatching)
    case GuiDone => s.(console := Waiting)
    case Test => s.(console := if s.q.items == [] then Waiting else Locking)
    case TakeMsg => s.(console := Sending(s.q.items[0]), q := Pop(s.q))
    case MsgSent =>
      var m := s.console.m;
      s.(console := if Flagged(m) then Signalling(m) else Testing, sentToGui := s.sentToGui + [m])
    case Signal => s.(console := Testing, sent := true, raised := s.raised + [s.console.m.msg_id])
  }

  // ----- the invariant

  predicate Inside(p: Producer) {
    !p.Idle? && !p.Acquiring?
  }

  /** The producer has pushed a blocking message and has not yet been told that it was sent. */
  predicate Pending(p: Producer) {
    (p.Waking? && p.r.blocking) || p.AwaitingSent?
  }

  ghost predicate Mutex(s: State) {
    && |s.owner| <= 1
    && (forall t :: t in s.pc && Inside(s.pc[t]) ==> s.owner == [t])
    && (s.owner != [] ==> s.owner[0] in s.pc && Inside(s.pc[s.owner[0]]))
  }

  predicate Draining(s: State) {
    !s.console.Waiting? && !s.console.Dispatching?
  }

  /** A message in the list will be seen: the console's event is set, or the console is draining the list, or somebody
      is about to wake it up. */
  ghost predicate NoLostWakeUp(s: State) {
    s.q.items != [] ==>
      s.wakeUp || Draining(s) || exists t :: t in s.pc && s.pc[t].Waking?
  }

  /** The flagged message the console holds, if any. */
  predicate InHand(s: State, id: int) {
    && (s.console.Sending? ==> Flagged(s.console.m) && s.console.m.msg_id == id)
    && (s.console.Signalling? ==> s.console.m.msg_id == id)
    && (s.console.Sending? || s.console.Signalling?)
  }

  predicate HoldsFlagged(s: State) {
    (s.console.Sending? && Flagged(s.console.m)) || s.console.Signalling?
  }

  /** The message of a pending producer is in exactly one place: alone in the list, in the console's hand, or gone to
      the GUI with the event set. */
  ghost predicate InTransit(s: State, id: int) {
    || (|s.q.items| == 1 && Flagged(s.q.items[0]) && s.q.items[0].msg_id == id && !HoldsFlagged(s) && !s.sent)
    || (s.q.items == [] && InHand(s, id) && !s.sent)
    || (s.q.items == [] && !HoldsFlagged(s) && s.sent && WasSent(s, id))
  }

  ghost predicate WasSent(s: State, id: int) {
    id in s.raised && exists m :: m in s.sentToGui && m.msg_id == id && Flagged(m)
  }

  ghost predicate NothingInTransit(s: State) {
    (forall m :: m in s.q.items ==> !Flagged(m)) && !HoldsFlagged(s) && !s.sent
  }

  ghost predicate ProducerOk(s: State, p: Producer) {
    && (p.Pushing? && p.r.blocking ==> s.q.items == [])
    && (Pending(p) ==> InTransit(s, p.id))
    && (p.EmptyingAgain? ==> s.q.items == [] && WasSent(s, p.id))
    && (!Pending(p) ==> NothingInTransit(s))
    && (p.Acquiring? || p.Emptying? || p.Pushing? || p.Waking? ==> RequestOk(p.r))
  }

  /** Where the flagged message is, and that the request types are sound. */
  ghost predicate Transit(s: State) {
    && (s.console.Locking? ==> s.q.items != [])
    && (s.console.Signalling? ==> Flagged(s.console.m) && s.console.m in s.sentToGui)
    && (s.owner == [] ==> NothingInTransit(s))
    && (forall t :: t in s.pc && Inside(s.pc[t]) ==> ProducerOk(s, s.pc[t]))
    && (forall t :: t in s.pc && s.pc[t].Acquiring? ==> RequestOk(s.pc[t].r))
  }

  ghost function FlaggedIds(ms: seq<Msg>): seq<int> {
    if ms == [] then []
    else FlaggedIds(ms[..|ms| - 1]) + if Flagged(ms[|ms| - 1]) then [ms[|ms| - 1].msg_id] else []
  }

  /** What the GUI got is what was popped, but for the message in the console's hand; the event was raised once for each
      flagged one, in order. */
  ghost predicate Delivered(s: State) {
    && s.q.popped == s.sentToGui + (if s.console.Sending? then [s.console.m] else [])
    && FlaggedIds(s.sentToGui) == s.raised + (if s.console.Signalling? then [s.console.m.msg_id] else [])
  }

  ghost predicate Inv(max_items: int, s: State) {
    QueueInv(max_items, s.q) && Mutex(s) && NoLostWakeUp(s) && Transit(s) && Delivered(s)
  }

  lemma InitInv(max_items: int, threads: set<Thread>)
    ensures Inv(max_items, Init(threads))
  {
  }

  lemma NextMutex(max_items: int, s: State, e: Step)
    requires Mutex(s) && Enabled(s, e)
    ensures Mutex(Next(max_items, s, e))
  {
  }

  lemma NextNoLostWakeUp(max_items: int, s: State, e: Step)
    requires Mutex(s) && NoLostWakeUp(s) && Enabled(s, e) && (s.console.Locking? ==> s.q.items != [])
    ensures NoLostWakeUp(Next(max_items, s, e))
  {
    var s' := Next(max_items, s, e);
    if t :| t in s.pc && s.pc[t].Waking? {
      assert s'.wakeUp || (t in s'.pc && s'.pc[t].Waking?) || s'.q.items == [];
    }
    if e.TryToPush? && s'.pc[e.t].Waking? {
      assert e.t in s'.pc;
    }
  }

  lemma FlaggedIdsMore(ms: seq<Msg>, m: Msg)
    ensures FlaggedIds(ms + [m]) == FlaggedIds(ms) + if Flagged(m) then [m.msg_id] else []
  {
    assert (ms + [m])[..|ms|] == ms;
  }

  lemma NextDelivered(max_items: int, s: State, e: Step)
    requires Delivered(s) && Enabled(s, e)
    ensures Delivered(Next(max_items, s, e))
  {
    hide FlaggedIds, Flagged, Kind;
    if e.MsgSent? {
      FlaggedIdsMore(s.sentToGui, s.console.m);
    } else if e.TakeMsg? {
      assert s.q.items[..1] == [s.q.items[0]];
    }
  }

  lemma TransitEntering(max_items: int, s: State, e: Step)
    requires max_items >= 2 && Mutex(s) && Transit(s) && Enabled(s, e)
    requires e.Call? || e.Acquire? || e.SeeEmpty?
    ensures Transit(Next(max_items, s, e))
  {
  }

  lemma TransitPushing(max_items: int, s: State, e: Step)
    requires max_items >= 2 && Mutex(s) && Transit(s) && Enabled(s, e)
    requires e.TryToPush? || e.WakeUp?
    ensures Transit(Next(max_items, s, e))
  {
  }

  lemma TransitLeaving(max_items: int, s: State, e: Step)
    requires max_items >= 2 && Mutex(s) && Transit(s) && Enabled(s, e)
    requires e.TakeSent? || e.SeeEmptyAgain? || e.Release?
    ensures Transit(Next(max_items, s, e))
  {
  }

  lemma TransitConsoleIdle(max_items: int, s: State, e: Step)
    requires max_items >= 2 && Mutex(s) && Transit(s) && Enabled(s, e)
    requires e.ConsoleWake? || e.GuiMessage? || e.GuiDone? || e.Test?
    ensures Transit(Next(max_items, s, e))
  {
  }

  lemma TransitTaking(max_items: int, s: State, e: Step)
    requires max_items >= 2 && Mutex(s) && Transit(s) && Enabled(s, e)
    requires e.TakeMsg?
    ensures Transit(Next(max_items, s, e))
  {
  }

  lemma TransitSending(max_items: int, s: State, e: Step)
    requires max_items >= 2 && Mutex(s) && Transit(s) && Enabled(s, e)
    requires e.MsgSent? || e.Signal?
    ensures Transit(Next(max_items, s, e))
  {
  }

  lemma NextTransit(max_items: int, s: State, e: Step)
    requires max_items >= 2 && Mutex(s) && Transit(s) && Enabled(s, e)
    ensures Transit(Next(max_items, s, e))
  {
    hide *;
    match e
    case Call(_, _) | Acquire(_) | SeeEmpty(_) => TransitEntering(max_items, s, e);
    case TryToPush(_) | WakeUp(_) => TransitPushing(max_items, s, e);
    case TakeSent(_) | SeeEmptyAgain(_) | Release(_) => TransitLeaving(max_items, s, e);
    case ConsoleWake | GuiMessage | GuiDone | Test => TransitConsoleIdle(max_items, s, e);
    case TakeMsg => TransitTaking(max_items, s, e);
    case MsgSent | Signal => TransitSending(max_items, s, e);
  }

  lemma NextInv(max_items: int, s: State, e: Step)
    requires max_items >= 2 && Inv(max_items, s) && Enabled(s, e)
    ensures Inv(max_items, Next(max_items, s, e))
  {
    hide Delivered, Mutex, NoLostWakeUp;
    if e.TryToPush? {
      PushKeepsInv(max_items, s.q, s.pc[e.t].r.data, Kind(s.pc[e.t].r));
    }
    if e.TakeMsg? {
      PopKeepsInv(max_items, s.q);
    }
    NextMutex(max_items, s, e);
    NextNoLostWakeUp(max_items, s, e);
    NextDelivered(max_items, s, e);
    NextTransit(max_items, s, e);
  }

  // ----- all interleavings

  const MAX_MSG_IN_QUEUE := 300

  /** es is a run from s to s'. */
  ghost predicate IsRun(max_items: int, s: State, es: seq<Step>, s': State)
    decreases |es|
  {
    if es == [] then s == s' else Enabled(s, es[0]) && IsRun(max_items, Next(max_items, s, es[0]), es[1..], s')
  }

  lemma {:induction false} RunInv(max_items: int, s: State, es: seq<Step>, s': State)
    requires max_items >= 2 && Inv(max_items, s) && IsRun(max_items, s, es, s')
    ensures Inv(max_items, s')
    decreases |es|
  {
    if es == [] {
    } else {
      NextInv(max_items, s, es[0]);
      RunInv(max_items, Next(max_items, s, es[0]), es[1..], s');
    }
  }

  ghost predicate Reachable(max_items: int, threads: set<Thread>, s: State) {
    exists es :: IsRun(max_items, Init(threads), es, s)
  }

  /** In every reachable state: a message in the list will be seen by the console; the GUI gets the accepted messages in
      order, without loss or duplication; and the console never takes the lock for an empty list. */
  lemma ChannelSafety(max_items: int, threads: set<Thread>, s: State)
    requires max_items >= 2 && Reachable(max_items, threads, s)
    ensures Inv(max_items, s) && NoLostWakeUp(s)
    ensures s.q.accepted == s.sentToGui + (if s.console.Sending? then [s.console.m] else []) + s.q.items
    ensures s.console.Locking? ==> s.q.items != []
    ensures s.q.items != [] ==> |s.q.items| < max_items
  {
    var es :| IsRun(max_items, Init(threads), es, s);
    InitInv(max_items, threads);
    RunInv(max_items, Init(threads), es, s);
  }

  /** In every reachable state a blocking message in the list is the only one there, a blocking message is never
      refused, and its sender is not released before the GUI has got it and the event was raised for it. */
  lemma BlockingSends(max_items: int, threads: set<Thread>, s: State)
    requires max_items >= 2 && Reachable(max_items, threads, s)
    ensures forall m :: m in s.q.items && Flagged(m) ==> s.q.items == [m]
    ensures forall t :: t in s.pc && s.pc[t].Pushing? && s.pc[t].r.blocking ==> !Full(max_items, s.q)
    ensures forall t :: t in s.pc && s.pc[t].EmptyingAgain? ==> WasSent(s, s.pc[t].id)
  {
    ChannelSafety(max_items, threads, s);
  }

  lemma {:induction false} FlaggedIdsBelow(ms: seq<Msg>, b: int)
    requires forall i :: 0 <= i < |ms| ==> ms[i].msg_id < b
    ensures forall i :: 0 <= i < |FlaggedIds(ms)| ==> FlaggedIds(ms)[i] < b
  {
    if ms == [] {
    } else {
      FlaggedIdsBelow(ms[..|ms| - 1], b);
    }
  }

  lemma {:induction false} FlaggedIdsIncrease(ms: seq<Msg>)
    requires forall i, j :: 0 <= i < j < |ms| ==> ms[i].msg_id < ms[j].msg_id
    ensures Increasing(FlaggedIds(ms))
  {
    if ms == [] {
    } else {
      var m, pre := ms[|ms| - 1], FlaggedIds(ms[..|ms| - 1]);
      FlaggedIdsIncrease(ms[..|ms| - 1]);
      FlaggedIdsBelow(ms[..|ms| - 1], m.msg_id);
      assert Increasing(pre + [m.msg_id]);
      assert FlaggedIds(ms) == if Flagged(m) then pre + [m.msg_id] else pre;
    }
  }

  /** The event is raised exactly once for each blocking message given to the GUI, in the order of the messages. */
  lemma RaisedOncePerBlockingMessage(max_items: int, threads: set<Thread>, s: State)
    requires max_items >= 2 && Reachable(max_items, threads, s)
    ensures FlaggedIds(s.sentToGui) == s.raised + (if s.console.Signalling? then [s.console.m.msg_id] else [])
    ensures Increasing(s.raised)
  {
    ChannelSafety(max_items, threads, s);
    assert forall i :: 0 <= i < |s.sentToGui| ==> s.sentToGui[i] == s.q.accepted[i];
    FlaggedIdsIncrease(s.sentToGui);
    assert forall i :: 0 <= i < |s.raised| ==> s.raised[i] == FlaggedIds(s.sentToGui)[i];
  }

  // ----- no deadlock

  predicate OfOwnerOrConsole(e: Step, t: Thread) {
    match e
    case Call(_, _) | Acquire(_) => false
    case SeeEmpty(u) => u == t
    case TryToPush(u) => u == t
    case WakeUp(u) => u == t
    case TakeSent(u) => u == t
    case SeeEmptyAgain(u) => u == t
    case Release(u) => u == t
    case GuiMessage => false
    case _ => true
  }

  /** What the console does when it does not turn to the GUI. */
  function ConsoleStep(k: Console): Step {
    match k
    case Waiting => ConsoleWake
    case Dispatching => GuiDone
    case Testing => Test
    case Locking => TakeMsg
    case Sending(_) => MsgSent
    case Signalling(_) => Signal
  }

  /** A step of the owner of the mutex or of the console that brings the release nearer. */
  function HelpfulStep(s: State, t: Thread): Step
    requires t in s.pc
  {
    var p := s.pc[t];
    if p.Pushing? then TryToPush(t)
    else if p.Waking? then WakeUp(t)
    else if p.Releasing? then Release(t)
    else if p.Emptying? && s.q.items == [] then SeeEmpty(t)
    else if p.EmptyingAgain? && s.q.items == [] then SeeEmptyAgain(t)
    else if p.AwaitingSent? && s.sent then TakeSent(t)
    else ConsoleStep(s.console)
  }

  function Stage(p: Producer): nat {
    match p
    case Emptying(_) => 20
    case Pushing(_, tries) => if tries < MAX_TRIES then 10 + MAX_TRIES - tries else 10
    case Waking(_, _) => 4
    case AwaitingSent(_) => 3
    case EmptyingAgain(_) => 2
    case Releasing => 1
    case _ => 0
  }

  function ConsoleStage(k: Console): nat {
    match k
    case Sending(_) => 6
    case Signalling(_) => 5
    case Dispatching => 4
    case Waiting => 3
    case Testing => 2
    case Locking => 1
  }

  ghost predicate Nearer(s: State, s': State, t: Thread)
    requires t in s.pc && t in s'.pc
  {
    || Stage(s'.pc[t]) < Stage(s.pc[t])
    || (Stage(s'.pc[t]) == Stage(s.pc[t]) && |s'.q.items| < |s.q.items|)
    || (Stage(s'.pc[t]) == Stage(s.pc[t]) && |s'.q.items| == |s.q.items|
        && ConsoleStage(s'.console) < ConsoleStage(s.console))
  }

  lemma HelpfulStepHelps(max_items: int, s: State, t: Thread)
    requires max_items >= 2 && Inv(max_items, s) && s.owner == [t]
    ensures var e := HelpfulStep(s, t);
      && Enabled(s, e) && OfOwnerOrConsole(e, t)
      && (var s' := Next(max_items, s, e); t in s'.pc && Nearer(s, s', t) && (s'.owner == [t] || s'.owner == []))
  {
    hide Delivered;
    var p := s.pc[t];
    assert Inside(p) && ProducerOk(s, p);
    if s.q.items != [] && !p.Waking? {
      assert forall u :: u in s.pc && s.pc[u].Waking? ==> u == t;
    }
  }

  /** No deadlock: whoever owns the mutex can always get to release it by steps of its own and of the console. */
  lemma {:induction false} OwnerCanRelease(max_items: int, s: State, t: Thread) returns (es: seq<Step>, s': State)
    requires max_items >= 2 && Inv(max_items, s) && s.owner == [t]
    ensures IsRun(max_items, s, es, s') && s'.owner == []
    ensures forall e :: e in es ==> OfOwnerOrConsole(e, t)
    decreases Stage(s.pc[t]), |s.q.items|, ConsoleStage(s.console)
  {
    hide Transit, Delivered, NoLostWakeUp, Enabled, Next;
    HelpfulStepHelps(max_items, s, t);
    var e := HelpfulStep(s, t);
    var s1 := Next(max_items, s, e);
    NextInv(max_items, s, e);
    if s1.owner == [] {
      es, s' := [e], s1;
      assert es[1..] == [];
    } else {
      var rest;
      rest, s' := OwnerCanRelease(max_items, s1, t);
      es := [e] + rest;
      assert es[1..] == rest;
    }
  }
}
