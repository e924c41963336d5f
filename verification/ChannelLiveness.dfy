/** Infinite runs of the channel of to_console.c under a fair schedule: every call of SendMsgRequest returns. */
module ChannelLiveness {
  import opened MessageQueue
  import opened ConsoleChannel

  /** An infinite run: the states, and the step made in each. */
  datatype Behaviour = Behaviour(st: nat -> State, ev: nat -> Step)

  ghost predicate StepAt(max_items: int, b: Behaviour, n: nat) {
    Enabled(b.st(n), b.ev(n)) && b.st(n + 1) == Next(max_items, b.st(n), b.ev(n))
  }

  ghost predicate IsBehaviour(max_items: int, threads: set<Thread>, b: Behaviour) {
    max_items >= 2 && b.st(0) == Init(threads) && forall n :: StepAt(max_items, b, n)
  }

  // ----- fairness

  /** The next step of a producer that is inside SendMsgRequest. */
  function OwnStep(s: State, t: Thread): Step
    requires t in s.pc
  {
    match s.pc[t]
    case Acquiring(_) => Acquire(t)
    case Emptying(_) => SeeEmpty(t)
    case Pushing(_, _) => TryToPush(t)
    case Waking(_, _) => WakeUp(t)
    case AwaitingSent(_) => TakeSent(t)
    case EmptyingAgain(_) => SeeEmptyAgain(t)
    case _ => Release(t)
  }

  ghost predicate Served(b: Behaviour, t: Thread, m: nat) {
    t in b.st(m).pc ==> b.ev(m) == OwnStep(b.st(m), t) || !Enabled(b.st(m), OwnStep(b.st(m), t))
  }

  ghost predicate ConsoleServed(b: Behaviour, m: nat) {
    b.ev(m) == ConsoleStep(b.st(m).console) || !Enabled(b.st(m), ConsoleStep(b.st(m).console))
  }

  ghost predicate EventuallyServed(b: Behaviour, t: Thread, n: nat) {
    exists m :: n <= m && Served(b, t, m)
  }

  ghost predicate EventuallyConsoleServed(b: Behaviour, n: nat) {
    exists m :: n <= m && ConsoleServed(b, m)
  }

  ghost predicate EventuallyEnabled(b: Behaviour, e: Step, n: nat) {
    exists m :: n <= m && Enabled(b.st(m), e)
  }

  ghost predicate EventuallyMade(b: Behaviour, e: Step, n: nat) {
    exists m :: n <= m && b.ev(m) == e
  }

  ghost predicate AgainAndAgain(b: Behaviour, e: Step) {
    (forall n :: EventuallyEnabled(b, e, n)) ==> forall n :: EventuallyMade(b, e, n)
  }

  /** A step of a producer or of the console that stays enabled is made; and a wait that is satisfied again and again
      ends: the console's wait for its event, and a producer's for the mutex. */
  ghost predicate Fair(b: Behaviour) {
    && (forall t, n :: EventuallyServed(b, t, n))
    && (forall n :: EventuallyConsoleServed(b, n))
    && AgainAndAgain(b, ConsoleWake)
    && (forall t :: AgainAndAgain(b, Acquire(t)))
  }

  // ----- a measure

  function ConsoleRank(k: Console): nat {
    match k
    case Sending(_) => 5
    case Signalling(_) => 4
    case Testing => 3
    case Locking => 2
    case _ => 0
  }

  function Rank(s: State, t: Thread): nat
    requires t in s.pc
  {
    5 * Stage(s.pc[t]) + 4 * |s.q.items| + (if s.wakeUp then 4 else 0) + ConsoleRank(s.console)
  }

  /** Steps other than the start of a call and the console's dealings with the GUI. */
  predicate IsProgress(e: Step) {
    !e.Call? && !e.GuiMessage? && !e.GuiDone?
  }

  predicate AtRest(k: Console) {
    k.Waiting? || k.Dispatching?
  }

  /** While t owns the mutex, nothing but progress changes what t waits for. */
  ghost predicate SameButGui(s: State, s': State, t: Thread) {
    && t in s.pc && t in s'.pc && s'.pc[t] == s.pc[t]
    && s'.q == s.q && s'.wakeUp == s.wakeUp && s'.sent == s.sent && s'.owner == s.owner
    && (if AtRest(s.console) then AtRest(s'.console) else s'.console == s.console)
  }

  ghost predicate Drops(s: State, s': State, t: Thread, released: bool) {
    t in s.pc && t in s'.pc && Rank(s', t) < Rank(s, t) && (s'.owner == [t] || released)
  }

  lemma ConsoleDrops(max_items: int, s: State, e: Step, t: Thread)
    requires Mutex(s) && s.owner == [t] && Enabled(s, e)
    requires e.ConsoleWake? || e.Test? || e.TakeMsg? || e.MsgSent? || e.Signal?
    ensures Drops(s, Next(max_items, s, e), t, false)
  {
  }

  lemma OwnerDrops(max_items: int, s: State, e: Step, t: Thread)
    requires Mutex(s) && s.owner == [t] && Enabled(s, e)
    requires e.Acquire? || e.SeeEmpty? || e.TryToPush? || e.WakeUp? || e.TakeSent? || e.SeeEmptyAgain? || e.Release?
    ensures Drops(s, Next(max_items, s, e), t, e == Release(t))
  {
  }

  lemma OthersPreserve(max_items: int, s: State, e: Step, t: Thread)
    requires Mutex(s) && s.owner == [t] && Enabled(s, e) && !IsProgress(e)
    ensures SameButGui(s, Next(max_items, s, e), t)
  {
    assert e.Call? ==> !Inside(s.pc[e.t]);
  }

  /** While t owns the mutex every step brings its release nearer, or leaves everything it waits for as it is. */
  lemma RankDrops(max_items: int, s: State, e: Step, t: Thread)
    requires Mutex(s) && s.owner == [t] && Enabled(s, e)
    ensures var s' := Next(max_items, s, e);
      if IsProgress(e) then Drops(s, s', t, e == Release(t)) else SameButGui(s, s', t)
  {
    hide Mutex, Enabled, Next, Drops, SameButGui;
    if !IsProgress(e) {
      OthersPreserve(max_items, s, e, t);
    } else if e.ConsoleWake? || e.Test? || e.TakeMsg? || e.MsgSent? || e.Signal? {
      ConsoleDrops(max_items, s, e, t);
    } else {
      OwnerDrops(max_items, s, e, t);
    }
  }

  // ----- every owner releases the mutex

  lemma {:induction false} AlwaysInv(max_items: int, threads: set<Thread>, b: Behaviour, n: nat)
    requires IsBehaviour(max_items, threads, b)
    ensures Inv(max_items, b.st(n)) && b.st(n).pc.Keys == threads
  {
    hide Inv, Enabled, Next;
    if n == 0 {
      InitInv(max_items, threads);
    } else {
      AlwaysInv(max_items, threads, b, n - 1);
      assert StepAt(max_items, b, n - 1);
      NextInv(max_items, b.st(n - 1), b.ev(n - 1));
      SameThreads(max_items, b.st(n - 1), b.ev(n - 1));
    }
  }

  lemma SameThreads(max_items: int, s: State, e: Step)
    requires Enabled(s, e)
    ensures Next(max_items, s, e).pc.Keys == s.pc.Keys
  {
  }

  /** From n on t owns the mutex and nothing but calls and dealings with the GUI happens. */
  ghost predicate Stuck(b: Behaviour, t: Thread, n: nat) {
    b.st(n).owner == [t] && forall m :: n <= m ==> !IsProgress(b.ev(m))
  }

  lemma {:induction false} StuckStays(max_items: int, threads: set<Thread>, b: Behaviour, t: Thread, n: nat, m: nat)
    requires IsBehaviour(max_items, threads, b) && Stuck(b, t, n) && n <= m
    ensures SameButGui(b.st(n), b.st(m), t)
    decreases m
  {
    hide Enabled, Next, Inv;
    AlwaysInv(max_items, threads, b, n);
    if m == n {
      OwnerIsThread(max_items, b.st(n), t);
    } else {
      StuckStays(max_items, threads, b, t, n, m - 1);
      assert StepAt(max_items, b, m - 1);
      AlwaysInv(max_items, threads, b, m - 1);
      InvGivesMutex(max_items, b.st(m - 1));
      OthersPreserve(max_items, b.st(m - 1), b.ev(m - 1), t);
    }
  }

  lemma InvGivesMutex(max_items: int, s: State)
    requires Inv(max_items, s)
    ensures Mutex(s)
  {
  }

  lemma OwnerIsThread(max_items: int, s: State, t: Thread)
    requires Inv(max_items, s) && s.owner == [t]
    ensures t in s.pc && Inside(s.pc[t])
  {
  }

  /** What the owner's or the console's next step needs, as long as nothing but the GUI interferes. */
  lemma HelpStays(s: State, s': State, t: Thread)
    requires SameButGui(s, s', t) && Inside(s.pc[t])
    ensures Enabled(s, OwnStep(s, t)) ==> Enabled(s', OwnStep(s', t)) && OwnStep(s', t) == OwnStep(s, t)
    ensures !AtRest(s.console) && Enabled(s, ConsoleStep(s.console)) ==> Enabled(s', ConsoleStep(s'.console))
    ensures IsProgress(OwnStep(s', t)) && (!AtRest(s.console) ==> IsProgress(ConsoleStep(s'.console)))
  {
  }

  /** Either the owner can make its step, or the console its own; a console waiting for its event is not kept waiting.
      */
  lemma SomebodyCan(max_items: int, s: State, t: Thread)
    requires max_items >= 2 && Inv(max_items, s) && s.owner == [t]
    ensures t in s.pc && (Enabled(s, OwnStep(s, t)) || Enabled(s, ConsoleStep(s.console)))
  {
    hide Inv;
    OwnerIsThread(max_items, s, t);
    HelpfulStepHelps(max_items, s, t);
  }

  /** The owner's own step cannot stay enabled without being made. */
  lemma OwnerNotStarved(max_items: int, threads: set<Thread>, b: Behaviour, t: Thread, n: nat)
    requires IsBehaviour(max_items, threads, b) && Fair(b) && Stuck(b, t, n)
    ensures t in b.st(n).pc && !Enabled(b.st(n), OwnStep(b.st(n), t))
  {
    hide Inv, Enabled, Next, OwnStep;
    AlwaysInv(max_items, threads, b, n);
    OwnerIsThread(max_items, b.st(n), t);
    assert EventuallyServed(b, t, n);
    var m :| n <= m && Served(b, t, m);
    StuckStays(max_items, threads, b, t, n, m);
    HelpStays(b.st(n), b.st(m), t);
  }

  /** Nor can a step of the console, when it is not at rest. */
  lemma ConsoleAtRest(max_items: int, threads: set<Thread>, b: Behaviour, t: Thread, n: nat)
    requires IsBehaviour(max_items, threads, b) && Fair(b) && Stuck(b, t, n)
    ensures AtRest(b.st(n).console)
  {
    hide Inv, Enabled, Next, OwnStep;
    OwnerNotStarved(max_items, threads, b, t, n);
    AlwaysInv(max_items, threads, b, n);
    OwnerIsThread(max_items, b.st(n), t);
    SomebodyCan(max_items, b.st(n), t);
    assert EventuallyConsoleServed(b, n);
    var m :| n <= m && ConsoleServed(b, m);
    StuckStays(max_items, threads, b, t, n, m);
    HelpStays(b.st(n), b.st(m), t);
  }

  /** A console at rest comes back to wait for its event. */
  lemma ConsoleWaitsAgain(max_items: int, threads: set<Thread>, b: Behaviour, t: Thread, n: nat, k: nat)
      returns (m: nat)
    requires IsBehaviour(max_items, threads, b) && Fair(b) && Stuck(b, t, n)
    ensures n <= m && k <= m && b.st(m).console.Waiting?
  {
    hide Inv, OwnStep;
    ConsoleAtRest(max_items, threads, b, t, n);
    var from := if n < k then k else n;
    assert EventuallyConsoleServed(b, from);
    var x :| from <= x && ConsoleServed(b, x);
    StuckStays(max_items, threads, b, t, n, x);
    if b.st(x).console.Waiting? {
      m := x;
    } else {
      assert StepAt(max_items, b, x);
      m := x + 1;
    }
  }

  /** A fair run does not get stuck. */
  lemma NotStuck(max_items: int, threads: set<Thread>, b: Behaviour, t: Thread, n: nat)
    requires IsBehaviour(max_items, threads, b) && Fair(b)
    ensures !Stuck(b, t, n)
  {
    assert AgainAndAgain(b, ConsoleWake);
    assert EventuallyMade(b, ConsoleWake, n) ==> !Stuck(b, t, n);
    if Stuck(b, t, n) {
      forall k: nat ensures EventuallyEnabled(b, ConsoleWake, k) {
        var m := ConsoleWaitsAgain(max_items, threads, b, t, n, k);
        WaitIsShort(max_items, threads, b, t, n, m);
        assert Enabled(b.st(m), ConsoleWake);
      }
    }
  }

  lemma WaitIsShort(max_items: int, threads: set<Thread>, b: Behaviour, t: Thread, n: nat, m: nat)
    requires IsBehaviour(max_items, threads, b) && Fair(b) && Stuck(b, t, n) && n <= m && b.st(m).console.Waiting?
    ensures Enabled(b.st(m), ConsoleWake)
  {
    hide Inv, OwnStep;
    StuckStays(max_items, threads, b, t, n, m);
    assert Stuck(b, t, m);
    OwnerNotStarved(max_items, threads, b, t, m);
    AlwaysInv(max_items, threads, b, m);
    SomebodyCan(max_items, b.st(m), t);
  }

  /** The first progress from n on. */
  lemma {:induction false} FirstProgress(max_items: int, threads: set<Thread>, b: Behaviour, t: Thread, n: nat, x: nat)
      returns (m: nat)
    requires IsBehaviour(max_items, threads, b) && b.st(n).owner == [t] && n <= x && IsProgress(b.ev(x))
    ensures n <= m <= x && IsProgress(b.ev(m)) && b.st(m).owner == [t]
    ensures t in b.st(n).pc && t in b.st(m).pc && Rank(b.st(m), t) == Rank(b.st(n), t)
    decreases x - n
  {
    hide Inv, Enabled, Next;
    AlwaysInv(max_items, threads, b, n);
    OwnerIsThread(max_items, b.st(n), t);
    if IsProgress(b.ev(n)) {
      m := n;
    } else {
      assert StepAt(max_items, b, n);
      InvGivesMutex(max_items, b.st(n));
      OthersPreserve(max_items, b.st(n), b.ev(n), t);
      m := FirstProgress(max_items, threads, b, t, n + 1, x);
    }
  }

  /** In every fair run the owner of the mutex releases it. */
  lemma {:induction false} OwnerReleases(max_items: int, threads: set<Thread>, b: Behaviour, t: Thread, n: nat)
      returns (m: nat)
    requires IsBehaviour(max_items, threads, b) && Fair(b) && b.st(n).owner == [t] && t in b.st(n).pc
    ensures n <= m && b.ev(m) == Release(t)
    decreases Rank(b.st(n), t)
  {
    hide Inv, Enabled, Next, Rank;
    NotStuck(max_items, threads, b, t, n);
    var x :| n <= x && IsProgress(b.ev(x));
    m := FirstProgress(max_items, threads, b, t, n, x);
    if b.ev(m) != Release(t) {
      assert StepAt(max_items, b, m);
      AlwaysInv(max_items, threads, b, m);
      InvGivesMutex(max_items, b.st(m));
      RankDrops(max_items, b.st(m), b.ev(m), t);
      m := OwnerReleases(max_items, threads, b, t, m + 1);
    }
  }

  // ----- every call returns

  lemma ReleaseFrees(max_items: int, b: Behaviour, t: Thread, m: nat)
    requires StepAt(max_items, b, m) && b.ev(m) == Release(t)
    ensures t in b.st(m + 1).pc && b.st(m + 1).pc[t].Idle? && b.st(m + 1).owner == []
  {
  }

  /** The mutex is free again and again. */
  lemma MutexIsFreed(max_items: int, threads: set<Thread>, b: Behaviour, n: nat) returns (m: nat)
    requires IsBehaviour(max_items, threads, b) && Fair(b)
    ensures n <= m && b.st(m).owner == []
  {
    hide Inv, Enabled, Next;
    AlwaysInv(max_items, threads, b, n);
    InvGivesMutex(max_items, b.st(n));
    if b.st(n).owner == [] {
      m := n;
    } else {
      var t := b.st(n).owner[0];
      assert b.st(n).owner == [t];
      var x := OwnerReleases(max_items, threads, b, t, n);
      assert StepAt(max_items, b, x);
      ReleaseFrees(max_items, b, t, x);
      m := x + 1;
    }
  }

  lemma {:induction false} KeepsAcquiring(max_items: int, threads: set<Thread>, b: Behaviour, t: Thread, n: nat, m: nat)
    requires IsBehaviour(max_items, threads, b) && t in b.st(n).pc && b.st(n).pc[t].Acquiring? && n <= m
    requires forall k :: n <= k < m ==> b.ev(k) != Acquire(t)
    ensures t in b.st(m).pc && b.st(m).pc[t].Acquiring?
    decreases m
  {
    if m > n {
      KeepsAcquiring(max_items, threads, b, t, n, m - 1);
      assert StepAt(max_items, b, m - 1);
    }
  }

  /** A producer that waits for the mutex gets it. */
  lemma GetsMutex(max_items: int, threads: set<Thread>, b: Behaviour, t: Thread, n: nat)
    requires IsBehaviour(max_items, threads, b) && Fair(b) && t in b.st(n).pc && b.st(n).pc[t].Acquiring?
    ensures EventuallyMade(b, Acquire(t), n)
  {
    assert AgainAndAgain(b, Acquire(t));
    if forall k :: n <= k ==> b.ev(k) != Acquire(t) {
      forall k: nat ensures EventuallyEnabled(b, Acquire(t), k) {
        var m := MutexIsFreed(max_items, threads, b, if n < k then k else n);
        KeepsAcquiring(max_items, threads, b, t, n, m);
        assert Enabled(b.st(m), Acquire(t));
      }
    }
  }

  /** In every fair run every call of SendMsgRequest, blocking or not, returns. */
  lemma EveryCallReturns(max_items: int, threads: set<Thread>, b: Behaviour, t: Thread, n: nat) returns (m: nat)
    requires IsBehaviour(max_items, threads, b) && Fair(b) && t in b.st(n).pc
    ensures n <= m && t in b.st(m).pc && b.st(m).pc[t].Idle?
  {
    hide Inv, Fair;
    AlwaysInv(max_items, threads, b, n);
    var k := n;
    if b.st(n).pc[t].Idle? {
      return n;
    }
    if b.st(n).pc[t].Acquiring? {
      GetsMutex(max_items, threads, b, t, n);
      var x :| n <= x && b.ev(x) == Acquire(t);
      assert StepAt(max_items, b, x);
      k := x + 1;
    } else {
      InvGivesMutex(max_items, b.st(n));
    }
    var y := OwnerReleases(max_items, threads, b, t, k);
    assert StepAt(max_items, b, y);
    ReleaseFrees(max_items, b, t, y);
    m := y + 1;
  }
}
