/** What the GUI gets over the channel of to_console.c is what the callers of SendMsgRequest handed in. */
module ChannelHistory {
  import opened ConsoleChannel
  import opened MessageQueue

  /** What an observer of the callers and of the length of the list writes down: the request of each caller's last call,
      the requests that found room in the list, in order, and how often each caller's request has found none. */
  datatype Log = Log(handed: map<Thread, Request>, pushed: seq<Request>, refused: map<Thread, nat>)

  const EMPTY := Log(map[], [], map[])

  ghost function NextLog(max_items: int, s: State, e: Step, g: Log): Log {
    match e
    case Call(t, r) => g.(handed := g.handed[t := r], refused := g.refused[t := 0])
    case TryToPush(t) =>
      if t !in g.handed || t !in g.refused then g
      else if |s.q.items| < max_items - 1 then g.(pushed := g.pushed + [g.handed[t]])
      else g.(refused := g.refused[t := g.refused[t] + 1])
    case _ => g
  }

  ghost function LogOf(max_items: int, s: State, es: seq<Step>, s': State, g: Log): Log
    requires IsRun(max_items, s, es, s')
    decreases |es|
  {
    if es == [] then g
    else LogOf(max_items, Next(max_items, s, es[0]), es[1..], s', NextLog(max_items, s, es[0], g))
  }

  /** Message m is the request r: its data, and its type with the flag exactly if it is blocking. */
  predicate Carries(m: Msg, r: Request) {
    m.data == r.data && m.kind == r.msgType + if r.blocking then 0x10000 else 0
  }

  ghost predicate CarriesAll(ms: seq<Msg>, rs: seq<Request>) {
    |ms| == |rs| && forall k :: 0 <= k < |ms| ==> ms[k].msg_id == k + 1 && Carries(ms[k], rs[k])
  }

  /** The message with the id is the request of the caller. */
  ghost predicate IsIts(id: int, t: Thread, g: Log) {
    0 < id <= |g.pushed| && t in g.handed && g.pushed[id - 1] == g.handed[t]
  }

  /** The producer works on the request it was handed, and knows how often it was refused. */
  ghost predicate WorksOn(p: Producer, t: Thread, g: Log) {
    match p
    case Acquiring(r) => t in g.handed && r == g.handed[t] && t in g.refused && g.refused[t] == 0
    case Emptying(r) => t in g.handed && r == g.handed[t] && t in g.refused && g.refused[t] == 0
    case Pushing(r, tries) => t in g.handed && r == g.handed[t] && t in g.refused && g.refused[t] == tries < 4
    case Waking(r, id) =>
      t in g.handed && r == g.handed[t] && t in g.refused && if id == 0 then g.refused[t] == 4 else IsIts(id, t, g)
    case AwaitingSent(id) => id != 0 ==> IsIts(id, t, g)
    case EmptyingAgain(id) => id != 0 ==> IsIts(id, t, g)
    case _ => true
  }

  ghost predicate LogInv(s: State, g: Log) {
    && CarriesAll(s.q.accepted, g.pushed)
    && (forall k :: 0 <= k < |g.pushed| ==> RequestOk(g.pushed[k]))
    && (forall t :: t in g.handed ==> RequestOk(g.handed[t]))
    && forall t :: t in s.pc ==> WorksOn(s.pc[t], t, g)
  }

  lemma CallLogInv(max_items: int, s: State, e: Step, g: Log)
    requires LogInv(s, g) && Enabled(s, e) && (e.Call? || e.Acquire? || e.SeeEmpty?)
    ensures LogInv(Next(max_items, s, e), NextLog(max_items, s, e, g))
  {
  }

  lemma PushLogInv(max_items: int, s: State, e: Step, g: Log)
    requires LogInv(s, g) && Enabled(s, e) && e.TryToPush?
    ensures LogInv(Next(max_items, s, e), NextLog(max_items, s, e, g))
  {
    hide RequestOk;
    var g' := NextLog(max_items, s, e, g);
    assert WorksOn(s.pc[e.t], e.t, g);
    forall t | t in s.pc && t != e.t ensures WorksOn(s.pc[t], t, g') {
      assert WorksOn(s.pc[t], t, g);
    }
  }

  lemma OtherLogInv(max_items: int, s: State, e: Step, g: Log)
    requires LogInv(s, g) && Enabled(s, e) && !e.Call? && !e.Acquire? && !e.SeeEmpty? && !e.TryToPush?
    ensures LogInv(Next(max_items, s, e), NextLog(max_items, s, e, g))
  {
    hide RequestOk, CarriesAll;
  }

  lemma NextLogInv(max_items: int, s: State, e: Step, g: Log)
    requires LogInv(s, g) && Enabled(s, e)
    ensures LogInv(Next(max_items, s, e), NextLog(max_items, s, e, g))
  {
    hide *;
    if e.Call? || e.Acquire? || e.SeeEmpty? {
      CallLogInv(max_items, s, e, g);
    } else if e.TryToPush? {
      PushLogInv(max_items, s, e, g);
    } else {
      OtherLogInv(max_items, s, e, g);
    }
  }

  lemma {:induction false} RunLogInv(max_items: int, s: State, es: seq<Step>, s': State, g: Log)
    requires IsRun(max_items, s, es, s') && LogInv(s, g)
    ensures LogInv(s', LogOf(max_items, s, es, s', g))
    decreases |es|
  {
    hide LogInv, NextLog, Next, Enabled;
    if es == [] {
    } else {
      NextLogInv(max_items, s, es[0], g);
      RunLogInv(max_items, Next(max_items, s, es[0]), es[1..], s', NextLog(max_items, s, es[0], g));
    }
  }

  /** In every run: the k-th message accepted by the list, and so the k-th that the GUI gets, has id k + 1 and carries
      the k-th request that found room, as its caller handed it in: the same data, the same type in the low 16 bits,
      flagged exactly if the caller waits. A caller that has waited for its message to be sent has waited for its own. A
      request is given up only after it has found no room four times. */
  lemma GuiGetsWhatWasHandedIn(max_items: int, threads: set<Thread>, es: seq<Step>, s: State)
    requires max_items >= 2 && IsRun(max_items, Init(threads), es, s)
    ensures var g := LogOf(max_items, Init(threads), es, s, EMPTY);
      && CarriesAll(s.q.accepted, g.pushed)
      && |s.sentToGui| <= |g.pushed|
      && (forall k :: 0 <= k < |s.sentToGui| ==>
            var m, r := s.sentToGui[k], g.pushed[k];
            && m.msg_id == k + 1 && m.data == r.data
            && m.kind % 0x10000 == r.msgType && (m.kind >= 0x10000 <==> r.blocking))
      && (forall t :: t in s.pc && s.pc[t].EmptyingAgain? ==>
            var id := s.pc[t].id; 0 < id <= |s.sentToGui| && t in g.handed && Carries(s.sentToGui[id - 1], g.handed[t]))
      && (forall t :: t in s.pc && s.pc[t].Waking? && s.pc[t].id == 0 ==> t in g.refused && g.refused[t] == 4)
  {
    hide IsRun, NextLog;
    assert Reachable(max_items, threads, s);
    ChannelSafety(max_items, threads, s);
    BlockingSends(max_items, threads, s);
    RunLogInv(max_items, Init(threads), es, s, EMPTY);
    assert forall k :: 0 <= k < |s.sentToGui| ==> s.sentToGui[k] == s.q.accepted[k];
  }
}
