/** tp_optimized.c: workers that share one bounded queue, a mutex and a condition
    variable. A step is what one thread does between taking the mutex and giving it
    up, so steps of any threads may follow one another in any order. Waiting follows
    pthread_cond_wait in POSIX.1: a signal wakes one waiting thread if there is one,
    a broadcast wakes all, and a thread may also wake up for no reason. */
module WorkerPool {
  import opened Wrappers
  import opened Queues

  datatype Phase =
    | Ready     // about to take the mutex
    | Waiting   // blocked on the condition variable
    | Notified  // woken up, about to look at the queue again
    | Serving(client: Client)  // in client_handling
    | Draining  // in the shutdown branch, emptying the queue
    | Exited

  datatype State = State(
    workers: seq<Phase>,
    shut: bool,
    queue: seq<Client>,
    accepted: seq<Client>,  // clients put in the queue
    rejected: seq<Client>,  // clients turned away, the queue being full
    taken: seq<Client>,     // clients taken out of the queue
    finished: seq<Client>,  // clients whose handling has ended
    closed: seq<Client>)    // clients closed unserved at shutdown

  datatype Step =
    | Arrive(client: Client, wake: nat)  // enqueue; the signal wakes this worker
    | Check(w: nat)                      // the head of the worker's loop
    | Spurious(w: nat)
    | Return(w: nat)                     // client_handling ends
    | Shutdown(w: nat)                   // a client asks for shutdown
    | Drain(w: nat)                      // one turn of the loop that empties the queue

  function Start(n: nat): (r: State) {
    State(seq(n, _ => Ready), false, [], [], [], [], [], [])
  }

  predicate Is(ws: seq<Phase>, w: nat, p: Phase) {
    w < |ws| && ws[w] == p
  }

  predicate Serves(ws: seq<Phase>, w: nat) {
    w < |ws| && ws[w].Serving?
  }

  ghost predicate Any(ws: seq<Phase>, p: Phase) {
    exists w :: Is(ws, w, p)
  }

  predicate Free(q: seq<Client>) {
    Room(Option.Some(QUEUE_SIZE), q)
  }

  ghost predicate Enabled(s: State, step: Step) {
    match step
    case Arrive(_, wake) => Free(s.queue) && Any(s.workers, Waiting) ==> Is(s.workers, wake, Waiting)
    case Check(w) => Is(s.workers, w, Ready) || Is(s.workers, w, Notified)
    case Spurious(w) => Is(s.workers, w, Waiting)
    case Return(w) => Serves(s.workers, w)
    case Shutdown(w) => Serves(s.workers, w)
    case Drain(w) => Is(s.workers, w, Draining)
  }

  /** pthread_cond_signal */
  function Signal(ws: seq<Phase>, wake: nat): (r: seq<Phase>)
    ensures |r| == |ws|
  {
    if Is(ws, wake, Waiting) then ws[wake := Notified] else ws
  }

  /** pthread_cond_broadcast */
  function Broadcast(ws: seq<Phase>): (r: seq<Phase>)
    ensures |r| == |ws|
  {
    seq(|ws|, i requires 0 <= i < |ws| => if ws[i] == Waiting then Notified else ws[i])
  }

  /** Worker w takes the oldest client and goes on in phase p. */
  function TakeOne(s: State, w: nat, p: Phase): (r: State)
    requires w < |s.workers| && s.queue != []
  {
    s.(workers := s.workers[w := p], queue := s.queue[1..], taken := s.taken + [s.queue[0]])
  }

  ghost function Next(s: State, step: Step): (r: State)
    requires Enabled(s, step)
  {
    match step
    case Arrive(c, wake) =>
      if Free(s.queue) then
        s.(queue := s.queue + [c], accepted := s.accepted + [c], workers := Signal(s.workers, wake))
      else s.(rejected := s.rejected + [c])
    case Check(w) =>
      if s.queue != [] then TakeOne(s, w, Serving(s.queue[0]))
      else s.(workers := s.workers[w := if s.shut then Exited else Waiting])
    case Spurious(w) => s.(workers := s.workers[w := Notified])
    case Return(w) => s.(workers := s.workers[w := Ready], finished := s.finished + [s.workers[w].client])
    case Shutdown(w) =>
      s.(workers := Broadcast(s.workers)[w := Draining],
         shut := true,
         finished := s.finished + [s.workers[w].client])
    case Drain(w) =>
      if s.queue != [] then TakeOne(s, w, Draining).(closed := s.closed + [s.queue[0]])
      else s.(workers := s.workers[w := Ready])
  }

  /** The state after a run of steps, each enabled where it is taken. */
  ghost function Run(s: State, steps: seq<Step>): (r: Option<State>) {
    if steps == [] then Option.Some(s)
    else
      match Run(s, steps[..|steps| - 1])
      case None => None
      case Some(t) => if Enabled(t, steps[|steps| - 1]) then Option.Some(Next(t, steps[|steps| - 1])) else None
  }

  ghost predicate Reachable(s: State) {
    exists n: nat, steps :: Run(Start(n), steps) == Option.Some(s)
  }

  // ---------- counting workers ----------

  function Sum(ws: seq<Phase>, f: Phase -> nat): (r: nat) {
    if ws == [] then 0 else Sum(ws[..|ws| - 1], f) + f(ws[|ws| - 1])
  }

  function OneIfNotified(p: Phase): (r: nat) {
    if p == Notified then 1 else 0
  }

  /** The workers woken up that have not looked at the queue since. */
  function NotifiedCount(ws: seq<Phase>): (r: nat) {
    Sum(ws, OneIfNotified)
  }

  lemma {:induction false} SumUpdate(ws: seq<Phase>, f: Phase -> nat, w: nat, p: Phase)
    requires w < |ws|
    ensures Sum(ws[w := p], f) == Sum(ws, f) - f(ws[w]) + f(p)
  {
    var init := ws[..|ws| - 1];
    if w < |init| {
      SumUpdate(init, f, w, p);
      assert ws[w := p][..|ws| - 1] == init[w := p];
    } else {
      assert ws[w := p][..|ws| - 1] == init;
    }
  }

  // ---------- what every step keeps ----------

  /** The invariant: while a worker is blocked, each queued client has a notified
      worker on its way; after shutdown nobody is blocked, before it nobody has left;
      and clients leave the queue in the order in which they were put in. */
  ghost predicate Invariant(s: State) {
    && (Any(s.workers, Waiting) ==> |s.queue| <= NotifiedCount(s.workers))
    && (s.shut ==> !Any(s.workers, Waiting))
    && (!s.shut ==> !Any(s.workers, Exited))
    && |s.queue| <= QUEUE_SIZE
    && s.accepted == s.taken + s.queue
  }

  lemma StartKeeps(n: nat)
    ensures Invariant(Start(n))
  {
    var s := Start(n);
    assert forall w, p :: Is(s.workers, w, p) ==> p == Ready;
  }

  lemma UpdateSome(ws: seq<Phase>, w: nat, p: Phase, q: Phase)
    requires w < |ws| && p != q && Any(ws[w := p], q)
    ensures Any(ws, q)
  {
    var v :| Is(ws[w := p], v, q);
    assert Is(ws, v, q);
  }

  lemma ArriveKeeps(s: State, c: Client, wake: nat)
    requires Invariant(s) && Enabled(s, Arrive(c, wake))
    ensures Invariant(Next(s, Arrive(c, wake)))
  {
    hide Sum;
    var t := Next(s, Arrive(c, wake));
    if Is(s.workers, wake, Waiting) {
      SumUpdate(s.workers, OneIfNotified, wake, Notified);
      if Any(t.workers, Waiting) && t.workers != s.workers {
        UpdateSome(s.workers, wake, Notified, Waiting);
      }
      if Any(t.workers, Exited) && t.workers != s.workers {
        UpdateSome(s.workers, wake, Notified, Exited);
      }
    }
  }

  lemma CheckKeeps(s: State, w: nat)
    requires Invariant(s) && Enabled(s, Check(w))
    ensures Invariant(Next(s, Check(w)))
  {
    hide Sum;
    var t := Next(s, Check(w));
    var p := if s.queue != [] then Serving(s.queue[0]) else if s.shut then Exited else Waiting;
    SumUpdate(s.workers, OneIfNotified, w, p);
    if p != Waiting && Any(t.workers, Waiting) {
      UpdateSome(s.workers, w, p, Waiting);
    }
    if p != Exited && Any(t.workers, Exited) {
      UpdateSome(s.workers, w, p, Exited);
    }
  }

  lemma SpuriousKeeps(s: State, w: nat)
    requires Invariant(s) && Enabled(s, Spurious(w))
    ensures Invariant(Next(s, Spurious(w)))
  {
    hide Sum;
    MoveKeeps(s, w, Notified);
  }

  /** A worker may be put in any phase that is neither Waiting nor Exited, if it was
      not notified before. */
  lemma MoveKeeps(s: State, w: nat, p: Phase)
    requires Invariant(s) && w < |s.workers| && s.workers[w] != Notified && p != Waiting && p != Exited
    ensures Invariant(s.(workers := s.workers[w := p]))
  {
    hide Sum;
    var t := s.(workers := s.workers[w := p]);
    SumUpdate(s.workers, OneIfNotified, w, p);
    if Any(t.workers, Waiting) {
      UpdateSome(s.workers, w, p, Waiting);
    }
    if Any(t.workers, Exited) {
      UpdateSome(s.workers, w, p, Exited);
    }
  }

  lemma ReturnKeeps(s: State, w: nat)
    requires Invariant(s) && Enabled(s, Return(w))
    ensures Invariant(Next(s, Return(w)))
  {
    hide Sum;
    MoveKeeps(s, w, Ready);
  }

  lemma ShutdownKeeps(s: State, w: nat)
    requires Invariant(s) && Enabled(s, Shutdown(w))
    ensures Invariant(Next(s, Shutdown(w)))
  {
    hide Sum;
    var t := Next(s, Shutdown(w));
    assert forall v :: !Is(t.workers, v, Waiting);
  }

  lemma DrainKeeps(s: State, w: nat)
    requires Invariant(s) && Enabled(s, Drain(w))
    ensures Invariant(Next(s, Drain(w)))
  {
    hide Sum;
    if s.queue == [] {
      MoveKeeps(s, w, Ready);
    } else {
      assert s.workers[w := Draining] == s.workers;
    }
  }

  lemma StepKeeps(s: State, step: Step)
    requires Invariant(s) && Enabled(s, step)
    ensures Invariant(Next(s, step))
  {
    hide Invariant;
    match step
    case Arrive(c, wake) => ArriveKeeps(s, c, wake);
    case Check(w) => CheckKeeps(s, w);
    case Spurious(w) => SpuriousKeeps(s, w);
    case Return(w) => ReturnKeeps(s, w);
    case Shutdown(w) => ShutdownKeeps(s, w);
    case Drain(w) => DrainKeeps(s, w);
  }

  lemma {:induction false} RunKeeps(s: State, steps: seq<Step>)
    requires Invariant(s) && Run(s, steps).Some?
    ensures Invariant(Run(s, steps).value)
  {
    hide Invariant, Next, Enabled;
    if steps != [] {
      RunKeeps(s, steps[..|steps| - 1]);
      StepKeeps(Run(s, steps[..|steps| - 1]).value, steps[|steps| - 1]);
    }
  }

  lemma ReachableKeeps(s: State)
    requires Reachable(s)
    ensures Invariant(s)
  {
    hide Invariant, Next, Enabled;
    var n: nat, steps :| Run(Start(n), steps) == Option.Some(s);
    StartKeeps(n);
    RunKeeps(Start(n), steps);
  }

  /** No wake-up is lost. */
  lemma NoLostWakeup(s: State)
    requires Reachable(s) && Any(s.workers, Waiting)
    ensures |s.queue| <= |set w | 0 <= w < |s.workers| && s.workers[w] == Notified|
  {
    ReachableKeeps(s);
    NotifiedSet(s.workers);
  }

  lemma {:induction false} NotifiedSet(ws: seq<Phase>)
    ensures NotifiedCount(ws) == |set w | 0 <= w < |ws| && ws[w] == Notified|
  {
    if ws != [] {
      var init, n := ws[..|ws| - 1], |ws| - 1;
      NotifiedSet(init);
      var all := set w | 0 <= w < |ws| && ws[w] == Notified;
      var before := set w | 0 <= w < |init| && init[w] == Notified;
      assert n !in before;
      if ws[n] == Notified {
        assert all == before + {n};
      } else {
        assert all == before;
      }
    }
  }

  /** After shutdown nobody is blocked, and nobody leaves before it. */
  lemma ShutdownSafety(s: State)
    requires Reachable(s)
    ensures s.shut ==> !Any(s.workers, Waiting)
    ensures !s.shut ==> !Any(s.workers, Exited)
  {
    ReachableKeeps(s);
  }

  // ---------- clients ----------

  function Arrived(steps: seq<Step>): (r: seq<Client>) {
    if steps == [] then []
    else Arrived(steps[..|steps| - 1]) + Arrival(steps[|steps| - 1])
  }

  function Arrival(step: Step): (r: seq<Client>) {
    match step case Arrive(c, _) => [c] case _ => []
  }

  lemma ClientStep(s: State, step: Step)
    requires Enabled(s, step)
    ensures var t := Next(s, step);
            multiset(t.accepted) + multiset(t.rejected) ==
            multiset(s.accepted) + multiset(s.rejected) + multiset(Arrival(step))
    ensures !step.Arrive? ==> Next(s, step).accepted == s.accepted
  {
    hide Signal, Broadcast;
  }

  /** A client that arrives is let in exactly when fewer than 1024 are waiting, and
      then it waits behind them. */
  lemma ArrivalAccepted(s: State, c: Client, wake: nat)
    requires Enabled(s, Arrive(c, wake))
    ensures var t := Next(s, Arrive(c, wake));
            if |s.queue| < 1024 then
              t.queue == s.queue + [c] && t.accepted == s.accepted + [c] && t.rejected == s.rejected
            else t.queue == s.queue && t.accepted == s.accepted && t.rejected == s.rejected + [c]
  {
  }

  /** The clients in the hands of workers. */
  function InService(ws: seq<Phase>): (r: multiset<Client>) {
    if ws == [] then multiset{} else InService(ws[..|ws| - 1]) + Held(ws[|ws| - 1])
  }

  function Held(p: Phase): (r: multiset<Client>) {
    match p case Serving(c) => multiset{c} case _ => multiset{}
  }

  lemma Swap(a: multiset<Client>, b: multiset<Client>, c: multiset<Client>)
    ensures a + b + c == a + c + b
  {
  }

  lemma {:induction false} InServiceUpdate(ws: seq<Phase>, w: nat, p: Phase)
    requires w < |ws|
    ensures InService(ws[w := p]) + Held(ws[w]) == InService(ws) + Held(p)
  {
    hide Held;
    var init, last := ws[..|ws| - 1], ws[|ws| - 1];
    if w < |init| {
      InServiceUpdate(init, w, p);
      assert ws[w := p][..|ws| - 1] == init[w := p];
      Swap(InService(init[w := p]), Held(last), Held(ws[w]));
      Swap(InService(init), Held(last), Held(p));
    } else {
      assert ws[w := p][..|ws| - 1] == init;
      Swap(InService(init), Held(p), Held(last));
    }
  }

  lemma BroadcastHolds(p: Phase)
    ensures Held(if p == Waiting then Notified else p) == Held(p)
  {
  }

  lemma {:induction false} InServiceBroadcast(ws: seq<Phase>)
    ensures InService(Broadcast(ws)) == InService(ws)
  {
    hide Held;
    if ws != [] {
      BroadcastHolds(ws[|ws| - 1]);
      InServiceBroadcast(ws[..|ws| - 1]);
      assert Broadcast(ws)[..|ws| - 1] == Broadcast(ws[..|ws| - 1]);
    }
  }

  /** Each client taken is with a worker, or its handling has ended, or it has been
      closed at shutdown. */
  ghost predicate Accounted(s: State) {
    multiset(s.taken) == InService(s.workers) + multiset(s.finished) + multiset(s.closed)
  }

  /** A worker that is not serving takes on c. */
  lemma TakesOn(ws: seq<Phase>, w: nat, c: Client)
    requires w < |ws| && !ws[w].Serving?
    ensures InService(ws[w := Serving(c)]) == InService(ws) + multiset{c}
  {
    hide InService;
    InServiceUpdate(ws, w, Serving(c));
    assert InService(ws[w := Serving(c)]) + multiset{} == InService(ws[w := Serving(c)]);
  }

  /** A worker that is serving goes on to something else. */
  lemma LetsGo(ws: seq<Phase>, w: nat, p: Phase)
    requires w < |ws| && ws[w].Serving? && !p.Serving?
    ensures InService(ws[w := p]) + multiset{ws[w].client} == InService(ws)
  {
    hide InService;
    InServiceUpdate(ws, w, p);
    assert InService(ws) + multiset{} == InService(ws);
  }

  /** A worker that is not serving goes on to something that is not serving. */
  lemma HoldsNone(ws: seq<Phase>, w: nat, p: Phase)
    requires w < |ws| && !ws[w].Serving? && !p.Serving?
    ensures InService(ws[w := p]) == InService(ws)
  {
    hide InService;
    InServiceUpdate(ws, w, p);
    assert InService(ws) + multiset{} == InService(ws);
    assert InService(ws[w := p]) + multiset{} == InService(ws[w := p]);
  }

  lemma ArriveAccounts(s: State, c: Client, wake: nat)
    requires Accounted(s) && Enabled(s, Arrive(c, wake))
    ensures Accounted(Next(s, Arrive(c, wake)))
  {
    hide InService;
    if Is(s.workers, wake, Waiting) {
      HoldsNone(s.workers, wake, Notified);
    }
  }

  lemma CheckAccounts(s: State, w: nat)
    requires Accounted(s) && Enabled(s, Check(w))
    ensures Accounted(Next(s, Check(w)))
  {
    hide InService;
    if s.queue != [] {
      var c := s.queue[0];
      TakesOn(s.workers, w, c);
      assert multiset(s.taken + [c]) == multiset(s.taken) + multiset{c};
      Handed(InService(s.workers), multiset(s.finished), multiset(s.closed), multiset{c});
    } else {
      HoldsNone(s.workers, w, if s.shut then Exited else Waiting);
    }
  }

  lemma Handed(b: multiset<Client>, f: multiset<Client>, cl: multiset<Client>, x: multiset<Client>)
    ensures b + f + cl + x == b + x + f + cl == b + (f + x) + cl == b + f + (cl + x)
  {
  }

  lemma EndAccounts(s: State, w: nat, ws: seq<Phase>, p: Phase)
    requires Accounted(s) && Serves(s.workers, w) && !p.Serving?
    requires |ws| == |s.workers| && ws[w] == s.workers[w] && InService(ws) == InService(s.workers)
    ensures multiset(s.taken) ==
            InService(ws[w := p]) + multiset(s.finished + [s.workers[w].client]) + multiset(s.closed)
  {
    hide InService;
    var c := s.workers[w].client;
    LetsGo(ws, w, p);
    assert multiset(s.finished + [c]) == multiset(s.finished) + multiset{c};
    Handed(InService(ws[w := p]), multiset(s.finished), multiset(s.closed), multiset{c});
  }

  lemma ReturnAccounts(s: State, w: nat)
    requires Accounted(s) && Enabled(s, Return(w))
    ensures Accounted(Next(s, Return(w)))
  {
    hide InService;
    EndAccounts(s, w, s.workers, Ready);
  }

  lemma ShutdownAccounts(s: State, w: nat)
    requires Accounted(s) && Enabled(s, Shutdown(w))
    ensures Accounted(Next(s, Shutdown(w)))
  {
    hide InService;
    InServiceBroadcast(s.workers);
    EndAccounts(s, w, Broadcast(s.workers), Draining);
  }

  lemma DrainAccounts(s: State, w: nat)
    requires Accounted(s) && Enabled(s, Drain(w))
    ensures Accounted(Next(s, Drain(w)))
  {
    hide InService;
    HoldsNone(s.workers, w, if s.queue == [] then Ready else Draining);
    if s.queue != [] {
      var c := s.queue[0];
      assert multiset(s.taken + [c]) == multiset(s.taken) + multiset{c};
      assert multiset(s.closed + [c]) == multiset(s.closed) + multiset{c};
      Handed(InService(s.workers), multiset(s.finished), multiset(s.closed), multiset{c});
    }
  }

  lemma SpuriousAccounts(s: State, w: nat)
    requires Accounted(s) && Enabled(s, Spurious(w))
    ensures Accounted(Next(s, Spurious(w)))
  {
    hide InService;
    HoldsNone(s.workers, w, Notified);
  }

  lemma StepAccounts(s: State, step: Step)
    requires Accounted(s) && Enabled(s, step)
    ensures Accounted(Next(s, step))
  {
    hide Accounted;
    match step
    case Arrive(c, wake) => ArriveAccounts(s, c, wake);
    case Check(w) => CheckAccounts(s, w);
    case Spurious(w) => SpuriousAccounts(s, w);
    case Return(w) => ReturnAccounts(s, w);
    case Shutdown(w) => ShutdownAccounts(s, w);
    case Drain(w) => DrainAccounts(s, w);
  }

  lemma {:induction false} RunAccounts(s: State, steps: seq<Step>)
    requires Accounted(s) && Run(s, steps).Some?
    ensures Accounted(Run(s, steps).value)
  {
    hide Accounted, Next, Enabled;
    if steps != [] {
      RunAccounts(s, steps[..|steps| - 1]);
      StepAccounts(Run(s, steps[..|steps| - 1]).value, steps[|steps| - 1]);
    }
  }

  lemma {:induction false} NobodyHolds(ws: seq<Phase>)
    requires forall w :: 0 <= w < |ws| ==> !ws[w].Serving?
    ensures InService(ws) == multiset{}
  {
    if ws != [] {
      NobodyHolds(ws[..|ws| - 1]);
    }
  }

  // ---------- counting steps ----------

  function Steps(steps: seq<Step>, f: Step -> bool): (r: nat) {
    if steps == [] then 0 else Steps(steps[..|steps| - 1], f) + if f(steps[|steps| - 1]) then 1 else 0
  }

  predicate IsReturn(step: Step) { step.Return? }

  predicate IsShutdown(step: Step) { step.Shutdown? }

  predicate IsDrain(step: Step) { step.Drain? }

  function OneIfDraining(p: Phase): (r: nat) {
    if p == Draining then 1 else 0
  }

  /** A handling ends by a return or a shutdown; each turn of a drain closes a client,
      except the last of each shutdown. */
  ghost predicate Tallied(s: State, steps: seq<Step>) {
    && |s.finished| == Steps(steps, IsReturn) + Steps(steps, IsShutdown)
    && |s.closed| + Steps(steps, IsShutdown) == Steps(steps, IsDrain) + Sum(s.workers, OneIfDraining)
  }

  lemma StepTallies(s: State, steps: seq<Step>, step: Step)
    requires Tallied(s, steps) && Enabled(s, step)
    ensures Tallied(Next(s, step), steps + [step])
  {
    hide Sum;
    assert (steps + [step])[..|steps|] == steps;
    match step
    case Arrive(_, wake) =>
      if Is(s.workers, wake, Waiting) {
        SumUpdate(s.workers, OneIfDraining, wake, Notified);
      }
    case Shutdown(w) =>
      DrainingBroadcast(s.workers);
      SumUpdate(Broadcast(s.workers), OneIfDraining, w, Draining);
      assert Broadcast(s.workers)[w] == s.workers[w];
    case _ =>
      SumUpdate(s.workers, OneIfDraining, step.w, Next(s, step).workers[step.w]);
  }

  lemma {:induction false} DrainingBroadcast(ws: seq<Phase>)
    ensures Sum(Broadcast(ws), OneIfDraining) == Sum(ws, OneIfDraining)
  {
    if ws != [] {
      DrainingBroadcast(ws[..|ws| - 1]);
      assert Broadcast(ws)[..|ws| - 1] == Broadcast(ws[..|ws| - 1]);
    }
  }

  lemma StartAccounts(n: nat)
    ensures Accounted(Start(n)) && Tallied(Start(n), [])
  {
    NobodyServed(Start(n).workers);
  }

  lemma {:induction false} NobodyServed(ws: seq<Phase>)
    requires forall w :: 0 <= w < |ws| ==> ws[w] == Ready
    ensures InService(ws) == multiset{} && Sum(ws, OneIfDraining) == 0
  {
    if ws != [] {
      NobodyServed(ws[..|ws| - 1]);
    }
  }

  /** Every client that arrives is turned away or accepted; accepted clients are taken
      in their order, each once, or are still in the queue; and each that is taken is
      with a worker, has been handled to the end, or was closed at shutdown. */
  lemma {:induction false} EveryClientOnce(n: nat, steps: seq<Step>)
    requires Run(Start(n), steps).Some?
    ensures var s := Run(Start(n), steps).value;
            && multiset(Arrived(steps)) == multiset(s.accepted) + multiset(s.rejected)
            && s.accepted == s.taken + s.queue
            && multiset(s.taken) == InService(s.workers) + multiset(s.finished) + multiset(s.closed)
  {
    hide Enabled, Invariant, Next, Arrival, InService;
    StartKeeps(n);
    StartAccounts(n);
    RunKeeps(Start(n), steps);
    InOrder(Run(Start(n), steps).value);
    if steps != [] {
      EveryClientOnce(n, steps[..|steps| - 1]);
      var t := Run(Start(n), steps[..|steps| - 1]).value;
      ClientStep(t, steps[|steps| - 1]);
      StepAccounts(t, steps[|steps| - 1]);
    }
  }

  lemma {:induction false} RunTallies(n: nat, steps: seq<Step>)
    requires Run(Start(n), steps).Some?
    ensures Tallied(Run(Start(n), steps).value, steps)
  {
    hide Enabled, Next, Tallied;
    StartAccounts(n);
    if steps != [] {
      var init, last := steps[..|steps| - 1], steps[|steps| - 1];
      RunTallies(n, init);
      StepTallies(Run(Start(n), init).value, init, last);
      assert init + [last] == steps;
    }
  }

  /** So, counting steps only: as many clients are taken as there have been returns and
      drain turns and there are workers serving or draining. Without a shutdown each
      client taken is being served or its worker has returned. */
  lemma {:induction false} TakenClientsServed(n: nat, steps: seq<Step>)
    requires Run(Start(n), steps).Some?
    ensures var s := Run(Start(n), steps).value;
            && |s.taken| == Steps(steps, IsReturn) + Steps(steps, IsDrain)
                            + |InService(s.workers)| + Sum(s.workers, OneIfDraining)
            && |s.finished| == Steps(steps, IsReturn) + Steps(steps, IsShutdown)
            && (Steps(steps, IsShutdown) == 0 ==>
                 s.closed == [] && |s.taken| == Steps(steps, IsReturn) + |InService(s.workers)|)
  {
    hide Enabled, Next, InService, Run, Steps, Sum;
    var s := Run(Start(n), steps).value;
    EveryClientOnce(n, steps);
    RunTallies(n, steps);
    assert |multiset(s.taken)| == |InService(s.workers)| + |s.finished| + |s.closed|;
    if Steps(steps, IsShutdown) == 0 {
      NoDrainWithoutShutdown(n, steps);
    }
  }

  lemma {:induction false} NoDrainWithoutShutdown(n: nat, steps: seq<Step>)
    requires Run(Start(n), steps).Some? && Steps(steps, IsShutdown) == 0
    ensures Steps(steps, IsDrain) == 0 && !Any(Run(Start(n), steps).value.workers, Draining)
    ensures Sum(Run(Start(n), steps).value.workers, OneIfDraining) == 0
  {
    if steps == [] {
      NobodyServed(Start(n).workers);
      assert forall w, p :: Is(Start(n).workers, w, p) ==> p == Ready;
    } else {
      var init := steps[..|steps| - 1];
      NoDrainWithoutShutdown(n, init);
      NobodyDrains(Run(Start(n), init).value, steps[|steps| - 1]);
    }
  }

  lemma NobodyDrains(s: State, step: Step)
    requires Enabled(s, step) && !step.Shutdown? && !Any(s.workers, Draining)
    ensures !step.Drain? && !Any(Next(s, step).workers, Draining)
    ensures Sum(Next(s, step).workers, OneIfDraining) == Sum(s.workers, OneIfDraining)
  {
    hide Sum;
    assert step.Drain? ==> Is(s.workers, step.w, Draining);
    var t := Next(s, step);
    match step {
      case Arrive(_, wake) =>
        if Is(s.workers, wake, Waiting) {
          SumUpdate(s.workers, OneIfDraining, wake, Notified);
        }
      case Check(w) => SumUpdate(s.workers, OneIfDraining, w, t.workers[w]);
      case Spurious(w) => SumUpdate(s.workers, OneIfDraining, w, Notified);
      case Return(w) => SumUpdate(s.workers, OneIfDraining, w, Ready);
      case Drain(_) =>
      case Shutdown(_) =>
    }
    forall v ensures !Is(t.workers, v, Draining) {
      assert !Is(s.workers, v, Draining);
    }
  }

  lemma InOrder(s: State)
    requires Invariant(s)
    ensures s.accepted == s.taken + s.queue
  {
  }

  // ---------- what may happen ----------

  /** What a worker may do next depends on its phase alone, and any blocked worker may
      be the one that an arriving client wakes. */
  lemma WhatMayHappen(s: State, w: nat, c: Client)
    requires w < |s.workers|
    ensures Enabled(s, Check(w)) <==> s.workers[w] == Ready || s.workers[w] == Notified
    ensures Enabled(s, Spurious(w)) <==> s.workers[w] == Waiting
    ensures Enabled(s, Return(w)) <==> s.workers[w].Serving?
    ensures Enabled(s, Shutdown(w)) <==> s.workers[w].Serving?
    ensures Enabled(s, Drain(w)) <==> s.workers[w] == Draining
    ensures s.workers[w] == Waiting ==> Enabled(s, Arrive(c, w))
  {
  }

  /** A client may arrive at any time. */
  lemma MayArrive(s: State, c: Client) returns (wake: nat)
    ensures Enabled(s, Arrive(c, wake))
  {
    if Any(s.workers, Waiting) {
      wake :| Is(s.workers, wake, Waiting);
    } else {
      wake := 0;
    }
  }

  /** A worker that drains the queue goes back to its loop only once it has found the
      queue empty. */
  lemma {:induction false} DrainerEmpties(s: State, steps: seq<Step>, w: nat)
    requires Is(s.workers, w, Draining) && Run(s, steps).Some?
    requires !Is(Run(s, steps).value.workers, w, Draining)
    ensures exists k :: 0 <= k < |steps| && Run(s, steps[..k]).Some? && Run(s, steps[..k]).value.queue == []
  {
    var init, last := steps[..|steps| - 1], steps[|steps| - 1];
    var t := Run(s, init).value;
    if Is(t.workers, w, Draining) {
      LeavesDraining(t, last, w);
    } else {
      DrainerEmpties(s, init, w);
      var k :| 0 <= k < |init| && Run(s, init[..k]).Some? && Run(s, init[..k]).value.queue == [];
      assert init[..k] == steps[..k];
    }
  }

  lemma LeavesDraining(s: State, step: Step, w: nat)
    requires Is(s.workers, w, Draining) && Enabled(s, step) && !Is(Next(s, step).workers, w, Draining)
    ensures s.queue == []
  {
  }

  // ---------- progress ----------

  /** The steps of a worker in its own loop. */
  predicate Work(step: Step) {
    step.Check? || step.Return? || step.Drain?
  }

  ghost predicate Busy(s: State) {
    exists step :: Work(step) && Enabled(s, step)
  }

  predicate Idle(p: Phase) {
    p == Waiting || p == Exited
  }

  /** The pool stands still exactly when every worker is blocked or gone: all blocked
      before shutdown, with nothing in the queue, and all gone after it. So a client
      in the queue is never stranded while a worker is left. */
  lemma StandsStill(s: State)
    requires Reachable(s)
    ensures !Busy(s) <==> forall w :: 0 <= w < |s.workers| ==> s.workers[w] == if s.shut then Exited else Waiting
    ensures !Busy(s) && !s.shut && s.workers != [] ==> s.queue == []
  {
    hide Invariant;
    ReachableKeeps(s);
    Still(s);
  }

  lemma Still(s: State)
    requires Invariant(s)
    ensures !Busy(s) <==> forall w :: 0 <= w < |s.workers| ==> s.workers[w] == if s.shut then Exited else Waiting
    ensures !Busy(s) && !s.shut && s.workers != [] ==> s.queue == []
  {
    hide Sum;
    forall w | 0 <= w < |s.workers| ensures s.workers[w] == (if s.shut then Exited else Waiting) || Busy(s) {
      var p := s.workers[w];
      assert Is(s.workers, w, p);
      var step := if p.Serving? then Return(w) else if p == Draining then Drain(w) else Check(w);
      assert !Idle(p) ==> Work(step) && Enabled(s, step);
    }
    if !Busy(s) && !s.shut && s.workers != [] {
      assert Is(s.workers, 0, Waiting);
      NoneNotified(s.workers);
    }
  }

  lemma {:induction false} NoneNotified(ws: seq<Phase>)
    requires forall w :: 0 <= w < |ws| ==> ws[w] == Waiting
    ensures NotifiedCount(ws) == 0
  {
    if ws != [] {
      NoneNotified(ws[..|ws| - 1]);
    }
  }

  function Weight(p: Phase): (r: nat) {
    match p
    case Serving(_) => 3
    case Draining => 2
    case Ready => 1
    case Notified => 1
    case Waiting => 0
    case Exited => 0
  }

  /** The work in the pool. */
  function Measure(s: State): (r: nat) {
    3 * |s.queue| + Sum(s.workers, Weight)
  }

  /** The most that a step from outside a worker's loop can add to the measure. */
  function Credit(workers: nat, step: Step): (r: nat) {
    match step
    case Arrive(_, _) => 4
    case Spurious(_) => 1
    case Shutdown(_) => workers
    case _ => 0
  }

  /** Every step of a worker uses up some of the work. */
  lemma WorkFalls(s: State, step: Step)
    requires Work(step) && Enabled(s, step)
    ensures Measure(Next(s, step)) < Measure(s) && |Next(s, step).workers| == |s.workers|
  {
    hide Sum;
    var w := step.w;
    SumUpdate(s.workers, Weight, w, Next(s, step).workers[w]);
  }

  lemma {:induction false} BroadcastWeight(ws: seq<Phase>)
    ensures Sum(Broadcast(ws), Weight) <= Sum(ws, Weight) + |ws|
  {
    if ws != [] {
      BroadcastWeight(ws[..|ws| - 1]);
      assert Broadcast(ws)[..|ws| - 1] == Broadcast(ws[..|ws| - 1]);
    }
  }

  lemma NobodyToWake(ws: seq<Phase>)
    requires !Any(ws, Waiting)
    ensures Broadcast(ws) == ws
  {
    forall i: nat | i < |ws| ensures Broadcast(ws)[i] == ws[i] {
      assert !Is(ws, i, Waiting);
    }
  }

  lemma CreditEnough(s: State, step: Step)
    requires !Work(step) && Enabled(s, step)
    ensures Measure(Next(s, step)) <= Measure(s) + Credit(|s.workers|, step)
    ensures |Next(s, step).workers| == |s.workers|
    ensures step.Shutdown? && !Any(s.workers, Waiting) ==> Measure(Next(s, step)) < Measure(s)
  {
    hide Sum;
    match step
    case Arrive(_, wake) =>
      if Is(s.workers, wake, Waiting) {
        SumUpdate(s.workers, Weight, wake, Notified);
      }
    case Spurious(w) => SumUpdate(s.workers, Weight, w, Notified);
    case Shutdown(w) =>
      BroadcastWeight(s.workers);
      SumUpdate(Broadcast(s.workers), Weight, w, Draining);
      if !Any(s.workers, Waiting) {
        NobodyToWake(s.workers);
      }
    case _ =>
  }

  function WorkSteps(steps: seq<Step>): (r: nat) {
    if steps == [] then 0
    else WorkSteps(steps[..|steps| - 1]) + if Work(steps[|steps| - 1]) then 1 else 0
  }

  function Credits(workers: nat, steps: seq<Step>): (r: nat) {
    if steps == [] then 0
    else Credits(workers, steps[..|steps| - 1]) + Credit(workers, steps[|steps| - 1])
  }

  /** In any run at all the workers' own steps are bounded by the work there was, four
      for each arrival, one for each spurious wake-up and one a worker for each
      shutdown: no worker spins. */
  lemma {:induction false} WorkIsBounded(s: State, steps: seq<Step>)
    requires Run(s, steps).Some?
    ensures |Run(s, steps).value.workers| == |s.workers|
    ensures WorkSteps(steps) + Measure(Run(s, steps).value) <= Measure(s) + Credits(|s.workers|, steps)
  {
    hide Enabled, Next, Measure, Credit, Work;
    if steps != [] {
      var init, last := steps[..|steps| - 1], steps[|steps| - 1];
      WorkIsBounded(s, init);
      var t := Run(s, init).value;
      if Work(last) {
        WorkFalls(t, last);
      } else {
        CreditEnough(t, last);
      }
    }
  }

  // ---------- shutdown ----------

  predicate NoArrival(steps: seq<Step>) {
    forall i :: 0 <= i < |steps| ==> !steps[i].Arrive?
  }

  /** Once shut, without arrivals: every step uses up some of the work. */
  lemma ShutStepFalls(s: State, step: Step)
    requires Invariant(s) && s.shut && Enabled(s, step) && !step.Arrive?
    ensures Measure(Next(s, step)) < Measure(s) && Next(s, step).shut
  {
    hide Sum, Measure;
    if Work(step) {
      WorkFalls(s, step);
    } else {
      CreditEnough(s, step);
    }
  }

  /** So a shutdown is over after at most Measure steps, in whatever order they come.
      When no worker has a step left they have all exited. */
  lemma {:induction false} ShutdownEnds(s: State, steps: seq<Step>)
    requires Invariant(s) && s.shut && NoArrival(steps) && Run(s, steps).Some?
    ensures Run(s, steps).value.shut
    ensures |steps| + Measure(Run(s, steps).value) <= Measure(s)
  {
    hide Enabled, Next, Measure, Invariant;
    if steps != [] {
      var init, last := steps[..|steps| - 1], steps[|steps| - 1];
      ShutdownEnds(s, init);
      RunKeeps(s, init);
      ShutStepFalls(Run(s, init).value, last);
    }
  }

  /** Who leaves, leaves nothing behind. */
  ghost predicate LeftEmpty(s: State) {
    Any(s.workers, Exited) ==> s.queue == []
  }

  lemma LeftEmptyStep(s: State, step: Step)
    requires LeftEmpty(s) && Enabled(s, step) && !step.Arrive?
    ensures LeftEmpty(Next(s, step))
  {
    var t := Next(s, step);
    if v :| Is(t.workers, v, Exited) {
      if v == step.w {
        assert t.queue == [];
      } else {
        assert Is(s.workers, v, Exited);
      }
    }
  }

  lemma {:induction false} LeftEmptyRun(s: State, steps: seq<Step>)
    requires LeftEmpty(s) && NoArrival(steps) && Run(s, steps).Some?
    ensures LeftEmpty(Run(s, steps).value)
  {
    hide Enabled, Next, LeftEmpty;
    if steps != [] {
      LeftEmptyRun(s, steps[..|steps| - 1]);
      LeftEmptyStep(Run(s, steps[..|steps| - 1]).value, steps[|steps| - 1]);
    }
  }

  lemma {:induction false} NobodyEnters(s: State, steps: seq<Step>)
    requires NoArrival(steps) && Run(s, steps).Some?
    ensures Run(s, steps).value.accepted == s.accepted
    ensures |Run(s, steps).value.workers| == |s.workers|
  {
    hide Enabled, Next;
    WorkIsBounded(s, steps);
    if steps != [] {
      NobodyEnters(s, steps[..|steps| - 1]);
      ClientStep(Run(s, steps[..|steps| - 1]).value, steps[|steps| - 1]);
    }
  }

  lemma FirstShutdown(s: State, w: nat)
    requires Invariant(s) && !s.shut && Enabled(s, Shutdown(w))
    ensures var t := Next(s, Shutdown(w));
            t.shut && LeftEmpty(t) && t.accepted == s.accepted && t.workers != []
  {
    var t := Next(s, Shutdown(w));
    assert forall v :: Is(t.workers, v, Exited) ==> Is(s.workers, v, Exited);
  }

  lemma ReachableAccounts(s: State)
    requires Reachable(s)
    ensures Accounted(s)
  {
    hide Accounted, Next, Enabled;
    var n: nat, steps :| Run(Start(n), steps) == Option.Some(s);
    StartAccounts(n);
    RunAccounts(Start(n), steps);
  }

  /** A shutdown after which nobody arrives, run until no worker has a step left: all
      workers have exited, and every client ever accepted has been handled to the end
      or closed. */
  lemma ShutdownCompletes(s: State, w: nat, steps: seq<Step>)
    requires Reachable(s) && !s.shut && Enabled(s, Shutdown(w)) && NoArrival(steps)
    requires Run(Next(s, Shutdown(w)), steps).Some? && !Busy(Run(Next(s, Shutdown(w)), steps).value)
    ensures var t := Run(Next(s, Shutdown(w)), steps).value;
            && (forall v :: 0 <= v < |t.workers| ==> t.workers[v] == Exited)
            && t.queue == [] && t.taken == t.accepted == s.accepted
            && multiset(t.accepted) == multiset(t.finished) + multiset(t.closed)
  {
    hide Run, Next, Enabled, Busy, Invariant, Reachable, NoArrival, InService;
    ReachableKeeps(s);
    ReachableAccounts(s);
    var first := Next(s, Shutdown(w));
    StepKeeps(s, Shutdown(w));
    StepAccounts(s, Shutdown(w));
    FirstShutdown(s, w);
    var t := Run(first, steps).value;
    RunKeeps(first, steps);
    RunAccounts(first, steps);
    ShutdownEnds(first, steps);
    LeftEmptyRun(first, steps);
    NobodyEnters(first, steps);
    Still(t);
    assert Is(t.workers, 0, Exited);
    InOrder(t);
    NobodyHolds(t.workers);
    assert multiset{} + multiset(t.finished) == multiset(t.finished);
  }
}
