/** What the history of a session says about its outcome, and which histories there
    are. */
module SessionRuns {
  import opened Wrappers
  import opened FileSession
  import opened SessionProtocol

  // ---------- who joined, and who was counted ----------

  lemma JoinsNext(steps: seq<Step>, step: Step)
    ensures Joins(steps + [step]) == Joins(steps) + if step.Join? then 1 else 0
  {
    assert (steps + [step])[..|steps|] == steps;
  }

  /** What a step does to the connections and to the count. */
  lemma StepCounts(r: Session, s: State, step: Step)
    requires Enabled(r, s, step)
    ensures var t := Next(r, s, step);
            && t.joined == (if step.Join? then s.joined + {step.child} else s.joined)
            && t.counted == (if step.Count? then Some(|s.joined|) else s.counted)
            && (step.Join? ==> step.child !in s.joined) && (step.Count? ==> s.counted.None?)
  {
    hide Segments;
  }

  /** The connections of a session are those that have joined, each once. */
  lemma {:induction false} JoinedAre(r: Session, steps: seq<Step>)
    requires Run(r, Start(), steps).Some?
    ensures var s := Run(r, Start(), steps).value;
            && |s.joined| == Joins(steps)
            && (forall c :: c in s.joined <==> Join(c) in steps)
  {
    hide Next, Enabled;
    if steps != [] {
      var init, last := steps[..|steps| - 1], steps[|steps| - 1];
      JoinedAre(r, init);
      assert steps == init + [last];
      StepCounts(r, Run(r, Start(), init).value, last);
    }
  }

  /** There is one count, and what it counts is the joins before it. */
  lemma {:induction false} CountIsJoins(r: Session, steps: seq<Step>) returns (k: nat)
    requires Run(r, Start(), steps).Some? && Run(r, Start(), steps).value.counted.Some?
    ensures k < |steps| && forall i :: 0 <= i < |steps| ==> (steps[i] == Count <==> i == k)
    ensures Run(r, Start(), steps).value.counted == Some(Joins(steps[..k]))
  {
    hide Next, Enabled, Joins;
    var init, last := steps[..|steps| - 1], steps[|steps| - 1];
    StepCounts(r, Run(r, Start(), init).value, last);
    if Run(r, Start(), init).value.counted.Some? {
      k := CountIsJoins(r, init);
      assert init[..k] == steps[..k];
    } else {
      k := |init|;
      JoinedAre(r, init);
      NoCount(r, init);
    }
  }

  lemma {:induction false} NoCount(r: Session, steps: seq<Step>)
    requires Run(r, Start(), steps).Some? && Run(r, Start(), steps).value.counted.None?
    ensures forall i :: 0 <= i < |steps| ==> steps[i] != Count
  {
    hide Next, Enabled;
    if steps != [] {
      StepCounts(r, Run(r, Start(), steps[..|steps| - 1]).value, steps[|steps| - 1]);
      NoCount(r, steps[..|steps| - 1]);
    }
  }

  /** Somebody joined after the count. */
  predicate LateJoin(steps: seq<Step>) {
    exists i, j :: 0 <= i < j < |steps| && steps[i] == Count && steps[j].Join?
  }

  lemma {:induction false} JoinsAfter(steps: seq<Step>, k: nat)
    requires k <= |steps|
    ensures Joins(steps[..k]) <= Joins(steps)
    ensures Joins(steps[..k]) == Joins(steps) <==> forall j :: k <= j < |steps| ==> !steps[j].Join?
  {
    if k == |steps| {
      assert steps[..k] == steps;
    } else {
      var init := steps[..|steps| - 1];
      JoinsAfter(init, k);
      assert init[..k] == steps[..k];
    }
  }

  lemma LateJoinIff(steps: seq<Step>, k: nat)
    requires k < |steps| && forall i :: 0 <= i < |steps| ==> (steps[i] == Count <==> i == k)
    ensures LateJoin(steps) <==> exists j :: k <= j < |steps| && steps[j].Join?
  {
    if j :| k <= j < |steps| && steps[j].Join? {
      assert steps[k] == Count && k < j;
    }
  }

  /** When a session is done every connection of it has been served, unless somebody
      joined after the count. */
  lemma EveryoneIsServed(r: Session, steps: seq<Step>)
    requires Run(r, Start(), steps).Some? && Done(Run(r, Start(), steps).value)
    ensures var s := Run(r, Start(), steps).value; s.took == s.joined + {r.parent} <==> !LateJoin(steps)
  {
    hide Run, Next, Enabled, Joins;
    var s := Run(r, Start(), steps).value;
    assert Reachable(r, s);
    AllCountedServed(r, s);
    var k := CountIsJoins(r, steps);
    JoinedAre(r, steps);
    JoinsAfter(steps, k);
    LateJoinIff(steps, k);
  }

  // ---------- replies are what was asked for ----------

  ghost predicate Asked(r: Session, steps: seq<Step>, h: Holding) {
    if h.who == r.parent then Keep(h.sender.compressed) in steps
    else Take(h.who, h.sender.compressed) in steps
  }

  /** A step hands a segment to the one that it is about, as asked. */
  lemma NewHolding(r: Session, s: State, step: Step, h: Holding)
    requires InOrder(r, s) && Enabled(r, s, step)
    requires var t := Next(r, s, step); h in t.held + t.replies
    ensures h in s.held + s.replies || Asked(r, [step], h)
  {
    hide Segments;
    match step
    case Reply(k) =>
      var t := Next(r, s, step);
      assert s.held == s.held[..k] + [s.held[k]] + s.held[k + 1..];
    case Keep(_) => assert step in [step];
    case Take(_, _) => assert step in [step];
    case _ =>
  }

  /** Every reply is compressed exactly when its own connection asked for that. */
  lemma {:induction false} RepliesAsAsked(r: Session, steps: seq<Step>, h: Holding)
    requires Run(r, Start(), steps).Some?
    requires var s := Run(r, Start(), steps).value; h in s.held + s.replies
    ensures Asked(r, steps, h)
  {
    hide Next, Enabled, InOrder;
    if steps != [] {
      var init, last := steps[..|steps| - 1], steps[|steps| - 1];
      var s := Run(r, Start(), init).value;
      assert steps == init + [last];
      StartKeeps(r);
      RunKeeps(r, Start(), init);
      NewHolding(r, s, last, h);
      if h in s.held + s.replies {
        RepliesAsAsked(r, init, h);
      }
    }
  }

  // ---------- every order is possible ----------

  lemma {:induction false} RunAppend(r: Session, s: State, a: seq<Step>, b: seq<Step>)
    requires Run(r, s, a).Some?
    ensures Run(r, s, a + b) == Run(r, Run(r, s, a).value, b)
  {
    if b == [] {
      assert a + b == a;
    } else {
      var init, last := b[..|b| - 1], b[|b| - 1];
      RunAppend(r, s, a, init);
      assert (a + b)[..|a + b| - 1] == a + init;
    }
  }

  lemma RunOneMore(r: Session, s: State, steps: seq<Step>, step: Step)
    requires Run(r, s, steps).Some? && Enabled(r, Run(r, s, steps).value, step)
    ensures Run(r, s, steps + [step]) == Some(Next(r, Run(r, s, steps).value, step))
  {
    assert (steps + [step])[..|steps|] == steps;
  }

  predicate Distinct(order: seq<nat>) {
    forall i, j :: 0 <= i < j < |order| ==> order[i] != order[j]
  }

  function Elements(order: seq<nat>): (r: set<nat>) {
    set c | c in order
  }

  lemma ElementsSnoc(order: seq<nat>, c: nat)
    ensures Elements(order + [c]) == Elements(order) + {c}
  {
  }

  lemma {:induction false} ElementsSize(order: seq<nat>)
    requires Distinct(order)
    ensures |Elements(order)| == |order|
  {
    if order != [] {
      var init, last := order[..|order| - 1], order[|order| - 1];
      ElementsSize(init);
      ElementsSnoc(init, last);
      assert order == init + [last] && last !in init;
    }
  }

  function JoinSteps(order: seq<nat>): (r: seq<Step>) {
    if order == [] then [] else JoinSteps(order[..|order| - 1]) + [Join(order[|order| - 1])]
  }

  lemma {:induction false} JoinsRun(r: Session, order: seq<nat>)
    requires Distinct(order) && r.parent !in order
    ensures Run(r, Start(), JoinSteps(order)) == Some(Start().(joined := Elements(order)))
  {
    hide Segments;
    if order == [] {
      assert Elements(order) == {};
    } else {
      var init, last := order[..|order| - 1], order[|order| - 1];
      JoinsRun(r, init);
      ElementsSnoc(init, last);
      assert order == init + [last] && last !in init;
      RunOneMore(r, Start(), JoinSteps(init), Join(last));
    }
  }

  /** The children take their records in the given order; flags[k] is the k-th one's
      wish for compression. */
  function TakeSteps(order: seq<nat>, flags: seq<bool>): (r: seq<Step>)
    requires |flags| >= |order|
  {
    var n := |order| - 1;
    if order == [] then [] else TakeSteps(order[..n], flags) + [Take(order[n], flags[n])]
  }

  /** What they hold then. */
  function Holdings(order: seq<nat>, flags: seq<bool>, pipe: seq<Segment>): (r: seq<Holding>)
    requires |flags| >= |order| && |pipe| >= |order|
    ensures |r| == |order|
  {
    var n := |order| - 1;
    if order == [] then []
    else Holdings(order[..n], flags, pipe) + [Holding(order[n], Sender(pipe[n], flags[n]))]
  }

  lemma {:induction false} HoldingsAt(order: seq<nat>, flags: seq<bool>, pipe: seq<Segment>, k: nat)
    requires |flags| >= |order| && |pipe| >= |order| && k < |order|
    ensures Holdings(order, flags, pipe)[k] == Holding(order[k], Sender(pipe[k], flags[k]))
  {
    var n := |order| - 1;
    if k < n {
      HoldingsAt(order[..n], flags, pipe, k);
    }
  }

  function Taken(s: State, order: seq<nat>, flags: seq<bool>): (r: State)
    requires |flags| >= |order| && |s.pipe| >= |order|
  {
    s.(pipe := s.pipe[|order|..], took := Elements(order), held := Holdings(order, flags, s.pipe))
  }

  lemma {:induction false} TakesRun(r: Session, s: State, order: seq<nat>, flags: seq<bool>)
    requires Distinct(order) && |flags| >= |order| && |s.pipe| >= |order| && Elements(order) <= s.joined
    requires s.took == {} && s.held == []
    ensures Run(r, s, TakeSteps(order, flags)) == Some(Taken(s, order, flags))
  {
    hide Segments, Run;
    if order == [] {
      assert Taken(s, order, flags) == s;
      RunNothing(r, s);
    } else {
      var n := |order| - 1;
      var init, last := order[..n], order[n];
      ElementsSnoc(init, last);
      assert order == init + [last] && last !in init;
      TakesRun(r, s, init, flags);
      RunOneMore(r, s, TakeSteps(init, flags), Take(last, flags[n]));
      assert s.pipe[n..][0] == s.pipe[n] && s.pipe[n..][1..] == s.pipe[n + 1..];
    }
  }

  lemma RunNothing(r: Session, s: State)
    ensures Run(r, s, []) == Some(s)
  {
  }

  function ReplySteps(n: nat): (r: seq<Step>) {
    if n == 0 then [] else ReplySteps(n - 1) + [Reply(0)]
  }

  function Replied(s: State, n: nat): (r: State)
    requires n <= |s.held|
  {
    s.(held := s.held[n..], replies := s.held[..n])
  }

  lemma {:induction false} RepliesRun(r: Session, s: State, n: nat)
    requires n <= |s.held| && s.replies == []
    ensures Run(r, s, ReplySteps(n)) == Some(Replied(s, n))
  {
    hide Segments, Run;
    if n == 0 {
      RunNothing(r, s);
      assert s.held[0..] == s.held && s.held[..0] == [];
    } else {
      RepliesRun(r, s, n - 1);
      RunOneMore(r, s, ReplySteps(n - 1), Reply(0));
      RepliedNext(r, s, n - 1);
    }
  }

  lemma RepliedNext(r: Session, s: State, n: nat)
    requires n < |s.held| && s.replies == []
    ensures Enabled(r, Replied(s, n), Reply(0)) && Next(r, Replied(s, n), Reply(0)) == Replied(s, n + 1)
  {
    hide Segments;
    var rest := s.held[n..];
    assert rest[0] == s.held[n] && rest[..0] + rest[1..] == s.held[n + 1..];
    assert s.held[..n + 1] == s.held[..n] + [s.held[n]];
  }

  /** Whatever children there are, in whatever order they come to take their records,
      and whichever senders want compression, there is a run in which the k-th to come
      gets and sends the k-th segment, the parent the last, and the session is done. */
  lemma AnyOrderPossible(r: Session, order: seq<nat>, flags: seq<bool>) returns (steps: seq<Step>)
    requires Distinct(order) && r.parent !in order && |flags| == |order| + 1
    ensures Run(r, Start(), steps).Some?
    ensures var s, n := Run(r, Start(), steps).value, |order|;
            && Done(s) && s.joined == Elements(order) && s.counted == Some(n)
            && |s.replies| == n + 1
            && forall k :: 0 <= k <= n ==>
                 var part := Segments(r.offset, r.length, n)[k];
                 s.replies[k] == Holding(if k < n then order[k] else r.parent, Sender(part, flags[k]))
  {
    hide Run, Elements, Segments, Holdings;
    var n := |order|;
    JoinsRun(r, order);
    ElementsSize(order);
    var counted := Start().(joined := Elements(order), counted := Some(n));
    RunOneMore(r, Start(), JoinSteps(order), Count);
    steps := JoinSteps(order) + [Count];
    SplitIsARun(r, counted, n);
    RunAppend(r, Start(), steps, seq(n, _ => Write));
    steps := steps + seq(n, _ => Write);
    var written := counted.(pipe := Parts(r, n)[..n], written := n);
    TakesRun(r, written, order, flags);
    RunAppend(r, Start(), steps, TakeSteps(order, flags));
    steps := steps + TakeSteps(order, flags);
    var taken := Taken(written, order, flags);
    RunOneMore(r, Start(), steps, Keep(flags[n]));
    steps := steps + [Keep(flags[n])];
    var kept := Next(r, taken, Keep(flags[n]));
    RepliesRun(r, kept, n + 1);
    RunAppend(r, Start(), steps, ReplySteps(n + 1));
    steps := steps + ReplySteps(n + 1);
    forall k | 0 <= k < n ensures kept.held[k] == Holding(order[k], Sender(Parts(r, n)[k], flags[k])) {
      HoldingsAt(order, flags, Parts(r, n)[..n], k);
    }
  }
}
