/** The hand-off between the connections of one session, as steps that may interleave
    in any way: connections join, the parent counts them, writes a record for each
    and keeps the last segment; every sender takes one record and replies. */
module SessionProtocol {
  import opened Bits
  import opened Wrappers
  import opened Wire
  import opened PrefixCode
  import opened FileSession

  /** A sender on its way to reply. */
  datatype Holding = Holding(who: nat, sender: Sender)

  datatype State = State(
    joined: set<nat>,      // the children so far
    counted: Option<nat>,  // num_connect as the parent read it
    written: nat,          // segments handed out by the parent
    pipe: seq<Segment>,
    took: set<nat>,        // the senders that have got a segment
    held: seq<Holding>,
    replies: seq<Holding>)

  datatype Step =
    | Join(child: nat)
    | Count
    | Write
    | Keep(compressed: bool)
    | Take(child: nat, compressed: bool)
    | Reply(k: nat)

  /** The parent's connection and the range that it splits. */
  datatype Session = Session(parent: nat, offset: nat, length: nat)

  function Start(): (r: State) {
    State({}, None, 0, [], {}, [], [])
  }

  predicate Enabled(r: Session, s: State, step: Step) {
    match step
    case Join(c) => c != r.parent && c !in s.joined
    case Count => s.counted.None?
    case Write => s.counted.Some? && s.written < s.counted.value
    case Keep(_) => s.counted.Some? && s.written == s.counted.value
    case Take(c, _) => c in s.joined && c !in s.took && s.pipe != []
    case Reply(k) => k < |s.held|
  }

  function Next(r: Session, s: State, step: Step): (result: State)
    requires Enabled(r, s, step)
  {
    match step
    case Join(c) => s.(joined := s.joined + {c})
    case Count => s.(counted := Some(|s.joined|))
    case Write =>
      s.(pipe := s.pipe + [Segments(r.offset, r.length, s.counted.value)[s.written]], written := s.written + 1)
    case Keep(compressed) =>
      var own := Segments(r.offset, r.length, s.counted.value)[s.written];
      s.(held := s.held + [Holding(r.parent, Sender(own, compressed))],
         took := s.took + {r.parent},
         written := s.written + 1)
    case Take(c, compressed) =>
      s.(pipe := s.pipe[1..], held := s.held + [Holding(c, Sender(s.pipe[0], compressed))], took := s.took + {c})
    case Reply(k) =>
      s.(held := s.held[..k] + s.held[k + 1..], replies := s.replies + [s.held[k]])
  }

  /** The state after a run of steps, each enabled where it is taken. */
  function Run(r: Session, s: State, steps: seq<Step>): (result: Option<State>) {
    if steps == [] then Some(s)
    else
      match Run(r, s, steps[..|steps| - 1])
      case None => None
      case Some(t) => if Enabled(r, t, steps[|steps| - 1]) then Some(Next(r, t, steps[|steps| - 1])) else None
  }

  ghost predicate Reachable(r: Session, s: State) {
    exists steps :: Run(r, Start(), steps) == Some(s)
  }

  function SendersOf(hs: seq<Holding>): (r: seq<Sender>)
    ensures |r| == |hs|
  {
    seq(|hs|, i requires 0 <= i < |hs| => hs[i].sender)
  }

  function Who(hs: seq<Holding>): (r: seq<nat>)
    ensures |r| == |hs|
  {
    seq(|hs|, i requires 0 <= i < |hs| => hs[i].who)
  }

  function Given(hs: seq<Holding>): (r: seq<Segment>)
    ensures |r| == |hs|
  {
    SegmentsOf(SendersOf(hs))
  }

  lemma GivenAppend(a: seq<Holding>, b: seq<Holding>)
    ensures Given(a + b) == Given(a) + Given(b) && Who(a + b) == Who(a) + Who(b)
  {
  }

  lemma GivenSnoc(hs: seq<Holding>, h: Holding)
    ensures Given(hs + [h]) == Given(hs) + [h.sender.segment] && Who(hs + [h]) == Who(hs) + [h.who]
  {
  }

  lemma GivenWithout(hs: seq<Holding>, k: nat)
    requires k < |hs|
    ensures var rest := hs[..k] + hs[k + 1..];
            && multiset(Given(hs)) == multiset(Given(rest)) + multiset{hs[k].sender.segment}
            && multiset(Who(hs)) == multiset(Who(rest)) + multiset{hs[k].who}
  {
    GivenAppend(hs[..k], [hs[k]]);
    GivenAppend(hs[..k] + [hs[k]], hs[k + 1..]);
    GivenAppend(hs[..k], hs[k + 1..]);
    assert hs == hs[..k] + [hs[k]] + hs[k + 1..];
    assert Given([hs[k]]) == [hs[k].sender.segment] && Who([hs[k]]) == [hs[k].who];
  }

  /** When each step can be taken. */
  lemma WhatMayHappen(r: Session, s: State, c: nat, k: nat, b: bool)
    ensures Enabled(r, s, Join(c)) <==> c != r.parent && c !in s.joined
    ensures Enabled(r, s, Count) <==> s.counted == None
    ensures Enabled(r, s, Write) <==> exists n :: s.counted == Some(n) && s.written < n
    ensures Enabled(r, s, Keep(b)) <==> s.counted == Some(s.written)
    ensures Enabled(r, s, Take(c, b)) <==> c in s.joined - s.took && |s.pipe| > 0
    ensures Enabled(r, s, Reply(k)) <==> k < |s.held|
  {
  }

  // ---------- what every step keeps ----------

  /** The segments for n children and the parent. */
  function Parts(r: Session, n: nat): (p: seq<Segment>)
    ensures |p| == n + 1
  {
    Segments(r.offset, r.length, n)
  }

  /** No sender has had more than one segment. */
  ghost predicate OneEach(s: State) {
    multiset(s.took) == multiset(Who(s.held)) + multiset(Who(s.replies))
  }

  /** Every segment handed out is in the pipe, held by a sender, or sent. */
  ghost predicate NoneLost(r: Session, s: State) {
    s.counted.Some? ==>
      && s.written <= s.counted.value + 1
      && multiset(Parts(r, s.counted.value)[..s.written]) ==
         multiset(s.pipe) + multiset(Given(s.held)) + multiset(Given(s.replies))
  }

  /** Nothing is handed out before the count. Afterwards the pipe holds the records
      that no child has taken yet, in order. */
  ghost predicate InOrder(r: Session, s: State) {
    && r.parent !in s.joined
    && s.took <= s.joined + {r.parent}
    && match s.counted
       case None => s.written == 0 && s.pipe == [] && s.held == [] && s.replies == [] && s.took == {}
       case Some(n) =>
         && n <= |s.joined|
         && s.written <= n + 1
         && (r.parent in s.took <==> s.written == n + 1)
         && |s.took| + |s.pipe| == s.written
         && (var piped := if s.written <= n then s.written else n;
             |s.pipe| <= piped && s.pipe == Parts(r, n)[piped - |s.pipe|..piped])
  }

  ghost predicate Invariant(r: Session, s: State) {
    OneEach(s) && NoneLost(r, s) && InOrder(r, s)
  }

  lemma StartKeeps(r: Session)
    ensures Invariant(r, Start())
  {
  }

  lemma Added<T>(all: multiset<T>, a: seq<T>, b: multiset<T>, x: T)
    requires all == multiset(a) + b
    ensures all + multiset{x} == multiset(a + [x]) + b
  {
  }

  lemma Regroup<T>(a: multiset<T>, b: multiset<T>, c: multiset<T>)
    ensures a + b + c == a + (b + c)
  {
  }

  lemma StepKeepsOneEach(r: Session, s: State, step: Step)
    requires OneEach(s) && InOrder(r, s) && Enabled(r, s, step)
    ensures OneEach(Next(r, s, step))
  {
    hide Segments, Given, Who;
    match step
    case Take(c, b) => OneMoreTaker(s, Holding(c, Sender(s.pipe[0], b)));
    case Keep(b) =>
      var own := Segments(r.offset, r.length, s.counted.value)[s.written];
      OneMoreTaker(s, Holding(r.parent, Sender(own, b)));
    case Reply(k) => OneMoreReply(s, k);
    case _ =>
  }

  lemma OneMoreTaker(s: State, h: Holding)
    requires OneEach(s) && h.who !in s.took
    ensures multiset(s.took + {h.who}) == multiset(Who(s.held + [h])) + multiset(Who(s.replies))
  {
    hide Who;
    GivenSnoc(s.held, h);
    assert multiset(s.took + {h.who}) == multiset(s.took) + multiset{h.who};
    Added(multiset(s.took), Who(s.held), multiset(Who(s.replies)), h.who);
  }

  lemma OneMoreReply(s: State, k: nat)
    requires k < |s.held|
    ensures var rest, more := s.held[..k] + s.held[k + 1..], s.replies + [s.held[k]];
            && multiset(Who(s.held)) + multiset(Who(s.replies)) == multiset(Who(rest)) + multiset(Who(more))
            && multiset(Given(s.held)) + multiset(Given(s.replies)) == multiset(Given(rest)) + multiset(Given(more))
  {
    hide Who, Given;
    GivenWithout(s.held, k);
    GivenSnoc(s.replies, s.held[k]);
  }

  lemma OneMorePart(r: Session, s: State)
    requires NoneLost(r, s) && s.counted.Some? && s.written <= s.counted.value
    ensures var parts := Parts(r, s.counted.value);
            multiset(parts[..s.written + 1]) ==
            multiset(s.pipe) + multiset(Given(s.held)) + multiset(Given(s.replies)) + multiset{parts[s.written]}
  {
    hide Segments, Given;
    var w, parts := s.written, Parts(r, s.counted.value);
    assert parts[..w + 1] == parts[..w] + [parts[w]];
  }

  lemma StepKeepsNoneLost(r: Session, s: State, step: Step)
    requires NoneLost(r, s) && InOrder(r, s) && Enabled(r, s, step)
    ensures NoneLost(r, Next(r, s, step))
  {
    hide NoneLost, Next;
    match step
    case Join(c) => JoinLosesNothing(r, s, c);
    case Count => CountLosesNothing(r, s);
    case Write => WriteLosesNothing(r, s);
    case Keep(b) => KeepLosesNothing(r, s, b);
    case Take(c, b) => TakeLosesNothing(r, s, c, b);
    case Reply(k) => ReplyLosesNothing(r, s, k);
  }

  lemma JoinLosesNothing(r: Session, s: State, c: nat)
    requires NoneLost(r, s) && Enabled(r, s, Join(c))
    ensures NoneLost(r, Next(r, s, Join(c)))
  {
  }

  lemma CountLosesNothing(r: Session, s: State)
    requires NoneLost(r, s) && InOrder(r, s) && Enabled(r, s, Count)
    ensures NoneLost(r, Next(r, s, Count))
  {
    hide Segments, Given;
    assert |Given(s.held)| == 0 && |Given(s.replies)| == 0;
  }

  lemma WriteLosesNothing(r: Session, s: State)
    requires NoneLost(r, s) && Enabled(r, s, Write)
    ensures NoneLost(r, Next(r, s, Write))
  {
    hide Segments, Given;
    OneMorePart(r, s);
    Added(multiset(s.pipe), s.pipe, multiset{}, Parts(r, s.counted.value)[s.written]);
  }

  lemma KeepLosesNothing(r: Session, s: State, b: bool)
    requires NoneLost(r, s) && Enabled(r, s, Keep(b))
    ensures NoneLost(r, Next(r, s, Keep(b)))
  {
    hide Segments, Given;
    OneMorePart(r, s);
    GivenSnoc(s.held, Holding(r.parent, Sender(Parts(r, s.counted.value)[s.written], b)));
  }

  lemma TakeLosesNothing(r: Session, s: State, c: nat, b: bool)
    requires NoneLost(r, s) && Enabled(r, s, Take(c, b))
    ensures NoneLost(r, Next(r, s, Take(c, b)))
  {
    hide Segments, Given;
    GivenSnoc(s.held, Holding(c, Sender(s.pipe[0], b)));
    assert s.pipe == [s.pipe[0]] + s.pipe[1..];
  }

  lemma ReplyLosesNothing(r: Session, s: State, k: nat)
    requires NoneLost(r, s) && Enabled(r, s, Reply(k))
    ensures NoneLost(r, Next(r, s, Reply(k)))
  {
    hide Segments, Given;
    OneMoreReply(s, k);
    var held, replies := Given(s.held), Given(s.replies);
    Regroup(multiset(s.pipe), multiset(held), multiset(replies));
    var rest, more := Given(s.held[..k] + s.held[k + 1..]), Given(s.replies + [s.held[k]]);
    Regroup(multiset(s.pipe), multiset(rest), multiset(more));
  }

  lemma StepKeepsInOrder(r: Session, s: State, step: Step)
    requires InOrder(r, s) && Enabled(r, s, step)
    ensures InOrder(r, Next(r, s, step))
  {
    hide InOrder, Next;
    match step
    case Join(c) => JoinInOrder(r, s, c);
    case Count => CountInOrder(r, s);
    case Write => WriteInOrder(r, s);
    case Keep(b) => KeepInOrder(r, s, b);
    case Take(c, b) => TakeInOrder(r, s, c, b);
    case Reply(k) => ReplyInOrder(r, s, k);
  }

  lemma JoinInOrder(r: Session, s: State, c: nat)
    requires InOrder(r, s) && Enabled(r, s, Join(c))
    ensures InOrder(r, Next(r, s, Join(c)))
  {
    hide Segments;
    assert |s.joined + {c}| == |s.joined| + 1;
  }

  lemma CountInOrder(r: Session, s: State)
    requires InOrder(r, s) && Enabled(r, s, Count)
    ensures InOrder(r, Next(r, s, Count))
  {
    hide Segments;
  }

  lemma WriteInOrder(r: Session, s: State)
    requires InOrder(r, s) && Enabled(r, s, Write)
    ensures InOrder(r, Next(r, s, Write))
  {
    hide Segments;
    var w, parts := s.written, Parts(r, s.counted.value);
    assert parts[w - |s.pipe|..w + 1] == parts[w - |s.pipe|..w] + [parts[w]];
  }

  lemma KeepInOrder(r: Session, s: State, b: bool)
    requires InOrder(r, s) && Enabled(r, s, Keep(b))
    ensures InOrder(r, Next(r, s, Keep(b)))
  {
    hide Segments;
    assert |s.took + {r.parent}| == |s.took| + 1;
  }

  lemma TakeInOrder(r: Session, s: State, c: nat, b: bool)
    requires InOrder(r, s) && Enabled(r, s, Take(c, b))
    ensures InOrder(r, Next(r, s, Take(c, b)))
  {
    hide Segments;
    assert |s.took + {c}| == |s.took| + 1;
  }

  lemma ReplyInOrder(r: Session, s: State, k: nat)
    requires InOrder(r, s) && Enabled(r, s, Reply(k))
    ensures InOrder(r, Next(r, s, Reply(k)))
  {
    hide Segments;
  }

  lemma StepKeeps(r: Session, s: State, step: Step)
    requires Invariant(r, s) && Enabled(r, s, step)
    ensures Invariant(r, Next(r, s, step))
  {
    hide OneEach, NoneLost, InOrder;
    StepKeepsOneEach(r, s, step);
    StepKeepsNoneLost(r, s, step);
    StepKeepsInOrder(r, s, step);
  }

  lemma {:induction false} RunKeeps(r: Session, s: State, steps: seq<Step>)
    requires Invariant(r, s) && Run(r, s, steps).Some?
    ensures Invariant(r, Run(r, s, steps).value)
  {
    hide Invariant, Next, Enabled;
    if steps != [] {
      RunKeeps(r, s, steps[..|steps| - 1]);
      StepKeeps(r, Run(r, s, steps[..|steps| - 1]).value, steps[|steps| - 1]);
    }
  }

  lemma ReachableKeeps(r: Session, s: State)
    requires Reachable(r, s)
    ensures Invariant(r, s)
  {
    hide Invariant, Next, Enabled;
    StartKeeps(r);
    var steps :| Run(r, Start(), steps) == Some(s);
    RunKeeps(r, Start(), steps);
  }

  /** The parent's loop is such a run: k writes put the first k records in the pipe. */
  lemma {:induction false} SplitIsARun(r: Session, s: State, k: nat)
    requires s.counted.Some? && s.written == 0 && s.pipe == [] && k <= s.counted.value
    ensures Run(r, s, seq(k, _ => Write)) == Some(s.(pipe := Parts(r, s.counted.value)[..k], written := k))
  {
    hide Segments;
    var parts := Parts(r, s.counted.value);
    if k > 0 {
      SplitIsARun(r, s, k - 1);
      assert seq(k, _ => Write)[..k - 1] == seq(k - 1, _ => Write);
      assert parts[..k] == parts[..k - 1] + [parts[k - 1]];
    }
  }

  // ---------- what a session achieves ----------

  predicate Done(s: State) {
    s.counted.Some? && s.written == s.counted.value + 1 && s.pipe == [] && s.held == []
  }

  /** In any state of any run no sender has been given two segments, whether it has
      replied yet or not, and no stranger has been given one. */
  lemma AtMostOneEach(r: Session, s: State, i: nat, j: nat)
    requires Reachable(r, s) && i < j < |s.held + s.replies|
    ensures var given := s.held + s.replies; given[i].who != given[j].who && given[i].who in s.joined + {r.parent}
  {
    hide Segments, Given;
    ReachableKeeps(r, s);
    GivenAppend(s.held, s.replies);
    var who := Who(s.held + s.replies);
    assert who[i] in multiset(who);
    assert who[i] in multiset(s.took);
    TwiceCounted(who, i, j);
  }

  lemma TwiceCounted(who: seq<nat>, i: nat, j: nat)
    requires i < j < |who| && multiset(who)[who[i]] <= 1
    ensures who[i] != who[j]
  {
    assert who == who[..j] + [who[j]] + who[j + 1..];
    assert who[i] in who[..j];
  }

  /** When the session is done, putting all replies at their stated offsets gives
      exactly the requested range, whatever the interleaving was. */
  lemma {:induction false} SessionRebuilds(r: Session, s: State, d: Dictionary, session: nat, file: seq<byte>)
    requires Reachable(r, s) && Done(s)
    requires WellFormed(d) && PrefixFree(d) && NonemptyCodes(d)
    requires session < Pow256(4) && |file| < Pow256(8) && r.offset + r.length <= |file|
    ensures InFile(file, SendersOf(s.replies))
    ensures PlaceAll(d, Replies(d, session, file, SendersOf(s.replies))) == FileMap(file, r.offset, r.offset + r.length)
  {
    hide Segments, PrefixFree, NonemptyCodes, Pow256, InFile, PlaceAll, Replies, FileMap, SegmentsOf, SendersOf, Who;
    ReachableKeeps(r, s);
    var n := s.counted.value;
    assert Parts(r, n)[..n + 1] == Parts(r, n);
    AnyOrderRebuilds(d, session, file, r.offset, r.length, n, SendersOf(s.replies));
  }

  /** When the session is done, as many children as were counted have replied, each
      once, and so has the parent. As many children as joined after the count are left
      without a record. */
  lemma WhoIsServed(r: Session, s: State)
    requires Reachable(r, s) && Done(s)
    ensures |s.replies| == s.counted.value + 1
    ensures multiset(Who(s.replies)) == multiset(s.took)
    ensures r.parent in s.took
    ensures |s.joined - s.took| == |s.joined| - s.counted.value
  {
    hide Segments, Given;
    ReachableKeeps(r, s);
    assert |multiset(s.took)| == |multiset(Who(s.replies))|;
    assert s.joined - s.took == s.joined - (s.took - {r.parent});
    assert s.took - {r.parent} <= s.joined;
  }

  /** Every connection of the session is served exactly when all were counted. */
  lemma AllCountedServed(r: Session, s: State)
    requires Reachable(r, s) && Done(s)
    ensures s.took == s.joined + {r.parent} <==> |s.joined| == s.counted.value
  {
    WhoIsServed(r, s);
    ReachableKeeps(r, s);
    var left := s.joined - s.took;
    assert |left| == 0 <==> left == {};
  }

  // ---------- the session ends ----------

  /** Until the session is done, some step other than joining can be taken. */
  lemma Progress(r: Session, s: State) returns (step: Step)
    requires Reachable(r, s) && !Done(s)
    ensures !step.Join? && Enabled(r, s, step)
  {
    hide Segments, Given, Who;
    ReachableKeeps(r, s);
    if s.counted.None? {
      step := Count;
    } else if s.written < s.counted.value {
      step := Write;
    } else if s.written == s.counted.value {
      step := Keep(false);
    } else if s.held != [] {
      step := Reply(0);
    } else {
      FewTakers(s.joined, s.took, r.parent);
      var c :| c in s.joined && c !in s.took;
      step := Take(c, false);
    }
  }

  lemma FewTakers(joined: set<nat>, took: set<nat>, parent: nat)
    requires parent in took && parent !in joined && |took| < |joined| + 1
    ensures exists c :: c in joined && c !in took
  {
    if joined <= took {
      Smaller(joined, took - {parent});
    }
  }

  lemma Smaller(a: set<nat>, b: set<nat>)
    requires a <= b
    ensures |a| <= |b|
  {
    assert b == a + (b - a);
  }

  /** A bound on the steps that a session has left. */
  function Left(s: State): (r: int) {
    match s.counted
    case None => 3 * |s.joined| + 4
    case Some(n) => 3 * (n + 1 - s.written) + 2 * |s.pipe| + |s.held|
  }

  /** Once the children are counted, every step but a join brings the end nearer. */
  lemma StepsRunOut(r: Session, s: State, step: Step)
    requires Enabled(r, s, step) && Invariant(r, s)
    ensures Left(s) >= 0
    ensures !step.Join? ==> Left(Next(r, s, step)) < Left(s)
    ensures step.Join? && s.counted.Some? ==> Left(Next(r, s, step)) == Left(s)
  {
    hide Segments, Given, Who;
  }

  function Joins(steps: seq<Step>): (n: nat)
    ensures n <= |steps|
  {
    if steps == [] then 0 else Joins(steps[..|steps| - 1]) + if steps[|steps| - 1].Join? then 1 else 0
  }

  /** From the count on, no run is longer than Left and the joins in it. */
  lemma {:induction false} RunsEnd(r: Session, s: State, steps: seq<Step>)
    requires Invariant(r, s) && s.counted.Some? && Run(r, s, steps).Some?
    ensures Run(r, s, steps).value.counted.Some?
    ensures |steps| - Joins(steps) <= Left(s) - Left(Run(r, s, steps).value)
    ensures Left(Run(r, s, steps).value) >= 0
  {
    hide Invariant;
    RunKeeps(r, s, steps);
    LeftIsNat(r, Run(r, s, steps).value);
    if steps != [] {
      RunsEnd(r, s, steps[..|steps| - 1]);
      RunKeeps(r, s, steps[..|steps| - 1]);
      StepsRunOut(r, Run(r, s, steps[..|steps| - 1]).value, steps[|steps| - 1]);
    }
  }

  lemma LeftIsNat(r: Session, s: State)
    requires Invariant(r, s)
    ensures Left(s) >= 0
  {
  }
}
