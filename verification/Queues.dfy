/** The two queues of accepted connections: a ring of fixed size (tp_optimized.c) and
    a linked list (tp.c). Both are first-in first-out; only the ring can be full. */
module Queues {
  import opened Wrappers

  const QUEUE_SIZE: nat := 1024

  type Client = nat

  datatype Op = Enqueue(item: Client) | Dequeue

  // ---------- the queue as a value ----------

  predicate Room(limit: Option<nat>, q: seq<Client>) {
    limit.Some? ==> |q| < limit.value
  }

  /** One operation on a queue with or without a limit. */
  function After(limit: Option<nat>, q: seq<Client>, op: Op): (r: seq<Client>) {
    match op
    case Enqueue(item) => if Room(limit, q) then q + [item] else q
    case Dequeue => if q == [] then [] else q[1..]
  }

  /** What a dequeue gives. */
  function First(q: seq<Client>): (r: Option<Client>) {
    if q == [] then None else Some(q[0])
  }

  /** The queue after all operations. */
  function Items(limit: Option<nat>, q: seq<Client>, ops: seq<Op>): (r: seq<Client>) {
    if ops == [] then q
    else After(limit, Items(limit, q, ops[..|ops| - 1]), ops[|ops| - 1])
  }

  /** The answers to the dequeues. */
  function Answers(limit: Option<nat>, q: seq<Client>, ops: seq<Op>): (r: seq<Option<Client>>) {
    if ops == [] then []
    else
      var before := Answers(limit, q, ops[..|ops| - 1]);
      if ops[|ops| - 1].Dequeue? then before + [First(Items(limit, q, ops[..|ops| - 1]))] else before
  }

  /** The items among the answers. */
  function Taken(answers: seq<Option<Client>>): (r: seq<Client>) {
    if answers == [] then []
    else Taken(answers[..|answers| - 1]) + match answers[|answers| - 1] case None => [] case Some(x) => [x]
  }

  /** The items that were let in. */
  function Entered(limit: Option<nat>, q: seq<Client>, ops: seq<Op>): (r: seq<Client>) {
    if ops == [] then []
    else
      var init, last := ops[..|ops| - 1], ops[|ops| - 1];
      Entered(limit, q, init) + if last.Enqueue? && Room(limit, Items(limit, q, init)) then [last.item] else []
  }

  lemma TakenNext(answers: seq<Option<Client>>, answer: Option<Client>)
    ensures Taken(answers + [answer]) == Taken(answers) + match answer case None => [] case Some(x) => [x]
  {
    assert (answers + [answer])[..|answers|] == answers;
  }

  lemma Regroup(a: seq<Client>, b: seq<Client>, c: seq<Client>)
    ensures a + b + c == a + (b + c)
  {
  }

  /** Items leave in the order in which they entered, and none is lost or made up. */
  lemma {:induction false} FirstInFirstOut(limit: Option<nat>, q: seq<Client>, ops: seq<Op>)
    ensures Taken(Answers(limit, q, ops)) + Items(limit, q, ops) == q + Entered(limit, q, ops)
  {
    hide Taken, Room;
    if ops == [] {
      assert Taken([]) == [] by { TakenNothing([]); }
    } else {
      var init, last := ops[..|ops| - 1], ops[|ops| - 1];
      FirstInFirstOut(limit, q, init);
      var before, items, entered := Answers(limit, q, init), Items(limit, q, init), Entered(limit, q, init);
      match last
      case Enqueue(x) =>
        Regroup(Taken(before), items, [x]);
        Regroup(q, entered, [x]);
        assert entered + [] == entered;
      case Dequeue =>
        TakenNext(before, First(items));
        if items != [] {
          Regroup(Taken(before), [items[0]], items[1..]);
          assert items == [items[0]] + items[1..];
        }
        assert entered + [] == entered && Taken(before) + [] == Taken(before);
    }
  }

  lemma TakenNothing(answers: seq<Option<Client>>)
    requires answers == []
    ensures Taken(answers) == []
  {
  }

  /** A queue within its limit stays within it. */
  lemma {:induction false} LimitKept(n: nat, q: seq<Client>, ops: seq<Op>)
    requires |q| <= n
    ensures |Items(Some(n), q, ops)| <= n
  {
    if ops != [] {
      LimitKept(n, q, ops[..|ops| - 1]);
    }
  }

  predicate NoneRejected(n: nat, q: seq<Client>, ops: seq<Op>) {
    Entered(Some(n), q, ops) == Entered(None, q, ops)
  }

  lemma {:induction false} EnteredCounts(limit: Option<nat>, q: seq<Client>, ops: seq<Op>)
    ensures |Entered(limit, q, ops)| <= |Entered(None, q, ops)|
  {
    if ops != [] {
      EnteredCounts(limit, q, ops[..|ops| - 1]);
    }
  }

  lemma NoneRejectedBefore(n: nat, q: seq<Client>, ops: seq<Op>)
    requires ops != [] && NoneRejected(n, q, ops)
    ensures NoneRejected(n, q, ops[..|ops| - 1])
    ensures ops[|ops| - 1].Enqueue? ==> Room(Some(n), Items(Some(n), q, ops[..|ops| - 1]))
  {
    hide Items, Room;
    var init := ops[..|ops| - 1];
    EnteredCounts(Some(n), q, init);
    var a, b := Entered(Some(n), q, init), Entered(None, q, init);
    assert Room(None, Items(None, q, init)) by { RoomWithoutLimit(Items(None, q, init)); }
    assert |Entered(Some(n), q, ops)| == |Entered(None, q, ops)|;
    assert a == Entered(Some(n), q, ops)[..|a|] && b == Entered(None, q, ops)[..|b|];
  }

  lemma RoomWithoutLimit(q: seq<Client>)
    ensures Room(None, q)
  {
  }

  /** The ring and the linked list give the same answers and hold the same items
      exactly when the ring turns nothing away. */
  lemma {:induction false} SameUnlessRejected(n: nat, q: seq<Client>, ops: seq<Op>)
    ensures Answers(Some(n), q, ops) == Answers(None, q, ops) && Items(Some(n), q, ops) == Items(None, q, ops) <==>
            NoneRejected(n, q, ops)
  {
    if NoneRejected(n, q, ops) {
      SameWhileAccepted(n, q, ops);
    }
    FirstInFirstOut(Some(n), q, ops);
    FirstInFirstOut(None, q, ops);
    SameTail(q, Entered(Some(n), q, ops), Entered(None, q, ops));
  }

  lemma SameTail(q: seq<Client>, a: seq<Client>, b: seq<Client>)
    ensures q + a == q + b ==> a == b
  {
    assert (q + a)[|q|..] == a && (q + b)[|q|..] == b;
  }

  /** That is, exactly when the linked list never holds more than the ring can. */
  lemma {:induction false} SameWhileSmall(n: nat, q: seq<Client>, ops: seq<Op>)
    requires |q| <= n
    ensures Answers(Some(n), q, ops) == Answers(None, q, ops) && Items(Some(n), q, ops) == Items(None, q, ops) <==>
            forall k :: 0 <= k <= |ops| ==> |Items(None, q, ops[..k])| <= n
  {
    hide Answers, Items;
    SameUnlessRejected(n, q, ops);
    RejectedIff(n, q, ops);
  }

  lemma {:induction false} RejectedIff(n: nat, q: seq<Client>, ops: seq<Op>)
    requires |q| <= n
    ensures NoneRejected(n, q, ops) <==> forall k :: 0 <= k <= |ops| ==> |Items(None, q, ops[..k])| <= n
  {
    if ops == [] {
      assert ops[..0] == [];
    } else {
      var init := ops[..|ops| - 1];
      RejectedIff(n, q, init);
      assert ops[..|ops|] == ops;
      assert forall k :: 0 <= k <= |init| ==> init[..k] == ops[..k];
      if NoneRejected(n, q, init) {
        SameWhileAccepted(n, q, init);
        LimitKept(n, q, init);
      }
      if NoneRejected(n, q, ops) {
        NoneRejectedBefore(n, q, ops);
      }
    }
  }

  lemma {:induction false} SameWhileAccepted(n: nat, q: seq<Client>, ops: seq<Op>)
    requires NoneRejected(n, q, ops)
    ensures Answers(Some(n), q, ops) == Answers(None, q, ops) && Items(Some(n), q, ops) == Items(None, q, ops)
  {
    if ops != [] {
      NoneRejectedBefore(n, q, ops);
      SameWhileAccepted(n, q, ops[..|ops| - 1]);
    }
  }

  // ---------- the ring ----------

  class CircularQueue {
    const items: array<Client>
    var head: nat
    var tail: nat
    var count: nat

    ghost predicate Valid()
      reads this
    {
      items.Length == QUEUE_SIZE && head < QUEUE_SIZE && count <= QUEUE_SIZE && tail == Slot(head, count)
    }

    ghost function Contents(): (r: seq<Client>)
      requires Valid()
      reads this, items
      ensures |r| == count
    {
      seq(count, i reads this, items requires Valid() && i >= 0 => items[Slot(head, i)])
    }

    constructor ()
      ensures Valid() && fresh(items) && Contents() == []
    {
      items := new Client[QUEUE_SIZE];
      head, tail, count := 0, 0, 0;
    }

    /** cq_enqueue: false when the ring is full. */
    method Enqueue(item: Client) returns (ok: bool)
      requires Valid()
      modifies this`tail, this`count, items
      ensures Valid()
      ensures ok <==> |old(Contents())| < 1024
      ensures Contents() == if ok then old(Contents()) + [item] else old(Contents())
      ensures Contents() == After(Some(QUEUE_SIZE), old(Contents()), Op.Enqueue(item))
    {
      if count >= QUEUE_SIZE {
        return false;
      }
      Apart(head, count);
      items[tail] := item;
      tail := (tail + 1) % QUEUE_SIZE;
      count := count + 1;
      return true;
    }

    /** cq_dequeue: None when the ring is empty. */
    method Dequeue() returns (item: Option<Client>)
      requires Valid()
      modifies this`head, this`count
      ensures Valid()
      ensures item == if old(Contents()) == [] then None else Some(old(Contents())[0])
      ensures Contents() == if old(Contents()) == [] then [] else old(Contents())[1..]
      ensures Contents() == After(Some(QUEUE_SIZE), old(Contents()), Op.Dequeue)
    {
      if count == 0 {
        return None;
      }
      item := Some(items[head]);
      Shifted(head);
      head := (head + 1) % QUEUE_SIZE;
      count := count - 1;
    }
  }

  /** The index of the i-th item of a ring that starts at head. */
  function Slot(head: nat, i: nat): (r: nat)
    ensures r < QUEUE_SIZE
  {
    (head + i) % QUEUE_SIZE
  }

  /** The slot after the last item is no item's slot. */
  lemma Apart(head: nat, count: nat)
    requires count < QUEUE_SIZE
    ensures forall i :: 0 <= i < count ==> Slot(head, i) != Slot(head, count)
    ensures (Slot(head, count) + 1) % QUEUE_SIZE == Slot(head, count + 1)
  {
  }

  /** Moving the head on by one slot moves every item's index back by one. */
  lemma Shifted(head: nat)
    requires head < QUEUE_SIZE
    ensures var next := (head + 1) % QUEUE_SIZE; forall i: nat :: Slot(next, i) == Slot(head, i + 1)
  {
    if head + 1 == QUEUE_SIZE {
      assert forall i: nat :: Slot(0, i) == Slot(QUEUE_SIZE, i);
    }
  }

  // ---------- the linked list ----------

  class Node {
    const clfd: Client
    var next: Node?

    constructor (clfd: Client)
      ensures this.clfd == clfd && next == null
    {
      this.clfd, next := clfd, null;
    }
  }

  class LinkedQueue {
    var head: Node?
    var tail: Node?
    ghost var spine: seq<Node>

    ghost predicate Valid()
      reads this, spine
    {
      && (forall i, j :: 0 <= i < j < |spine| ==> spine[i] != spine[j])
      && (forall i :: 0 <= i < |spine| - 1 ==> spine[i].next == spine[i + 1])
      && if spine == [] then head == null && tail == null
         else head == spine[0] && tail == spine[|spine| - 1] && tail.next == null
    }

    ghost function Contents(): (r: seq<Client>)
      reads this
      ensures |r| == |spine|
    {
      seq(|spine|, i reads this requires 0 <= i < |spine| => spine[i].clfd)
    }

    constructor ()
      ensures Valid() && Contents() == []
    {
      head, tail, spine := null, null, [];
    }

    method Enqueue(clfd: Client)
      requires Valid()
      modifies this, spine
      ensures Valid() && fresh((set n | n in spine) - old(set n | n in spine))
      ensures Contents() == old(Contents()) + [clfd] == After(None, old(Contents()), Op.Enqueue(clfd))
    {
      var toadd := new Node(clfd);
      if tail == null {
        head := toadd;
      } else {
        tail.next := toadd;
      }
      tail := toadd;
      spine := spine + [toadd];
    }

    method Dequeue() returns (item: Option<Client>)
      requires Valid()
      modifies this
      ensures Valid() && (forall n :: n in spine ==> n in old(spine))
      ensures item == if old(Contents()) == [] then None else Some(old(Contents())[0])
      ensures Contents() == if old(Contents()) == [] then [] else old(Contents())[1..]
      ensures Contents() == After(None, old(Contents()), Op.Dequeue)
    {
      if head == null {
        return None;
      }
      assert head == spine[0] && (|spine| > 1 ==> head.next == spine[1]);
      item := Some(head.clfd);
      head := head.next;
      if head == null {
        tail := null;
      }
      spine := spine[1..];
    }
  }
}
