/** multiplexlist.c: the linked list of the sessions in progress, and how a file
    request becomes the first or a further connection of a session (tp.c). */
module RequestList {
  import opened FileSession

  /** The sequence without one of its elements. */
  function Without(s: seq<Request>, x: Request): (r: seq<Request>) {
    if s == [] then [] else if s[0] == x then s[1..] else [s[0]] + Without(s[1..], x)
  }

  predicate Distinct(s: seq<Request>) {
    forall i, j :: 0 <= i < j < |s| ==> s[i] != s[j]
  }

  lemma {:induction false} WithoutAt(s: seq<Request>, k: nat)
    requires k < |s| && Distinct(s)
    ensures Without(s, s[k]) == s[..k] + s[k + 1..]
  {
    if k > 0 {
      WithoutAt(s[1..], k - 1);
      assert s[..k] == [s[0]] + s[1..][..k - 1] && s[k + 1..] == s[1..][k..];
    }
  }

  lemma {:induction false} WithoutAbsent(s: seq<Request>, x: Request)
    requires x !in s
    ensures Without(s, x) == s
  {
    if s != [] {
      WithoutAbsent(s[1..], x);
    }
  }

  /** No two sessions in the list have the same id. */
  predicate UniqueIds(s: seq<Request>) {
    forall i, j :: 0 <= i < j < |s| ==> s[i].session != s[j].session
  }

  /** Removing keeps ids unique, and the id of what is removed becomes free. */
  lemma {:induction false} WithoutKeepsIds(s: seq<Request>, k: nat)
    requires k < |s| && UniqueIds(s)
    ensures UniqueIds(Without(s, s[k]))
    ensures forall r :: r in Without(s, s[k]) ==> r.session != s[k].session
  {
    hide Without;
    WithoutAt(s, k);
  }

  /** Where a session id is found: the first match. */
  ghost predicate FirstMatch(s: seq<Request>, id: nat, r: Request?) {
    if r == null then forall i :: 0 <= i < |s| ==> s[i].session != id
    else exists k :: 0 <= k < |s| && MatchAt(s, id, k) && s[k] == r
  }

  predicate MatchAt(s: seq<Request>, id: nat, k: nat)
    requires k < |s|
  {
    s[k].session == id && forall i :: 0 <= i < k ==> s[i].session != id
  }

  class List {
    var head: Request?
    var tail: Request?
    ghost var spine: seq<Request>

    ghost predicate Valid()
      reads this, spine
    {
      && Distinct(spine)
      && (forall i :: 0 <= i < |spine| - 1 ==> spine[i].next == spine[i + 1])
      && if spine == [] then head == null && tail == null
         else head == spine[0] && tail == spine[|spine| - 1] && tail.next == null
    }

    constructor ()
      ensures Valid() && spine == []
    {
      head, tail, spine := null, null, [];
    }

    /** The caller sees to it that the record is not linked to anything. */
    method Add(input: Request)
      requires Valid() && input !in spine && input.next == null
      modifies this, spine`next
      ensures Valid() && spine == old(spine) + [input]
    {
      if head == null {
        head := input;
        tail := input;
      } else {
        tail.next := input;
        tail := tail.next;
      }
      spine := spine + [input];
    }

    /** What the search for a predecessor can deal with: an empty list, a sole session,
        or a session after the first. */
    ghost predicate Removable(input: Request)
      reads this
    {
      spine == [] || spine == [input] || input in spine[1..]
    }

    /** False when the search runs off the end of the list: the C code then reads
        through a null pointer, and nothing has been changed. */
    method RemoveNode(input: Request) returns (done: bool)
      requires Valid()
      modifies this, spine`next
      ensures Valid() && (done <==> old(Removable(input)))
      ensures spine == if done then Without(old(spine), input) else old(spine)
    {
      hide Without;
      if input == head && input == tail {
        SoleSession(spine, input);
        head, tail, spine := null, null, [];
        return true;
      }
      var node := head;
      if head == null {
        WithoutAbsent(spine, input);
        return true;
      }
      ghost var i := 0;
      while node != null && node.next != input
        invariant i <= |spine| && node == if i < |spine| then spine[i] else null
        invariant forall k :: 1 <= k <= i && k < |spine| ==> spine[k] != input
        decreases |spine| - i
      {
        node := node.next;
        i := i + 1;
      }
      if node == null {
        return false;
      }
      assert i + 1 < |spine| && spine[i + 1] == input && spine[1..][i] == input;
      Unlink(node, input, i);
      return true;
    }

    method Unlink(node: Request, input: Request, ghost i: nat)
      requires Valid() && i + 1 < |spine| && node == spine[i] && input == spine[i + 1]
      modifies this`tail, this`spine, node`next
      ensures Valid() && spine == Without(old(spine), input)
    {
      hide Without;
      WithoutAt(spine, i + 1);
      ghost var after := spine[i + 2..];
      assert after == [] ==> tail == input;
      assert after != [] ==> input.next == after[0] && tail == after[|after| - 1];
      node.next := input.next;
      if tail == input {
        tail := node;
      }
      spine := spine[..i + 1] + after;
    }

    method Find(id: nat) returns (r: Request?)
      requires Valid()
      ensures FirstMatch(spine, id, r)
    {
      var curr := head;
      ghost var i := 0;
      while curr != null
        invariant i <= |spine| && curr == if i < |spine| then spine[i] else null
        invariant forall j :: 0 <= j < i ==> spine[j].session != id
        decreases |spine| - i
      {
        if curr.session == id {
          assert MatchAt(spine, id, i);
          return curr;
        }
        curr := curr.next;
        i := i + 1;
      }
      return null;
    }
  }

  lemma SoleSession(s: seq<Request>, x: Request)
    requires Distinct(s) && s != [] && s[0] == x && s[|s| - 1] == x
    ensures s == [x] && Without(s, x) == []
  {
  }

  /** The search for a predecessor ends exactly for the sessions after the first: in a
      list with several sessions the first one has none. */
  lemma PredecessorIff(list: List, input: Request)
    requires list.Valid()
    ensures (exists k :: 0 <= k < |list.spine| && list.spine[k].next == input) <==>
            list.spine != [] && input in list.spine[1..]
  {
    var s := list.spine;
    if s != [] && input in s[1..] {
      var k :| 0 <= k < |s[1..]| && s[1..][k] == input;
      assert s[k].next == s[k + 1];
    }
    if k :| 0 <= k < |s| && s[k].next == input {
      assert k < |s| - 1;
      assert s[1..][k] == s[k + 1];
    }
  }

  /** So the first of several sessions cannot be removed. */
  lemma FirstOfSeveral(list: List)
    requires list.Valid() && |list.spine| > 1
    ensures !list.Removable(list.spine[0])
  {
    assert forall k :: 0 <= k < |list.spine[1..]| ==> list.spine[1..][k] == list.spine[k + 1];
  }

  // ---------- joining ----------

  datatype Role = First | Further(joined: Request) | Mismatch

  /** The first part of a file request, under the list's lock: it joins the session
      with its id, is refused because it asks for something else, or finds none. */
  method Look(list: List, req: Request) returns (role: Role)
    requires list.Valid() && UniqueIds(list.spine)
    modifies list.spine`numConnect
    ensures list.Valid()
    ensures role.First? <==> forall r :: r in list.spine ==> r.session != req.session
    ensures role.Mismatch? <==>
            exists r :: r in list.spine && r.session == req.session &&
                        (r.name != req.name || r.length != req.length || r.offset != req.offset)
    ensures role.Further? ==>
              && role.joined in list.spine && role.joined.session == req.session
              && role.joined.name == req.name && role.joined.length == req.length && role.joined.offset == req.offset
              && role.joined.numConnect == old(role.joined.numConnect) + 1
    ensures forall r :: r in list.spine && !(role.Further? && r == role.joined) ==> r.numConnect == old(r.numConnect)
  {
    var curr := list.Find(req.session);
    if curr == null {
      return First;
    }
    assert curr in list.spine;
    if req.name != curr.name || req.length != curr.length || req.offset != curr.offset {
      return Mismatch;
    }
    curr.numConnect := curr.numConnect + 1;
    return Further(curr);
  }

  /** The second part, under the lock again, for a request that has found none. Ids
      stay unique exactly when none has its id at this moment, whatever was found
      before. */
  method Open(list: List, req: Request)
    requires list.Valid() && req !in list.spine && req.next == null
    modifies list, list.spine`next, req`numConnect
    ensures list.Valid() && list.spine == old(list.spine) + [req] && req.numConnect == 0
    ensures UniqueIds(list.spine) <==>
            UniqueIds(old(list.spine)) && forall r :: r in old(list.spine) ==> r.session != req.session
  {
    req.numConnect := 0;
    UniqueSnoc(list.spine, req);
    list.Add(req);
  }

  lemma UniqueSnoc(s: seq<Request>, x: Request)
    ensures UniqueIds(s + [x]) <==> UniqueIds(s) && forall r :: r in s ==> r.session != x.session
  {
    var all := s + [x];
    if UniqueIds(all) {
      forall i, j | 0 <= i < j < |s| ensures s[i].session != s[j].session {
        assert all[i] == s[i] && all[j] == s[j];
      }
      forall r | r in s ensures r.session != x.session {
        var i :| 0 <= i < |s| && s[i] == r;
        assert all[i] == r && all[|s|] == x;
      }
    }
  }

  /** Two connections that have both found no session with their id, and then both
      open one, leave two sessions with that id. */
  lemma BothOpen(x: Request, y: Request)
    requires x.session == y.session
    ensures FirstMatch([], x.session, null) && !UniqueIds([x] + [y])
  {
    UniqueSnoc([x], y);
    assert x in [x];
  }

  /** A file request taken as one step: ids stay unique. */
  method Join(list: List, req: Request) returns (role: Role)
    requires list.Valid() && UniqueIds(list.spine) && req !in list.spine && req.next == null
    modifies list, list.spine`next, list.spine`numConnect, req`numConnect
    ensures list.Valid() && UniqueIds(list.spine)
    ensures role.First? <==> forall r :: r in old(list.spine) ==> r.session != req.session
    ensures list.spine == if role.First? then old(list.spine) + [req] else old(list.spine)
    ensures role.First? ==> req.numConnect == 0
    ensures role.Mismatch? <==>
            exists r :: r in old(list.spine) && r.session == req.session &&
                        (r.name != req.name || r.length != req.length || r.offset != req.offset)
    ensures role.Further? ==>
              && role.joined in list.spine && role.joined.session == req.session
              && role.joined.name == req.name && role.joined.length == req.length && role.joined.offset == req.offset
              && role.joined.numConnect == old(role.joined.numConnect) + 1
    ensures forall r :: r in old(list.spine) ==>
              r.numConnect == old(r.numConnect) || (role.Further? && r == role.joined)
  {
    role := Look(list, req);
    if role.First? {
      Open(list, req);
    }
  }
}
