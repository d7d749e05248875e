/** memory_pool.c: blocks of three sizes in linked lists, each with a flag that says
    whether it is in use; what the lists cannot give comes from the heap. */
module MemoryPool {
  import opened Bits
  import opened Wrappers

  const SMALL_SIZE: nat := 32
  const MEDIUM_SIZE: nat := 256
  const LARGE_SIZE: nat := 1024
  const SMALL_COUNT: nat := 1000
  const MEDIUM_COUNT: nat := 500
  const LARGE_COUNT: nat := 100

  type Memory = array<byte>

  class PoolBlock {
    const memory: Memory
    var inUse: bool
    var next: PoolBlock?

    constructor (size: nat)
      ensures fresh(memory) && memory.Length == size && !inUse && next == null
    {
      memory := new byte[size];
      inUse, next := false, null;
    }
  }

  // ---------- one list ----------

  /** Blocks with `size` bytes each, no two with the same memory, linked in order. */
  ghost predicate Linked(head: PoolBlock?, spine: seq<PoolBlock>, size: nat)
    reads spine`next
  {
    && (forall i :: 0 <= i < |spine| ==> spine[i].memory.Length == size)
    && (forall i, j :: 0 <= i < j < |spine| ==> spine[i].memory != spine[j].memory)
    && (forall i :: 0 <= i < |spine| - 1 ==> spine[i].next == spine[i + 1])
    && if spine == [] then head == null else head == spine[0] && spine[|spine| - 1].next == null
  }

  ghost predicate Owned(spine: seq<PoolBlock>, m: Memory) {
    exists i :: 0 <= i < |spine| && spine[i].memory == m
  }

  /** All memory of the list is live. */
  ghost predicate Full(spine: seq<PoolBlock>, live: set<Memory>) {
    forall i :: 0 <= i < |spine| ==> spine[i].memory in live
  }

  ghost predicate IsFirstFree(spine: seq<PoolBlock>, live: set<Memory>, m: Memory) {
    exists k :: 0 <= k < |spine| && spine[k].memory == m && m !in live && Full(spine[..k], live)
  }

  /** The flags mark exactly the live memory. */
  ghost predicate Marked(spine: seq<PoolBlock>, live: set<Memory>)
    reads spine`inUse
  {
    forall i :: 0 <= i < |spine| ==> (spine[i].inUse <==> spine[i].memory in live)
  }

  method CreateBlockList(size: nat, count: nat) returns (head: PoolBlock?, ghost spine: seq<PoolBlock>)
    ensures |spine| == count && Linked(head, spine, size) && Marked(spine, {})
    ensures forall b :: b in spine ==> fresh(b) && fresh(b.memory)
  {
    head, spine := null, [];
    var current: PoolBlock? := null;
    for i := 0 to count
      invariant |spine| == i && Linked(head, spine, size) && Marked(spine, {})
      invariant forall b :: b in spine ==> fresh(b) && fresh(b.memory)
      invariant current == if i == 0 then null else spine[i - 1]
    {
      var block := new PoolBlock(size);
      if head == null {
        head := block;
      } else {
        current.next := block;
      }
      current := block;
      spine := spine + [block];
    }
  }

  /** The blocks of one size. `live` is the memory that callers hold. */
  class BlockList {
    const size: nat
    const head: PoolBlock?
    ghost const spine: seq<PoolBlock>
    ghost var live: set<Memory>

    ghost predicate Valid()
      reads this, spine
    {
      Linked(head, spine, size) && Marked(spine, live) && forall m :: m in live ==> Owned(spine, m)
    }

    constructor (size: nat, count: nat)
      ensures Valid() && live == {} && this.size == size && |spine| == count
      ensures forall b :: b in spine ==> fresh(b) && fresh(b.memory)
    {
      var first, blocks := CreateBlockList(size, count);
      this.size, live := size, {};
      head, spine := first, blocks;
    }

    /** Takes the first free block; null when there is none. */
    method Take() returns (m: array?<byte>)
      requires Valid()
      modifies this`live, spine`inUse
      ensures Valid()
      ensures m == null <==> Full(spine, old(live))
      ensures m == null ==> live == old(live)
      ensures m != null ==> IsFirstFree(spine, old(live), m) && live == old(live) + {m}
      ensures m != null ==> m !in old(live) && Owned(spine, m) && m.Length == size
      ensures m == null <==> forall i :: 0 <= i < |spine| ==> spine[i].memory in old(live)
      ensures m != null ==>
                exists k :: 0 <= k < |spine| && spine[k].memory == m &&
                            forall i :: 0 <= i < k ==> spine[i].memory in old(live)
    {
      var current := head;
      ghost var i := 0;
      while current != null
        invariant i <= |spine| && current == if i < |spine| then spine[i] else null
        invariant Full(spine[..i], live)
        decreases |spine| - i
      {
        if !current.inUse {
          m := current.memory;
          MarkBlock(current, i, true);
          return;
        }
        current := current.next;
        i := i + 1;
      }
      assert spine[..i] == spine;
      m := null;
    }

    /** Taking leaves lists of other sizes alone. */
    method TakeBeside(ghost a: BlockList, ghost b: BlockList) returns (m: array?<byte>)
      requires Separate(this, a, b)
      modifies this`live, spine`inUse
      ensures Separate(this, a, b) && a.live == old(a.live) && b.live == old(b.live)
      ensures m == null <==> Full(spine, old(live))
      ensures m == null ==> live == old(live)
      ensures m != null ==> IsFirstFree(spine, old(live), m) && live == old(live) + {m}
      ensures m != null ==> m !in old(live + a.live + b.live) && Owned(spine, m) && m.Length == size
    {
      hide Full, IsFirstFree, Owned;
      SizesApart(this, a);
      SizesApart(this, b);
      m := Take();
      SizesApart(this, a);
      SizesApart(this, b);
    }

    /** Giving back leaves lists of other sizes alone. */
    method ReleaseBeside(ghost a: BlockList, ghost b: BlockList, ptr: Memory) returns (found: bool)
      requires Separate(this, a, b)
      modifies this`live, spine`inUse
      ensures Separate(this, a, b) && a.live == old(a.live) && b.live == old(b.live)
      ensures (found <==> Owned(spine, ptr)) && live == old(live) - {ptr}
    {
      hide Full, IsFirstFree, Owned;
      SizesApart(this, a);
      SizesApart(this, b);
      found := Release(ptr);
      SizesApart(this, a);
      SizesApart(this, b);
    }

    /** What is live is owned, and not by a list of another size. */
    lemma HoldsOwned(a: BlockList, b: BlockList)
      requires Separate(this, a, b)
      ensures forall m :: m in live ==> Owned(spine, m) && m !in a.live && m !in b.live
      ensures forall m :: (m in a.live ==> Owned(a.spine, m)) && (m in b.live ==> Owned(b.spine, m))
    {
      SizesApart(this, a);
      SizesApart(this, b);
    }

    method MarkBlock(block: PoolBlock, ghost i: nat, flag: bool)
      requires Valid() && i < |spine| && spine[i] == block
      modifies this`live, block`inUse
      ensures Valid() && live == if flag then old(live) + {block.memory} else old(live) - {block.memory}
    {
      assert Owned(spine, block.memory);
      block.inUse := flag;
      live := if flag then live + {block.memory} else live - {block.memory};
    }

    /** Gives memory back; false when it belongs to none of the blocks. */
    method Release(ptr: Memory) returns (found: bool)
      requires Valid()
      modifies this`live, spine`inUse
      ensures Valid() && (found <==> Owned(spine, ptr)) && live == old(live) - {ptr}
    {
      var current := head;
      ghost var i := 0;
      while current != null
        invariant i <= |spine| && current == if i < |spine| then spine[i] else null
        invariant !Owned(spine[..i], ptr)
        decreases |spine| - i
      {
        if current.memory == ptr {
          MarkBlock(current, i, false);
          return true;
        }
        current := current.next;
        i := i + 1;
      }
      assert spine[..i] == spine;
      return false;
    }
  }

  // ---------- the pool ----------

  /** Lists of three different sizes. */
  ghost predicate Separate(x: BlockList, y: BlockList, z: BlockList)
    reads x, y, z, x.spine, y.spine, z.spine
  {
    x.Valid() && y.Valid() && z.Valid() && x.size != y.size && y.size != z.size && x.size != z.size
  }

  ghost predicate Apart(a: seq<PoolBlock>, b: seq<PoolBlock>) {
    forall x :: x in a ==> x !in b
  }

  lemma LiveSize(list: BlockList, m: Memory)
    requires list.Valid() && Owned(list.spine, m)
    ensures m.Length == list.size
  {
  }

  lemma SizesApart(a: BlockList, b: BlockList)
    requires a.Valid() && b.Valid() && a.size != b.size
    ensures Apart(a.spine, b.spine) && a.live !! b.live
  {
    forall x | x in a.spine ensures x !in b.spine {
      assert x.memory.Length == a.size;
    }
    forall m | m in a.live ensures m !in b.live {
      LiveSize(a, m);
    }
  }

  ghost predicate Outside(m: Memory, a: seq<PoolBlock>, b: seq<PoolBlock>, c: seq<PoolBlock>) {
    !Owned(a, m) && !Owned(b, m) && !Owned(c, m)
  }

  /** malloc: memory that is not in any of the lists, with arbitrary contents. */
  method Malloc(size: nat, ghost a: seq<PoolBlock>, ghost b: seq<PoolBlock>, ghost c: seq<PoolBlock>)
    returns (m: Memory)
    ensures fresh(m) && m.Length == size && Outside(m, a, b, c)
  {
    m := new byte[size];
  }

  method CreateLists() returns (small: BlockList, medium: BlockList, large: BlockList)
    ensures Separate(small, medium, large)
    ensures small.live == {} && medium.live == {} && large.live == {}
    ensures small.size == SMALL_SIZE && medium.size == MEDIUM_SIZE && large.size == LARGE_SIZE
    ensures |small.spine| == SMALL_COUNT && |medium.spine| == MEDIUM_COUNT && |large.spine| == LARGE_COUNT
  {
    small := new BlockList(SMALL_SIZE, SMALL_COUNT);
    medium := new BlockList(MEDIUM_SIZE, MEDIUM_COUNT);
    large := new BlockList(LARGE_SIZE, LARGE_COUNT);
  }

  ghost function Memories(spine: seq<PoolBlock>): (r: set<Memory>) {
    set b | b in spine :: b.memory
  }

  lemma OwnedMemory(spine: seq<PoolBlock>, m: Memory)
    requires Owned(spine, m)
    ensures m in Memories(spine)
  {
  }

  method Clear(m: Memory)
    modifies m
    ensures forall i :: 0 <= i < m.Length ==> m[i] == 0
  {
    forall i | 0 <= i < m.Length {
      m[i] := 0;
    }
  }

  lemma OneFewer(x: set<Memory>, y: set<Memory>, z: set<Memory>, m: Memory)
    requires m in x ==> m !in y && m !in z
    ensures |x + y + z| == |(x - {m}) + y + z| + if m in x then 1 else 0
  {
    if m in x {
      assert x + y + z == (x - {m}) + y + z + {m};
    } else {
      assert x - {m} == x;
    }
  }

  lemma OneMore(live: set<Memory>, m: Memory)
    requires m !in live
    ensures |live + {m}| == |live| + 1
  {
  }

  class MemoryPool {
    const small: BlockList
    const medium: BlockList
    const large: BlockList
    var allocations: nat
    var deallocations: nat
    ghost var heap: set<Memory>    // heap memory that callers hold
    ghost var astray: set<Memory>  // pool memory that was given to the heap

    /** Pool memory that callers hold. */
    ghost function Live(): (r: set<Memory>)
      reads small, medium, large
    {
      small.live + medium.live + large.live
    }

    ghost function PoolMemory(): (r: set<Memory>) {
      Memories(small.spine) + Memories(medium.spine) + Memories(large.spine)
    }

    /** The lists, in any order, and the counters fit together. */
    ghost predicate Holds(x: BlockList, y: BlockList, z: BlockList)
      reads this, x, y, z, x.spine, y.spine, z.spine
    {
      && Separate(x, y, z)
      && (forall m :: m in heap ==> Outside(m, x.spine, y.spine, z.spine))
      && allocations == deallocations + |x.live + y.live + z.live|
    }

    ghost predicate Valid()
      reads this, small, medium, large, small.spine, medium.spine, large.spine
    {
      && small.size == SMALL_SIZE && medium.size == MEDIUM_SIZE && large.size == LARGE_SIZE
      && Holds(small, medium, large)
    }

    lemma AnyOrder(x: BlockList, y: BlockList, z: BlockList)
      ensures Holds(x, y, z) <==> Holds(y, x, z)
      ensures Holds(x, y, z) <==> Holds(z, x, y)
      ensures x.live + y.live + z.live == y.live + x.live + z.live == z.live + x.live + y.live
    {
      hide Owned, Linked, Marked;
      assert x.live + y.live + z.live == y.live + x.live + z.live == z.live + x.live + y.live;
    }

    constructor ()
      ensures Valid() && Live() == {} && heap == {} && astray == {}
      ensures |small.spine| == 1000 && |medium.spine| == 500 && |large.spine| == 100
      ensures small.size == 32 && medium.size == 256 && large.size == 1024
    {
      allocations, deallocations, heap, astray := 0, 0, {}, {};
      var s, m, l := CreateLists();
      small, medium, large := s, m, l;
      new;
      assert Live() == {};
      HoldsIf(small, medium, large);
    }

    /** The blocks that serve a request. */
    ghost function ListFor(size: nat): (r: Option<BlockList>) {
      if size <= SMALL_SIZE then Some(small)
      else if size <= MEDIUM_SIZE then Some(medium)
      else if size <= LARGE_SIZE then Some(large)
      else None
    }

    method TakeFrom(list: BlockList, ghost a: BlockList, ghost b: BlockList) returns (m: array?<byte>)
      requires Holds(list, a, b)
      modifies this`allocations, list`live, list.spine`inUse
      ensures Holds(list, a, b) && a.live == old(a.live) && b.live == old(b.live)
      ensures m == null <==> Full(list.spine, old(list.live))
      ensures m == null ==> list.live == old(list.live) && allocations == old(allocations)
      ensures m != null ==>
                && IsFirstFree(list.spine, old(list.live), m) && m.Length == list.size
                && m !in old(list.live + a.live + b.live + heap) && Owned(list.spine, m)
                && list.live == old(list.live) + {m} && allocations == old(allocations) + 1
    {
      hide BlockList.Valid, Linked, Marked, Full, IsFirstFree, Owned;
      m := list.TakeBeside(a, b);
      if m != null {
        assert list.live + a.live + b.live == old(list.live + a.live + b.live) + {m};
        OneMore(old(list.live + a.live + b.live), m);
        allocations := allocations + 1;
      }
      HoldsIf(list, a, b);
    }

    /** mp_alloc: memory of at least the size asked for that no caller holds. It is the
        first free block of the class, zeroed, or, when there is none, new memory from
        the heap. What callers hold is left alone. */
    method Alloc(size: nat) returns (m: Memory)
      requires Valid()
      modifies this`allocations, this`heap, small`live, medium`live, large`live
      modifies small.spine`inUse, medium.spine`inUse, large.spine`inUse
      modifies PoolMemory() - Live()
      ensures Valid()
      ensures m !in old(Live() + heap) && m.Length >= size
      ensures var list := ListFor(size);
              if list.Some? && !Full(list.value.spine, old(list.value.live)) then
                && IsFirstFree(list.value.spine, old(list.value.live), m)
                && (forall i :: 0 <= i < m.Length ==> m[i] == 0)
                && Live() == old(Live()) + {m} && heap == old(heap) && allocations == old(allocations) + 1
              else
                && fresh(m) && m.Length == size
                && heap == old(heap) + {m} && Live() == old(Live()) && allocations == old(allocations)
      ensures m in Live() <==>
              if size <= 32 then !Full(small.spine, old(small.live))
              else if size <= 256 then !Full(medium.spine, old(medium.live))
              else size <= 1024 && !Full(large.spine, old(large.live))
      ensures m in Live() ==> m.Length == if size <= 32 then 32 else if size <= 256 then 256 else 1024
    {
      hide Separate, Linked, Marked, Full, IsFirstFree, Owned, PoolMemory;
      var taken := AllocFromLists(size);
      if taken == null {
        m := FromHeap(size);
      } else {
        m := taken;
        Clear(m);
      }
    }

    method AllocFromLists(size: nat) returns (m: array?<byte>)
      requires Valid()
      modifies this`allocations, small`live, medium`live, large`live
      modifies small.spine`inUse, medium.spine`inUse, large.spine`inUse
      ensures Valid()
      ensures m == null <==> ListFor(size).Some? ==> Full(ListFor(size).value.spine, old(ListFor(size).value.live))
      ensures m == null ==> Live() == old(Live()) && allocations == old(allocations)
      ensures m != null ==>
                && var list := ListFor(size).value;
                && IsFirstFree(list.spine, old(list.live), m) && m in PoolMemory() && m.Length == list.size >= size
                && m !in old(Live()) && m !in heap
                && Live() == old(Live()) + {m} && allocations == old(allocations) + 1
    {
      hide Holds, Full, IsFirstFree, Owned, Memories;
      AnyOrder(small, medium, large);
      m := null;
      if size <= SMALL_SIZE {
        m := TakeFrom(small, medium, large);
      } else if size <= MEDIUM_SIZE {
        m := TakeFrom(medium, small, large);
        AnyOrder(medium, small, large);
      } else if size <= LARGE_SIZE {
        m := TakeFrom(large, small, medium);
        AnyOrder(small, medium, large);
      }
      if m != null {
        OwnedMemory(ListFor(size).value.spine, m);
      }
    }

    method FromHeap(size: nat) returns (m: Memory)
      requires Valid()
      modifies this`heap
      ensures Valid() && fresh(m) && m.Length == size && heap == old(heap) + {m}
    {
      m := Malloc(size, small.spine, medium.spine, large.spine);
      heap := heap + {m};
      HoldsIf(small, medium, large);
    }

    lemma HoldsIf(x: BlockList, y: BlockList, z: BlockList)
      requires Separate(x, y, z) && allocations == deallocations + |x.live + y.live + z.live|
      requires forall m :: m in heap ==> Outside(m, x.spine, y.spine, z.spine)
      ensures Holds(x, y, z)
    {
      hide Separate, Owned;
    }

    method ReleaseTo(list: BlockList, ghost a: BlockList, ghost b: BlockList, ptr: Memory) returns (found: bool)
      requires Holds(list, a, b)
      requires ptr in list.live + a.live + b.live + heap
      modifies this`deallocations, list`live, list.spine`inUse
      ensures Holds(list, a, b) && a.live == old(a.live) && b.live == old(b.live)
      ensures found <==> ptr in old(list.live)
      ensures found ==> ptr !in heap
      ensures list.live == old(list.live) - {ptr}
      ensures deallocations == old(deallocations) + if found then 1 else 0
    {
      hide BlockList.Valid, Linked, Marked, Full, IsFirstFree, Owned;
      list.HoldsOwned(a, b);
      NotOwned(list, a, b, ptr);
      OneFewer(list.live, a.live, b.live, ptr);
      found := list.ReleaseBeside(a, b, ptr);
      if found {
        deallocations := deallocations + 1;
      }
      HoldsIf(list, a, b);
    }

    /** Memory in use elsewhere is not the list's. */
    lemma NotOwned(list: BlockList, a: BlockList, b: BlockList, ptr: Memory)
      requires Holds(list, a, b) && ptr in list.live + a.live + b.live + heap
      ensures Owned(list.spine, ptr) <==> ptr in list.live
    {
      hide Linked, Marked, Owned;
      if ptr in a.live {
        LiveSize(a, ptr);
      } else if ptr in b.live {
        LiveSize(b, ptr);
      }
      if Owned(list.spine, ptr) {
        LiveSize(list, ptr);
      }
    }

    /** The memory is live in the list that serves requests of this size. */
    ghost predicate Matches(ptr: Memory, size: nat)
      reads small, medium, large
    {
      ListFor(size).Some? && ptr in ListFor(size).value.live
    }

    /** The list that a live block is in is known by the block's length. */
    lemma MatchesIff(ptr: Memory, size: nat)
      requires Valid() && ptr in Live()
      ensures Matches(ptr, size) <==>
              size <= 1024 && ptr.Length == if size <= 32 then 32 else if size <= 256 then 256 else 1024
    {
      hide Linked, Marked, Owned;
      if ptr in small.live {
        LiveSize(small, ptr);
      } else if ptr in medium.live {
        LiveSize(medium, ptr);
      } else {
        LiveSize(large, ptr);
      }
      LiveApart();
    }

    /** mp_free: with a size of the class that it came from, pool memory goes back to
        the pool; anything else goes to the heap. That is right for memory that came
        from the heap; pool memory given with a size of another class goes astray. */
    method Free(ptr: Memory, size: nat)
      requires Valid() && ptr in Live() + heap
      modifies this`deallocations, this`heap, this`astray, small`live, medium`live, large`live
      modifies small.spine`inUse, medium.spine`inUse, large.spine`inUse
      ensures Valid()
      ensures Live() == if old(Matches(ptr, size)) then old(Live()) - {ptr} else old(Live())
      ensures heap == old(heap) - {ptr}
      ensures astray == old(astray) + if ptr in old(Live()) && !old(Matches(ptr, size)) then {ptr} else {}
      ensures deallocations == old(deallocations) + if old(Matches(ptr, size)) then 1 else 0
      ensures ptr in old(Live()) ==>
                (ptr !in Live() <==>
                 size <= 1024 && ptr.Length == if size <= 32 then 32 else if size <= 256 then 256 else 1024)
    {
      hide Separate, Linked, Marked, Full, IsFirstFree, Owned;
      if ptr in Live() {
        MatchesIff(ptr, size);
      }
      var found := FreeToLists(ptr, size);
      if !found {
        astray := if ptr in Live() then astray + {ptr} else astray;
        heap := heap - {ptr};
      }
      HoldsIf(small, medium, large);
    }

    method FreeToLists(ptr: Memory, size: nat) returns (found: bool)
      requires Valid() && ptr in Live() + heap
      modifies this`deallocations, small`live, medium`live, large`live
      modifies small.spine`inUse, medium.spine`inUse, large.spine`inUse
      ensures Valid() && (found <==> old(Matches(ptr, size)))
      ensures Live() == if found then old(Live()) - {ptr} else old(Live())
      ensures found ==> ptr !in heap
      ensures deallocations == old(deallocations) + if found then 1 else 0
    {
      hide Holds, Full, IsFirstFree, Owned;
      AnyOrder(small, medium, large);
      LiveApart();
      found := false;
      if size <= SMALL_SIZE {
        found := ReleaseTo(small, medium, large, ptr);
      } else if size <= MEDIUM_SIZE {
        found := ReleaseTo(medium, small, large, ptr);
        AnyOrder(medium, small, large);
      } else if size <= LARGE_SIZE {
        found := ReleaseTo(large, small, medium, ptr);
        AnyOrder(small, medium, large);
      }
    }

    lemma LiveApart()
      requires Valid()
      ensures small.live !! medium.live && small.live !! large.live && medium.live !! large.live
    {
      SizesApart(small, medium);
      SizesApart(small, large);
      SizesApart(medium, large);
    }
  }
}
