/** `allocator<std::byte>`: the arena a caller hands over, trimmed to its first aligned address, with
    the list engine over it and the payload-pointer interface on top. Pointers are addresses; null is
    `Null`. */
module ByteAllocator {
  import opened Layout
  import opened Blocks
  import opened Links
  import opened Engine

  /** The arena size kept by the constructor as written: the bytes before the first aligned address
      of the buffer are dropped, so the arena ends where the buffer does. */
  function UsableAsWritten(memory: nat, size: nat): (usable: nat)
    requires Alignment(memory) <= size
    ensures memory + Alignment(memory) + usable == memory + size
  {
    size - Alignment(memory)
  }

  /** With an odd trimmed size, the node the list constructor writes over the whole arena has its
      low bit set: it is flagged allocated, so the free list starts with a node that is not free,
      and its size loses the arena's last byte. */
  lemma OddArenaFlagged(memory: nat, size: nat)
    requires Alignment(memory) <= size && UsableAsWritten(memory, size) % 2 == 1
    ensures !IsFree(UsableAsWritten(memory, size))
    ensures Size(UsableAsWritten(memory, size)) + 1 == UsableAsWritten(memory, size)
  {
  }

  /** A buffer of 57 bytes at address 8 is trimmed to 49 bytes, an odd size. */
  lemma OddArenaExample()
    ensures Alignment(8) == 8 && UsableAsWritten(8, 57) == 49
    ensures !IsFree(UsableAsWritten(8, 57))
  {
  }

  /** The arena size used by the model: the trimmed size with its low bit cleared, so that the first
      node is free and spans the whole arena it is given. */
  function Usable(memory: nat, size: nat): (usable: nat)
    requires Alignment(memory) <= size
    ensures usable % 2 == 0 && usable <= UsableAsWritten(memory, size) < usable + 2
    ensures IsFree(usable) && Size(usable) == usable
  {
    var trimmed := UsableAsWritten(memory, size);
    PackedWord(trimmed);
    trimmed - trimmed % 2
  }

  /** The block an allocation of `request` bytes takes from the view `v` of an arena: its payload is
      aligned, holds the request and lies inside the block, which owns none of the bytes of any other
      block. */
  lemma AllocationFits(v: seq<Block>, lo: nat, hi: nat, request: nat, i: nat)
    requires Tiles(v, lo, hi) && Aligned(v) && i < |v| && v[i].free && Footprint(request) <= v[i].size
    ensures var c := Carve(v, i, Footprint(request));
            && i < |c| && c[i].start == v[i].start && !c[i].free
            && Data(c[i].start) % A == 0 && Data(c[i].start) + request <= End(c[i])
            && Tiles(c, lo, hi)
            && forall k :: 0 <= k < |c| && k != i ==> End(c[k]) <= c[i].start || End(c[i]) <= c[k].start
  {
    var fp := Footprint(request);
    CarvedBlock(v, i, fp);
    CarveTiles(v, lo, hi, i, fp);
    var c := Carve(v, i, fp);
    forall k | 0 <= k < |c| && k != i
      ensures End(c[k]) <= c[i].start || End(c[i]) <= c[k].start
    {
      Disjoint(c, lo, hi, k, i);
    }
  }

  /** A request past `MaxRequest` has a footprint no block of an arena of at most `SizeMax` bytes can
      hold, so first fit finds nothing. */
  lemma HugeRequestFails(v: seq<Block>, lo: nat, hi: nat, request: nat)
    requires Tiles(v, lo, hi) && hi - lo <= SizeMax && request > MaxRequest
    ensures FirstFit(v, Footprint(request)) == |v|
  {
    Ordered(v, lo, hi);
  }

  class Allocator {
    /** `m_memory`: the start and size of the trimmed arena. */
    const data: nat
    const usable: nat
    /** `m_list`. */
    const list: List

    ghost predicate Valid()
      reads this, list
    {
      list.Valid() && list.first == data && list.hi == data + usable && usable <= SizeMax
    }

    /** `allocator(memory, size)`: the arena starts at the first aligned address of the buffer and
        is given, whole, to a new list as one free node. The buffer must hold that padding and a
        node, and its size is a `std::size_t`. */
    constructor (memory: nat, size: nat)
      requires Alignment(memory) + N <= size <= SizeMax
      ensures Valid() && fresh(list)
      ensures data == memory + Alignment(memory) && data % A == 0 && usable == Usable(memory, size)
      ensures list.View() == [Block(data, usable, true)] && list.bytesAllocated == 0
    {
      data := memory + Alignment(memory);
      usable := Usable(memory, size);
      list := new List(memory + Alignment(memory), Usable(memory, size));
    }

    /** `allocate(size)`: the payload of the block the list engine allocates, or null when no free
        block fits. */
    method Allocate(request: nat) returns (p: Ptr, ghost i: nat)
      requires Valid()
      modifies list
      ensures Valid()
      ensures p == Null <==> FirstFit(old(list.View()), Footprint(request)) == |old(list.View())|
      ensures p == Null ==> unchanged(list)
      ensures request > MaxRequest ==> p == Null
      ensures p != Null ==> && i == FirstFit(old(list.View()), Footprint(request)) && i < |old(list.View())|
                            && p == At(Data(old(list.View())[i].start))
                            && list.View() == Carve(old(list.View()), i, Footprint(request))
                            && i < |list.blocks| && list.blocks[i] == FromData(p.addr) && !list.View()[i].free
                            && p.addr % A == 0 && AllocationSize(p.addr, i) >= request
    {
      ghost var v := list.View();
      var h := list.Allocate(request);
      i := FirstFit(v, Footprint(request));
      if request > MaxRequest {
        HugeRequestFails(v, data, data + usable, request);
      }
      if h == Null {
        return Null, i;
      }
      AllocationFits(v, data, data + usable, request, i);
      p := At(Data(h.addr));
    }

    /** `deallocate(pointer, size)`: null is ignored; any other pointer is the payload of the
        allocated `i`-th block, which the list engine releases. */
    method Deallocate(pointer: Ptr, ghost i: nat)
      requires Valid()
      requires pointer != Null ==> && pointer.addr >= H && i < |list.blocks|
                                   && list.blocks[i] == FromData(pointer.addr) && !list.View()[i].free
      modifies list
      ensures Valid()
      ensures pointer == Null ==> unchanged(list)
      ensures pointer != Null ==> list.View() == Release(old(list.View()), i)
    {
      if pointer == Null {
        return;
      }
      list.Deallocate(FromData(pointer.addr), i);
    }

    /** `allocation_size(pointer)`: the payload capacity of the block whose payload starts at
        `pointer`, the `i`-th block; the payload runs to the end of the block. */
    function AllocationSize(pointer: nat, ghost i: nat): (capacity: nat)
      reads this, list
      requires Valid() && pointer >= H && i < |list.blocks| && list.blocks[i] == FromData(pointer)
      ensures pointer + capacity == End(list.View()[i])
    {
      list.AllocationSize(FromData(pointer), i)
    }

    /** `contains(address)`: whether the address lies in the half-open arena range. */
    predicate Contains(address: nat)
      reads this
    {
      data <= address < data + usable
    }

    /** The arena `contains` tests is exactly the union of the blocks of the list engine. */
    lemma ContainsExactlyTheBlocks(address: nat)
      requires Valid()
      ensures Contains(address) <==>
              exists k :: 0 <= k < |list.View()| && list.View()[k].start <= address < End(list.View()[k])
    {
      var v := list.View();
      Ordered(v, data, data + usable);
      if Contains(address) {
        var k := Covers(v, data, data + usable, address);
      }
    }

    /** `allocated()`: the bytes held by allocated blocks, headers included; never more than the
        arena. */
    function Allocated(): (bytes: nat)
      reads this, list
      requires Valid()
      ensures bytes == AllocatedBytes(list.View()) && bytes <= Size()
    {
      AllocatedBound(list.View(), data, data + usable);
      list.bytesAllocated
    }

    /** `size()`: the size of the trimmed arena, which the blocks fill exactly. */
    function Size(): (bytes: nat)
      reads this, list
      requires Valid()
      ensures bytes == TotalBytes(list.View())
    {
      TotalOfTiling(list.View(), data, data + usable);
      usable
    }
  }
}
