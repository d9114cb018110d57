/** The guest heap of refract/src/runtime.cpp: a first-fit free list above which a
    heap cursor grows towards a stack cursor that grows down. */
module GuestHeap {
  import opened Words
  import opened Alignment

  datatype Block = Block(address: Word, size: Word)

  // ----- the allocator on values -----

  datatype Heap = Heap(base: Word, heapCursor: Word, stackCursor: Word, free: seq<Block>)

  predicate Fits(block: Block, size: Word, alignment: Word) {
    var address := AlignUp(block.address, alignment);
    address >= block.address && address - block.address <= block.size &&
    size <= block.size - (address - block.address)
  }

  /** The first block from `index` on that fits, or the length of the list. */
  function FirstFit(free: seq<Block>, size: Word, alignment: Word, index: nat): (r: nat)
    requires index <= |free|
    ensures index <= r <= |free|
    ensures forall i :: index <= i < r ==> !Fits(free[i], size, alignment)
    ensures r < |free| ==> Fits(free[r], size, alignment)
    decreases |free| - index
  {
    if index == |free| || Fits(free[index], size, alignment) then index
    else FirstFit(free, size, alignment, index + 1)
  }

  function Rest(address: Word, end: Word): seq<Block> {
    if address < end then [Block(address, end - address)] else []
  }

  function Without<T>(s: seq<T>, index: nat): seq<T>
    requires index < |s|
  {
    s[..index] + s[index + 1..]
  }

  /** A returned 0 is the failure. */
  function AllocateHeap(h: Heap, size: Word, alignment: Word): (Heap, Word) {
    var index := FirstFit(h.free, size, alignment, 0);
    if index < |h.free| then
      var block := h.free[index];
      var address := AlignUp(block.address, alignment);
      (h.(free := Without(h.free, index) + Rest(block.address, address)
                  + Rest(Add(address, size), Add(block.address, block.size))), address)
    else
      var address := AlignUp(h.heapCursor, alignment);
      if size > h.stackCursor || address > h.stackCursor - size then (h, 0)
      else (h.(heapCursor := address + size), Add(h.base, address))
  }

  function Insert(block: Block, sorted: seq<Block>): seq<Block>
    decreases |sorted|
  {
    if sorted == [] || block.address < sorted[0].address then [block] + sorted
    else [sorted[0]] + Insert(block, sorted[1..])
  }

  function Sort(blocks: seq<Block>): seq<Block> {
    if blocks == [] then [] else Insert(blocks[0], Sort(blocks[1..]))
  }

  /** Merges every block from `index` on into its predecessor where they touch. */
  function Coalesce(blocks: seq<Block>, index: nat): seq<Block>
    requires 1 <= index
    decreases |blocks| - index
  {
    if index >= |blocks| then blocks
    else
      var previous, current := blocks[index - 1], blocks[index];
      if Add(previous.address, previous.size) == current.address then
        Coalesce(Without(blocks[index - 1 := Block(previous.address, Add(previous.size, current.size))], index), index)
      else Coalesce(blocks, index + 1)
  }

  function FreeHeap(h: Heap, address: Word, size: Word): Heap {
    if address == 0 || size == 0 then h
    else h.(free := Coalesce(Sort(h.free + [Block(address, size)]), 1))
  }

  function AllocateStack(h: Heap, requested: Word): (Heap, Word) {
    var size := AlignUp(requested, 64);
    if size > h.stackCursor || h.stackCursor - size < h.heapCursor then (h, 0)
    else (h.(stackCursor := h.stackCursor - size), Add(h.base, h.stackCursor - size))
  }

  // ----- the allocator in place -----

  class Allocator {
    var memoryBase: Word
    var heapCursor: Word
    var stackCursor: Word
    var freeBlocks: seq<Block>

    constructor (h: Heap)
      ensures State() == h
    {
      memoryBase, heapCursor, stackCursor, freeBlocks := h.base, h.heapCursor, h.stackCursor, h.free;
    }

    function State(): Heap
      reads this
    {
      Heap(memoryBase, heapCursor, stackCursor, freeBlocks)
    }

    method Allocate(size: Word, alignment: Word) returns (address: Word)
      requires PowerOfTwo(alignment)
      modifies this
      ensures (State(), address) == AllocateHeap(old(State()), size, alignment)
    {
      hide AlignUp;
      var index := 0;
      while index < |freeBlocks|
        invariant 0 <= index <= |freeBlocks|
        invariant State() == old(State())
        invariant FirstFit(freeBlocks, size, alignment, index) == FirstFit(freeBlocks, size, alignment, 0)
      {
        var block := freeBlocks[index];
        var aligned := AlignUp(block.address, alignment);
        if aligned < block.address || aligned - block.address > block.size ||
           size > block.size - (aligned - block.address) {
          index := index + 1;
          continue;
        }
        freeBlocks := Without(freeBlocks, index);
        if aligned > block.address {
          freeBlocks := freeBlocks + [Block(block.address, aligned - block.address)];
        }
        var end := Add(aligned, size);
        var blockEnd := Add(block.address, block.size);
        if end < blockEnd {
          freeBlocks := freeBlocks + [Block(end, blockEnd - end)];
        }
        assert freeBlocks == Without(old(freeBlocks), index) + Rest(block.address, aligned) + Rest(end, blockEnd);
        return aligned;
      }
      address := AlignUp(heapCursor, alignment);
      if size > stackCursor || address > stackCursor - size {
        return 0;
      }
      heapCursor := address + size;
      address := Add(memoryBase, address);
    }

    method Free(address: Word, size: Word)
      modifies this`freeBlocks
      ensures State() == FreeHeap(old(State()), address, size)
    {
      if address == 0 || size == 0 {
        return;
      }
      freeBlocks := Sort(freeBlocks + [Block(address, size)]);
      var index := 1;
      while index < |freeBlocks|
        invariant 1 <= index
        invariant Coalesce(freeBlocks, index) == Coalesce(Sort(old(freeBlocks) + [Block(address, size)]), 1)
        decreases |freeBlocks| - index
      {
        var previous, current := freeBlocks[index - 1], freeBlocks[index];
        if Add(previous.address, previous.size) == current.address {
          freeBlocks := freeBlocks[index - 1 := Block(previous.address, Add(previous.size, current.size))];
          freeBlocks := Without(freeBlocks, index);
        } else {
          index := index + 1;
        }
      }
    }

    method AllocateThreadStack(requested: Word) returns (address: Word)
      modifies this`stackCursor
      ensures (State(), address) == AllocateStack(old(State()), requested)
    {
      var size := AlignUp(requested, 64);
      if size > stackCursor || stackCursor - size < heapCursor {
        return 0;
      }
      stackCursor := stackCursor - size;
      address := Add(memoryBase, stackCursor);
    }
  }

  // ----- who owns which byte -----

  predicate Has(block: Block, x: int) {
    block.address <= x < block.address + block.size
  }

  function Owners(blocks: seq<Block>, x: int): nat {
    if blocks == [] then 0 else (if Has(blocks[0], x) then 1 else 0) + Owners(blocks[1..], x)
  }

  function Total(blocks: seq<Block>): nat {
    if blocks == [] then 0 else blocks[0].size + Total(blocks[1..])
  }

  lemma {:induction false} Append(s: seq<Block>, t: seq<Block>, x: int)
    ensures Owners(s + t, x) == Owners(s, x) + Owners(t, x) && Total(s + t) == Total(s) + Total(t)
    decreases |s|
  {
    if s == [] {
      assert s + t == t;
    } else {
      Append(s[1..], t, x);
      assert (s + t)[1..] == s[1..] + t;
    }
  }

  lemma TakenOut(s: seq<Block>, index: nat, x: int)
    requires index < |s|
    ensures Owners(s, x) == Owners(Without(s, index), x) + if Has(s[index], x) then 1 else 0
    ensures Total(s) == Total(Without(s, index)) + s[index].size
  {
    var rest := s[index..];
    Append(s[..index], rest, x);
    assert s == s[..index] + rest;
    assert rest[1..] == s[index + 1..];
    Append(s[..index], s[index + 1..], x);
  }
}
