/** What every run of the guest allocator keeps. */
module GuestHeapRuns {
  import opened Words
  import opened Alignment
  import opened GuestHeap

  function End(block: Block): int {
    block.address + block.size
  }

  predicate Inside(blocks: seq<Block>, low: int, high: int) {
    forall b :: b in blocks ==> 0 < b.size && low <= b.address && End(b) <= high
  }

  lemma {:induction false} NoOwnersOutside(blocks: seq<Block>, low: int, high: int, x: int)
    requires Inside(blocks, low, high) && !(low <= x < high)
    ensures Owners(blocks, x) == 0
    decreases |blocks|
  {
    if blocks != [] {
      assert blocks[0] in blocks;
      NoOwnersOutside(blocks[1..], low, high, x);
    }
  }

  lemma {:induction false} OwnsOne(blocks: seq<Block>, i: nat, x: int)
    requires i < |blocks| && Has(blocks[i], x)
    ensures 1 <= Owners(blocks, x)
  {
    TakenOut(blocks, i, x);
  }

  lemma OwnsTwo(blocks: seq<Block>, i: nat, j: nat, x: int)
    requires i < j < |blocks| && Has(blocks[i], x) && Has(blocks[j], x)
    ensures 2 <= Owners(blocks, x)
  {
    TakenOut(blocks, i, x);
    OwnsOne(Without(blocks, i), j - 1, x);
  }

  lemma RestOwners(address: Word, end: Word, x: int)
    ensures Owners(Rest(address, end), x) == if address <= x < end then 1 else 0
    ensures Total(Rest(address, end)) == if address < end then end - address else 0
  {
  }

  // ----- sorting and merging -----

  predicate Ordered(blocks: seq<Block>) {
    forall i, j :: 0 <= i < j < |blocks| ==> blocks[i].address <= blocks[j].address
  }

  /** Ascending, and no block starts before its predecessor ends. */
  predicate Ascending(blocks: seq<Block>) {
    forall i, j :: 0 <= i < j < |blocks| ==> End(blocks[i]) <= blocks[j].address
  }

  /** No block before `index` touches its successor. */
  predicate Merged(blocks: seq<Block>, index: nat) {
    forall k :: 1 <= k < |blocks| && k < index ==> End(blocks[k - 1]) < blocks[k].address
  }

  /** The same bytes, owned as often. */
  ghost predicate SameBytes(s: seq<Block>, t: seq<Block>) {
    Total(s) == Total(t) && forall x :: Owners(s, x) == Owners(t, x)
  }

  lemma {:induction false} InsertKeeps(block: Block, sorted: seq<Block>)
    requires Ordered(sorted)
    ensures var r := Insert(block, sorted);
      Ordered(r) && SameBytes(r, [block] + sorted) && (forall b :: b in r <==> b == block || b in sorted)
    decreases |sorted|
  {
    if sorted != [] && block.address >= sorted[0].address {
      InsertKeeps(block, sorted[1..]);
      var tail := Insert(block, sorted[1..]);
      assert ([block] + sorted[1..])[1..] == sorted[1..];
      assert ([block] + sorted)[1..] == sorted;
      assert ([sorted[0]] + tail)[1..] == tail;
      forall b ensures b in [sorted[0]] + tail <==> b == block || b in sorted {
        assert b in sorted <==> b == sorted[0] || b in sorted[1..];
      }
      assert forall x :: Owners(tail, x) == Owners([block] + sorted[1..], x);
    } else {
      assert ([block] + sorted)[1..] == sorted;
    }
  }

  lemma {:induction false} SortKeeps(blocks: seq<Block>)
    ensures Ordered(Sort(blocks)) && SameBytes(Sort(blocks), blocks)
    ensures forall b :: b in Sort(blocks) <==> b in blocks
    decreases |blocks|
  {
    if blocks != [] {
      var tail := Sort(blocks[1..]);
      SortKeeps(blocks[1..]);
      InsertKeeps(blocks[0], tail);
      assert ([blocks[0]] + tail)[1..] == tail;
      forall x ensures Owners([blocks[0]] + tail, x) == Owners(blocks, x) {
        assert Owners(tail, x) == Owners(blocks[1..], x);
      }
    }
  }

  lemma OrderedIsAscending(blocks: seq<Block>, low: int, high: int)
    requires Ordered(blocks) && Inside(blocks, low, high)
    requires forall x :: Owners(blocks, x) <= 1
    ensures Ascending(blocks)
  {
    forall i, j | 0 <= i < j < |blocks| ensures End(blocks[i]) <= blocks[j].address {
      if End(blocks[i]) > blocks[j].address {
        OwnsTwo(blocks, i, j, blocks[j].address);
      }
    }
  }

  function MergedPair(blocks: seq<Block>, index: nat): seq<Block>
    requires 1 <= index < |blocks|
  {
    Without(blocks[index - 1 := Block(blocks[index - 1].address, Add(blocks[index - 1].size, blocks[index].size))], index)
  }

  lemma MergedShape(blocks: seq<Block>, index: nat, low: int, high: int)
    requires 1 <= index < |blocks|
    requires Inside(blocks, low, high) && 0 <= low && high < TWO32
    requires End(blocks[index - 1]) == blocks[index].address
    ensures var p, c := blocks[index - 1], blocks[index];
      p.size + c.size < TWO32 &&
      MergedPair(blocks, index) == blocks[..index - 1] + ([Block(p.address, p.size + c.size)] + blocks[index + 1..])
  {
    var p, c := blocks[index - 1], blocks[index];
    assert c in blocks && p in blocks;
    assert Add(p.size, c.size) == p.size + c.size;
  }

  lemma MergeKeepsBytes(front: seq<Block>, p: Block, c: Block, back: seq<Block>)
    requires End(p) == c.address && p.size + c.size < TWO32
    ensures SameBytes(front + ([Block(p.address, p.size + c.size)] + back), front + ([p, c] + back))
  {
    var m := Block(p.address, p.size + c.size);
    assert ([m] + back)[1..] == back;
    assert ([p, c] + back)[1..] == [c] + back && ([c] + back)[1..] == back;
    Append(front, [m] + back, 0);
    Append(front, [p, c] + back, 0);
    forall x ensures Owners(front + ([m] + back), x) == Owners(front + ([p, c] + back), x) {
      Append(front, [m] + back, x);
      Append(front, [p, c] + back, x);
    }
  }

  /** The merged list keeps the ends of the successors and the starts of the
      predecessors. */
  predicate Closes(r: seq<Block>, blocks: seq<Block>, n: nat) {
    |r| + 1 == |blocks| && n < |r| &&
    (forall k :: 0 <= k < |r| ==> r[k].address == blocks[if k <= n then k else k + 1].address) &&
    (forall k :: 0 <= k < |r| ==> End(r[k]) == End(blocks[if k < n then k else k + 1]))
  }

  lemma MergeCloses(front: seq<Block>, p: Block, c: Block, back: seq<Block>)
    requires End(p) == c.address && p.size + c.size < TWO32
    ensures Closes(front + ([Block(p.address, p.size + c.size)] + back), front + ([p, c] + back), |front|)
  {
    var blocks := front + ([p, c] + back);
    var r := front + ([Block(p.address, p.size + c.size)] + back);
    assert forall k :: |front| < k < |r| ==> r[k] == back[k - |front| - 1] == blocks[k + 1];
  }

  lemma ClosesKeepsOrder(r: seq<Block>, blocks: seq<Block>, n: nat)
    requires Closes(r, blocks, n) && Ascending(blocks) && Merged(blocks, n + 1)
    ensures Ascending(r) && Merged(r, n + 1)
  {
    forall i, j | 0 <= i < j < |r| ensures End(r[i]) <= r[j].address {
      assert End(blocks[if i < n then i else i + 1]) <= blocks[if j <= n then j else j + 1].address;
    }
    forall k | 1 <= k <= n ensures End(r[k - 1]) < r[k].address {
      assert End(blocks[k - 1]) < blocks[k].address;
    }
  }

  lemma MergeKeepsInside(front: seq<Block>, p: Block, c: Block, back: seq<Block>, low: int, high: int)
    requires Inside(front + ([p, c] + back), low, high) && End(p) == c.address && p.size + c.size < TWO32
    ensures Inside(front + ([Block(p.address, p.size + c.size)] + back), low, high)
  {
    var blocks := front + ([p, c] + back);
    assert blocks[|front|] == p && blocks[|front| + 1] == c && p in blocks && c in blocks;
    var r := front + ([Block(p.address, p.size + c.size)] + back);
    forall b | b in r ensures b in blocks || b == Block(p.address, p.size + c.size) {
    }
  }

  lemma MergeKeeps(blocks: seq<Block>, index: nat, low: int, high: int)
    requires 1 <= index < |blocks| && Ascending(blocks) && Merged(blocks, index)
    requires Inside(blocks, low, high) && 0 <= low && high < TWO32
    requires End(blocks[index - 1]) == blocks[index].address
    ensures var r := MergedPair(blocks, index);
      Ascending(r) && Merged(r, index) && Inside(r, low, high) && SameBytes(r, blocks)
  {
    hide MergedPair, Ascending, Merged, SameBytes, Closes, Inside;
    var front, back := blocks[..index - 1], blocks[index + 1..];
    var p, c := blocks[index - 1], blocks[index];
    MergedShape(blocks, index, low, high);
    assert blocks == front + ([p, c] + back);
    MergeKeepsBytes(front, p, c, back);
    MergeCloses(front, p, c, back);
    ClosesKeepsOrder(MergedPair(blocks, index), blocks, index - 1);
    MergeKeepsInside(front, p, c, back, low, high);
  }

  lemma {:induction false} CoalesceKeeps(blocks: seq<Block>, index: nat, low: int, high: int)
    requires 1 <= index && Ascending(blocks) && Merged(blocks, index)
    requires Inside(blocks, low, high) && 0 <= low && high < TWO32
    ensures var r := Coalesce(blocks, index);
      Ascending(r) && Merged(r, |r|) && Inside(r, low, high) && SameBytes(r, blocks)
    decreases |blocks| - index
  {
    hide SameBytes, Ascending;
    if index < |blocks| {
      var p, c := blocks[index - 1], blocks[index];
      assert p in blocks && End(p) <= high;
      assert Add(p.address, p.size) == End(p);
      if End(p) == c.address {
        MergeKeeps(blocks, index, low, high);
        CoalesceKeeps(MergedPair(blocks, index), index, low, high);
        SameBytesChain(Coalesce(blocks, index), MergedPair(blocks, index), blocks);
      } else {
        AscendingPair(blocks, index);
        CoalesceKeeps(blocks, index + 1, low, high);
      }
    } else {
      SameBytesChain(blocks, blocks, blocks);
    }
  }

  lemma AscendingPair(blocks: seq<Block>, index: nat)
    requires 1 <= index < |blocks| && Ascending(blocks)
    ensures End(blocks[index - 1]) <= blocks[index].address
  {
  }

  lemma SameBytesChain(a: seq<Block>, b: seq<Block>, c: seq<Block>)
    ensures SameBytes(a, a)
    ensures SameBytes(a, b) && SameBytes(b, c) ==> SameBytes(a, c)
  {
  }

  // ----- runs -----

  /** The allocator with the blocks and stacks it has handed out and the bytes
      that aligning the heap cursor has skipped. */
  datatype Run = Run(heap: Heap, live: seq<Block>, stacks: seq<Block>, padding: int)

  datatype Operation = Allocate(size: Word, alignment: Word) | Free(index: nat) | Stack(size: Word)

  function Step(run: Run, op: Operation): Run {
    match op
    case Allocate(size, alignment) =>
      var (h, address) := AllocateHeap(run.heap, size, alignment);
      if address == 0 then run.(heap := h)
      else run.(heap := h, live := run.live + [Block(address, size)],
                padding := run.padding + if h.heapCursor == run.heap.heapCursor then 0
                                         else h.heapCursor - size - run.heap.heapCursor)
    case Free(index) =>
      if index < |run.live|
      then run.(heap := FreeHeap(run.heap, run.live[index].address, run.live[index].size), live := Without(run.live, index))
      else run
    case Stack(size) =>
      var (h, address) := AllocateStack(run.heap, size);
      if address == 0 then run.(heap := h)
      else run.(heap := h, stacks := run.stacks + [Block(address, AlignUp(size, 64))])
  }

  /** What the callers keep to: positive sizes, power-of-two alignments, frees of
      live blocks, and sizes and cursors that do not wrap when they are aligned. */
  predicate Permitted(run: Run, op: Operation) {
    match op
    case Allocate(size, alignment) =>
      0 < size && PowerOfTwo(alignment) && run.heap.heapCursor + alignment - 1 < TWO32
    case Free(index) => index < |run.live|
    case Stack(size) => size + 63 < TWO32
  }

  /** Where the cursors were configured, and the bytes free below them. */
  datatype Origin = Origin(start: Word, top: Word, pool: nat)

  /** Heap blocks lie below the heap cursor, free and live blocks share no byte. */
  ghost predicate Disjoint(h: Heap, live: seq<Block>) {
    Inside(h.free, h.base, h.base + h.heapCursor) && Inside(live, h.base, h.base + h.heapCursor) &&
    forall x :: Owners(h.free, x) + Owners(live, x) <= 1
  }

  /** Stacks lie above the stack cursor and share no byte. */
  ghost predicate StacksApart(h: Heap, top: int, stacks: seq<Block>) {
    (forall b :: b in stacks ==> h.base + h.stackCursor <= b.address && End(b) <= h.base + top) &&
    Total(stacks) == top - h.stackCursor && forall x :: Owners(stacks, x) <= 1
  }

  ghost predicate Sound(origin: Origin, run: Run) {
    var h := run.heap;
    0 < h.base && h.base + origin.top < TWO32 &&
    origin.start <= h.heapCursor <= h.stackCursor <= origin.top &&
    Disjoint(h, run.live) && StacksApart(h, origin.top, run.stacks) &&
    Total(h.free) + Total(run.live) + run.padding == origin.pool + (h.heapCursor - origin.start)
  }

  /** Taking part of one free block out of the list. */
  function Taken(free: seq<Block>, index: nat, address: Word, size: Word): seq<Block>
    requires index < |free| && address + size <= End(free[index]) < TWO32
  {
    Without(free, index) + Rest(free[index].address, address) + Rest(address + size, End(free[index]))
  }

  lemma TakenInside(free: seq<Block>, index: nat, address: Word, size: Word, low: int, high: int)
    requires index < |free| && free[index].address <= address && address + size <= End(free[index]) < TWO32
    requires Inside(free, low, high)
    ensures Inside(Taken(free, index, address, size), low, high)
  {
    assert free[index] in free;
    assert forall b :: b in Without(free, index) ==> b in free;
  }

  lemma PoolStep(h: Heap, size: Word, alignment: Word) returns (index: nat, address: Word)
    requires FirstFit(h.free, size, alignment, 0) < |h.free|
    requires Inside(h.free, h.base, h.base + h.heapCursor) && h.base + h.heapCursor < TWO32
    ensures index < |h.free| && h.free[index].address <= address && address + size <= End(h.free[index]) < TWO32
    ensures AllocateHeap(h, size, alignment) == (h.(free := Taken(h.free, index, address, size)), address)
  {
    hide AlignUp;
    index := FirstFit(h.free, size, alignment, 0);
    var block := h.free[index];
    assert block in h.free && End(block) <= h.base + h.heapCursor;
    address := AlignUp(block.address, alignment);
    assert Add(address, size) == address + size && Add(block.address, block.size) == End(block);
  }

  lemma PoolAllocation(h: Heap, live: seq<Block>, size: Word, alignment: Word)
    requires Disjoint(h, live) && 0 < h.base && h.base + h.heapCursor < TWO32 && 0 < size
    requires FirstFit(h.free, size, alignment, 0) < |h.free|
    ensures var (after, address) := AllocateHeap(h, size, alignment);
      after == h.(free := after.free) && address != 0 && Disjoint(after, live + [Block(address, size)]) &&
      Total(after.free) + size == Total(h.free)
  {
    hide AllocateHeap, Taken;
    var index, address := PoolStep(h, size, alignment);
    var taken := Block(address, size);
    var after := Taken(h.free, index, address, size);
    assert h.free[index] in h.free;
    forall x ensures Owners(after, x) + Owners(live + [taken], x) == Owners(h.free, x) + Owners(live, x) {
      SplitOwners(h.free, index, address, size, x);
      Append(live, [taken], x);
    }
    SplitOwners(h.free, index, address, size, 0);
    TakenInside(h.free, index, address, size, h.base, h.base + h.heapCursor);
  }

  /** Splitting one block into what is before, inside and after the taken part. */
  lemma SplitOwners(free: seq<Block>, index: nat, address: Word, size: Word, x: int)
    requires index < |free| && free[index].address <= address && address + size <= End(free[index]) < TWO32
    ensures var after := Taken(free, index, address, size);
      Owners(after, x) + (if Has(Block(address, size), x) then 1 else 0) == Owners(free, x) &&
      Total(after) + size == Total(free)
  {
    var block := free[index];
    var front, back := Rest(block.address, address), Rest(address + size, End(block));
    TakenOut(free, index, x);
    Append(Without(free, index) + front, back, x);
    Append(Without(free, index), front, x);
    RestOwners(block.address, address, x);
    RestOwners(address + size, End(block), x);
  }

  lemma CursorStep(h: Heap, size: Word, alignment: Word) returns (aligned: Word)
    requires 0 < h.base && h.heapCursor <= h.stackCursor && h.base + h.stackCursor < TWO32
    requires PowerOfTwo(alignment) && h.heapCursor + alignment - 1 < TWO32
    requires FirstFit(h.free, size, alignment, 0) == |h.free|
    ensures h.heapCursor <= aligned && 0 < alignment && aligned % alignment == 0
    ensures AllocateHeap(h, size, alignment) ==
      if aligned + size <= h.stackCursor then (h.(heapCursor := aligned + size), h.base + aligned) else (h, 0)
  {
    hide AlignUp, PowerOfTwo;
    AlignedAddress(h.heapCursor, alignment);
    aligned := AlignUp(h.heapCursor, alignment);
    if aligned + size <= h.stackCursor {
      assert Add(h.base, aligned) == h.base + aligned;
    }
  }

  lemma CursorAllocation(h: Heap, live: seq<Block>, size: Word, alignment: Word)
    requires Disjoint(h, live) && 0 < h.base && h.heapCursor <= h.stackCursor && h.base + h.stackCursor < TWO32
    requires 0 < size && PowerOfTwo(alignment) && h.heapCursor + alignment - 1 < TWO32
    requires FirstFit(h.free, size, alignment, 0) == |h.free|
    ensures var (after, address) := AllocateHeap(h, size, alignment);
      (address == 0 ==> after == h) &&
      (address != 0 ==>
        after == h.(heapCursor := after.heapCursor) && h.heapCursor + size <= after.heapCursor <= h.stackCursor &&
        Disjoint(after, live + [Block(address, size)]))
  {
    hide AllocateHeap, PowerOfTwo;
    var aligned := CursorStep(h, size, alignment);
    if aligned + size <= h.stackCursor {
      var taken := Block(h.base + aligned, size);
      var low, high := h.base, h.base + h.heapCursor;
      forall x ensures Owners(h.free, x) + Owners(live + [taken], x) <= 1 {
        Append(live, [taken], x);
        if Has(taken, x) {
          NoOwnersOutside(h.free, low, high, x);
          NoOwnersOutside(live, low, high, x);
        }
      }
    }
  }

  /** What is handed out is aligned, given an aligned memory base. */
  lemma AllocatedIsAligned(h: Heap, live: seq<Block>, size: Word, alignment: Word)
    requires Disjoint(h, live) && 0 < h.base && h.heapCursor <= h.stackCursor && h.base + h.stackCursor < TWO32
    requires PowerOfTwo(alignment) && h.heapCursor + alignment - 1 < TWO32
    requires 0 < alignment && h.base % alignment == 0
    ensures AllocateHeap(h, size, alignment).1 % alignment == 0
  {
    hide AlignUp, PowerOfTwo;
    var index := FirstFit(h.free, size, alignment, 0);
    if index < |h.free| {
      assert h.free[index] in h.free;
      AlignedAddress(h.free[index].address, alignment);
    } else {
      var aligned := CursorStep(h, size, alignment);
      SumIsMultiple(h.base, aligned, alignment);
      RemainderOf(0, alignment, 0, 0);
    }
  }

  lemma SumIsMultiple(a: int, b: int, d: int)
    requires 0 < d && a % d == 0 && b % d == 0
    ensures (a + b) % d == 0
  {
    RemainderOf(a + b, d, a / d + b / d, 0);
  }

  lemma AllocateIsSound(origin: Origin, run: Run, size: Word, alignment: Word)
    requires Sound(origin, run) && Permitted(run, Allocate(size, alignment))
    ensures Sound(origin, Step(run, Allocate(size, alignment)))
  {
    hide Disjoint, AlignUp;
    var (after, address) := AllocateHeap(run.heap, size, alignment);
    if FirstFit(run.heap.free, size, alignment, 0) < |run.heap.free| {
      PoolAllocation(run.heap, run.live, size, alignment);
    } else {
      CursorAllocation(run.heap, run.live, size, alignment);
    }
    Append(run.live, [Block(address, size)], 0);
  }

  /** After a free the list is ascending and no two blocks touch. */
  lemma FreeLeavesMergedList(h: Heap, live: seq<Block>, index: nat)
    requires Disjoint(h, live) && index < |live| && 0 < h.base && h.base + h.heapCursor < TWO32
    ensures var after := FreeHeap(h, live[index].address, live[index].size);
      after == h.(free := after.free) && Ascending(after.free) && Merged(after.free, |after.free|) &&
      Disjoint(after, Without(live, index)) && Total(after.free) == Total(h.free) + live[index].size
  {
    var block := live[index];
    assert block in live;
    var all := h.free + [block];
    assert Block(block.address, block.size) == block;
    forall x ensures Owners(all, x) + Owners(Without(live, index), x) == Owners(h.free, x) + Owners(live, x) {
      Append(h.free, [block], x);
      TakenOut(live, index, x);
    }
    Append(h.free, [block], 0);
    SortKeeps(all);
    var sorted := Sort(all);
    var low, high := h.base, h.base + h.heapCursor;
    assert Inside(sorted, low, high);
    OrderedIsAscending(sorted, low, high) by {
      forall x ensures Owners(sorted, x) <= 1 {
        assert Owners(sorted, x) == Owners(all, x);
      }
    }
    CoalesceKeeps(sorted, 1, low, high);
    var merged := Coalesce(sorted, 1);
    forall x ensures Owners(merged, x) + Owners(Without(live, index), x) <= 1 {
      assert Owners(merged, x) == Owners(sorted, x) == Owners(all, x);
    }
    assert forall b :: b in Without(live, index) ==> b in live;
  }

  lemma StackIsSound(origin: Origin, run: Run, size: Word)
    requires Sound(origin, run) && Permitted(run, Stack(size))
    ensures Sound(origin, Step(run, Stack(size)))
  {
    hide Disjoint, AlignUp, Step;
    StackAlignment();
    AlignedAddress(size, 64);
    var aligned := AlignUp(size, 64);
    var h := run.heap;
    var (after, address) := AllocateStack(h, size);
    StepStack(run, size);
    if address != 0 {
      var stack := Block(address, aligned);
      assert address == h.base + after.stackCursor;
      Append(run.stacks, [stack], 0);
      forall x ensures Owners(run.stacks + [stack], x) <= 1 {
        Append(run.stacks, [stack], x);
        if Has(stack, x) {
          NoStackBelow(run.stacks, h.base + h.stackCursor, x);
        }
      }
      SameDisjoint(h, after, run.live);
    }
  }

  lemma StepStack(run: Run, size: Word)
    ensures var (h, address) := AllocateStack(run.heap, size);
      Step(run, Stack(size)) == if address == 0 then run.(heap := h)
        else run.(heap := h, stacks := run.stacks + [Block(address, AlignUp(size, 64))])
  {
  }

  lemma StackAlignment()
    ensures PowerOfTwo(64)
  {
    assert Pow2(6) == 64;
  }

  lemma {:induction false} NoStackBelow(blocks: seq<Block>, low: int, x: int)
    requires (forall b :: b in blocks ==> low <= b.address) && x < low
    ensures Owners(blocks, x) == 0
    decreases |blocks|
  {
    if blocks != [] {
      assert blocks[0] in blocks;
      NoStackBelow(blocks[1..], low, x);
    }
  }

  lemma SameDisjoint(h: Heap, after: Heap, live: seq<Block>)
    requires Disjoint(h, live) && after == h.(stackCursor := after.stackCursor)
    ensures Disjoint(after, live)
  {
  }

  lemma StepIsSound(origin: Origin, run: Run, op: Operation)
    requires Sound(origin, run) && Permitted(run, op)
    ensures Sound(origin, Step(run, op))
  {
    match op
    case Allocate(size, alignment) => AllocateIsSound(origin, run, size, alignment);
    case Free(index) =>
      hide Disjoint, FreeHeap;
      FreeLeavesMergedList(run.heap, run.live, index);
      TakenOut(run.live, index, 0);
    case Stack(size) => StackIsSound(origin, run, size);
  }

  function After(run: Run, ops: seq<Operation>): Run
    decreases |ops|
  {
    if ops == [] then run else After(Step(run, ops[0]), ops[1..])
  }

  predicate AllPermitted(run: Run, ops: seq<Operation>)
    decreases |ops|
  {
    ops == [] || (Permitted(run, ops[0]) && AllPermitted(Step(run, ops[0]), ops[1..]))
  }

  /** Over whole runs: no byte has two owners, the cursors never cross, and every
      byte below the heap cursor is free, live or skipped by alignment. */
  lemma {:induction false} RunsAreSound(origin: Origin, run: Run, ops: seq<Operation>)
    requires Sound(origin, run) && AllPermitted(run, ops)
    ensures Sound(origin, After(run, ops))
    decreases |ops|
  {
    hide Sound, Permitted, Step;
    if ops != [] {
      StepIsSound(origin, run, ops[0]);
      RunsAreSound(origin, Step(run, ops[0]), ops[1..]);
    }
  }

  /** What Sound means for two blocks in the hands of the guest. */
  lemma LiveBlocksApart(origin: Origin, run: Run, i: nat, j: nat)
    requires Sound(origin, run) && i < |run.live|
    ensures j < |run.live| && i != j ==> End(run.live[i]) <= run.live[j].address || End(run.live[j]) <= run.live[i].address
    ensures j < |run.heap.free| ==>
      End(run.live[i]) <= run.heap.free[j].address || End(run.heap.free[j]) <= run.live[i].address
    ensures j < |run.stacks| ==> End(run.live[i]) <= run.stacks[j].address
  {
    var a := run.live[i];
    assert a in run.live;
    if j < |run.live| && i != j {
      var b := run.live[j];
      assert b in run.live;
      var x: int := if a.address <= b.address then b.address else a.address;
      if Has(a, x) && Has(b, x) {
        OwnsTwo(run.live, if i < j then i else j, if i < j then j else i, x);
      }
    }
    if j < |run.heap.free| {
      var b := run.heap.free[j];
      assert b in run.heap.free;
      var x: int := if a.address <= b.address then b.address else a.address;
      if Has(a, x) && Has(b, x) {
        OwnsOne(run.live, i, x);
        OwnsOne(run.heap.free, j, x);
      }
    }
    if j < |run.stacks| {
      assert run.stacks[j] in run.stacks;
    }
  }

  // ----- sizes and cursors that wrap -----

  /** Aligning the heap cursor is safe exactly when it does not wrap: the aligned
      cursor then lies at or above the old one, and otherwise at 0. */
  lemma CursorWrapsExactly(cursor: Word, alignment: Word)
    requires PowerOfTwo(alignment) && 0 < cursor
    ensures AlignUp(cursor, alignment) >= cursor <==> cursor + alignment - 1 < TWO32
  {
    hide AlignUp, PowerOfTwo;
    AlignedAddress(cursor, alignment);
  }

  /** No state of a run lets the cursor wrap for an alignment up to the memory
      base: the runtime's own alignments, 8 and 64, are always permitted. */
  lemma CursorNeverWraps(origin: Origin, run: Run, alignment: Word)
    requires Sound(origin, run) && 0 < alignment <= run.heap.base
    ensures run.heap.heapCursor + alignment - 1 < TWO32
  {
    hide Disjoint, StacksApart;
  }

  /** A stack that is handed out has room for the requested size exactly if
      aligning the size does not wrap. */
  lemma StackRoomIsExact(h: Heap, size: Word)
    ensures var (after, address) := AllocateStack(h, size);
      address != 0 ==> (size <= h.stackCursor - after.stackCursor <==> size + 63 < TWO32)
  {
    hide AlignUp, PowerOfTwo;
    StackAlignment();
    AlignedAddress(size, 64);
  }

  /** A thread with a stack size of 0xffffffff gets an address and no room. */
  lemma StackWithoutRoom()
    ensures var h := Heap(0x0880_0000, 0x1000, 0x0180_0000, []);
      AllocateStack(h, 0xffff_ffff) == (h, 0x0a00_0000)
  {
    hide AlignUp, PowerOfTwo;
    StackAlignment();
    AlignedAddress(0xffff_ffff, 64);
  }

  // ----- from the start -----

  const INITIAL_STACK: Word := 0x4_0000
  const USER_MEMORY: Word := 0x0880_0000

  /** The gap between the start of user memory and the loaded image. */
  function Gap(base: Word, size: Word, imageStart: Word): seq<Block> {
    var image := Add(base, imageStart);
    if base <= USER_MEMORY < image && image <= base + size then [Block(USER_MEMORY, image - USER_MEMORY)] else []
  }

  /** The allocator as the runtime configures it. */
  function Configured(base: Word, size: Word, imageStart: Word, imageSize: Word): Run {
    var top := if size > INITIAL_STACK then size - INITIAL_STACK else size;
    Run(Heap(base, AlignUp(imageSize, 64), top, Gap(base, size, imageStart)), [], [], 0)
  }

  /** Every permitted run of a machine that has room for the image is sound. */
  lemma ConfiguredRunsAreSound(base: Word, size: Word, imageStart: Word, imageSize: Word, ops: seq<Operation>)
    requires 0 < base && base + size < TWO32 && imageStart <= imageSize && imageSize + 63 < TWO32
    requires var h := Configured(base, size, imageStart, imageSize).heap; h.heapCursor <= h.stackCursor
    requires AllPermitted(Configured(base, size, imageStart, imageSize), ops)
    ensures var first := Configured(base, size, imageStart, imageSize);
      Sound(Origin(first.heap.heapCursor, first.heap.stackCursor, Total(first.heap.free)), After(first, ops))
  {
    hide AlignUp, PowerOfTwo, After, AllPermitted;
    StackAlignment();
    AlignedAddress(imageSize, 64);
    var first := Configured(base, size, imageStart, imageSize);
    assert Add(base, imageStart) == base + imageStart;
    forall x ensures Owners(first.heap.free, x) + Owners(first.live, x) <= 1 {
    }
    assert Disjoint(first.heap, []);
    assert StacksApart(first.heap, first.heap.stackCursor, []);
    RunsAreSound(Origin(first.heap.heapCursor, first.heap.stackCursor, Total(first.heap.free)), first, ops);
  }
}
