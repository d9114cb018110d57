/** Passing arguments to guest functions: the EABI marshalling of
    include/psprecomp/patch.hpp. */
module Eabi {
  import opened Wrappers
  import opened Words
  import opened GuestMachine
  import opened MemoryModel

  type Wide = n: nat | n < TWO32 * TWO32

  datatype Argument = WordArg(word: Word) | WideArg(wide: Wide) | FloatArg(bits: Word)

  datatype Kind = WordKind | WideKind | FloatKind

  function KindOf(a: Argument): Kind {
    match a
    case WordArg(_) => WordKind
    case WideArg(_) => WideKind
    case FloatArg(_) => FloatKind
  }

  function Kinds(args: seq<Argument>): seq<Kind> {
    seq(|args|, i requires 0 <= i < |args| => KindOf(args[i]))
  }

  /** The next free general register, float register and stack word. */
  datatype Cursor = Cursor(gpr: nat, fpr: nat, stack: nat)

  const FIRST := Cursor(0, 0, 0)

  /** Up to the next even number. */
  function Even(n: nat): nat {
    n + n % 2
  }

  function Slot(m: Machine, k: nat): Word {
    Add(m.gpr[29], k * 4 % TWO32)
  }

  function InjectOne(m: Machine, a: Argument, c: Cursor): (Machine, Cursor) {
    match a
    case FloatArg(bits) =>
      if c.fpr < 8 then (m.SetFpr(12 + c.fpr, bits), c.(fpr := c.fpr + 1))
      else (m.Store(Slot(m, c.stack), 4, bits), c.(stack := c.stack + 1))
    case WordArg(word) =>
      if c.gpr < 8 then (m.Set(4 + c.gpr, word), c.(gpr := c.gpr + 1))
      else (m.Store(Slot(m, c.stack), 4, word), c.(stack := c.stack + 1))
    case WideArg(wide) =>
      var g := Even(c.gpr);
      var low, high := wide % TWO32, wide / TWO32;
      if g + 2 <= 8 then (m.Set(4 + g, low).Set(5 + g, high), c.(gpr := g + 2))
      else
        var s := Even(c.stack);
        var first := m.Store(Slot(m, s), 4, low);
        (first.Store(Slot(first, s + 1), 4, high), Cursor(g + 2, c.fpr, s + 2))
  }

  function ExtractOne(m: Machine, kind: Kind, c: Cursor): (Argument, Machine, Cursor) {
    match kind
    case FloatKind =>
      if c.fpr < 8 then (FloatArg(m.fpr[12 + c.fpr]), m, c.(fpr := c.fpr + 1))
      else
        var (bits, after) := m.Load(Slot(m, c.stack), 4);
        (FloatArg(bits), after, c.(stack := c.stack + 1))
    case WordKind =>
      if c.gpr < 8 then (WordArg(m.gpr[4 + c.gpr]), m, c.(gpr := c.gpr + 1))
      else
        var (word, after) := m.Load(Slot(m, c.stack), 4);
        (WordArg(word), after, c.(stack := c.stack + 1))
    case WideKind =>
      var g := Even(c.gpr);
      if g + 2 <= 8 then (WideArg(m.gpr[4 + g] + TWO32 * m.gpr[5 + g]), m, c.(gpr := g + 2))
      else
        var s := Even(c.stack);
        var (low, first) := m.Load(Slot(m, s), 4);
        var (high, after) := first.Load(Slot(first, s + 1), 4);
        (WideArg(low + TWO32 * high), after, Cursor(g + 2, c.fpr, s + 2))
  }

  /** The compile-time count moves the register cursors on overflow too. */
  function CountOne(kind: Kind, c: Cursor): Cursor {
    match kind
    case FloatKind => Cursor(c.gpr, c.fpr + 1, if c.fpr >= 8 then c.stack + 1 else c.stack)
    case WordKind => Cursor(c.gpr + 1, c.fpr, if c.gpr >= 8 then c.stack + 1 else c.stack)
    case WideKind =>
      var g := Even(c.gpr);
      Cursor(g + 2, c.fpr, if g + 2 > 8 then Even(c.stack) + 2 else c.stack)
  }

  function InjectFrom(m: Machine, args: seq<Argument>, c: Cursor): (Machine, Cursor)
    decreases |args|
  {
    if args == [] then (m, c)
    else var (next, d) := InjectOne(m, args[0], c); InjectFrom(next, args[1..], d)
  }

  function ExtractFrom(m: Machine, kinds: seq<Kind>, c: Cursor): (seq<Argument>, Machine)
    decreases |kinds|
  {
    if kinds == [] then ([], m)
    else
      var (a, next, d) := ExtractOne(m, kinds[0], c);
      var (rest, last) := ExtractFrom(next, kinds[1..], d);
      ([a] + rest, last)
  }

  function CountFrom(kinds: seq<Kind>, c: Cursor): Cursor
    decreases |kinds|
  {
    if kinds == [] then c else CountFrom(kinds[1..], CountOne(kinds[0], c))
  }

  function StackWords(kinds: seq<Kind>): nat {
    CountFrom(kinds, FIRST).stack
  }

  // ----- the count -----

  /** The two ways to advance: equal while registers are left, past the end together. */
  predicate Alike(c: Cursor, counted: Cursor) {
    c.stack == counted.stack &&
    (if c.gpr < 8 then counted.gpr == c.gpr else counted.gpr >= 8) &&
    (if c.fpr < 8 then counted.fpr == c.fpr else c.fpr == 8 && counted.fpr >= 8)
  }

  /** count_single_arg foretells the stack words that inject_single_arg uses. */
  lemma {:induction false} CountForetellsStack(m: Machine, args: seq<Argument>, c: Cursor, counted: Cursor)
    requires Alike(c, counted)
    ensures InjectFrom(m, args, c).1.stack == CountFrom(Kinds(args), counted).stack
    decreases |args|
  {
    if args != [] {
      var (next, d) := InjectOne(m, args[0], c);
      var kinds := Kinds(args);
      assert kinds[1..] == Kinds(args[1..]);
      CountForetellsStack(next, args[1..], d, CountOne(kinds[0], counted));
    }
  }

  // ----- the stack words -----

  function StackAt(m: Machine, k: nat): Option<Word> {
    var address := Slot(m, k);
    if address % 4 == 0 && MappedAddress(m.mem, address, 4).Mapped? then Some(m.Load(address, 4).0) else None
  }

  const LIMIT := 0x800_0000

  lemma SlotOffset(sp: Word, k: nat)
    requires k < LIMIT
    ensures Canonical(Add(sp, k * 4 % TWO32)) == (sp + 4 * k) % 0x2000_0000
    ensures Add(sp, k * 4 % TWO32) % 4 == sp % 4
  {
    var sum: int := sp + 4 * k;
    var q: int := sum / TWO32;
    var whole: int := sum % TWO32;
    assert k * 4 % TWO32 == 4 * k;
    ModOfMod(whole, q, 8, 0x2000_0000);
    ModOfMod(whole, q, 0x4000_0000, 4);
    assert (sp + 4 * k) % 4 == sp % 4;
  }

  /** Different stack words never overlap, in any alias of the address space. */
  lemma SlotsApart(sp: Word, j: nat, k: nat)
    requires sp % 4 == 0 && j < LIMIT && k < LIMIT && j != k
    ensures var a, b := Canonical(Add(sp, j * 4 % TWO32)), Canonical(Add(sp, k * 4 % TWO32));
      a + 4 <= b || b + 4 <= a
  {
    SlotOffset(sp, j);
    SlotOffset(sp, k);
    var s: int := sp / 4;
    QuarterOffset(s, j);
    QuarterOffset(s, k);
    DistinctOffsets(s, j, k);
  }

  lemma QuarterOffset(s: int, j: int)
    requires 0 <= s && 0 <= j
    ensures (4 * s + 4 * j) % 0x2000_0000 == 4 * ((s + j) % LIMIT)
  {
    RemainderOf(4 * s + 4 * j, 0x2000_0000, (s + j) / LIMIT, 4 * ((s + j) % LIMIT));
  }

  lemma DistinctOffsets(s: int, j: int, k: int)
    requires 0 <= s && 0 <= j < LIMIT && 0 <= k < LIMIT && j != k
    ensures (s + j) % LIMIT != (s + k) % LIMIT
  {
    var d: int := (s + j) / LIMIT - (s + k) / LIMIT;
    assert j - k == LIMIT * d + ((s + j) % LIMIT - (s + k) % LIMIT);
  }

  /** A stack store that does not fault changes that word and no other. */
  lemma StorePlaces(m: Machine, k: nat, value: Word)
    requires Layout(m.mem) && m.stop == Running && k < LIMIT
    requires m.Store(Slot(m, k), 4, value).stop == Running
    ensures var after := m.Store(Slot(m, k), 4, value);
      after == m.(mem := after.mem) && Layout(after.mem) && StackAt(after, k) == Some(value) &&
      forall j: nat :: j < LIMIT && j != k ==> StackAt(after, j) == StackAt(m, j)
  {
    hide Splice, LowBytes, Peek, Layout;
    var address := Slot(m, k);
    var after := m.Store(address, 4, value);
    var at := MappedAddress(m.mem, address, 4);
    assert address % 4 == 0 && at.Mapped?;
    StoreThenLoad(m, address, 4, value);
    WriteKeepsMapping(m.mem, at.region, at.offset, LowBytes(value, 4));
    SlotOffset(m.gpr[29], k);
    forall j: nat | j < LIMIT && j != k ensures StackAt(after, j) == StackAt(m, j) {
      SlotsApart(m.gpr[29], j, k);
      StoreFrames(m, address, 4, value, Slot(m, j), 4);
    }
  }

  lemma StackAtLoads(m: Machine, k: nat)
    requires StackAt(m, k).Some?
    ensures m.Load(Slot(m, k), 4) == (StackAt(m, k).value, m)
  {
  }

  // ----- what injection keeps -----

  /** Everything below the cursor, and no fault. */
  ghost predicate Kept(m: Machine, after: Machine, c: Cursor) {
    after.stop == Running && after.gpr[29] == m.gpr[29] && Layout(after.mem) &&
    (forall i :: 4 <= i < 12 && i < 4 + c.gpr ==> after.gpr[i] == m.gpr[i]) &&
    (forall i :: 12 <= i < 20 && i < 12 + c.fpr ==> after.fpr[i] == m.fpr[i]) &&
    (forall k: nat :: k < c.stack && k < LIMIT ==> StackAt(after, k) == StackAt(m, k))
  }

  lemma StoreStaysStopped(m: Machine, address: Word, value: Word)
    requires m.stop != Running
    ensures m.Store(address, 4, value).stop != Running
  {
  }

  lemma {:induction false} InjectStaysStopped(m: Machine, args: seq<Argument>, c: Cursor)
    requires m.stop != Running
    ensures InjectFrom(m, args, c).0.stop != Running
    decreases |args|
  {
    if args != [] {
      var (next, d) := InjectOne(m, args[0], c);
      InjectStaysStopped(next, args[1..], d);
    }
  }

  predicate NotBefore(d: Cursor, c: Cursor) {
    c.gpr <= d.gpr && c.fpr <= d.fpr && c.stack <= d.stack
  }

  lemma {:induction false} CursorGrows(m: Machine, args: seq<Argument>, c: Cursor)
    ensures NotBefore(InjectFrom(m, args, c).1, c)
    decreases |args|
  {
    if args != [] {
      var (next, d) := InjectOne(m, args[0], c);
      CursorGrows(next, args[1..], d);
    }
  }

  lemma InjectOneKeeps(m: Machine, a: Argument, c: Cursor)
    requires m.stop == Running && Layout(m.mem) && c.fpr <= 8
    requires InjectOne(m, a, c).0.stop == Running && InjectOne(m, a, c).1.stack <= LIMIT
    ensures var (next, d) := InjectOne(m, a, c);
      Kept(m, next, c) && NotBefore(d, c) && d.fpr <= 8
  {
    hide Machine.Store, StackAt, Layout, Slot;
    match a
    case FloatArg(bits) =>
      if c.fpr >= 8 {
        StorePlaces(m, c.stack, bits);
      } else {
        SameStack(m, m.SetFpr(12 + c.fpr, bits));
      }
    case WordArg(word) =>
      if c.gpr >= 8 {
        StorePlaces(m, c.stack, word);
      } else {
        SameStack(m, m.Set(4 + c.gpr, word));
      }
    case WideArg(wide) =>
      var g := Even(c.gpr);
      if g + 2 <= 8 {
        SameStack(m, m.Set(4 + g, wide % TWO32).Set(5 + g, wide / TWO32));
      } else {
        WideStorePlaces(m, Even(c.stack), wide % TWO32, wide / TWO32);
      }
  }

  lemma SameStack(m: Machine, after: Machine)
    requires after.mem == m.mem && after.gpr[29] == m.gpr[29]
    ensures forall k: nat :: StackAt(after, k) == StackAt(m, k)
  {
  }

  lemma WideStorePlaces(m: Machine, s: nat, low: Word, high: Word)
    requires Layout(m.mem) && m.stop == Running && s + 1 < LIMIT
    requires var first := m.Store(Slot(m, s), 4, low); first.Store(Slot(first, s + 1), 4, high).stop == Running
    ensures var first := m.Store(Slot(m, s), 4, low);
      var after := first.Store(Slot(first, s + 1), 4, high);
      after == m.(mem := after.mem) && Layout(after.mem) &&
      StackAt(after, s) == Some(low) && StackAt(after, s + 1) == Some(high) &&
      forall j: nat :: j < LIMIT && j != s && j != s + 1 ==> StackAt(after, j) == StackAt(m, j)
  {
    hide Machine.Store, StackAt, Layout, Slot;
    var first := m.Store(Slot(m, s), 4, low);
    if first.stop != Running {
      StoreStaysStopped(first, Slot(first, s + 1), high);
    } else {
      StorePlaces(m, s, low);
      StorePlaces(first, s + 1, high);
    }
  }

  lemma KeptChain(m: Machine, next: Machine, last: Machine, c: Cursor, d: Cursor)
    requires Kept(m, next, c) && Kept(next, last, d) && NotBefore(d, c)
    ensures Kept(m, last, c)
  {
    hide StackAt, Layout;
  }

  lemma {:induction false} InjectKeeps(m: Machine, args: seq<Argument>, c: Cursor)
    requires m.stop == Running && Layout(m.mem) && c.fpr <= 8
    requires InjectFrom(m, args, c).0.stop == Running && InjectFrom(m, args, c).1.stack <= LIMIT
    ensures Kept(m, InjectFrom(m, args, c).0, c)
    decreases |args|
  {
    hide InjectOne, Layout, StackAt;
    if args != [] {
      var (next, d) := InjectOne(m, args[0], c);
      var last := InjectFrom(next, args[1..], d).0;
      CursorGrows(next, args[1..], d);
      if next.stop != Running {
        InjectStaysStopped(next, args[1..], d);
      } else {
        InjectOneKeeps(m, args[0], c);
        InjectKeeps(next, args[1..], d);
        KeptChain(m, next, last, c, d);
      }
    }
  }

  // ----- the round trip -----

  /** What one injection placed is read back from any state that kept it. */
  lemma ExtractsInjected(m: Machine, a: Argument, c: Cursor, last: Machine)
    requires m.stop == Running && Layout(m.mem) && c.fpr <= 8
    requires InjectOne(m, a, c).0.stop == Running && InjectOne(m, a, c).1.stack <= LIMIT
    requires Kept(InjectOne(m, a, c).0, last, InjectOne(m, a, c).1)
    ensures ExtractOne(last, KindOf(a), c) == (a, last, InjectOne(m, a, c).1)
  {
    hide Machine.Store, Machine.Load, StackAt, Layout, Slot;
    var (next, d) := InjectOne(m, a, c);
    match a
    case FloatArg(bits) =>
      if c.fpr >= 8 {
        StorePlaces(m, c.stack, bits);
        StackAtLoads(last, c.stack);
      } else {
        assert next.fpr[12 + c.fpr] == bits;
      }
    case WordArg(word) =>
      if c.gpr >= 8 {
        StorePlaces(m, c.stack, word);
        StackAtLoads(last, c.stack);
      } else {
        assert next.gpr[4 + c.gpr] == word;
      }
    case WideArg(wide) =>
      WideParts(wide);
      var g := Even(c.gpr);
      if g + 2 <= 8 {
        assert next.gpr[4 + g] == wide % TWO32 && next.gpr[5 + g] == wide / TWO32;
      } else {
        var s := Even(c.stack);
        WideStorePlaces(m, s, wide % TWO32, wide / TWO32);
        StackAtLoads(last, s);
        StackAtLoads(last, s + 1);
      }
  }

  lemma WideParts(wide: Wide)
    ensures wide / TWO32 < TWO32 && wide % TWO32 + TWO32 * (wide / TWO32) == wide
  {
  }

  lemma {:induction false} RoundTripFrom(m: Machine, args: seq<Argument>, c: Cursor, last: Machine)
    requires m.stop == Running && Layout(m.mem) && c.fpr <= 8
    requires var (after, d) := InjectFrom(m, args, c);
      after.stop == Running && d.stack <= LIMIT && Kept(after, last, d)
    ensures ExtractFrom(last, Kinds(args), c) == (args, last)
    decreases |args|
  {
    hide InjectOne, ExtractOne, Kept, Layout;
    if args != [] {
      var (next, d) := InjectOne(m, args[0], c);
      var (after, end) := InjectFrom(next, args[1..], d);
      CursorGrows(next, args[1..], d);
      if next.stop != Running {
        InjectStaysStopped(next, args[1..], d);
      } else {
        InjectOneKeepsLayout(m, args[0], c);
        InjectKeeps(next, args[1..], d);
        KeptChain(next, after, last, d, end);
        ExtractsInjected(m, args[0], c, last);
        RoundTripFrom(next, args[1..], d, last);
        assert Kinds(args)[1..] == Kinds(args[1..]);
        assert args == [args[0]] + args[1..];
      }
    }
  }

  lemma InjectOneKeepsLayout(m: Machine, a: Argument, c: Cursor)
    requires m.stop == Running && Layout(m.mem) && c.fpr <= 8
    requires InjectOne(m, a, c).0.stop == Running && InjectOne(m, a, c).1.stack <= LIMIT
    ensures var (next, d) := InjectOne(m, a, c);
      Layout(next.mem) && d.fpr <= 8 && next.gpr[29] == m.gpr[29] && NotBefore(d, c)
  {
    hide InjectOne, Layout, StackAt;
    InjectOneKeeps(m, a, c);
  }

  /** Whatever is injected without a fault is extracted from every later state
      that kept the argument registers and stack words. */
  lemma ArgumentsRoundTrip(m: Machine, args: seq<Argument>, last: Machine)
    requires m.stop == Running && Layout(m.mem) && StackWords(Kinds(args)) <= LIMIT
    requires var (after, end) := InjectFrom(m, args, FIRST); after.stop == Running && Kept(after, last, end)
    ensures ExtractFrom(last, Kinds(args), FIRST) == (args, last)
  {
    hide InjectFrom, ExtractFrom, Layout, Kept;
    CountForetellsStack(m, args, FIRST, FIRST);
    RoundTripFrom(m, args, FIRST, last);
  }

  // ----- what injection touches -----

  /** A byte that no stack word between the cursors covers, under any alias. */
  predicate OffTheStack(m: Machine, other: Word, low: nat, high: nat) {
    forall k: nat :: low <= k < high ==>
      Canonical(other) < Canonical(Slot(m, k)) || Canonical(Slot(m, k)) + 4 <= Canonical(other)
  }

  ghost predicate Touches(m: Machine, after: Machine, other: Word) {
    after == m.(gpr := after.gpr, fpr := after.fpr, mem := after.mem) && Layout(after.mem) &&
    (forall i :: 0 <= i < 32 && !(4 <= i < 12) ==> after.gpr[i] == m.gpr[i]) &&
    (forall i :: 0 <= i < 32 && !(12 <= i < 20) ==> after.fpr[i] == m.fpr[i]) &&
    after.Load(other, 1).0 == m.Load(other, 1).0
  }

  lemma StoreTouches(m: Machine, k: nat, value: Word, other: Word)
    requires Layout(m.mem) && m.stop == Running && k < LIMIT
    requires m.Store(Slot(m, k), 4, value).stop == Running
    requires OffTheStack(m, other, k, k + 1)
    ensures Touches(m, m.Store(Slot(m, k), 4, value), other)
  {
    hide Splice, LowBytes, Peek, Layout, Slot, Canonical, StackAt;
    StorePlaces(m, k, value);
    assert MappedAddress(m.mem, Slot(m, k), 4).Mapped?;
    assert Canonical(other) < Canonical(Slot(m, k)) || Canonical(Slot(m, k)) + 4 <= Canonical(other);
    StoreFrames(m, Slot(m, k), 4, value, other, 1);
  }

  lemma TouchChain(m: Machine, next: Machine, last: Machine, other: Word)
    requires Touches(m, next, other) && Touches(next, last, other)
    ensures Touches(m, last, other)
  {
    hide Layout, Machine.Load;
  }

  lemma InjectOneTouches(m: Machine, a: Argument, c: Cursor, other: Word)
    requires m.stop == Running && Layout(m.mem) && c.fpr <= 8
    requires InjectOne(m, a, c).0.stop == Running && InjectOne(m, a, c).1.stack <= LIMIT
    requires OffTheStack(m, other, c.stack, InjectOne(m, a, c).1.stack)
    ensures Touches(m, InjectOne(m, a, c).0, other)
  {
    hide Machine.Store, Layout, Slot, Canonical, MappedAddress, Peek;
    match a
    case FloatArg(bits) =>
      if c.fpr >= 8 {
        StoreTouches(m, c.stack, bits, other);
      }
    case WordArg(word) =>
      if c.gpr >= 8 {
        StoreTouches(m, c.stack, word, other);
      }
    case WideArg(wide) =>
      var s := Even(c.stack);
      if Even(c.gpr) + 2 > 8 {
        var first := m.Store(Slot(m, s), 4, wide % TWO32);
        if first.stop != Running {
          StoreStaysStopped(first, Slot(first, s + 1), wide / TWO32);
        } else {
          StoreTouches(m, s, wide % TWO32, other);
          SameSlot(m, first, s + 1);
          StoreTouches(first, s + 1, wide / TWO32, other);
          TouchChain(m, first, InjectOne(m, a, c).0, other);
        }
      }
  }

  lemma SameSlot(m: Machine, after: Machine, k: nat)
    requires after.gpr[29] == m.gpr[29]
    ensures Slot(after, k) == Slot(m, k)
  {
  }

  lemma SplitOffTheStack(m: Machine, next: Machine, other: Word, low: nat, middle: nat, high: nat)
    requires OffTheStack(m, other, low, high) && low <= middle <= high && next.gpr[29] == m.gpr[29]
    ensures OffTheStack(m, other, low, middle) && OffTheStack(next, other, middle, high)
  {
    hide Slot, Canonical;
    forall k: nat | middle <= k < high ensures Slot(next, k) == Slot(m, k) {
      SameSlot(m, next, k);
    }
  }

  /** Injection writes general registers 4 to 11, float registers 12 to 19 and
      the counted stack words, and nothing else. */
  lemma {:induction false} InjectTouchesOnly(m: Machine, args: seq<Argument>, c: Cursor, other: Word)
    requires m.stop == Running && Layout(m.mem) && c.fpr <= 8
    requires InjectFrom(m, args, c).0.stop == Running && InjectFrom(m, args, c).1.stack <= LIMIT
    requires OffTheStack(m, other, c.stack, InjectFrom(m, args, c).1.stack)
    ensures Touches(m, InjectFrom(m, args, c).0, other)
    decreases |args|
  {
    hide InjectOne, Layout, Slot, Canonical, Machine.Load;
    if args != [] {
      var (next, d) := InjectOne(m, args[0], c);
      CursorGrows(next, args[1..], d);
      if next.stop != Running {
        InjectStaysStopped(next, args[1..], d);
      } else {
        InjectOneKeepsLayout(m, args[0], c);
        SplitOffTheStack(m, next, other, c.stack, d.stack, InjectFrom(m, args, c).1.stack);
        InjectOneTouches(m, args[0], c, other);
        InjectTouchesOnly(next, args[1..], d, other);
        TouchChain(m, next, InjectFrom(next, args[1..], d).0, other);
      }
    }
  }

  // ----- the call bridge -----

  datatype CallError = NoError | InvalidAddress | UnmappedPointer | StackFault | ExecutionFailed

  const CALL_RETURN_SENTINEL: Word := 0xffff_fff8

  function StackBytes(kinds: seq<Kind>): nat {
    (StackWords(kinds) * 4 + 15) / 16 * 16
  }

  function Lowered(m: Machine, kinds: seq<Kind>): Machine
    requires StackBytes(kinds) <= m.gpr[29]
  {
    m.Set(29, m.gpr[29] - StackBytes(kinds)).(stop := Running)
  }

  function Entered(injected: Machine, target: Word): Machine {
    injected.Set(31, CALL_RETURN_SENTINEL).(pc := target, branchPending := false)
  }

  function Restored(caller: Machine, m: Machine): Machine {
    m.Set(29, caller.gpr[29]).Set(31, caller.gpr[31])
     .(pc := caller.pc, branchPending := caller.branchPending, branchTarget := caller.branchTarget)
  }

  /** `callee` is what execute_function_at does to the entered state. */
  function CallGameFunction(m: Machine, target: Option<Word>, args: seq<Argument>,
                            callee: Machine -> (bool, Machine)): (CallError, Machine) {
    if target.None? then (InvalidAddress, m)
    else if m.gpr[29] < StackBytes(Kinds(args)) then (StackFault, m)
    else
      var injected := InjectFrom(Lowered(m, Kinds(args)), args, FIRST).0;
      if injected.stop != Running then (StackFault, Restored(m, injected))
      else
        var (executed, left) := callee(Entered(injected, target.value));
        var back := Restored(m, left);
        if !executed then (ExecutionFailed, back)
        else if left.stop != Running then (UnmappedPointer, back)
        else (NoError, back.(stop := m.stop))
  }

  /** The caller gets its stack pointer, return address, pc and pending branch
      back on every path, whatever the callee did, and its stop reason after a
      success. */
  lemma CallerIsRestored(m: Machine, target: Option<Word>, args: seq<Argument>, callee: Machine -> (bool, Machine))
    ensures var (error, after) := CallGameFunction(m, target, args, callee);
      after.gpr[29] == m.gpr[29] && after.gpr[31] == m.gpr[31] && after.pc == m.pc &&
      after.branchPending == m.branchPending && after.branchTarget == m.branchTarget &&
      (error == NoError ==> after.stop == m.stop)
  {
    hide InjectFrom, StackBytes, Restored;
    var injected := if StackBytes(Kinds(args)) <= m.gpr[29] then InjectFrom(Lowered(m, Kinds(args)), args, FIRST).0 else m;
    RestoredFields(m, injected);
    if target.Some? {
      RestoredFields(m, callee(Entered(injected, target.value)).1);
    }
  }

  lemma RestoredFields(caller: Machine, m: Machine)
    ensures var back := Restored(caller, m);
      back.gpr[29] == caller.gpr[29] && back.gpr[31] == caller.gpr[31] && back.pc == caller.pc &&
      back.branchPending == caller.branchPending && back.branchTarget == caller.branchTarget
  {
  }

  /** The entered callee reads exactly the caller's arguments. */
  lemma CalleeGetsArguments(m: Machine, target: Word, args: seq<Argument>)
    requires Layout(m.mem) && StackWords(Kinds(args)) <= LIMIT && StackBytes(Kinds(args)) <= m.gpr[29]
    requires InjectFrom(Lowered(m, Kinds(args)), args, FIRST).0.stop == Running
    ensures var entered := Entered(InjectFrom(Lowered(m, Kinds(args)), args, FIRST).0, target);
      ExtractFrom(entered, Kinds(args), FIRST) == (args, entered)
  {
    hide InjectFrom, ExtractFrom, StackWords, Layout, StackAt;
    var lowered := Lowered(m, Kinds(args));
    var (injected, end) := InjectFrom(lowered, args, FIRST);
    CountForetells(lowered, args);
    InjectKeeps(lowered, args, FIRST);
    SameStack(injected, Entered(injected, target));
    ArgumentsRoundTrip(lowered, args, Entered(injected, target));
  }

  lemma CountForetells(m: Machine, args: seq<Argument>)
    ensures InjectFrom(m, args, FIRST).1.stack == StackWords(Kinds(args))
  {
    CountForetellsStack(m, args, FIRST, FIRST);
  }

  // ----- the cursor in place -----

  class AbiCursor {
    var gpr: nat
    var fpr: nat
    var stack: nat

    constructor ()
      ensures Value() == FIRST
    {
      gpr, fpr, stack := 0, 0, 0;
    }

    function Value(): Cursor
      reads this
    {
      Cursor(gpr, fpr, stack)
    }

    method Inject(state: Machine, a: Argument) returns (after: Machine)
      modifies this
      ensures (after, Value()) == InjectOne(state, a, old(Value()))
    {
      hide Machine.Store, Slot;
      after := state;
      match a {
        case FloatArg(bits) =>
          if fpr < 8 {
            after := after.SetFpr(12 + fpr, bits);
            fpr := fpr + 1;
          } else {
            after := after.Store(Slot(after, stack), 4, bits);
            stack := stack + 1;
          }
        case WordArg(word) =>
          if gpr < 8 {
            after := after.Set(4 + gpr, word);
            gpr := gpr + 1;
          } else {
            after := after.Store(Slot(after, stack), 4, word);
            stack := stack + 1;
          }
        case WideArg(wide) =>
          WideParts(wide);
          gpr := Even(gpr);
          if gpr + 2 <= 8 {
            after := after.Set(4 + gpr, wide % TWO32);
            after := after.Set(5 + gpr, wide / TWO32);
          } else {
            stack := Even(stack);
            after := after.Store(Slot(after, stack), 4, wide % TWO32);
            after := after.Store(Slot(after, stack + 1), 4, wide / TWO32);
            stack := stack + 2;
          }
          gpr := gpr + 2;
      }
    }

    method Count(kind: Kind)
      modifies this
      ensures Value() == CountOne(kind, old(Value()))
    {
      match kind {
        case FloatKind =>
          if fpr >= 8 { stack := stack + 1; }
          fpr := fpr + 1;
        case WideKind =>
          gpr := Even(gpr);
          if gpr + 2 > 8 { stack := Even(stack) + 2; }
          gpr := gpr + 2;
        case WordKind =>
          if gpr >= 8 { stack := stack + 1; }
          gpr := gpr + 1;
      }
    }
  }

  method InjectArguments(state: Machine, args: seq<Argument>) returns (after: Machine)
    ensures after == InjectFrom(state, args, FIRST).0
  {
    hide InjectOne;
    var cursor := new AbiCursor();
    after := state;
    for i := 0 to |args|
      invariant fresh(cursor)
      invariant InjectFrom(after, args[i..], cursor.Value()) == InjectFrom(state, args, FIRST)
    {
      after := cursor.Inject(after, args[i]);
    }
  }

  method StackWordsForArguments(kinds: seq<Kind>) returns (words: nat)
    ensures words == StackWords(kinds)
  {
    hide CountOne;
    var cursor := new AbiCursor();
    for i := 0 to |kinds|
      invariant fresh(cursor)
      invariant CountFrom(kinds[i..], cursor.Value()) == CountFrom(kinds, FIRST)
    {
      cursor.Count(kinds[i]);
    }
    return cursor.stack;
  }
}
