/** The code map index: sorting, overlap rejection and merging of ranges
    (src/elf/code_map.cpp) and its binary searches (src/elf/image.cpp). */
module CodeMap {
  import opened Wrappers
  import opened Words

  /** The parser only lets nonempty ranges through. */
  datatype Range = Range(begin: Word, end: Word, name: string)

  predicate Nonempty(ranges: seq<Range>) {
    forall r :: r in ranges ==> r.begin < r.end
  }

  predicate Covers(r: Range, address: int) {
    r.begin <= address < r.end
  }

  predicate Covered(ranges: seq<Range>, address: int) {
    exists r :: r in ranges && Covers(r, address)
  }

  predicate Disjoint(a: Range, b: Range) {
    a.end <= b.begin || b.end <= a.begin
  }

  predicate PairwiseDisjoint(ranges: seq<Range>) {
    forall i, j :: 0 <= i < j < |ranges| ==> Disjoint(ranges[i], ranges[j])
  }

  predicate SortedByBegin(ranges: seq<Range>) {
    forall i, j :: 0 <= i < j < |ranges| ==> ranges[i].begin <= ranges[j].begin
  }

  /** Any result that std::sort may leave, equal begins in whatever order. */
  ghost predicate IsSortOf(sorted: seq<Range>, original: seq<Range>) {
    SortedByBegin(sorted) && multiset(sorted) == multiset(original)
  }

  lemma SameElements(sorted: seq<Range>, original: seq<Range>)
    requires IsSortOf(sorted, original)
    ensures forall r :: r in sorted <==> r in original
  {
    forall r ensures r in sorted <==> r in original {
      assert r in multiset(sorted) <==> r in multiset(original);
    }
  }

  // ----- the overlap check -----

  predicate Neighbours(sorted: seq<Range>) {
    forall i :: 1 <= i < |sorted| ==> sorted[i - 1].end <= sorted[i].begin
  }

  /** The loop over neighbours; false is the exception. */
  method NeighboursApart(sorted: seq<Range>) returns (apart: bool)
    ensures apart <==> Neighbours(sorted)
  {
    var i := 1;
    while i < |sorted|
      invariant 1 <= i
      invariant forall k :: 1 <= k < i && k < |sorted| ==> sorted[k - 1].end <= sorted[k].begin
    {
      if sorted[i].begin < sorted[i - 1].end {
        return false;
      }
      i := i + 1;
    }
    return true;
  }

  /** How often a range occurs decides, together with the ranges themselves. */
  lemma Occurrences(ranges: seq<Range>, i: nat, j: nat)
    requires i < j < |ranges| && ranges[i] == ranges[j]
    ensures 2 <= multiset(ranges)[ranges[i]]
  {
    assert ranges == ranges[..i] + [ranges[i]] + ranges[i + 1..j] + [ranges[j]] + ranges[j + 1..];
  }

  lemma {:induction false} Twice(ranges: seq<Range>, r: Range) returns (i: nat, j: nat)
    requires 2 <= multiset(ranges)[r]
    ensures i < j < |ranges| && ranges[i] == r && ranges[j] == r
  {
    assert ranges == [ranges[0]] + ranges[1..];
    if ranges[0] == r {
      assert r in multiset(ranges[1..]);
      assert r in ranges[1..];
      var k :| 0 <= k < |ranges[1..]| && ranges[1..][k] == r;
      i, j := 0, k + 1;
    } else {
      i, j := Twice(ranges[1..], r);
      i, j := i + 1, j + 1;
    }
  }

  lemma DisjointSurvivesSort(a: seq<Range>, b: seq<Range>)
    requires multiset(a) == multiset(b) && Nonempty(a) && PairwiseDisjoint(a)
    ensures PairwiseDisjoint(b)
  {
    forall i, j | 0 <= i < j < |b| ensures Disjoint(b[i], b[j]) {
      assert b[i] in multiset(a) && b[j] in multiset(a);
      if b[i] == b[j] {
        Occurrences(b, i, j);
        var k, l := Twice(a, b[i]);
        assert Disjoint(a[k], a[l]);
      } else {
        var k :| 0 <= k < |a| && a[k] == b[i];
        var l :| 0 <= l < |a| && a[l] == b[j];
        assert if k < l then Disjoint(a[k], a[l]) else Disjoint(a[l], a[k]);
      }
    }
  }

  lemma {:induction false} NeighboursReach(sorted: seq<Range>, i: nat, j: nat)
    requires Neighbours(sorted) && Nonempty(sorted) && i < j < |sorted|
    ensures sorted[i].end <= sorted[j].begin
    decreases j
  {
    if i + 1 < j {
      NeighboursReach(sorted, i, j - 1);
      assert sorted[j - 1] in sorted;
    }
  }

  /** Looking at neighbours after the sort is looking at all pairs before it. */
  lemma OverlapCheckIsExact(sorted: seq<Range>, original: seq<Range>)
    requires IsSortOf(sorted, original) && Nonempty(original)
    ensures Neighbours(sorted) <==> PairwiseDisjoint(original)
  {
    SameElements(sorted, original);
    if Neighbours(sorted) {
      forall i, j | 0 <= i < j < |sorted| ensures Disjoint(sorted[i], sorted[j]) {
        NeighboursReach(sorted, i, j);
      }
      DisjointSurvivesSort(sorted, original);
    }
    if PairwiseDisjoint(original) {
      DisjointSurvivesSort(original, sorted);
      forall i | 1 <= i < |sorted| ensures sorted[i - 1].end <= sorted[i].begin {
        assert Disjoint(sorted[i - 1], sorted[i]) && sorted[i] in sorted && sorted[i - 1] in sorted;
      }
    }
  }

  // ----- merging exclusions -----

  function Max(a: Word, b: Word): Word {
    if a < b then b else a
  }

  function MergeFrom(done: seq<Range>, rest: seq<Range>): seq<Range>
    decreases |rest|
  {
    if rest == [] then done
    else if done != [] && rest[0].begin <= done[|done| - 1].end then
      var last := done[|done| - 1];
      MergeFrom(done[|done| - 1 := last.(end := Max(last.end, rest[0].end))], rest[1..])
    else MergeFrom(done + [rest[0]], rest[1..])
  }

  method MergeExclusions(sorted: seq<Range>) returns (merged: seq<Range>)
    ensures merged == MergeFrom([], sorted)
  {
    merged := [];
    for i := 0 to |sorted|
      invariant MergeFrom(merged, sorted[i..]) == MergeFrom([], sorted)
    {
      var range := sorted[i];
      if merged != [] && range.begin <= merged[|merged| - 1].end {
        var last := merged[|merged| - 1];
        merged := merged[|merged| - 1 := last.(end := Max(last.end, range.end))];
      } else {
        merged := merged + [range];
      }
    }
  }

  /** Nonempty and apart, with a gap between any two. */
  predicate Gapped(ranges: seq<Range>) {
    forall i, j :: 0 <= i < j < |ranges| ==> ranges[i].end < ranges[j].begin
  }

  predicate Follows(done: seq<Range>, rest: seq<Range>) {
    forall d, r :: d in done && r in rest ==> d.begin <= r.begin
  }

  lemma MergeStep(done: seq<Range>, r: Range, address: int)
    requires Gapped(done) && Nonempty(done) && Follows(done, [r]) && r.begin < r.end
    requires done != [] && r.begin <= done[|done| - 1].end
    ensures var last := done[|done| - 1];
      var next := done[|done| - 1 := last.(end := Max(last.end, r.end))];
      Gapped(next) && Nonempty(next) && (Covered(next, address) <==> Covered(done, address) || Covers(r, address))
  {
    var n := |done| - 1;
    var last := done[n];
    var merged := last.(end := Max(last.end, r.end));
    var next := done[n := merged];
    assert last in done && merged in next && next[n] == merged;
    assert Covers(merged, address) <==> Covers(last, address) || Covers(r, address);
    forall x | x in next && x != merged ensures x in done {
    }
    forall x | x in done && x != last ensures x in next {
      var k :| 0 <= k < |done| && done[k] == x;
      assert next[k] == x;
    }
  }

  lemma {:induction false} MergeKeepsCover(done: seq<Range>, rest: seq<Range>, address: int)
    requires Gapped(done) && Nonempty(done) && Nonempty(rest) && SortedByBegin(rest) && Follows(done, rest)
    ensures var merged := MergeFrom(done, rest);
      Gapped(merged) && Nonempty(merged) &&
      (Covered(merged, address) <==> Covered(done, address) || Covered(rest, address))
    decreases |rest|
  {
    hide Covered, Covers, Gapped, SortedByBegin;
    if rest != [] {
      var r, later := rest[0], rest[1..];
      assert r in rest && forall x :: x in rest <==> x == r || x in later;
      FirstIsLeast(rest);
      if done != [] && r.begin <= done[|done| - 1].end {
        var last := done[|done| - 1];
        assert last in done;
        MergeStep(done, r, address);
        MergeKeepsCover(done[|done| - 1 := last.(end := Max(last.end, r.end))], later, address);
      } else {
        AppendKeepsCover(done, r, address);
        MergeKeepsCover(done + [r], later, address);
      }
      CoverSplits(rest, address);
    } else {
      NothingCovered(address);
    }
  }

  lemma NothingCovered(address: int)
    ensures !Covered([], address)
  {
  }

  lemma FirstIsLeast(rest: seq<Range>)
    requires rest != [] && SortedByBegin(rest)
    ensures SortedByBegin(rest[1..]) && forall x :: x in rest[1..] ==> rest[0].begin <= x.begin
  {
  }

  lemma CoverSplits(rest: seq<Range>, address: int)
    requires rest != []
    ensures Covered(rest, address) <==> Covers(rest[0], address) || Covered(rest[1..], address)
  {
    if Covers(rest[0], address) {
      assert rest[0] in rest;
    }
    if Covered(rest[1..], address) {
      var r :| r in rest[1..] && Covers(r, address);
      assert r in rest;
    }
  }

  lemma AppendKeepsCover(done: seq<Range>, r: Range, address: int)
    requires Gapped(done) && Nonempty(done) && r.begin < r.end
    requires done != [] ==> done[|done| - 1].end < r.begin
    ensures Gapped(done + [r]) && Nonempty(done + [r])
    ensures Covered(done + [r], address) <==> Covered(done, address) || Covers(r, address)
  {
    var next := done + [r];
    forall i, j | 0 <= i < j < |next| ensures next[i].end < next[j].begin {
      if j == |done| && i < |done| - 1 {
        assert done[i].end < done[|done| - 1].begin && done[|done| - 1] in done;
      }
    }
    assert r in next;
    forall x | x in done ensures x in next {
    }
  }

  // ----- the searches -----

  /** How many ranges begin at or before the address. */
  function UpperIndex(ranges: seq<Range>, address: int): (n: nat)
    ensures n <= |ranges|
  {
    if ranges == [] || address < ranges[0].begin then 0 else 1 + UpperIndex(ranges[1..], address)
  }

  lemma {:induction false} UpperIndexIs(ranges: seq<Range>, address: int, n: nat)
    requires n <= |ranges|
    requires forall i :: 0 <= i < n ==> ranges[i].begin <= address
    requires n < |ranges| ==> address < ranges[n].begin
    ensures UpperIndex(ranges, address) == n
    decreases n
  {
    if n > 0 {
      UpperIndexIs(ranges[1..], address, n - 1);
    }
  }

  /** std::upper_bound on the begins. */
  method UpperBound(ranges: seq<Range>, address: int) returns (n: nat)
    requires SortedByBegin(ranges)
    ensures n == UpperIndex(ranges, address)
    ensures n <= |ranges| && (forall i :: 0 <= i < n ==> ranges[i].begin <= address) &&
            (forall i :: n <= i < |ranges| ==> address < ranges[i].begin)
  {
    var low, high := 0, |ranges|;
    while low < high
      invariant 0 <= low <= high <= |ranges|
      invariant forall i :: 0 <= i < low ==> ranges[i].begin <= address
      invariant forall i :: high <= i < |ranges| ==> address < ranges[i].begin
    {
      var middle := (low + high) / 2;
      if address < ranges[middle].begin {
        high := middle;
      } else {
        low := middle + 1;
      }
    }
    UpperIndexIs(ranges, address, low);
    return low;
  }

  /** CodeMap::contains on merged exclusions: not excluded. */
  method Contains(merged: seq<Range>, address: Word) returns (contained: bool)
    requires Gapped(merged) && Nonempty(merged)
    ensures contained <==> !Covered(merged, address)
  {
    GappedIsSorted(merged);
    var after := UpperBound(merged, address);
    if after == 0 {
      return true;
    }
    var candidate := merged[after - 1];
    assert candidate in merged;
    contained := address < candidate.begin || address >= candidate.end;
    forall r | r in merged && r != candidate ensures !Covers(r, address) {
      var k :| 0 <= k < |merged| && merged[k] == r;
      assert k != after - 1;
    }
  }

  lemma GappedIsSorted(ranges: seq<Range>)
    requires Gapped(ranges) && Nonempty(ranges)
    ensures SortedByBegin(ranges)
  {
    forall i, j | 0 <= i < j < |ranges| ensures ranges[i].begin <= ranges[j].begin {
      assert ranges[i] in ranges && ranges[i].end < ranges[j].begin;
    }
  }

  /** CodeMap::function_containing on ranges that passed the overlap check. */
  method FunctionContaining(sorted: seq<Range>, address: Word) returns (found: Option<Range>)
    requires SortedByBegin(sorted) && Neighbours(sorted) && Nonempty(sorted)
    ensures match found
      case Some(r) => r in sorted && Covers(r, address) && forall q :: q in sorted && Covers(q, address) ==> q == r
      case None => !Covered(sorted, address)
  {
    var after := UpperBound(sorted, address);
    if after == 0 {
      return None;
    }
    var candidate := sorted[after - 1];
    assert candidate in sorted;
    forall q | q in sorted && Covers(q, address) ensures q == candidate {
      var k :| 0 <= k < |sorted| && sorted[k] == q;
      if k < after - 1 {
        NeighboursReach(sorted, k, after - 1);
      }
    }
    found := if address < candidate.end then Some(candidate) else None;
  }

  /** The index answers as the list of exclude lines would. */
  lemma IndexIsNaive(original: seq<Range>, sorted: seq<Range>, address: int)
    requires IsSortOf(sorted, original) && Nonempty(original)
    ensures Gapped(MergeFrom([], sorted)) && Nonempty(MergeFrom([], sorted))
    ensures Covered(MergeFrom([], sorted), address) <==> Covered(original, address)
  {
    SameElements(sorted, original);
    MergeKeepsCover([], sorted, address);
  }
}
