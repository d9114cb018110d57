/** Installing the hydrated trees with a rollback
    (publish_replacements of src/project/hydrate.cpp). */
module Publish {

  type Path = seq<string>

  datatype Node = Directory | File(content: seq<int>)

  type Files = map<Path, Node>

  datatype Replacement = Replacement(staged: Path, destination: Path, backup: Path)

  /** How far one replacement has come: had_previous and installed. */
  datatype Progress = Progress(hadPrevious: bool, installed: bool)

  // ----- the file operations -----

  predicate Under(root: Path, p: Path) {
    root <= p
  }

  function Rename(fs: Files, from: Path, to: Path): Files {
    map k | k in (set x | x in fs && !Under(from, x) && !Under(to, x)) + (set x | x in fs && Under(from, x) :: to + x[|from|..])
      :: if Under(to, k) && from + k[|to|..] in fs then fs[from + k[|to|..]] else if k in fs then fs[k] else Directory
  }

  function RemoveAll(fs: Files, root: Path): Files {
    map k | k in fs && !Under(root, k) :: fs[k]
  }

  /** create_directories on the parent of a path. */
  function MakeParents(fs: Files, p: Path): Files {
    map k | k in fs.Keys + (set i | 0 <= i < |p| :: p[..i]) :: if k in fs then fs[k] else Directory
  }

  predicate ParentsAreDirectories(fs: Files, p: Path) {
    forall i :: 0 <= i < |p| && p[..i] in fs ==> fs[p[..i]].Directory?
  }

  // ----- trees -----

  ghost predicate SameTree(a: Files, p: Path, b: Files, q: Path) {
    forall s: Path {:trigger p + s} {:trigger q + s} ::
      (p + s in a <==> q + s in b) && (p + s in a ==> a[p + s] == b[q + s])
  }

  ghost predicate Absent(fs: Files, p: Path) {
    forall s: Path :: p + s !in fs
  }

  predicate Apart(a: Path, b: Path) {
    !(a <= b) && !(b <= a)
  }

  lemma NotUnder(a: Path, b: Path, s: Path)
    requires Apart(a, b)
    ensures !Under(a, b + s)
  {
    if |a| <= |b| {
      assert (b + s)[..|a|] == b[..|a|];
    } else if |a| <= |b + s| {
      assert (b + s)[..|a|][..|b|] == b;
    }
  }

  lemma RenameMoves(fs: Files, from: Path, to: Path)
    requires Apart(from, to)
    ensures SameTree(Rename(fs, from, to), to, fs, from) && Absent(Rename(fs, from, to), from)
  {
    var after := Rename(fs, from, to);
    forall s: Path ensures (to + s in after <==> from + s in fs) && (to + s in after ==> after[to + s] == fs[from + s]) {
      assert (to + s)[|to|..] == s && (from + s)[|from|..] == s;
      if to + s in after {
        var x :| x in fs && Under(from, x) && to + s == to + x[|from|..];
        assert x[|from|..] == (to + x[|from|..])[|to|..];
        assert x == from + s;
      }
    }
    forall s: Path ensures from + s !in after {
      NotUnder(to, from, s);
      if from + s in after {
        var x :| x in fs && Under(from, x) && from + s == to + x[|from|..];
      }
    }
  }

  lemma RenameKeeps(fs: Files, from: Path, to: Path, other: Path)
    requires Apart(from, other) && Apart(to, other)
    ensures SameTree(Rename(fs, from, to), other, fs, other)
  {
    var after := Rename(fs, from, to);
    forall s: Path ensures (other + s in after <==> other + s in fs) && (other + s in after ==> after[other + s] == fs[other + s]) {
      NotUnder(from, other, s);
      NotUnder(to, other, s);
      forall x | x in fs && Under(from, x) ensures to + x[|from|..] != other + s {
        assert Under(to, to + x[|from|..]);
      }
    }
  }

  lemma RemoveRemoves(fs: Files, root: Path)
    ensures Absent(RemoveAll(fs, root), root)
  {
    forall s: Path ensures root + s !in RemoveAll(fs, root) {
      assert Under(root, root + s);
    }
  }

  lemma RemoveKeeps(fs: Files, root: Path, other: Path)
    requires Apart(root, other)
    ensures SameTree(RemoveAll(fs, root), other, fs, other)
  {
    forall s: Path ensures other + s in RemoveAll(fs, root) <==> other + s in fs {
      NotUnder(root, other, s);
    }
  }

  lemma PrefixOfPrefix(a: Path, p: Path, i: nat)
    requires i < |p|
    ensures a <= p[..i] ==> a <= p && |a| < |p|
  {
    if a <= p[..i] {
      assert p[..i][..|a|] == p[..|a|];
    }
  }

  /** New parent directories never land inside a tree that is apart from the path,
      nor inside the tree at the path itself. */
  lemma ParentsKeep(fs: Files, p: Path, other: Path)
    requires Apart(p, other) || p == other
    ensures SameTree(MakeParents(fs, p), other, fs, other)
  {
    var after := MakeParents(fs, p);
    forall s: Path ensures other + s in after <==> other + s in fs {
      forall i | 0 <= i < |p| ensures p[..i] != other + s {
        assert other <= other + s;
        PrefixOfPrefix(other, p, i);
      }
    }
  }

  lemma SameTreeChain(a: Files, p: Path, b: Files, q: Path, c: Files, r: Path)
    requires SameTree(a, p, b, q) && SameTree(b, q, c, r)
    ensures SameTree(a, p, c, r)
  {
    forall s: Path ensures (p + s in a <==> r + s in c) && (p + s in a ==> a[p + s] == c[r + s]) {
      assert q + s in b <==> p + s in a;
    }
  }

  lemma AbsentChain(a: Files, p: Path, b: Files, q: Path)
    requires SameTree(a, p, b, q)
    ensures Absent(a, p) <==> Absent(b, q)
  {
    if Absent(a, p) {
      forall s: Path ensures q + s !in b {
        assert p + s !in a;
      }
    }
    if Absent(b, q) {
      forall s: Path ensures p + s !in a {
        assert q + s !in b;
      }
    }
  }

  lemma BothAbsent(a: Files, p: Path, b: Files, q: Path)
    requires Absent(a, p) && Absent(b, q)
    ensures SameTree(a, p, b, q)
  {
  }

  lemma SameTreeRoot(a: Files, p: Path, b: Files, q: Path)
    requires SameTree(a, p, b, q)
    ensures p in a <==> q in b
  {
    assert p + [] == p && q + [] == q;
  }

  /** A file system is a tree: whatever has an entry below it exists. */
  ghost predicate Closed(fs: Files) {
    forall p: Path, s: Path {:trigger p + s} :: p + s in fs ==> p in fs
  }

  // ----- the phases of one replacement -----

  ghost predicate PathsApart(r: Replacement) {
    Apart(r.staged, r.destination) && Apart(r.staged, r.backup) && Apart(r.destination, r.backup)
  }

  /** No path of one is a path of the other or above it. */
  ghost predicate Unrelated(r: Replacement, q: Replacement) {
    forall a, b :: a in {r.staged, r.destination, r.backup} && b in {q.staged, q.destination, q.backup} ==> Apart(a, b)
  }

  ghost predicate InPhase(start: Files, fs: Files, r: Replacement, p: Progress) {
    (p.hadPrevious ==> SameTree(fs, r.backup, start, r.destination)) &&
    (!p.hadPrevious && p.installed ==> Absent(start, r.destination)) &&
    (p.installed ==> SameTree(fs, r.destination, start, r.staged)) &&
    (!p.installed ==> SameTree(fs, r.staged, start, r.staged)) &&
    (!p.installed && p.hadPrevious ==> Absent(fs, r.destination)) &&
    (!p.installed && !p.hadPrevious ==> SameTree(fs, r.destination, start, r.destination))
  }

  lemma PhaseKept(start: Files, fs: Files, next: Files, r: Replacement, p: Progress)
    requires InPhase(start, fs, r, p)
    requires SameTree(next, r.staged, fs, r.staged)
    requires SameTree(next, r.destination, fs, r.destination)
    requires SameTree(next, r.backup, fs, r.backup)
    ensures InPhase(start, next, r, p)
  {
    hide SameTree, Absent;
    AbsentChain(next, r.destination, fs, r.destination);
    if p.hadPrevious {
      SameTreeChain(next, r.backup, fs, r.backup, start, r.destination);
    }
    if p.installed {
      SameTreeChain(next, r.destination, fs, r.destination, start, r.staged);
    } else {
      SameTreeChain(next, r.staged, fs, r.staged, start, r.staged);
      if !p.hadPrevious {
        SameTreeChain(next, r.destination, fs, r.destination, start, r.destination);
      }
    }
  }

  /** The trees of a replacement are as they were. */
  ghost predicate TreesKept(fs: Files, next: Files, r: Replacement) {
    SameTree(next, r.staged, fs, r.staged) && SameTree(next, r.destination, fs, r.destination) &&
    SameTree(next, r.backup, fs, r.backup)
  }

  lemma TreesKeptChain(a: Files, b: Files, c: Files, r: Replacement)
    requires TreesKept(a, b, r) && TreesKept(b, c, r)
    ensures TreesKept(a, c, r)
  {
    hide SameTree;
    SameTreeChain(c, r.staged, b, r.staged, a, r.staged);
    SameTreeChain(c, r.destination, b, r.destination, a, r.destination);
    SameTreeChain(c, r.backup, b, r.backup, a, r.backup);
  }

  lemma ParentsKeepTrees(fs: Files, p: Path, r: Replacement)
    requires forall a :: a in {r.staged, r.destination, r.backup} ==> Apart(p, a) || p == a
    ensures TreesKept(fs, MakeParents(fs, p), r)
  {
    hide SameTree, MakeParents;
    ParentsKeep(fs, p, r.staged);
    ParentsKeep(fs, p, r.destination);
    ParentsKeep(fs, p, r.backup);
  }

  lemma RenameKeepsTrees(fs: Files, from: Path, to: Path, r: Replacement)
    requires forall a :: a in {r.staged, r.destination, r.backup} ==> Apart(from, a) && Apart(to, a)
    ensures TreesKept(fs, Rename(fs, from, to), r)
  {
    hide SameTree, Rename;
    RenameKeeps(fs, from, to, r.staged);
    RenameKeeps(fs, from, to, r.destination);
    RenameKeeps(fs, from, to, r.backup);
  }

  lemma RemoveKeepsTrees(fs: Files, root: Path, r: Replacement)
    requires forall a :: a in {r.staged, r.destination, r.backup} ==> Apart(root, a)
    ensures TreesKept(fs, RemoveAll(fs, root), r)
  {
    hide SameTree, RemoveAll;
    RemoveKeeps(fs, root, r.staged);
    RemoveKeeps(fs, root, r.destination);
    RemoveKeeps(fs, root, r.backup);
  }

  lemma KeptReflexive(fs: Files, r: Replacement)
    ensures TreesKept(fs, fs, r)
  {
  }

  // ----- installing one replacement -----

  /** The forward steps throw wherever `fails` says so, before taking effect. */
  method Install(start: Files, fs: Files, r: Replacement, fails: nat -> bool, step: nat)
    returns (next: Files, p: Progress, failed: bool, later: nat)
    requires PathsApart(r) && Closed(start) && Absent(fs, r.backup)
    requires InPhase(start, fs, r, Progress(false, false))
    ensures InPhase(start, next, r, p) && (!failed ==> p.installed)
    ensures forall q :: PathsApart(q) && Unrelated(r, q) ==> TreesKept(fs, next, q)
  {
    hide SameTree, Absent, Closed, MakeParents, Rename, InPhase;
    next, p, failed, later := fs, Progress(false, false), true, step + 1;
    OthersReflexive(fs, r);
    if fails(step) || !ParentsAreDirectories(next, r.destination) {
      return;
    }
    next := MakeParents(next, r.destination);
    ghost var made := next;
    ParentsKeepTrees(fs, r.destination, r);
    AbsentChain(made, r.backup, fs, r.backup);
    PhaseKept(start, fs, made, r, p);
    OthersMade(fs, r, r.destination);
    later := step + 2;
    if fails(step + 1) {
      return;
    }
    if r.destination in next {
      later := step + 3;
      if fails(step + 2) || !ParentsAreDirectories(next, r.backup) {
        return;
      }
      next := MakeParents(next, r.backup);
      ghost var kept := next;
      ParentsKeepTrees(made, r.backup, r);
      PhaseKept(start, made, kept, r, p);
      OthersMade(made, r, r.backup);
      OthersChain(fs, made, kept, r);
      later := step + 4;
      if fails(step + 3) {
        return;
      }
      next := Rename(next, r.destination, r.backup);
      p := Progress(true, false);
      BackedUp(start, kept, r);
      OthersRenamed(kept, r, r.destination, r.backup);
      OthersChain(fs, kept, next, r);
    } else {
      DestinationAbsent(start, made, r);
    }
    ghost var ready := next;
    later := step + 5;
    if fails(step + 4) || r.staged !in next {
      return;
    }
    next := Rename(next, r.staged, r.destination);
    p := p.(installed := true);
    Installed(start, ready, r, p.hadPrevious);
    OthersRenamed(ready, r, r.staged, r.destination);
    OthersChain(fs, ready, next, r);
    failed := false;
  }

  ghost predicate OthersKept(fs: Files, next: Files, r: Replacement) {
    forall q :: PathsApart(q) && Unrelated(r, q) ==> TreesKept(fs, next, q)
  }

  lemma OthersReflexive(fs: Files, r: Replacement)
    ensures OthersKept(fs, fs, r)
  {
    hide TreesKept;
    forall q | PathsApart(q) && Unrelated(r, q) ensures TreesKept(fs, fs, q) {
      KeptReflexive(fs, q);
    }
  }

  lemma OthersChain(a: Files, b: Files, c: Files, r: Replacement)
    requires OthersKept(a, b, r) && OthersKept(b, c, r)
    ensures OthersKept(a, c, r)
  {
    hide TreesKept;
    forall q | PathsApart(q) && Unrelated(r, q) ensures TreesKept(a, c, q) {
      TreesKeptChain(a, b, c, q);
    }
  }

  lemma OthersMade(fs: Files, r: Replacement, p: Path)
    requires p in {r.staged, r.destination, r.backup}
    ensures OthersKept(fs, MakeParents(fs, p), r)
  {
    hide TreesKept, MakeParents;
    forall q | PathsApart(q) && Unrelated(r, q) ensures TreesKept(fs, MakeParents(fs, p), q) {
      ParentsKeepTrees(fs, p, q);
    }
  }

  lemma OthersRenamed(fs: Files, r: Replacement, from: Path, to: Path)
    requires from in {r.staged, r.destination, r.backup} && to in {r.staged, r.destination, r.backup}
    ensures OthersKept(fs, Rename(fs, from, to), r)
  {
    hide TreesKept, Rename;
    forall q | PathsApart(q) && Unrelated(r, q) ensures TreesKept(fs, Rename(fs, from, to), q) {
      RenameKeepsTrees(fs, from, to, q);
    }
  }

  lemma OthersRemoved(fs: Files, r: Replacement, p: Path)
    requires p in {r.staged, r.destination, r.backup}
    ensures OthersKept(fs, RemoveAll(fs, p), r)
  {
    hide TreesKept, RemoveAll;
    forall q | PathsApart(q) && Unrelated(r, q) ensures TreesKept(fs, RemoveAll(fs, p), q) {
      RemoveKeepsTrees(fs, p, q);
    }
  }

  lemma BackedUp(start: Files, fs: Files, r: Replacement)
    requires PathsApart(r) && InPhase(start, fs, r, Progress(false, false))
    ensures InPhase(start, Rename(fs, r.destination, r.backup), r, Progress(true, false))
  {
    hide SameTree, Absent, Rename;
    var after := Rename(fs, r.destination, r.backup);
    RenameMoves(fs, r.destination, r.backup);
    SameTreeChain(after, r.backup, fs, r.destination, start, r.destination);
    RenameKeeps(fs, r.destination, r.backup, r.staged);
    SameTreeChain(after, r.staged, fs, r.staged, start, r.staged);
  }

  /** exists() said no: in a tree nothing is below the destination either. */
  lemma DestinationAbsent(start: Files, fs: Files, r: Replacement)
    requires Closed(start) && InPhase(start, fs, r, Progress(false, false)) && r.destination !in fs
    ensures Absent(start, r.destination) && Absent(fs, r.destination)
  {
    SameTreeRoot(fs, r.destination, start, r.destination);
    assert Absent(start, r.destination);
    AbsentChain(fs, r.destination, start, r.destination);
  }

  lemma Installed(start: Files, fs: Files, r: Replacement, had: bool)
    requires PathsApart(r) && InPhase(start, fs, r, Progress(had, false))
    requires had || Absent(start, r.destination)
    ensures InPhase(start, Rename(fs, r.staged, r.destination), r, Progress(had, true))
  {
    hide SameTree, Absent, Rename;
    var after := Rename(fs, r.staged, r.destination);
    RenameMoves(fs, r.staged, r.destination);
    SameTreeChain(after, r.destination, fs, r.staged, start, r.staged);
    if had {
      RenameKeeps(fs, r.staged, r.destination, r.backup);
      SameTreeChain(after, r.backup, fs, r.backup, start, r.destination);
    }
  }

  // ----- rolling one replacement back -----

  method RollBack(start: Files, fs: Files, r: Replacement, p: Progress) returns (next: Files)
    requires PathsApart(r) && InPhase(start, fs, r, p)
    ensures SameTree(next, r.destination, start, r.destination)
    ensures OthersKept(fs, next, r)
  {
    hide SameTree, Absent, RemoveAll, Rename, OthersKept;
    next := fs;
    OthersReflexive(fs, r);
    if p.installed {
      next := RemoveAll(next, r.destination);
      RemoveRemoves(fs, r.destination);
      RemoveKeeps(fs, r.destination, r.backup);
      OthersRemoved(fs, r, r.destination);
      if !p.hadPrevious {
        BothAbsent(next, r.destination, start, r.destination);
      } else {
        SameTreeChain(next, r.backup, fs, r.backup, start, r.destination);
      }
    }
    if p.hadPrevious {
      ghost var removed := next;
      next := Rename(next, r.backup, r.destination);
      RenameMoves(removed, r.backup, r.destination);
      SameTreeChain(next, r.destination, removed, r.backup, start, r.destination);
      OthersRenamed(removed, r, r.backup, r.destination);
      OthersChain(fs, removed, next, r);
    }
  }

  // ----- publish_replacements -----

  ghost predicate Publishable(start: Files, rs: seq<Replacement>) {
    Closed(start) &&
    (forall i :: 0 <= i < |rs| ==> PathsApart(rs[i]) && Absent(start, rs[i].backup)) &&
    (forall i, j :: 0 <= i < |rs| && 0 <= j < |rs| && i != j ==> Unrelated(rs[i], rs[j]))
  }

  /** All or nothing: after a failure every destination is what it was, after a
      success every destination holds its staged tree and every backup what the
      destination held, whichever forward steps throw. */
  method PublishReplacements(start: Files, rs: seq<Replacement>, fails: nat -> bool) returns (fs: Files, failed: bool)
    requires Publishable(start, rs)
    ensures failed ==> forall i :: 0 <= i < |rs| ==> SameTree(fs, rs[i].destination, start, rs[i].destination)
    ensures !failed ==> forall i :: 0 <= i < |rs| ==> SameTree(fs, rs[i].destination, start, rs[i].staged)
    ensures !failed ==> forall i :: 0 <= i < |rs| && !Absent(start, rs[i].destination) ==>
      SameTree(fs, rs[i].backup, start, rs[i].destination)
  {
    hide SameTree, Absent, Closed, PathsApart, Unrelated, TreesKept, InPhase;
    fs, failed := start, false;
    var progress := seq(|rs|, _ => Progress(false, false));
    var step := 0;
    var index := 0;
    forall i | 0 <= i < |rs| ensures InPhase(start, fs, rs[i], progress[i]) {
      StartPhase(start, rs[i]);
    }
    while index < |rs| && !failed
      invariant 0 <= index <= |rs| == |progress|
      invariant forall i :: 0 <= i < |rs| ==> InPhase(start, fs, rs[i], progress[i])
      invariant forall i :: index <= i < |rs| && !failed ==> progress[i] == Progress(false, false) && Absent(fs, rs[i].backup)
      invariant !failed ==> forall i :: 0 <= i < index ==> progress[i].installed
      decreases |rs| - index, !failed
    {
      ghost var before := fs;
      var p;
      fs, p, failed, step := Install(start, fs, rs[index], fails, step);
      forall i | 0 <= i < |rs| && i != index
        ensures InPhase(start, fs, rs[i], progress[i]) && (Absent(fs, rs[i].backup) <==> Absent(before, rs[i].backup))
      {
        assert Unrelated(rs[index], rs[i]) && PathsApart(rs[i]);
        StillInPhase(start, before, fs, rs[i], progress[i]);
      }
      progress := progress[index := p];
      if !failed {
        index := index + 1;
      }
    }
    if failed {
      var k := |rs|;
      while k > 0
        invariant 0 <= k <= |rs|
        invariant forall i :: 0 <= i < k ==> InPhase(start, fs, rs[i], progress[i])
        invariant forall i :: k <= i < |rs| ==> SameTree(fs, rs[i].destination, start, rs[i].destination)
      {
        k := k - 1;
        ghost var before := fs;
        fs := RollBack(start, fs, rs[k], progress[k]);
        forall i | 0 <= i < |rs| && i != k
          ensures i < k ==> InPhase(start, fs, rs[i], progress[i])
          ensures i > k ==> SameTree(fs, rs[i].destination, start, rs[i].destination)
        {
          assert Unrelated(rs[k], rs[i]) && PathsApart(rs[i]);
          if i < k {
            StillInPhase(start, before, fs, rs[i], progress[i]);
          } else {
            StillRestored(start, before, fs, rs[i]);
          }
        }
      }
    } else {
      forall i | 0 <= i < |rs|
        ensures SameTree(fs, rs[i].destination, start, rs[i].staged)
        ensures !Absent(start, rs[i].destination) ==> SameTree(fs, rs[i].backup, start, rs[i].destination)
      {
        InstalledPhase(start, fs, rs[i], progress[i]);
      }
    }
  }

  lemma StartPhase(start: Files, r: Replacement)
    ensures InPhase(start, start, r, Progress(false, false))
  {
  }

  lemma StillInPhase(start: Files, before: Files, fs: Files, r: Replacement, p: Progress)
    requires InPhase(start, before, r, p) && TreesKept(before, fs, r)
    ensures InPhase(start, fs, r, p) && (Absent(fs, r.backup) <==> Absent(before, r.backup))
  {
    hide SameTree, Absent, InPhase;
    PhaseKept(start, before, fs, r, p);
    AbsentChain(fs, r.backup, before, r.backup);
  }

  lemma StillRestored(start: Files, before: Files, fs: Files, r: Replacement)
    requires SameTree(before, r.destination, start, r.destination) && TreesKept(before, fs, r)
    ensures SameTree(fs, r.destination, start, r.destination)
  {
    hide SameTree;
    SameTreeChain(fs, r.destination, before, r.destination, start, r.destination);
  }

  lemma InstalledPhase(start: Files, fs: Files, r: Replacement, p: Progress)
    requires InPhase(start, fs, r, p) && p.installed
    ensures SameTree(fs, r.destination, start, r.staged)
    ensures !Absent(start, r.destination) ==> SameTree(fs, r.backup, start, r.destination)
  {
    hide SameTree, Absent;
  }
}
