/** The ticket lock that lets one guest thread run at a time
    (refract/src/runtime.cpp): acquire, release, nested pauses and exit, each
    mutex section one step of a transition system. */
module GuestLock {

  /** The scoped objects a thread is inside of, innermost last. */
  datatype Frame = LockFrame(held: bool) | PauseFrame(paused: bool)

  /** A thread blocked in acquire_guest_execution, and on whose behalf. */
  datatype Wait = NotWaiting | ForLock(ticket: nat) | ForPause(ticket: nat)

  datatype Thread = Thread(locked: bool, frames: seq<Frame>, wait: Wait)

  datatype Monitor = Monitor(next: nat, serving: nat, exit: bool, threads: seq<Thread>)

  datatype Action =
    | EnterLock(t: nat)
    | LeaveLock(t: nat)
    | EnterPause(t: nat)
    | LeavePause(t: nat)
    | Wake(t: nat)
    | RequestExit

  predicate Enabled(m: Monitor, a: Action) {
    a.RequestExit? ||
    (a.t < |m.threads| &&
     var th := m.threads[a.t];
     var frames := th.frames;
     match a
     case EnterLock(_) => th.wait.NotWaiting?
     case EnterPause(_) => th.wait.NotWaiting?
     case LeaveLock(_) => th.wait.NotWaiting? && frames != [] && frames[|frames| - 1].LockFrame?
     case LeavePause(_) => th.wait.NotWaiting? && frames != [] && frames[|frames| - 1].PauseFrame?
     case Wake(_) => !th.wait.NotWaiting? && (th.wait.ticket == m.serving || m.exit))
  }

  /** release_guest_execution, by a thread that leaves `frames`. */
  function Release(m: Monitor, t: nat, frames: seq<Frame>): Monitor
    requires t < |m.threads|
  {
    m.(serving := m.serving + 1, threads := m.threads[t := Thread(false, frames, NotWaiting)])
  }

  /** The first half of acquire_guest_execution. */
  function TakeTicket(m: Monitor, t: nat, wait: Wait): Monitor
    requires t < |m.threads|
  {
    m.(next := m.next + 1, threads := m.threads[t := m.threads[t].(wait := wait)])
  }

  function Step(m: Monitor, a: Action): Monitor
    requires Enabled(m, a)
  {
    if a.RequestExit? then m.(exit := true)
    else
      var t, th := a.t, m.threads[a.t];
      var frames := th.frames;
      match a
      case EnterLock(_) => TakeTicket(m, t, ForLock(m.next))
      case LeaveLock(_) =>
        var outer := frames[..|frames| - 1];
        if frames[|frames| - 1].held then Release(m, t, outer)
        else m.(threads := m.threads[t := th.(frames := outer)])
      case EnterPause(_) =>
        var inner := frames + [PauseFrame(th.locked)];
        if th.locked then Release(m, t, inner) else m.(threads := m.threads[t := th.(frames := inner)])
      case LeavePause(_) =>
        if frames[|frames| - 1].paused then TakeTicket(m, t, ForPause(m.next))
        else m.(threads := m.threads[t := th.(frames := frames[..|frames| - 1])])
      case Wake(_) =>
        var after := if th.wait.ForLock? then frames + [LockFrame(!m.exit)]
                     else if frames == [] then [] else frames[..|frames| - 1];
        m.(threads := m.threads[t := Thread(!m.exit, after, NotWaiting)])
  }

  // ----- what every interleaving keeps -----

  predicate AtMostOneLocked(m: Monitor) {
    forall i, j :: 0 <= i < |m.threads| && 0 <= j < |m.threads| && m.threads[i].locked && m.threads[j].locked ==> i == j
  }

  predicate InLock(frames: seq<Frame>) {
    frames != [] && frames[|frames| - 1].LockFrame?
  }

  /** Before exit every lock frame holds, no lock frame sits directly on another,
      and a pause frame has paused exactly the lock frame below it. */
  predicate Nested(frames: seq<Frame>) {
    forall d :: 0 <= d < |frames| ==>
      match frames[d]
      case LockFrame(held) => held && !InLock(frames[..d])
      case PauseFrame(paused) => paused == InLock(frames[..d])
  }

  predicate ThreadInOrder(th: Thread) {
    Nested(th.frames) && th.locked == InLock(th.frames) &&
    (th.wait.ForPause? ==> th.frames != [] && th.frames[|th.frames| - 1] == PauseFrame(true))
  }

  predicate SomeoneLocked(m: Monitor) {
    exists i :: 0 <= i < |m.threads| && m.threads[i].locked
  }

  /** The first ticket that has not had its turn. */
  function FirstWaiting(m: Monitor): nat {
    if SomeoneLocked(m) then m.serving + 1 else m.serving
  }

  predicate Waits(m: Monitor, i: nat, ticket: nat) {
    i < |m.threads| && !m.threads[i].wait.NotWaiting? && m.threads[i].wait.ticket == ticket
  }

  ghost predicate SomeoneWaits(m: Monitor, ticket: nat) {
    exists i: nat :: Waits(m, i, ticket)
  }

  /** Before exit: the waiting tickets are exactly those after the one being
      served, one thread each. */
  ghost predicate TicketsInOrder(m: Monitor) {
    FirstWaiting(m) <= m.next &&
    (forall i: nat, k: nat :: Waits(m, i, k) ==> FirstWaiting(m) <= k < m.next) &&
    (forall i: nat, j: nat, k: nat :: Waits(m, i, k) && Waits(m, j, k) ==> i == j) &&
    (forall k: nat :: FirstWaiting(m) <= k < m.next ==> SomeoneWaits(m, k))
  }

  ghost predicate Orderly(m: Monitor) {
    TicketsInOrder(m) && forall i :: 0 <= i < |m.threads| ==> ThreadInOrder(m.threads[i])
  }

  ghost predicate Safe(m: Monitor) {
    AtMostOneLocked(m) && (!m.exit ==> Orderly(m))
  }

  function Start(n: nat): Monitor {
    Monitor(0, 0, false, seq(n, _ => Thread(false, [], NotWaiting)))
  }

  lemma StartIsSafe(n: nat)
    ensures Safe(Start(n))
  {
  }

  lemma PushKeepsNesting(frames: seq<Frame>, f: Frame)
    requires Nested(frames)
    requires f == PauseFrame(InLock(frames)) || (f == LockFrame(true) && !InLock(frames))
    ensures Nested(frames + [f])
  {
    var after := frames + [f];
    forall d | 0 <= d < |after| ensures d < |frames| ==> after[..d] == frames[..d] {
    }
    assert after[..|frames|] == frames;
  }

  lemma PopKeepsNesting(frames: seq<Frame>)
    requires Nested(frames) && frames != []
    ensures Nested(frames[..|frames| - 1])
    ensures match frames[|frames| - 1]
      case LockFrame(held) => held && !InLock(frames[..|frames| - 1])
      case PauseFrame(paused) => paused == InLock(frames[..|frames| - 1])
  {
    var outer := frames[..|frames| - 1];
    assert forall d :: 0 <= d < |outer| ==> outer[d] == frames[d] && outer[..d] == frames[..d];
  }

  /** One thread changes, nobody starts to wait or gets the lock. */
  lemma ReleaseIsSafe(m: Monitor, t: nat, frames: seq<Frame>)
    requires !m.exit && Safe(m) && t < |m.threads| && m.threads[t].locked && m.threads[t].wait.NotWaiting?
    requires Nested(frames) && !InLock(frames)
    ensures Safe(Release(m, t, frames))
  {
    hide Nested, InLock;
    var after := Release(m, t, frames);
    assert !SomeoneLocked(after);
    assert FirstWaiting(after) == FirstWaiting(m);
    SameWaiters(m, after);
  }

  lemma SameWaiters(m: Monitor, after: Monitor)
    requires TicketsInOrder(m) && after.next == m.next && FirstWaiting(after) == FirstWaiting(m)
    requires |after.threads| == |m.threads|
    requires forall i :: 0 <= i < |m.threads| ==> after.threads[i].wait == m.threads[i].wait
    ensures TicketsInOrder(after)
  {
    hide FirstWaiting;
    forall i: nat, k: nat ensures Waits(after, i, k) <==> Waits(m, i, k) {
    }
    forall k | FirstWaiting(after) <= k < after.next ensures SomeoneWaits(after, k) {
      assert SomeoneWaits(m, k);
      var i :| Waits(m, i, k);
      assert Waits(after, i, k);
    }
  }

  lemma TicketIsSafe(m: Monitor, t: nat, wait: Wait)
    requires !m.exit && Safe(m) && t < |m.threads| && m.threads[t].wait.NotWaiting?
    requires !wait.NotWaiting? && wait.ticket == m.next
    requires ThreadInOrder(m.threads[t].(wait := wait))
    ensures Safe(TakeTicket(m, t, wait))
  {
    hide ThreadInOrder;
    var after := TakeTicket(m, t, wait);
    assert forall i :: 0 <= i < |m.threads| ==> after.threads[i].locked == m.threads[i].locked;
    assert FirstWaiting(after) == FirstWaiting(m);
    forall i: nat, k: nat ensures Waits(after, i, k) <==> Waits(m, i, k) || (i == t && k == m.next) {
    }
    forall k | FirstWaiting(after) <= k < after.next ensures SomeoneWaits(after, k) {
      if k < m.next {
        assert SomeoneWaits(m, k);
        var i :| Waits(m, i, k);
        assert Waits(after, i, k);
      } else {
        assert Waits(after, t, k);
      }
    }
  }

  lemma FramesAreSafe(m: Monitor, t: nat, frames: seq<Frame>)
    requires !m.exit && Safe(m) && t < |m.threads| && m.threads[t].wait.NotWaiting?
    requires Nested(frames) && InLock(frames) == m.threads[t].locked
    ensures Safe(m.(threads := m.threads[t := m.threads[t].(frames := frames)]))
  {
    hide Nested, InLock;
    var after := m.(threads := m.threads[t := m.threads[t].(frames := frames)]);
    assert forall i :: 0 <= i < |m.threads| ==> after.threads[i].locked == m.threads[i].locked;
    assert FirstWaiting(after) == FirstWaiting(m);
    SameWaiters(m, after);
  }

  /** The waiter whose turn it is finds nobody inside, itself included. */
  lemma TurnMeansFree(m: Monitor, t: nat)
    requires Safe(m) && !m.exit && Waits(m, t, m.serving)
    ensures !SomeoneLocked(m)
  {
    hide ThreadInOrder;
  }

  lemma WakeIsSafe(m: Monitor, t: nat)
    requires !m.exit && Safe(m) && Enabled(m, Wake(t))
    ensures Safe(Step(m, Wake(t)))
  {
    var th := m.threads[t];
    assert Waits(m, t, m.serving);
    TurnMeansFree(m, t);
    assert !th.locked && ThreadInOrder(th);
    var after := Step(m, Wake(t));
    assert after.threads[t].locked;
    if th.wait.ForLock? {
      PushKeepsNesting(th.frames, LockFrame(true));
    } else {
      PopKeepsNesting(th.frames);
    }
    EnteredTickets(m, t, after);
  }

  lemma EnteredTickets(m: Monitor, t: nat, after: Monitor)
    requires TicketsInOrder(m) && !SomeoneLocked(m) && Waits(m, t, m.serving)
    requires t < |after.threads| && after.threads[t].locked && after.threads[t].wait.NotWaiting?
    requires after == m.(threads := m.threads[t := after.threads[t]])
    ensures TicketsInOrder(after)
  {
    forall i: nat, k: nat ensures Waits(after, i, k) <==> Waits(m, i, k) && i != t {
    }
    assert FirstWaiting(after) == m.serving + 1;
    forall k | FirstWaiting(after) <= k < after.next ensures SomeoneWaits(after, k) {
      assert SomeoneWaits(m, k);
      var i :| Waits(m, i, k);
      assert Waits(after, i, k);
    }
  }

  /** After exit nobody gets the lock any more, whatever is released. */
  lemma ExitOnlyUnlocks(m: Monitor, a: Action)
    requires Enabled(m, a) && (m.exit || a.RequestExit?)
    ensures |Step(m, a).threads| == |m.threads|
    ensures forall i :: 0 <= i < |m.threads| && Step(m, a).threads[i].locked ==> m.threads[i].locked
  {
  }

  lemma StepIsSafe(m: Monitor, a: Action)
    requires Safe(m) && Enabled(m, a)
    ensures Safe(Step(m, a)) && (m.exit ==> Step(m, a).exit)
  {
    if m.exit || a.RequestExit? {
      ExitOnlyUnlocks(m, a);
    } else {
      hide TicketsInOrder, AtMostOneLocked, Nested;
      var th := m.threads[a.t];
      assert ThreadInOrder(th);
      match a
      case EnterLock(t) => TicketIsSafe(m, t, ForLock(m.next));
      case EnterPause(t) =>
        PushKeepsNesting(th.frames, PauseFrame(th.locked));
        if th.locked {
          ReleaseIsSafe(m, t, th.frames + [PauseFrame(true)]);
        } else {
          FramesAreSafe(m, t, th.frames + [PauseFrame(false)]);
        }
      case LeaveLock(t) =>
        PopKeepsNesting(th.frames);
        ReleaseIsSafe(m, t, th.frames[..|th.frames| - 1]);
      case LeavePause(t) =>
        PopKeepsNesting(th.frames);
        if th.frames[|th.frames| - 1].paused {
          TicketIsSafe(m, t, ForPause(m.next));
        } else {
          FramesAreSafe(m, t, th.frames[..|th.frames| - 1]);
        }
      case Wake(t) => WakeIsSafe(m, t);
    }
  }

  // ----- whole interleavings -----

  predicate Possible(m: Monitor, actions: seq<Action>)
    decreases |actions|
  {
    actions == [] || (Enabled(m, actions[0]) && Possible(Step(m, actions[0]), actions[1..]))
  }

  function After(m: Monitor, actions: seq<Action>): Monitor
    requires Possible(m, actions)
    decreases |actions|
  {
    if actions == [] then m else After(Step(m, actions[0]), actions[1..])
  }

  /** In every interleaving at most one thread has the lock. */
  lemma {:induction false} InterleavingsAreSafe(m: Monitor, actions: seq<Action>)
    requires Safe(m) && Possible(m, actions)
    ensures Safe(After(m, actions)) && AtMostOneLocked(After(m, actions))
    ensures m.exit ==> After(m, actions).exit
    decreases |actions|
  {
    hide Safe, Step, Enabled;
    if actions != [] {
      StepIsSafe(m, actions[0]);
      InterleavingsAreSafe(Step(m, actions[0]), actions[1..]);
    } else {
      SafeIsExclusive(m);
    }
  }

  /** In particular in every interleaving from the start. */
  lemma StartedInterleavingsAreSafe(n: nat, actions: seq<Action>)
    requires Possible(Start(n), actions)
    ensures Safe(After(Start(n), actions)) && AtMostOneLocked(After(Start(n), actions))
  {
    hide Safe, Step, Enabled;
    StartIsSafe(n);
    InterleavingsAreSafe(Start(n), actions);
  }

  lemma SafeIsExclusive(m: Monitor)
    requires Safe(m)
    ensures AtMostOneLocked(m)
  {
  }

  /** Before exit a free lock with waiters always has one that can enter. */
  lemma SomeoneCanEnter(m: Monitor, i: nat, ticket: nat) returns (j: nat)
    requires Safe(m) && !m.exit && !SomeoneLocked(m) && Waits(m, i, ticket)
    ensures Enabled(m, Wake(j))
  {
    assert SomeoneWaits(m, m.serving);
    j :| Waits(m, j, m.serving);
  }

  /** How often the lock was released. */
  function Releases(m: Monitor, actions: seq<Action>): nat
    requires Possible(m, actions)
    decreases |actions|
  {
    if actions == [] then 0
    else
      var next := Step(m, actions[0]);
      (if next.serving == m.serving then 0 else 1) + Releases(next, actions[1..])
  }

  lemma {:induction false} ServingCountsReleases(m: Monitor, actions: seq<Action>)
    requires Possible(m, actions)
    ensures After(m, actions).serving == m.serving + Releases(m, actions)
    decreases |actions|
  {
    if actions != [] {
      ServingCountsReleases(Step(m, actions[0]), actions[1..]);
    }
  }

  lemma {:induction false} KeepsWaiting(m: Monitor, actions: seq<Action>, i: nat, ticket: nat)
    requires Possible(m, actions) && Waits(m, i, ticket) && Wake(i) !in actions
    ensures Waits(After(m, actions), i, ticket)
    decreases |actions|
  {
    if actions != [] {
      assert actions[0] != Wake(i);
      KeepsWaiting(Step(m, actions[0]), actions[1..], i, ticket);
    }
  }

  /** A waiter with ticket t enters after exactly t - serving releases. */
  lemma EntersInTurn(m: Monitor, actions: seq<Action>, i: nat, ticket: nat)
    requires Safe(m) && Possible(m, actions) && Waits(m, i, ticket) && Wake(i) !in actions
    requires !After(m, actions).exit && Enabled(After(m, actions), Wake(i))
    ensures Releases(m, actions) == ticket - m.serving
  {
    hide Safe, Step, Possible, After, Releases;
    KeepsWaiting(m, actions, i, ticket);
    ServingCountsReleases(m, actions);
  }

  /** Tickets are first come, first served. */
  lemma EarlierTicketFirst(m: Monitor, actions: seq<Action>, a: nat, b: nat, first: nat, second: nat)
    requires Safe(m) && Possible(m, actions) && Waits(m, a, first) && Waits(m, b, second) && first < second
    requires Wake(b) !in actions && !After(m, actions).exit && Enabled(After(m, actions), Wake(b))
    ensures Wake(a) in actions
  {
    hide Step, Possible, After;
    if Wake(a) !in actions {
      KeepsWaiting(m, actions, a, first);
      KeepsWaiting(m, actions, b, second);
      InterleavingsAreSafe(m, actions);
    }
  }
}
