/**
 The recursive mutex and the condition wait built on a plain lock. Every step is one read
 or write of a shared field, or one call of the underlying lock, by one thread; the steps of
 all threads interleave freely.
 */
module RecursiveMutex {
  import opened Bytes

  type Tid = nat

  datatype Result = Ok | NotPermitted | Failed

  /** Where a thread stands: outside any call, or before the named step of one. */
  datatype Pc =
    | Idle
    | LockTest        // Lock: read lockTid
    | UpRead          // Lock, held: read lockCount
    | UpWrite         // Lock, held: write lockCount
    | Acquire         // Lock: take the underlying lock
    | SetTid          // Lock: write lockTid
    | SetCount        // Lock: write lockCount
    | UnlockTest      // Unlock: read lockTid
    | DownRead        // Unlock: read lockCount
    | DownWrite       // Unlock: write lockCount
    | ClearTid        // Unlock: write lockTid
    | Release         // Unlock: release the underlying lock
    | WaitRead        // TimedWait: read lockCount
    | WaitZero        // TimedWait: write lockCount
    | WaitClear       // TimedWait: write lockTid
    | WaitEnter       // TimedWait: release the underlying lock and wait
    | Waiting         // TimedWait: woken or timed out, take the underlying lock again
    | RestoreCount    // TimedWait: write lockCount
    | RestoreTid      // TimedWait: write lockTid

  /**
   `local` is the value last read, `result` what the last call returned. `depth` is not in
   the program: it counts the thread's completed locks less its unlocks.
   */
  datatype Thread = Thread(pc: Pc, local: int, result: Result, depth: int)

  /** `lockTid` is None for zero, and `owner` is the holder of the underlying lock. */
  datatype State = State(lockTid: Option<Tid>, lockCount: int, owner: Option<Tid>, threads: seq<Thread>)

  /** What a thread does next: start a call, or go on; a call of the system may fail. */
  datatype Action = CallLock | CallUnlock | CallWait | Go | Fail

  /** As UTLMutex_Init leaves it, with no call under way. */
  predicate IsInitial(s: State) {
    && s.lockTid == None && s.lockCount == 0 && s.owner == None
    && forall t :: 0 <= t < |s.threads| ==> s.threads[t].pc == Idle && s.threads[t].depth == 0
  }

  /** The steps that can be taken. Only a thread that holds the mutex may wait, if clients are `careful`. */
  predicate Enabled(s: State, t: Tid, a: Action, careful: bool)
    requires t < |s.threads|
  {
    var me := s.threads[t];
    match a
    case CallLock => me.pc == Idle
    case CallUnlock => me.pc == Idle
    case CallWait => me.pc == Idle && (careful ==> me.depth > 0)
    case Go => me.pc != Idle && (me.pc == Acquire || me.pc == Waiting ==> s.owner == None)
    case Fail => me.pc == Acquire || me.pc == WaitEnter
  }

  function Put(s: State, t: Tid, me: Thread): State
    requires t < |s.threads|
  {
    s.(threads := s.threads[t := me])
  }

  /** The state after thread `t` took one step. */
  function Apply(s: State, t: Tid, a: Action): (r: State)
    requires t < |s.threads|
    ensures |r.threads| == |s.threads|
    ensures r.owner in {s.owner, None, Some(t)} && r.lockTid in {s.lockTid, None, Some(t)}
  {
    var me := s.threads[t];
    match a
    case CallLock => Put(s, t, me.(pc := LockTest))
    case CallUnlock => Put(s, t, me.(pc := UnlockTest))
    case CallWait => Put(s, t, me.(pc := WaitRead))
    case Fail =>
      if me.pc == Acquire then Put(s, t, me.(pc := Idle, result := Failed))
      else Put(s, t, me.(pc := RestoreCount, result := Failed))
    case Go => Advance(s, t, me)
  }

  function Advance(s: State, t: Tid, me: Thread): (r: State)
    requires t < |s.threads|
    ensures |r.threads| == |s.threads|
    ensures r.owner in {s.owner, None, Some(t)} && r.lockTid in {s.lockTid, None, Some(t)}
  {
    match me.pc
    case Idle => s
    case LockTest => Put(s, t, me.(pc := if s.lockTid == Some(t) then UpRead else Acquire))
    case UpRead => Put(s, t, me.(pc := UpWrite, local := s.lockCount))
    case UpWrite => Put(s, t, me.(pc := Idle, result := Ok, depth := me.depth + 1)).(lockCount := me.local + 1)
    case Acquire => Put(s, t, me.(pc := SetTid)).(owner := Some(t))
    case SetTid => Put(s, t, me.(pc := SetCount)).(lockTid := Some(t))
    case SetCount => Put(s, t, me.(pc := Idle, result := Ok, depth := me.depth + 1)).(lockCount := 1)
    case UnlockTest =>
      if s.lockTid != Some(t) then Put(s, t, me.(pc := Idle, result := NotPermitted))
      else Put(s, t, me.(pc := DownRead))
    case DownRead => Put(s, t, me.(pc := DownWrite, local := s.lockCount))
    case DownWrite =>
      var left := me.local - 1;
      var next := if left == 0 then ClearTid else Idle;
      Put(s, t, me.(pc := next, result := Ok, depth := me.depth - 1)).(lockCount := left)
    case ClearTid => Put(s, t, me.(pc := Release)).(lockTid := None)
    case Release => Put(s, t, me.(pc := Idle)).(owner := None)
    case WaitRead => Put(s, t, me.(pc := WaitZero, local := s.lockCount))
    case WaitZero => Put(s, t, me.(pc := WaitClear)).(lockCount := 0)
    case WaitClear => Put(s, t, me.(pc := WaitEnter)).(lockTid := None)
    case WaitEnter => Put(s, t, me.(pc := Waiting, result := Ok)).(owner := None)
    case Waiting => Put(s, t, me.(pc := RestoreCount)).(owner := Some(t))
    case RestoreCount => Put(s, t, me.(pc := RestoreTid)).(lockCount := me.local)
    case RestoreTid => Put(s, t, me.(pc := Idle)).(lockTid := Some(t))
  }

  datatype Event = Event(thread: Tid, action: Action)

  /** The state after a run of events, if every one of them was possible. */
  function Run(s: State, events: seq<Event>, careful: bool): Option<State>
    decreases |events|
  {
    if events == [] then Some(s)
    else
      var e := events[0];
      if e.thread < |s.threads| && Enabled(s, e.thread, e.action, careful)
      then Run(Apply(s, e.thread, e.action), events[1..], careful)
      else None
  }

  // ---------- the invariant ----------

  /** The thread holds the underlying lock. */
  predicate Owns(me: Thread) {
    match me.pc
    case Idle => me.depth > 0
    case LockTest => me.depth > 0
    case UnlockTest => me.depth > 0
    case Acquire => false
    case Waiting => false
    case _ => true
  }

  /** lockTid names the thread. */
  predicate Named(me: Thread) {
    Owns(me) && me.pc != SetTid && me.pc != Release && me.pc != WaitEnter && me.pc != RestoreCount && me.pc != RestoreTid
  }

  /** What holds of an owner's depth, its local copy and the shared count. */
  predicate Counted(me: Thread, lockCount: int) {
    match me.pc
    case SetTid => lockCount == me.depth == 0
    case SetCount => lockCount == me.depth == 0
    case ClearTid => lockCount == me.depth == 0
    case Release => lockCount == me.depth == 0
    case UpWrite => lockCount == me.depth == me.local && me.depth > 0
    case DownWrite => lockCount == me.depth == me.local && me.depth > 0
    case WaitZero => lockCount == me.depth == me.local && me.depth > 0
    case WaitClear => lockCount == 0 && me.depth == me.local && me.depth > 0
    case WaitEnter => lockCount == 0 && me.depth == me.local && me.depth > 0
    case RestoreCount => lockCount == 0 && me.depth == me.local && me.depth > 0
    case RestoreTid => lockCount == me.depth && me.depth > 0
    case _ => lockCount == me.depth && me.depth > 0
  }

  predicate ThreadInv(s: State, t: Tid)
    requires t < |s.threads|
  {
    var me := s.threads[t];
    && (s.owner == Some(t) <==> Owns(me))
    && (s.lockTid == Some(t) <==> Named(me))
    && (Owns(me) ==> Counted(me, s.lockCount))
    && (s.owner == None ==> s.lockCount == 0)
    && (!Owns(me) ==> if me.pc == Waiting then me.depth == me.local > 0 else me.depth == 0)
  }

  predicate Inv(s: State) {
    && (forall t :: 0 <= t < |s.threads| ==> ThreadInv(s, t))
    && (s.owner == None ==> s.lockCount == 0)
    && (s.owner.Some? ==> s.owner.value < |s.threads|)
    && (s.lockTid.Some? ==> s.lockTid.value < |s.threads|)
  }

  lemma InitialInv(s: State)
    requires IsInitial(s)
    ensures Inv(s)
  {
  }

  /** The steps of Lock, of Unlock and of TimedWait. */
  predicate InLock(pc: Pc) {
    pc in {LockTest, UpRead, UpWrite, Acquire, SetTid, SetCount}
  }

  predicate InUnlock(pc: Pc) {
    pc in {UnlockTest, DownRead, DownWrite, ClearTid, Release}
  }

  predicate InWait(pc: Pc) {
    pc in {WaitRead, WaitZero, WaitClear, WaitEnter, Waiting, RestoreCount, RestoreTid}
  }

  /** The thread that steps keeps its part of the invariant. */
  lemma StepKeepsOwn(s: State, t: Tid, a: Action)
    requires Inv(s) && t < |s.threads| && Enabled(s, t, a, true)
    ensures ThreadInv(Apply(s, t, a), t)
  {
    hide Apply, ThreadInv, Inv;
    assert ThreadInv(s, t) by { ThreadAt(s, t); }
    if a == Go {
      var pc := s.threads[t].pc;
      assert InLock(pc) || InUnlock(pc) || InWait(pc);
      if InLock(pc) {
        LockKeeps(s, t);
      } else if InUnlock(pc) {
        UnlockKeeps(s, t);
      } else {
        WaitKeeps(s, t);
      }
    } else {
      CallKeeps(s, t, a);
    }
  }

  lemma ThreadAt(s: State, t: Tid)
    requires Inv(s) && t < |s.threads|
    ensures ThreadInv(s, t)
  {
  }

  lemma CallKeeps(s: State, t: Tid, a: Action)
    requires t < |s.threads| && ThreadInv(s, t) && Enabled(s, t, a, true) && a != Go
    ensures ThreadInv(Apply(s, t, a), t)
  {
  }

  lemma LockKeeps(s: State, t: Tid)
    requires t < |s.threads| && ThreadInv(s, t) && Enabled(s, t, Go, true) && InLock(s.threads[t].pc)
    ensures ThreadInv(Apply(s, t, Go), t)
  {
  }

  lemma UnlockKeeps(s: State, t: Tid)
    requires t < |s.threads| && ThreadInv(s, t) && Enabled(s, t, Go, true) && InUnlock(s.threads[t].pc)
    ensures ThreadInv(Apply(s, t, Go), t)
  {
  }

  lemma WaitKeeps(s: State, t: Tid)
    requires t < |s.threads| && ThreadInv(s, t) && Enabled(s, t, Go, true) && InWait(s.threads[t].pc)
    ensures ThreadInv(Apply(s, t, Go), t)
  {
    hide Apply, ThreadInv;
    if s.threads[t].pc in {WaitRead, WaitZero, WaitClear} {
      BeforeWaitKeeps(s, t);
    } else {
      AroundWaitKeeps(s, t);
    }
  }

  lemma BeforeWaitKeeps(s: State, t: Tid)
    requires t < |s.threads| && ThreadInv(s, t) && s.threads[t].pc in {WaitRead, WaitZero, WaitClear}
    ensures ThreadInv(Apply(s, t, Go), t)
  {
  }

  lemma AroundWaitKeeps(s: State, t: Tid)
    requires t < |s.threads| && ThreadInv(s, t) && Enabled(s, t, Go, true)
    requires s.threads[t].pc in {WaitEnter, Waiting, RestoreCount, RestoreTid}
    ensures ThreadInv(Apply(s, t, Go), t)
  {
  }

  /** Another thread's part of the invariant is not disturbed. */
  lemma StepKeepsOther(s: State, t: Tid, a: Action, u: Tid)
    requires Inv(s) && t < |s.threads| && Enabled(s, t, a, true) && u < |s.threads| && u != t
    ensures ThreadInv(Apply(s, t, a), u)
  {
    assert ThreadInv(s, t) && ThreadInv(s, u);
  }

  lemma StepKeepsRange(s: State, t: Tid, a: Action)
    requires Inv(s) && t < |s.threads|
    ensures var r := Apply(s, t, a);
            && |r.threads| == |s.threads|
            && (r.owner.Some? ==> r.owner.value < |s.threads|)
            && (r.lockTid.Some? ==> r.lockTid.value < |s.threads|)
  {
    hide Apply;
  }

  lemma FreeCount(s: State, t: Tid)
    requires t < |s.threads| && ThreadInv(s, t)
    ensures s.owner == None ==> s.lockCount == 0
  {
  }

  lemma StepInv(s: State, t: Tid, a: Action)
    requires Inv(s) && t < |s.threads| && Enabled(s, t, a, true)
    ensures Inv(Apply(s, t, a)) && |Apply(s, t, a).threads| == |s.threads|
  {
    hide ThreadInv, Enabled, Apply;
    StepKeepsRange(s, t, a);
    forall u | 0 <= u < |s.threads| ensures ThreadInv(Apply(s, t, a), u) {
      if u == t { StepKeepsOwn(s, t, a); } else { StepKeepsOther(s, t, a, u); }
    }
    assert ThreadInv(Apply(s, t, a), t);
    FreeCount(Apply(s, t, a), t);
  }

  lemma {:induction false} RunInv(s: State, events: seq<Event>)
    requires Inv(s) && Run(s, events, true).Some?
    ensures Inv(Run(s, events, true).value)
    decreases |events|
  {
    hide Inv, Apply, Enabled;
    if events != [] {
      var e := events[0];
      StepInv(s, e.thread, e.action);
      RunInv(Apply(s, e.thread, e.action), events[1..]);
    }
  }

  // ---------- what clients rely on ----------

  /** The thread is between a completed lock and the matching unlock, and not waiting. */
  predicate Inside(me: Thread) {
    me.depth > 0 && me.pc != Waiting
  }

  /** UTLMutex_LockedSelf, asked by thread `t`. */
  predicate LockedSelf(s: State, t: Tid) {
    s.lockTid == Some(t)
  }

  /** What clients rely on, for all threads. */
  predicate Correct(s: State) {
    forall t, u :: 0 <= t < |s.threads| && 0 <= u < |s.threads| ==> CorrectFor(s, t, u)
  }

  predicate CorrectFor(s: State, t: Tid, u: Tid)
    requires t < |s.threads| && u < |s.threads|
  {
    && (Inside(s.threads[t]) && Inside(s.threads[u]) ==> t == u)
    && (s.threads[t].pc == Idle ==> (LockedSelf(s, t) <==> s.threads[t].depth > 0))
    && (s.threads[t].pc == Idle && LockedSelf(s, t) ==> s.lockCount == s.threads[t].depth)
    && (LockedSelf(s, t) ==> s.owner == Some(t))
    && s.threads[t].depth >= 0
  }

  lemma InvIsCorrect(s: State)
    requires Inv(s)
    ensures Correct(s)
  {
    forall t, u | 0 <= t < |s.threads| && 0 <= u < |s.threads| ensures CorrectFor(s, t, u) {
      assert ThreadInv(s, t) && ThreadInv(s, u);
    }
  }

  /**
   In every interleaving: no two threads are inside; a thread that is not in the middle of a
   call sees LockedSelf exactly when it holds the mutex, and the count is then its depth.
   */
  lemma {:induction false} MutexIsCorrect(s: State, events: seq<Event>, t: Tid, u: Tid)
    requires IsInitial(s) && Run(s, events, true).Some?
    requires t < |Run(s, events, true).value.threads| && u < |Run(s, events, true).value.threads|
    ensures CorrectFor(Run(s, events, true).value, t, u)
  {
    hide Run, Inv;
    InitialInv(s);
    RunInv(s, events);
    InvIsCorrect(Run(s, events, true).value);
  }

  /** When no call is under way and no thread holds the mutex, it is as it was at first. */
  lemma {:induction false} FreeWhenUnheld(s: State, events: seq<Event>)
    requires IsInitial(s) && Run(s, events, true).Some?
    requires var r := Run(s, events, true).value;
             forall t :: 0 <= t < |r.threads| ==> r.threads[t].pc == Idle && !LockedSelf(r, t)
    ensures var r := Run(s, events, true).value; r.owner == None && r.lockTid == None && r.lockCount == 0
  {
    InitialInv(s);
    RunInv(s, events);
    var r := Run(s, events, true).value;
    forall t | 0 <= t < |r.threads| ensures r.owner != Some(t) && r.lockTid != Some(t) {
      assert ThreadInv(r, t) && !LockedSelf(r, t);
    }
  }

  /** A thread never waits for the underlying lock while it holds it itself. */
  lemma {:induction false} NoSelfDeadlock(s: State, events: seq<Event>, t: Tid)
    requires IsInitial(s) && Run(s, events, true).Some? && t < |Run(s, events, true).value.threads|
    ensures var r := Run(s, events, true).value;
            r.threads[t].pc == Acquire || r.threads[t].pc == Waiting ==> r.owner != Some(t)
  {
    InitialInv(s);
    RunInv(s, events);
    assert ThreadInv(Run(s, events, true).value, t);
  }

  /**
   A thread that cannot go on waits for a lock that another thread owns, and that thread is
   either outside any call and holds the mutex, or can go on itself.
   */
  lemma {:induction false} Progress(s: State, events: seq<Event>, t: Tid)
    requires IsInitial(s) && Run(s, events, true).Some? && t < |Run(s, events, true).value.threads|
    requires var r := Run(s, events, true).value; r.threads[t].pc != Idle && !Enabled(r, t, Go, true)
    ensures var r := Run(s, events, true).value;
            && (r.threads[t].pc == Acquire || r.threads[t].pc == Waiting)
            && r.owner.Some? && r.owner.value != t && r.owner.value < |r.threads|
            && var u := r.owner.value;
               || (r.threads[u].pc == Idle && LockedSelf(r, u) && r.threads[u].depth > 0)
               || Enabled(r, u, Go, true)
  {
    hide Run;
    InitialInv(s);
    RunInv(s, events);
    var r := Run(s, events, true).value;
    assert ThreadInv(r, t);
    if r.owner.Some? {
      assert ThreadInv(r, r.owner.value);
    }
  }

  /** How many own steps a call has left at most. */
  function StepsLeft(pc: Pc): nat {
    match pc
    case Idle => 0
    case SetCount => 1 case SetTid => 2 case Acquire => 3 case UpWrite => 1 case UpRead => 2 case LockTest => 4
    case Release => 1 case ClearTid => 2 case DownWrite => 3 case DownRead => 4 case UnlockTest => 5
    case RestoreTid => 1 case RestoreCount => 2 case Waiting => 3 case WaitEnter => 4 case WaitClear => 5
    case WaitZero => 6 case WaitRead => 7
  }

  /**
   No call goes round in circles: every step of a thread brings its call nearer to its end, and
   no step of another thread sets it back.
   */
  lemma CallsEnd(s: State, t: Tid, a: Action, u: Tid)
    requires t < |s.threads| && u < |s.threads| && s.threads[t].pc != Idle && Enabled(s, t, a, false)
    ensures var r := Apply(s, t, a);
            if u == t then StepsLeft(r.threads[t].pc) < StepsLeft(s.threads[t].pc)
            else r.threads[u] == s.threads[u]
  {
  }

  /** An unlock is refused exactly when the thread holds nothing. */
  lemma {:induction false} UnlockPermission(s: State, events: seq<Event>, t: Tid)
    requires IsInitial(s) && Run(s, events, true).Some? && t < |Run(s, events, true).value.threads|
    requires Run(s, events, true).value.threads[t].pc == UnlockTest
    ensures var r := Run(s, events, true).value;
            var after := Apply(r, t, Go).threads[t];
            (after.pc == Idle && after.result == NotPermitted) <==> r.threads[t].depth == 0
  {
    InitialInv(s);
    RunInv(s, events);
    assert ThreadInv(Run(s, events, true).value, t);
  }

  // ---------- what a call returns ----------

  datatype Call = Lock | Unlock | Wait

  function Start(call: Call): Action {
    match call
    case Lock => CallLock
    case Unlock => CallUnlock
    case Wait => CallWait
  }

  /** Thread `t` is in the middle of a call from here on, until the run ends with the call over. */
  predicate RunsToReturn(s: State, events: seq<Event>, t: Tid)
    requires t < |s.threads|
    decreases |events|
  {
    if s.threads[t].pc == Idle then events == []
    else events != [] && events[0].thread < |s.threads| && RunsToReturn(Apply(s, events[0].thread, events[0].action), events[1..], t)
  }

  /** Some system call of the thread failed. */
  predicate SystemFailed(events: seq<Event>, t: Tid) {
    Event(t, Fail) in events
  }

  /** What a call promises: `before` is the thread's depth at the call, `failed` whether the system failed it. */
  predicate Promised(call: Call, before: int, failed: bool, me: Thread) {
    match call
    case Lock =>
      me.result == (if failed then Failed else Ok) && me.depth == (if failed then before else before + 1)
    case Unlock =>
      me.result == (if before > 0 then Ok else NotPermitted) && me.depth == (if before > 0 then before - 1 else 0)
    case Wait =>
      me.result == (if failed then Failed else Ok) && me.depth == before
  }

  /** What is known of the thread in the middle of the call. */
  predicate Midway(call: Call, before: int, failed: bool, me: Thread) {
    match call
    case Lock => InLock(me.pc) && me.depth == before && !failed
    case Unlock =>
      && InUnlock(me.pc)
      && if me.pc == ClearTid || me.pc == Release then Promised(Unlock, before, failed, me)
         else me.depth == before && (me.pc == UnlockTest || before > 0)
    case Wait =>
      && InWait(me.pc) && me.depth == before
      && if me.pc == Waiting || me.pc == RestoreCount || me.pc == RestoreTid then Promised(Wait, before, failed, me)
         else !failed
  }

  lemma CallBegins(s: State, t: Tid, call: Call)
    requires t < |s.threads| && s.threads[t].pc == Idle
    ensures var r := Apply(s, t, Start(call)); Midway(call, s.threads[t].depth, false, r.threads[t])
  {
  }

  lemma StepMidway(s: State, t: Tid, a: Action, call: Call, before: int, failed: bool)
    requires Inv(s) && t < |s.threads| && Enabled(s, t, a, true) && Midway(call, before, failed, s.threads[t])
    ensures var me, failed' := Apply(s, t, a).threads[t], failed || a == Fail;
            if me.pc == Idle then Promised(call, before, failed', me) else Midway(call, before, failed', me)
  {
    hide Inv;
    ThreadAt(s, t);
  }

  lemma OthersStep(s: State, e: Event, t: Tid)
    requires t < |s.threads| && e.thread < |s.threads| && e.thread != t
    ensures Apply(s, e.thread, e.action).threads[t] == s.threads[t]
  {
  }

  lemma {:induction false} RestOfCall(s: State, events: seq<Event>, t: Tid, call: Call, before: int, failed: bool)
    requires Inv(s) && t < |s.threads| && s.threads[t].pc != Idle && Midway(call, before, failed, s.threads[t])
    requires RunsToReturn(s, events, t) && Run(s, events, true).Some?
    ensures t < |Run(s, events, true).value.threads|
    ensures Promised(call, before, failed || SystemFailed(events, t), Run(s, events, true).value.threads[t])
    decreases |events|
  {
    hide Inv, Apply, Enabled, Midway, Promised;
    var e := events[0];
    var next := Apply(s, e.thread, e.action);
    StepInv(s, e.thread, e.action);
    SplitFailure(events, t);
    if e.thread == t {
      StepMidway(s, t, e.action, call, before, failed);
    } else {
      OthersStep(s, e, t);
    }
    var failed' := failed || e == Event(t, Fail);
    if next.threads[t].pc == Idle {
      assert events[1..] == [];
      NoFailure(t);
    } else {
      RestOfCall(next, events[1..], t, call, before, failed');
    }
  }

  lemma SplitFailure(events: seq<Event>, t: Tid)
    requires events != []
    ensures SystemFailed(events, t) <==> events[0] == Event(t, Fail) || SystemFailed(events[1..], t)
  {
    assert events == [events[0]] + events[1..];
  }

  lemma NoFailure(t: Tid)
    ensures !SystemFailed([], t)
  {
  }

  /**
   In every interleaving, whatever other threads do in between: a Lock returns Ok with the depth
   one more than at its call, or Failed with the depth unchanged when the system call failed; an
   Unlock returns Ok with the depth one less when the thread held the mutex, else NotPermitted;
   a TimedWait returns with the depth unchanged, and Failed exactly when the system call failed.
   */
  lemma {:induction false} CallReturns(s: State, events: seq<Event>, t: Tid, call: Call, rest: seq<Event>)
    requires IsInitial(s) && Run(s, events, true).Some?
    requires var r := Run(s, events, true).value; t < |r.threads| && r.threads[t].pc == Idle
    requires var r := Run(s, events, true).value;
             && Enabled(r, t, Start(call), true)
             && RunsToReturn(Apply(r, t, Start(call)), rest, t) && Run(Apply(r, t, Start(call)), rest, true).Some?
    ensures var r := Run(s, events, true).value;
            var after := Run(Apply(r, t, Start(call)), rest, true).value;
            t < |after.threads| && Promised(call, r.threads[t].depth, SystemFailed(rest, t), after.threads[t])
  {
    hide Run, Inv, Promised, RunsToReturn, Apply, Enabled;
    InitialInv(s);
    RunInv(s, events);
    var r := Run(s, events, true).value;
    StepInv(r, t, Start(call));
    CallBegins(r, t, call);
    MidwayIsBusy(call, r.threads[t].depth, false, Apply(r, t, Start(call)).threads[t]);
    RestOfCall(Apply(r, t, Start(call)), rest, t, call, r.threads[t].depth, false);
  }

  lemma MidwayIsBusy(call: Call, before: int, failed: bool, me: Thread)
    requires Midway(call, before, failed, me)
    ensures me.pc != Idle
  {
  }

  // ---------- who may wait ----------

  /** The state after thread `t` called TimedWait and took the three steps before it waits. */
  function AboutToWait(s: State, t: Tid): (r: State)
    requires t < |s.threads|
    ensures |r.threads| == |s.threads|
  {
    Apply(Apply(Apply(Apply(s, t, CallWait), t, Go), t, Go), t, Go)
  }

  /** The state after it waited, was woken at once and returned. */
  function AfterWait(s: State, t: Tid): (r: State)
    requires t < |s.threads|
    ensures |r.threads| == |s.threads|
  {
    Apply(Apply(Apply(Apply(AboutToWait(s, t), t, Go), t, Go), t, Go), t, Go)
  }

  /** The steps of that wait after the call. */
  function WaitSteps(t: Tid): seq<Event> {
    var go := Event(t, Go);
    [go, go, go, go, go, go, go]
  }

  /** Nothing stops a wait by itself, whoever calls it. */
  lemma {:induction false} WaitRuns(s: State, t: Tid)
    requires t < |s.threads| && s.threads[t].pc == Idle
    ensures Run(Apply(s, t, CallWait), WaitSteps(t), true) == Some(AfterWait(s, t))
    ensures AfterWait(s, t).threads[t].pc == Idle && LockedSelf(AfterWait(s, t), t)
    ensures AfterWait(s, t).threads[t].depth == s.threads[t].depth
  {
    hide Run;
    var s0 := Apply(s, t, CallWait);
    var s1 := Apply(s0, t, Go);
    var s2 := Apply(s1, t, Go);
    var s3 := Apply(s2, t, Go);
    var go := Event(t, Go);
    RunStep(s0, go, [go, go, go, go, go, go]);
    assert WaitSteps(t) == [go] + [go, go, go, go, go, go];
    RunStep(s1, go, [go, go, go, go, go]);
    assert [go, go, go, go, go, go] == [go] + [go, go, go, go, go];
    RunStep(s2, go, [go, go, go, go]);
    assert [go, go, go, go, go] == [go] + [go, go, go, go];
    assert s3 == AboutToWait(s, t) && s3.threads[t].pc == WaitEnter;
    WaitEnds(s3, t);
  }

  lemma {:induction false} WaitEnds(s3: State, t: Tid)
    requires t < |s3.threads| && s3.threads[t].pc == WaitEnter
    ensures var go := Event(t, Go);
            var w := Apply(Apply(Apply(Apply(s3, t, Go), t, Go), t, Go), t, Go);
            && Run(s3, [go, go, go, go], true) == Some(w)
            && w.threads[t].pc == Idle && LockedSelf(w, t) && w.threads[t].depth == s3.threads[t].depth
  {
    hide Run;
    var s4 := Apply(s3, t, Go);
    var s5 := Apply(s4, t, Go);
    var s6 := Apply(s5, t, Go);
    var go := Event(t, Go);
    RunStep(s3, go, [go, go, go]);
    assert [go, go, go, go] == [go] + [go, go, go];
    RunStep(s4, go, [go, go]);
    assert [go, go, go] == [go] + [go, go];
    RunStep(s5, go, [go]);
    assert [go, go] == [go] + [go];
    RunStep(s6, go, []);
    assert [go] == [go] + [];
    RunNothing(Apply(s6, t, Go));
  }

  lemma {:induction false} RunStep(s: State, e: Event, rest: seq<Event>)
    requires e.thread < |s.threads| && Enabled(s, e.thread, e.action, true)
    ensures Run(s, [e] + rest, true) == Run(Apply(s, e.thread, e.action), rest, true)
  {
    assert ([e] + rest)[1..] == rest;
  }

  lemma RunNothing(s: State)
    ensures Run(s, [], true) == Some(s)
  {
  }

  /** Whatever clients who keep the rule do from here on, the mutex stays correct. */
  ghost predicate Safe(s: State) {
    forall rest :: Run(s, rest, true).Some? ==> Correct(Run(s, rest, true).value)
  }

  lemma {:induction false} InvIsSafe(s: State)
    requires Inv(s)
    ensures Safe(s)
  {
    hide Run, Inv, Correct;
    forall rest | Run(s, rest, true).Some? ensures Correct(Run(s, rest, true).value) {
      RunInv(s, rest);
      InvIsCorrect(Run(s, rest, true).value);
    }
  }

  /**
   Who may wait, in every reachable state: after a thread's call to wait the mutex stays correct,
   whatever follows, if and only if the thread holds it, which LockedSelf tells the thread. A
   single wait, alone, already shows the difference.
   */
  lemma {:induction false} WhoMayWait(s: State, events: seq<Event>, t: Tid)
    requires IsInitial(s) && Run(s, events, true).Some?
    requires var r := Run(s, events, true).value; t < |r.threads| && r.threads[t].pc == Idle
    ensures var r := Run(s, events, true).value; Safe(Apply(r, t, CallWait)) <==> LockedSelf(r, t)
    ensures var r := Run(s, events, true).value;
            var w := AfterWait(r, t);
            (LockedSelf(w, t) <==> w.threads[t].depth > 0) <==> LockedSelf(r, t)
  {
    hide Run, Inv, Safe, Apply;
    InitialInv(s);
    RunInv(s, events);
    WaitIsSafe(Run(s, events, true).value, t);
  }

  lemma {:induction false} WaitIsSafe(r: State, t: Tid)
    requires Inv(r) && t < |r.threads| && r.threads[t].pc == Idle
    ensures Safe(Apply(r, t, CallWait)) <==> LockedSelf(r, t)
    ensures var w := AfterWait(r, t); (LockedSelf(w, t) <==> w.threads[t].depth > 0) <==> LockedSelf(r, t)
    ensures LockedSelf(r, t) <==> r.threads[t].depth > 0
  {
    hide Run, Inv, Apply, Correct;
    InvIsCorrect(r);
    assert CorrectFor(r, t, t) by { CorrectAt(r, t); }
    WaitRuns(r, t);
    if LockedSelf(r, t) {
      StepInv(r, t, CallWait);
      InvIsSafe(Apply(r, t, CallWait));
    } else if Safe(Apply(r, t, CallWait)) {
      var w := AfterWait(r, t);
      assert Correct(Run(Apply(r, t, CallWait), WaitSteps(t), true).value);
      CorrectAt(w, t);
    }
  }

  lemma CorrectAt(s: State, t: Tid)
    requires Correct(s) && t < |s.threads|
    ensures CorrectFor(s, t, t)
  {
  }

  /** Safe at every point of a run in which clients need not keep the rule. */
  ghost predicate SafeAlong(s: State, events: seq<Event>)
    decreases |events|
  {
    Safe(s) && (events != [] ==>
      events[0].thread < |s.threads| && SafeAlong(Apply(s, events[0].thread, events[0].action), events[1..]))
  }

  lemma AlongIsSafe(s: State, events: seq<Event>)
    ensures SafeAlong(s, events) ==> Safe(s)
  {
  }

  /** Over every run whatever: the mutex is safe throughout if and only if only holders wait. */
  lemma {:induction false} SafeExactlyIfHoldersWait(s: State, events: seq<Event>)
    requires Inv(s) && Run(s, events, false).Some?
    ensures SafeAlong(s, events) <==> Run(s, events, true).Some?
    decreases |events|
  {
    hide Apply, Inv, Safe, Correct;
    InvIsSafe(s);
    if events != [] {
      var e := events[0];
      if Enabled(s, e.thread, e.action, true) {
        StepInv(s, e.thread, e.action);
        SafeExactlyIfHoldersWait(Apply(s, e.thread, e.action), events[1..]);
      } else {
        assert e.action == CallWait && s.threads[e.thread].pc == Idle && !(s.threads[e.thread].depth > 0);
        WaitIsSafe(s, e.thread);
        AlongIsSafe(Apply(s, e.thread, e.action), events[1..]);
      }
    }
  }

  lemma {:induction false} SafeFromTheStart(s: State, events: seq<Event>)
    requires IsInitial(s) && Run(s, events, false).Some?
    ensures SafeAlong(s, events) <==> Run(s, events, true).Some?
  {
    hide Run, SafeAlong;
    InitialInv(s);
    SafeExactlyIfHoldersWait(s, events);
  }

  /**
   What goes wrong when another thread holds the mutex, in every reachable state: the wait of a
   thread that does not hold it takes LockedSelf from the one that does, without touching it.
   */
  lemma {:induction false} WaitingWithoutTheMutex(s: State, events: seq<Event>, t: Tid, u: Tid)
    requires IsInitial(s) && Run(s, events, true).Some?
    requires var r := Run(s, events, true).value;
             && t < |r.threads| && u < |r.threads| && t != u
             && r.threads[t].pc == Idle && r.threads[t].depth == 0
             && r.threads[u].pc == Idle && r.threads[u].depth > 0
    ensures var r := Run(s, events, true).value;
            var after := AboutToWait(r, t);
            && LockedSelf(r, u) && after.threads[u] == r.threads[u] && after.owner == r.owner && !LockedSelf(after, u)
  {
    hide Run;
    InitialInv(s);
    RunInv(s, events);
    assert ThreadInv(Run(s, events, true).value, u);
  }
}
