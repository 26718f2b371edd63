/**
 * st_semaphore: a counting semaphore over a mutex and a condition variable, as the
 * interleaving of its threads' steps. A signal wakes one sleeper or more, sleepers
 * may wake spuriously, and newcomers may take the mutex before woken threads do.
 */
module Semaphore {
  import opened Util

  /** Where a thread stands. `woken` marks a waiter that has been through the condition variable. */
  datatype Pc =
    | Idle
    | WaitLock                   // pthread_mutex_lock in st_sem_wait
    | WaitTest(woken: bool)      // while (sem->value <= 0)
    | WaitBlock                  // pthread_cond_wait, before releasing the mutex
    | Sleeping                   // pthread_cond_wait, blocked
    | Woken                      // pthread_cond_wait, reacquiring the mutex
    | WaitDec(woken: bool)       // sem->value--
    | WaitUnlock
    | PostLock                   // pthread_mutex_lock in st_sem_post
    | PostInc                    // sem->value++
    | PostSignal                 // pthread_cond_signal
    | PostUnlock

  datatype State = State(value: int, owner: Option<nat>, pcs: seq<Pc>)

  datatype Action =
    | CallWait(t: nat)
    | CallPost(t: nat)
    | Run(t: nat)                          // the thread's next step
    | Signal(t: nat, wake: set<nat>)       // its next step, when that is the signal
    | Spurious(t: nat)

  predicate InCritical(pc: Pc) {
    pc.WaitTest? || pc.WaitBlock? || pc.WaitDec? || pc.WaitUnlock? || pc.PostInc? || pc.PostSignal? || pc.PostUnlock?
  }

  /** Waiting for the mutex. */
  predicate AtLock(pc: Pc) {
    pc.WaitLock? || pc.Woken? || pc.PostLock?
  }

  ghost predicate Sleeps(s: State, t: nat) {
    t < |s.pcs| && s.pcs[t].Sleeping?
  }

  ghost predicate Enabled(s: State, a: Action) {
    a.t < |s.pcs| &&
    var pc := s.pcs[a.t];
    match a
    case CallWait(_) => pc.Idle?
    case CallPost(_) => pc.Idle?
    case Run(_) => (AtLock(pc) && s.owner == None) || (InCritical(pc) && !pc.PostSignal?)
    case Signal(_, wake) =>
      && pc.PostSignal?
      && (forall u :: u in wake ==> Sleeps(s, u))
      && ((exists u :: Sleeps(s, u)) ==> wake != {})
    case Spurious(_) => pc.Sleeping?
  }

  function Moved(s: State, t: nat, pc: Pc): State
    requires t < |s.pcs|
  {
    s.(pcs := s.pcs[t := pc])
  }

  function WakeAll(pcs: seq<Pc>, wake: set<nat>): (r: seq<Pc>)
    ensures |r| == |pcs|
  {
    seq(|pcs|, i requires 0 <= i < |pcs| => if i in wake then Woken else pcs[i])
  }

  ghost function Next(s: State, a: Action): State
    requires Enabled(s, a)
  {
    var t := a.t;
    match a
    case CallWait(_) => Moved(s, t, WaitLock)
    case CallPost(_) => Moved(s, t, PostLock)
    case Spurious(_) => Moved(s, t, Woken)
    case Signal(_, wake) => s.(pcs := WakeAll(s.pcs, wake)[t := PostUnlock])
    case Run(_) =>
      match s.pcs[t]
      case WaitLock => Moved(s, t, WaitTest(false)).(owner := Some(t))
      case Woken => Moved(s, t, WaitTest(true)).(owner := Some(t))
      case PostLock => Moved(s, t, PostInc).(owner := Some(t))
      case WaitTest(w) => Moved(s, t, if s.value <= 0 then WaitBlock else WaitDec(w))
      case WaitBlock => Moved(s, t, Sleeping).(owner := None)
      case WaitDec(_) => Moved(s, t, WaitUnlock).(value := s.value - 1)
      case WaitUnlock => Moved(s, t, Idle).(owner := None)
      case PostInc => Moved(s, t, PostSignal).(value := s.value + 1)
      case PostUnlock => Moved(s, t, Idle).(owner := None)
      case _ => s
  }

  function Start(init: int, threads: nat): State {
    State(init, None, seq(threads, _ => Idle))
  }

  // ---- Counting threads ----

  /** A woken thread that has not rechecked the value and acted on it. */
  predicate Pending(pc: Pc) {
    pc.Woken? || (pc.WaitTest? && pc.woken) || (pc.WaitDec? && pc.woken)
  }

  function CountPending(pcs: seq<Pc>): nat {
    if pcs == [] then 0 else CountPending(pcs[1..]) + if Pending(pcs[0]) then 1 else 0
  }

  lemma {:induction false} CountUpdate(pcs: seq<Pc>, t: nat, pc: Pc)
    requires t < |pcs|
    ensures CountPending(pcs[t := pc]) ==
            CountPending(pcs) - (if Pending(pcs[t]) then 1 else 0) + (if Pending(pc) then 1 else 0)
  {
    if t == 0 {
      assert pcs[t := pc][1..] == pcs[1..];
    } else {
      assert pcs[t := pc][1..] == pcs[1..][t - 1 := pc];
      CountUpdate(pcs[1..], t - 1, pc);
    }
  }

  /** Waking sleepers adds them to the pending ones. */
  lemma {:induction false} CountWake(pcs: seq<Pc>, r: seq<Pc>)
    requires |r| == |pcs| && forall i :: 0 <= i < |pcs| ==> r[i] == pcs[i] || (pcs[i].Sleeping? && r[i].Woken?)
    ensures CountPending(r) >= CountPending(pcs)
    ensures (exists i :: 0 <= i < |pcs| && r[i] != pcs[i]) ==> CountPending(r) > CountPending(pcs)
  {
    if pcs != [] {
      CountWake(pcs[1..], r[1..]);
      if i :| 0 <= i < |pcs| && r[i] != pcs[i] {
        if i > 0 {
          assert r[1..][i - 1] != pcs[1..][i - 1];
        }
      }
    }
  }

  // ---- The invariant ----

  ghost predicate MutexOk(s: State) {
    && (s.owner.Some? ==> s.owner.value < |s.pcs|)
    && forall t :: 0 <= t < |s.pcs| ==> (InCritical(s.pcs[t]) <==> s.owner == Some(t))
  }

  ghost predicate TestsHold(s: State) {
    forall t :: 0 <= t < |s.pcs| ==>
      && (s.pcs[t].WaitDec? ==> s.value > 0)
      && (s.pcs[t].WaitBlock? ==> s.value <= 0)
  }

  ghost predicate Signalling(s: State) {
    exists t :: 0 <= t < |s.pcs| && s.pcs[t].PostSignal?
  }

  ghost predicate SomeoneSleeps(s: State) {
    exists t :: Sleeps(s, t)
  }

  /** No lost wake-up, mid-post included. */
  ghost predicate NoLostWakeup(s: State) {
    SomeoneSleeps(s) ==> s.value <= CountPending(s.pcs) + if Signalling(s) then 1 else 0
  }

  ghost predicate Inv(s: State, init: int) {
    && MutexOk(s)
    && TestsHold(s)
    && NoLostWakeup(s)
    && (init >= 0 ==> s.value >= 0)
  }

  lemma StartInv(init: int, threads: nat)
    ensures Inv(Start(init, threads), init)
  {
  }

  lemma NextMutex(s: State, a: Action)
    requires MutexOk(s) && Enabled(s, a)
    ensures MutexOk(Next(s, a))
  {
  }

  lemma NextTests(s: State, a: Action)
    requires MutexOk(s) && TestsHold(s) && Enabled(s, a)
    ensures TestsHold(Next(s, a))
  {
  }

  lemma SignalNoLost(s: State, a: Action)
    requires NoLostWakeup(s) && a.Signal? && Enabled(s, a)
    ensures NoLostWakeup(Next(s, a))
  {
    var n := Next(s, a);
    var r := WakeAll(s.pcs, a.wake);
    CountWake(s.pcs, r);
    CountUpdate(r, a.t, PostUnlock);
    if u :| Sleeps(n, u) {
      assert Sleeps(s, u);
      var w :| w in a.wake;
      assert Sleeps(s, w) && r[w] != s.pcs[w];
    }
  }

  lemma OtherNoLost(s: State, a: Action)
    requires MutexOk(s) && TestsHold(s) && NoLostWakeup(s) && !a.Signal? && Enabled(s, a)
    ensures NoLostWakeup(Next(s, a))
  {
    hide CountPending;
    var n := Next(s, a);
    CountUpdate(s.pcs, a.t, n.pcs[a.t]);
    if u :| Sleeps(n, u) {
      if u == a.t {
        assert n.value <= 0;
      } else {
        assert Sleeps(s, u);
        if t :| 0 <= t < |s.pcs| && s.pcs[t].PostSignal? {
          assert n.pcs[t].PostSignal?;
        }
        if n.pcs[a.t].PostSignal? {
          assert Signalling(n);
        }
      }
    }
  }

  lemma NextNoLost(s: State, a: Action)
    requires MutexOk(s) && TestsHold(s) && NoLostWakeup(s) && Enabled(s, a)
    ensures NoLostWakeup(Next(s, a))
  {
    if a.Signal? {
      SignalNoLost(s, a);
    } else {
      OtherNoLost(s, a);
    }
  }

  /** Every step of every interleaving keeps the invariant. */
  lemma NextInv(s: State, a: Action, init: int)
    requires Inv(s, init) && Enabled(s, a)
    ensures Inv(Next(s, a), init)
  {
    NextMutex(s, a);
    NextTests(s, a);
    NextNoLost(s, a);
    hide MutexOk, NoLostWakeup;
  }

  // ---- Runs ----

  ghost predicate ValidRun(s: State, run: seq<Action>)
    decreases |run|
  {
    run == [] || (Enabled(s, run[0]) && ValidRun(Next(s, run[0]), run[1..]))
  }

  ghost function Final(s: State, run: seq<Action>): State
    requires ValidRun(s, run)
    decreases |run|
  {
    if run == [] then s else Final(Next(s, run[0]), run[1..])
  }

  lemma {:induction false} RunInv(s: State, run: seq<Action>, init: int)
    requires Inv(s, init) && ValidRun(s, run)
    ensures Inv(Final(s, run), init)
    decreases |run|
  {
    if run != [] {
      NextInv(s, run[0], init);
      RunInv(Next(s, run[0]), run[1..], init);
    }
  }

  // ---- Calls and units ----

  function Sum(pcs: seq<Pc>, w: Pc -> nat): nat {
    if pcs == [] then 0 else w(pcs[0]) + Sum(pcs[1..], w)
  }

  lemma {:induction false} SumUpdate(pcs: seq<Pc>, t: nat, pc: Pc, w: Pc -> nat)
    requires t < |pcs|
    ensures Sum(pcs[t := pc], w) == Sum(pcs, w) - w(pcs[t]) + w(pc)
  {
    if t == 0 {
      assert pcs[t := pc][1..] == pcs[1..];
    } else {
      assert pcs[t := pc][1..] == pcs[1..][t - 1 := pc];
      SumUpdate(pcs[1..], t - 1, pc, w);
    }
  }

  lemma {:induction false} SumSame(pcs: seq<Pc>, r: seq<Pc>, w: Pc -> nat)
    requires |r| == |pcs| && forall i :: 0 <= i < |pcs| ==> w(r[i]) == w(pcs[i])
    ensures Sum(r, w) == Sum(pcs, w)
  {
    if pcs != [] {
      SumSame(pcs[1..], r[1..], w);
    }
  }

  lemma {:induction false} SumZero(pcs: seq<Pc>, w: Pc -> nat)
    requires forall i :: 0 <= i < |pcs| ==> w(pcs[i]) == 0
    ensures Sum(pcs, w) == 0
  {
    if pcs != [] {
      SumZero(pcs[1..], w);
    }
  }

  function IsCallWait(a: Action): nat {
    if a.CallWait? then 1 else 0
  }

  function IsCallPost(a: Action): nat {
    if a.CallPost? then 1 else 0
  }

  /** How many actions of a run are calls of one kind. */
  function Calls(run: seq<Action>, kind: Action -> nat): nat {
    if run == [] then 0 else kind(run[0]) + Calls(run[1..], kind)
  }

  lemma {:induction false} CallsAppend(x: seq<Action>, y: seq<Action>, kind: Action -> nat)
    ensures Calls(x + y, kind) == Calls(x, kind) + Calls(y, kind)
  {
    if x == [] {
      assert x + y == y;
    } else {
      assert (x + y)[1..] == x[1..] + y;
      CallsAppend(x[1..], y, kind);
    }
  }

  /** A post that has not put its unit in yet. */
  function StillToPut(pc: Pc): nat {
    if pc.PostLock? || pc.PostInc? then 1 else 0
  }

  /** A wait that has not taken its unit yet, asleep or not. */
  function StillToTake(pc: Pc): nat {
    if pc.WaitLock? || pc.WaitTest? || pc.WaitBlock? || pc.Sleeping? || pc.Woken? || pc.WaitDec? then 1 else 0
  }

  /** A wait blocked in pthread_cond_wait. */
  function IsAsleep(pc: Pc): nat {
    if pc.Sleeping? then 1 else 0
  }

  /** What the value will be once every call under way has done its part. */
  function Balance(s: State): int {
    s.value + Sum(s.pcs, StillToPut) - Sum(s.pcs, StillToTake)
  }

  /** Where one step leaves the thread that takes it. */
  lemma StepMoves(s: State, a: Action)
    requires Enabled(s, a) && !a.Signal?
    ensures var n := Next(s, a);
            && n.pcs == s.pcs[a.t := n.pcs[a.t]]
            && n.value + StillToPut(n.pcs[a.t]) - StillToTake(n.pcs[a.t]) ==
               s.value + StillToPut(s.pcs[a.t]) - StillToTake(s.pcs[a.t]) + IsCallPost(a) - IsCallWait(a)
  {
  }

  lemma SignalMoves(s: State, a: Action)
    requires Enabled(s, a) && a.Signal?
    ensures Next(s, a).pcs == WakeAll(s.pcs, a.wake)[a.t := PostUnlock] && Next(s, a).value == s.value
    ensures WakeAll(s.pcs, a.wake)[a.t] == PostSignal
    ensures forall i :: 0 <= i < |s.pcs| ==>
              && StillToPut(WakeAll(s.pcs, a.wake)[i]) == StillToPut(s.pcs[i])
              && StillToTake(WakeAll(s.pcs, a.wake)[i]) == StillToTake(s.pcs[i])
  {
  }

  /** Only calls change the balance: a call of post by one up, a call of wait by one down. */
  lemma NextBalance(s: State, a: Action)
    requires Enabled(s, a)
    ensures Balance(Next(s, a)) == Balance(s) + IsCallPost(a) - IsCallWait(a)
  {
    var n := Next(s, a);
    if a.Signal? {
      var r := WakeAll(s.pcs, a.wake);
      SignalMoves(s, a);
      hide Sum, Next, WakeAll, StillToPut, StillToTake;
      SumSame(s.pcs, r, StillToPut);
      SumSame(s.pcs, r, StillToTake);
      SumUpdate(r, a.t, PostUnlock, StillToPut);
      SumUpdate(r, a.t, PostUnlock, StillToTake);
      NothingAtSignal();
    } else {
      StepMoves(s, a);
      hide Sum, Next, StillToPut, StillToTake;
      SumUpdate(s.pcs, a.t, n.pcs[a.t], StillToPut);
      SumUpdate(s.pcs, a.t, n.pcs[a.t], StillToTake);
    }
  }

  lemma NothingAtSignal()
    ensures StillToPut(PostSignal) == StillToPut(PostUnlock) == 0
    ensures StillToTake(PostSignal) == StillToTake(PostUnlock) == 0
  {
  }

  lemma {:induction false} RunBalance(s: State, run: seq<Action>)
    requires ValidRun(s, run)
    ensures Balance(Final(s, run)) == Balance(s) + Calls(run, IsCallPost) - Calls(run, IsCallWait)
    decreases |run|
  {
    if run != [] {
      NextBalance(s, run[0]);
      RunBalance(Next(s, run[0]), run[1..]);
    }
  }

  lemma StartBalance(init: int, threads: nat)
    ensures Balance(Start(init, threads)) == init
  {
    SumZero(Start(init, threads).pcs, StillToPut);
    SumZero(Start(init, threads).pcs, StillToTake);
  }

  /**
   * In every state any interleaving reaches: the mutex excludes; the value is the initial one, plus the calls of
   * post but for those that have not put their unit in yet, minus the calls of wait but for those that have not
   * taken theirs; it is not negative; and no sleeper is forgotten.
   */
  lemma EveryRun(init: int, threads: nat, run: seq<Action>)
    requires ValidRun(Start(init, threads), run)
    ensures var s := Final(Start(init, threads), run);
            && (forall t, u :: 0 <= t < |s.pcs| && 0 <= u < |s.pcs| ==>
                  InCritical(s.pcs[t]) && InCritical(s.pcs[u]) ==> t == u)
            && s.value == init + Calls(run, IsCallPost) - Sum(s.pcs, StillToPut)
                          - Calls(run, IsCallWait) + Sum(s.pcs, StillToTake)
            && (init >= 0 ==> s.value >= 0)
            && (SomeoneSleeps(s) ==> s.value <= CountPending(s.pcs) + if Signalling(s) then 1 else 0)
  {
    StartInv(init, threads);
    StartBalance(init, threads);
    hide Start, Sum;
    RunInv(Start(init, threads), run, init);
    RunBalance(Start(init, threads), run);
  }

  // ---- Nobody is stranded ----

  /** All calls have either finished or are asleep. */
  ghost predicate Quiescent(s: State) {
    forall t :: 0 <= t < |s.pcs| ==> s.pcs[t].Idle? || s.pcs[t].Sleeping?
  }

  lemma {:induction false} NonePending(pcs: seq<Pc>)
    requires forall t :: 0 <= t < |pcs| ==> !Pending(pcs[t])
    ensures CountPending(pcs) == 0
  {
    if pcs != [] {
      NonePending(pcs[1..]);
    }
  }

  /** At rest, the waits that have not taken a unit are the sleepers, and no post has one left to put in. */
  lemma RestCounts(s: State)
    requires Quiescent(s)
    ensures Sum(s.pcs, StillToPut) == 0 && Sum(s.pcs, StillToTake) == Sum(s.pcs, IsAsleep)
    ensures SomeoneSleeps(s) <==> Sum(s.pcs, IsAsleep) > 0
  {
    SumZero(s.pcs, StillToPut);
    SameAsleep(s.pcs);
    CountsSleepers(s);
  }

  lemma {:induction false} SameAsleep(pcs: seq<Pc>)
    requires forall t :: 0 <= t < |pcs| ==> pcs[t].Idle? || pcs[t].Sleeping?
    ensures Sum(pcs, StillToTake) == Sum(pcs, IsAsleep)
  {
    if pcs != [] {
      SameAsleep(pcs[1..]);
    }
  }

  lemma CountsSleepers(s: State)
    ensures SomeoneSleeps(s) <==> Sum(s.pcs, IsAsleep) > 0
  {
    if t :| Sleeps(s, t) {
      SumUpdate(s.pcs, t, Idle, IsAsleep);
    } else {
      forall t | 0 <= t < |s.pcs|
        ensures IsAsleep(s.pcs[t]) == 0
      {
        assert !Sleeps(s, t);
      }
      SumZero(s.pcs, IsAsleep);
    }
  }

  /** A waiter is left asleep only when the waits that have returned took every unit there was or was posted. */
  lemma QuiescentSleepersAreOwed(init: int, threads: nat, run: seq<Action>)
    requires ValidRun(Start(init, threads), run)
    ensures var s := Final(Start(init, threads), run);
            Quiescent(s) && SomeoneSleeps(s) ==>
              && s.value <= 0
              && Calls(run, IsCallWait) - Sum(s.pcs, IsAsleep) >= init + Calls(run, IsCallPost)
  {
    var s := Final(Start(init, threads), run);
    EveryRun(init, threads, run);
    if Quiescent(s) && SomeoneSleeps(s) {
      NonePending(s.pcs);
      RestCounts(s);
    }
  }

  /** At rest exactly as many waits have returned as units allowed: all of them, or as many as there were units. */
  lemma ReturnedAtRest(init: int, threads: nat, run: seq<Action>)
    requires init >= 0 && ValidRun(Start(init, threads), run)
    ensures var s := Final(Start(init, threads), run);
            var waits, units := Calls(run, IsCallWait), init + Calls(run, IsCallPost);
            Quiescent(s) ==> waits - Sum(s.pcs, IsAsleep) == if waits <= units then waits else units
  {
    var s := Final(Start(init, threads), run);
    EveryRun(init, threads, run);
    if Quiescent(s) {
      RestCounts(s);
      QuiescentSleepersAreOwed(init, threads, run);
    }
  }

  /** While some call is under way, some thread can take its next step. */
  lemma Progress(s: State, init: int) returns (a: Action)
    requires Inv(s, init) && !Quiescent(s)
    ensures (a.Run? || a.Signal?) && Enabled(s, a)
  {
    if s.owner.Some? {
      var t := s.owner.value;
      if s.pcs[t].PostSignal? {
        var wake := set u | 0 <= u < |s.pcs| && s.pcs[u].Sleeping?;
        a := Signal(t, wake);
        if u :| Sleeps(s, u) {
          assert u in wake;
        }
      } else {
        a := Run(t);
      }
    } else {
      var t :| 0 <= t < |s.pcs| && !(s.pcs[t].Idle? || s.pcs[t].Sleeping?);
      a := Run(t);
    }
  }

  /** Steps a post still has up to and including its signal. */
  function ToSignal(pc: Pc): nat {
    if pc.PostLock? then 3 else if pc.PostInc? then 2 else if pc.PostSignal? then 1 else 0
  }

  /** A bound on the steps a call has left before it finishes or sleeps. */
  function ToRest(pc: Pc): nat {
    match pc
    case WaitLock => 5
    case Woken => 5
    case WaitTest(_) => 4
    case WaitBlock => 3
    case WaitDec(_) => 3
    case WaitUnlock => 2
    case PostUnlock => 1
    case _ => 0
  }

  lemma SignalComesNearer(s: State, a: Action)
    requires a.Signal? && Enabled(s, a)
    ensures Sum(Next(s, a).pcs, ToSignal) < Sum(s.pcs, ToSignal)
  {
    hide Sum;
    var r := WakeAll(s.pcs, a.wake);
    assert r[a.t] == s.pcs[a.t];
    SumSame(s.pcs, r, ToSignal);
    SumUpdate(r, a.t, PostUnlock, ToSignal);
  }

  lemma RunGetsShorter(s: State, a: Action)
    requires a.Run? && Enabled(s, a)
    ensures var n := Next(s, a);
            && n.pcs == s.pcs[a.t := n.pcs[a.t]]
            && (ToSignal(n.pcs[a.t]) < ToSignal(s.pcs[a.t])
                || (ToSignal(n.pcs[a.t]) == ToSignal(s.pcs[a.t]) && ToRest(n.pcs[a.t]) < ToRest(s.pcs[a.t])))
  {
  }

  /**
   * Without new calls and spurious wake-ups the threads come to rest: a step brings a
   * signal nearer, or leaves the signals alone and shortens the rest.
   */
  lemma ComesToRest(s: State, a: Action)
    requires (a.Run? || a.Signal?) && Enabled(s, a)
    ensures var n := Next(s, a);
            Sum(n.pcs, ToSignal) < Sum(s.pcs, ToSignal)
            || (Sum(n.pcs, ToSignal) == Sum(s.pcs, ToSignal) && Sum(n.pcs, ToRest) < Sum(s.pcs, ToRest))
  {
    if a.Signal? {
      SignalComesNearer(s, a);
    } else {
      RunGetsShorter(s, a);
      hide Sum, Next, ToSignal, ToRest;
      var n := Next(s, a);
      SumUpdate(s.pcs, a.t, n.pcs[a.t], ToSignal);
      SumUpdate(s.pcs, a.t, n.pcs[a.t], ToRest);
    }
  }

  lemma {:induction false} RestReached(s: State, init: int) returns (run: seq<Action>)
    requires Inv(s, init)
    ensures ValidRun(s, run) && (forall i :: 0 <= i < |run| ==> run[i].Run? || run[i].Signal?)
    ensures Quiescent(Final(s, run))
    decreases Sum(s.pcs, ToSignal), Sum(s.pcs, ToRest)
  {
    if Quiescent(s) {
      run := [];
    } else {
      var a := Progress(s, init);
      NextInv(s, a, init);
      ComesToRest(s, a);
      var rest := RestReached(Next(s, a), init);
      run := [a] + rest;
      assert run[1..] == rest;
    }
  }

  lemma {:induction false} RunsJoin(s: State, x: seq<Action>, y: seq<Action>)
    requires ValidRun(s, x) && ValidRun(Final(s, x), y)
    ensures ValidRun(s, x + y) && Final(s, x + y) == Final(Final(s, x), y)
    decreases |x|
  {
    if x == [] {
      assert x + y == y;
    } else {
      assert (x + y)[1..] == x[1..] + y;
      RunsJoin(Next(s, x[0]), x[1..], y);
    }
  }

  lemma {:induction false} NoCalls(run: seq<Action>)
    requires forall i :: 0 <= i < |run| ==> run[i].Run? || run[i].Signal?
    ensures Calls(run, IsCallWait) == Calls(run, IsCallPost) == 0
  {
    if run != [] {
      NoCalls(run[1..]);
    }
  }

  /**
   * From every state a run reaches, the calls under way can be run to rest, and then, for an initial value that is
   * not negative, as many waits have returned as there were units: all, or the initial value plus the calls of post.
   */
  lemma RunsToRest(init: int, threads: nat, run0: seq<Action>) returns (run: seq<Action>)
    requires ValidRun(Start(init, threads), run0)
    ensures ValidRun(Start(init, threads), run0 + run)
    ensures forall i :: 0 <= i < |run| ==> run[i].Run? || run[i].Signal?
    ensures var s := Final(Start(init, threads), run0 + run);
            var waits, units := Calls(run0, IsCallWait), init + Calls(run0, IsCallPost);
            && Quiescent(s)
            && (SomeoneSleeps(s) ==> waits - Sum(s.pcs, IsAsleep) >= units)
            && (init >= 0 ==> waits - Sum(s.pcs, IsAsleep) == if waits <= units then waits else units)
  {
    var start := Start(init, threads);
    StartInv(init, threads);
    hide Start, Inv, Sum, Quiescent;
    RunInv(start, run0, init);
    run := RestReached(Final(start, run0), init);
    RunsJoin(start, run0, run);
    NoCalls(run);
    CallsAppend(run0, run, IsCallWait);
    CallsAppend(run0, run, IsCallPost);
    QuiescentSleepersAreOwed(init, threads, run0 + run);
    if init >= 0 {
      ReturnedAtRest(init, threads, run0 + run);
    }
  }
}
