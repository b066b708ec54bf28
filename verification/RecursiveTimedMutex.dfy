/**
  * recursive_timed_mutex (without the timed waits) as interleaved steps of any number of threads. lock, try_lock
  * and the counting part of unlock each run under the inner mutex; unlock notifies only after releasing it, so
  * other threads can step in between.
  */
module RecursiveTimedMutex {
  import opened Options

  const MAX_COUNT: nat := 0xFFFF_FFFF  // numeric_limits<size_t>::max()

  datatype Pc =
    | Outside                    // not inside a member function
    | Waiting(signalled: bool)   // in lock(), waiting on the condition variable
    | Notifying                  // in unlock(), inner mutex released, notify_one still to come

  // id is None for the thread id 0; held[t] is how many lock levels thread t has obtained and not given back.
  datatype State = State(count: nat, id: Option<nat>, pc: seq<Pc>, held: seq<nat>)

  datatype Action =
    | Lock(t: nat)       // enter lock(), or wake up inside it
    | TryLock(t: nat)
    | TryLockBusy(t: nat)  // the inner mutex could not be taken
    | Unlock(t: nat)
    | Notify(t: nat, woken: Option<nat>)

  datatype Outcome = Obtained | Refused | Raised | Blocked | Released

  function Initial(n: nat): State { State(0, None, seq(n, _ => Outside), seq(n, _ => 0)) }

  ghost predicate WellFormed(s: State) { |s.pc| == |s.held| }

  // unlock() is called only by a thread that holds the mutex.
  predicate Enabled(s: State, a: Action)
    requires |s.pc| == |s.held|
  {
    a.t < |s.pc| &&
    match a
    case Lock(t) => !s.pc[t].Notifying?
    case TryLock(t) => s.pc[t].Outside?
    case TryLockBusy(t) => s.pc[t].Outside?
    case Unlock(t) => s.pc[t].Outside? && s.held[t] > 0
    case Notify(t, woken) =>
      s.pc[t].Notifying? &&
      match woken
      case Some(u) => u < |s.pc| && s.pc[u] == Waiting(false)
      case None => forall u :: 0 <= u < |s.pc| ==> s.pc[u] != Waiting(false)
  }

  function Take(s: State, t: nat): State
    requires t < |s.pc| == |s.held|
  {
    State(s.count + 1, Some(t), s.pc[t := Outside], s.held[t := s.held[t] + 1])
  }

  function Step(s: State, a: Action): (State, Outcome)
    requires |s.pc| == |s.held| && Enabled(s, a)
  {
    match a
    case Lock(t) =>
      if s.pc[t].Outside? && s.id == Some(t) then
        if s.count == MAX_COUNT then (s, Raised) else (Take(s, t), Obtained)
      else if s.count != 0 then (s.(pc := s.pc[t := Waiting(false)]), Blocked)
      else (State(1, Some(t), s.pc[t := Outside], s.held[t := s.held[t] + 1]), Obtained)
    case TryLock(t) =>
      if (s.count == 0 || s.id == Some(t)) && s.count != MAX_COUNT then (Take(s, t), Obtained) else (s, Refused)
    case TryLockBusy(t) => (s, Refused)
    case Unlock(t) =>
      var held := s.held[t := s.held[t] - 1];
      if s.count == 1 then (State(0, None, s.pc[t := Notifying], held), Released)
      else (State(if s.count == 0 then MAX_COUNT else s.count - 1, s.id, s.pc, held), Released)
    case Notify(t, woken) =>
      var pc := s.pc[t := Outside];
      (s.(pc := if woken.Some? then pc[woken.value := Waiting(true)] else pc), Released)
  }

  ghost predicate Runs(s: State, actions: seq<Action>, s': State)
    requires WellFormed(s)
    decreases |actions|
  {
    if actions == [] then s' == s
    else Enabled(s, actions[0]) && Runs(Step(s, actions[0]).0, actions[1..], s')
  }

  ghost predicate Reachable(n: nat, s: State) {
    exists actions :: Runs(Initial(n), actions, s)
  }

  // A wake-up is on its way: some waiter has been signalled, or some unlock() has not notified yet.
  ghost predicate WakeupPending(s: State) {
    exists u :: 0 <= u < |s.pc| && (s.pc[u] == Waiting(true) || s.pc[u].Notifying?)
  }

  ghost predicate Inv(s: State) {
    && WellFormed(s)
    && s.count <= MAX_COUNT
    && (s.id == None <==> s.count == 0)
    && (forall t :: 0 <= t < |s.held| ==> s.held[t] == if s.id == Some(t) then s.count else 0)
    && (forall t :: 0 <= t < |s.pc| && s.id == Some(t) ==> s.pc[t].Outside?)
    && (s.id.Some? ==> s.id.value < |s.pc|)
    && (s.count == 0 && (exists t :: 0 <= t < |s.pc| && s.pc[t] == Waiting(false)) ==> WakeupPending(s))
  }

  lemma StepInv(s: State, a: Action)
    requires Inv(s) && Enabled(s, a)
    ensures Inv(Step(s, a).0) && |Step(s, a).0.pc| == |s.pc|
  {
    var s' := Step(s, a).0;
    if s'.count == 0 && exists t :: 0 <= t < |s'.pc| && s'.pc[t] == Waiting(false) {
      var t :| 0 <= t < |s'.pc| && s'.pc[t] == Waiting(false);
      match a
      case Unlock(u) => assert s'.pc[u].Notifying?;
      case Notify(u, woken) =>
        assert s.pc[t] == Waiting(false);
        assert s'.pc[woken.value] == Waiting(true);
      case _ =>
    }
  }

  lemma {:induction false} RunInv(s: State, actions: seq<Action>, s': State)
    requires Inv(s) && Runs(s, actions, s')
    ensures Inv(s') && |s'.pc| == |s.pc|
    decreases |actions|
  {
    if actions == [] {
    } else {
      StepInv(s, actions[0]);
      RunInv(Step(s, actions[0]).0, actions[1..], s');
    }
  }

  /** In every reachable state the count is the owner's nesting depth, every other thread holds nothing, the stored
      id is 0 exactly when the count is 0, and free-but-waited-for implies that a wake-up is on its way. */
  lemma Ownership(n: nat, s: State)
    requires Reachable(n, s)
    ensures |s.pc| == |s.held| == n && s.count <= MAX_COUNT
    ensures s.id == None <==> s.count == 0
    ensures forall t :: 0 <= t < n ==> s.held[t] == if s.id == Some(t) then s.count else 0
    ensures forall t, u :: 0 <= t < n && 0 <= u < n && s.held[t] > 0 && s.held[u] > 0 ==> t == u
    ensures s.count == 0 && (exists t :: 0 <= t < n && s.pc[t] == Waiting(false)) ==> WakeupPending(s)
  {
    var actions :| Runs(Initial(n), actions, s);
    RunInv(Initial(n), actions, s);
  }

  /** A lock or try_lock is granted exactly to the owner below the limit and to anyone while the mutex is free; the
      owner at the limit is refused without any change. */
  lemma Granting(n: nat, s: State, a: Action)
    requires Reachable(n, s) && WellFormed(s) && Enabled(s, a) && (a.Lock? || a.TryLock?)
    ensures Step(s, a).1 == Obtained <==> s.count == 0 || (s.held[a.t] > 0 && s.count < MAX_COUNT)
    ensures s.held[a.t] == MAX_COUNT ==> Step(s, a) == (s, if a.Lock? then Raised else Refused)
    ensures Step(s, a).1 == Obtained ==> Step(s, a).0.held == s.held[a.t := s.held[a.t] + 1]
  {
    Ownership(n, s);
    var actions :| Runs(Initial(n), actions, s);
    RunInv(Initial(n), actions, s);
  }

  /** Waiting threads alone never deadlock: whenever one waits, some thread owns the mutex, has been signalled, or is
      about to notify. */
  lemma NoDeadlockAmongWaiters(n: nat, s: State, t: nat)
    requires Reachable(n, s) && t < |s.pc| && s.pc[t].Waiting?
    ensures s.count > 0 || WakeupPending(s)
  {
    Ownership(n, s);
    if s.pc[t].signalled { assert WakeupPending(s); }
  }

  // ----- what every step does, and what a thread holds after a run

  ghost predicate OthersStay(s: State, s': State, t: nat)
    requires WellFormed(s)
  {
    && |s'.pc| == |s.pc| && |s'.held| == |s.held|
    && forall u :: 0 <= u < |s.pc| && u != t ==> s'.pc[u] == s.pc[u] && s'.held[u] == s.held[u]
  }

  lemma ReachableInv(n: nat, s: State)
    requires Reachable(n, s)
    ensures Inv(s) && |s.pc| == n
  {
    var actions :| Runs(Initial(n), actions, s);
    RunInv(Initial(n), actions, s);
  }

  /** unlock gives back exactly one level, and goes on to notify exactly when it was the last one. */
  lemma Unlocking(n: nat, s: State, t: nat)
    requires Reachable(n, s) && WellFormed(s) && Enabled(s, Unlock(t))
    ensures var s' := Step(s, Unlock(t)).0;
      && OthersStay(s, s', t) && s'.held[t] == s.held[t] - 1
      && s'.pc[t] == (if s.held[t] == 1 then Notifying else Outside)
      && (s'.count == 0 <==> s.held[t] == 1)
  {
    ReachableInv(n, s);
  }

  /** A lock or try_lock that obtains nothing waits or goes away, and holds what it held; no other thread changes. */
  lemma Locking(n: nat, s: State, a: Action)
    requires Reachable(n, s) && WellFormed(s) && Enabled(s, a) && (a.Lock? || a.TryLock? || a.TryLockBusy?)
    ensures var (s', r) := Step(s, a);
      && OthersStay(s, s', a.t)
      && (r == Obtained ==> s'.held[a.t] == s.held[a.t] + 1 && s'.pc[a.t] == Outside)
      && (r != Obtained ==> s'.held == s.held)
      && (r == Blocked <==> a.Lock? && s.count > 0 && s.held[a.t] == 0)
      && (r == Blocked ==> s'.pc[a.t] == Waiting(false))
      && (r == Refused || r == Raised ==> s' == s)
      && (r == Raised <==> a.Lock? && s.held[a.t] == MAX_COUNT)
  {
    ReachableInv(n, s);
  }

  /** Whatever a thread has come to in a member function, it can take its next step. */
  lemma NextStepExists(s: State, t: nat) returns (a: Action)
    requires WellFormed(s) && t < |s.pc|
    ensures Enabled(s, a) && a.t == t
    ensures match s.pc[t]
      case Outside => Enabled(s, Lock(t)) && Enabled(s, TryLock(t)) && (s.held[t] > 0 ==> Enabled(s, Unlock(t)))
      case Waiting(_) => a.Lock?
      case Notifying => a.Notify?
  {
    a := Lock(t);
    if s.pc[t].Notifying? {
      a := Notify(t, None);
      if u :| 0 <= u < |s.pc| && s.pc[u] == Waiting(false) { a := Notify(t, Some(u)); }
    }
  }

  /** notify_one leaves the caller outside and signals one waiter when there is one. */
  lemma Notifies(s: State, t: nat, woken: Option<nat>)
    requires WellFormed(s) && Enabled(s, Notify(t, woken))
    ensures var s' := Step(s, Notify(t, woken)).0;
      && s'.held == s.held && s'.count == s.count && s'.pc[t] == Outside && |s'.pc| == |s.pc|
      && (woken.None? ==> forall u :: 0 <= u < |s.pc| ==> s.pc[u] != Waiting(false))
      && forall u :: 0 <= u < |s.pc| && u != t ==>
           if woken == Some(u) then s.pc[u] == Waiting(false) && s'.pc[u] == Waiting(true) else s'.pc[u] == s.pc[u]
  {
  }

  // How often a thread obtained the mutex in a run, less how often it unlocked it.
  ghost function Depth(s: State, actions: seq<Action>, s': State, t: nat): int
    requires WellFormed(s) && Runs(s, actions, s')
    decreases |actions|
  {
    if actions == [] then 0
    else
      var (s1, r) := Step(s, actions[0]);
      (if actions[0].t != t then 0 else if r == Obtained then 1 else if actions[0].Unlock? then -1 else 0)
        + Depth(s1, actions[1..], s', t)
  }

  lemma StepHeld(s: State, a: Action, t: nat)
    requires Inv(s) && Enabled(s, a) && t < |s.held|
    ensures var (s', r) := Step(s, a);
      |s'.held| == |s.held| && s'.held[t] == s.held[t] +
        if a.t != t then 0 else if r == Obtained then 1 else if a.Unlock? then -1 else 0
  {
  }

  lemma {:induction false} HeldFrom(s: State, actions: seq<Action>, s': State, t: nat)
    requires Inv(s) && Runs(s, actions, s') && t < |s.held|
    ensures t < |s'.held| && s'.held[t] == s.held[t] + Depth(s, actions, s', t)
    decreases |actions|
  {
    hide Step, Inv;
    InvForm(s);
    if actions == [] {
    } else {
      StepInv(s, actions[0]);
      StepHeld(s, actions[0], t);
      HeldFrom(Step(s, actions[0]).0, actions[1..], s', t);
    }
  }

  lemma InvForm(s: State)
    requires Inv(s)
    ensures WellFormed(s)
  {
  }

  /**
    * After any run a thread holds the mutex exactly as often as it obtained it and did not unlock it, and at most one
    * thread has a lock left to give back; the mutex is free exactly when none has.
    */
  lemma HeldIsHistory(n: nat, actions: seq<Action>, s: State)
    requires Runs(Initial(n), actions, s)
    ensures forall t :: 0 <= t < n ==> t < |s.held| && s.held[t] == Depth(Initial(n), actions, s, t)
    ensures forall t, u :: 0 <= t < n && 0 <= u < n && t != u && Depth(Initial(n), actions, s, t) > 0 ==>
      Depth(Initial(n), actions, s, u) == 0
    ensures s.count == 0 <==> forall t :: 0 <= t < n ==> Depth(Initial(n), actions, s, t) == 0
  {
    forall t | 0 <= t < n
      ensures t < |s.held| && s.held[t] == Depth(Initial(n), actions, s, t)
    {
      HeldFrom(Initial(n), actions, s, t);
    }
    Ownership(n, s);
    ReachableInv(n, s);
    if s.count != 0 {
      var t := s.id.value;
      assert Depth(Initial(n), actions, s, t) == s.held[t] == s.count;
    }
  }
}
