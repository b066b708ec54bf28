/**
  * __shared_mutex_base as interleaved steps of any number of threads. Every step is one stretch of a member
  * function between acquiring the internal mutex and releasing it or waiting on a gate; waits may end spuriously.
  */
module SharedMutex {
  import opened Options

  // The two halves of __state_: the top bit, and the count of readers below it.
  const WRITE_ENTERED: nat := 0x8000_0000
  const N_READERS: nat := 0x7FFF_FFFF

  datatype Pc =
    | Idle
    | HoldsExclusive
    | HoldsShared
    | Gate1Exclusive(signalled: bool)  // in lock(), waiting for the write bit to clear
    | Gate1Shared(signalled: bool)     // in lock_shared()
    | Gate2(signalled: bool)           // in lock(), write bit set, waiting for the readers to leave

  // pc[t] is where thread t stands.
  datatype State = State(word: nat, pc: seq<Pc>)

  datatype Action =
    | Lock(t: nat)             // enter lock(), or wake up at gate 1 inside it
    | LockSecondGate(t: nat)   // wake up at gate 2 inside lock()
    | TryLock(t: nat)
    | Unlock(t: nat)
    | LockShared(t: nat)       // enter lock_shared(), or wake up at gate 1 inside it
    | TryLockShared(t: nat)
    | UnlockShared(t: nat, woken: Option<nat>)  // woken: the thread that notify_one picks

  predicate WriteEntered(s: State) { s.word / WRITE_ENTERED % 2 == 1 }

  function NumReaders(s: State): nat { s.word % WRITE_ENTERED }

  function Initial(n: nat): State { State(0, seq(n, _ => Idle)) }

  // notify_one picks some waiting thread of the gate whenever there is one.
  predicate NotifiesOne(pc: seq<Pc>, gate: Pc -> bool, woken: Option<nat>) {
    match woken
    case Some(u) => u < |pc| && gate(pc[u])
    case None => forall u :: 0 <= u < |pc| ==> !gate(pc[u])
  }

  predicate WaitsAtGate1(p: Pc) { p == Gate1Exclusive(false) || p == Gate1Shared(false) }

  predicate WaitsAtGate2(p: Pc) { p == Gate2(false) }

  function Signal(p: Pc): Pc {
    match p
    case Gate1Exclusive(_) => Gate1Exclusive(true)
    case Gate1Shared(_) => Gate1Shared(true)
    case Gate2(_) => Gate2(true)
    case _ => p
  }

  function SignalGate1(pc: seq<Pc>): seq<Pc> {
    seq(|pc|, i requires 0 <= i < |pc| => if pc[i].Gate2? then pc[i] else Signal(pc[i]))
  }

  function SignalOne(pc: seq<Pc>, woken: Option<nat>): seq<Pc>
    requires woken.Some? ==> woken.value < |pc|
  {
    match woken case None => pc case Some(u) => pc[u := Signal(pc[u])]
  }

  // A thread calls unlock() or unlock_shared() only when it holds the mutex that way, and locks only when idle.
  predicate Enabled(s: State, a: Action) {
    a.t < |s.pc| &&
    var p := s.pc[a.t];
    match a
    case Lock(_) => p.Idle? || p.Gate1Exclusive?
    case LockSecondGate(_) => p.Gate2?
    case TryLock(_) => p.Idle?
    case Unlock(_) => p.HoldsExclusive?
    case LockShared(_) => p.Idle? || p.Gate1Shared?
    case TryLockShared(_) => p.Idle?
    case UnlockShared(t, woken) =>
      p.HoldsShared? &&
      var readers := NumReaders(s) - 1;
      var pc := s.pc[t := Idle];
      if WriteEntered(s) && readers == 0 then NotifiesOne(pc, WaitsAtGate2, woken)
      else if !WriteEntered(s) && readers == N_READERS - 1 then NotifiesOne(pc, WaitsAtGate1, woken)
      else woken == None
  }

  function Next(s: State, a: Action): State
    requires Enabled(s, a)
  {
    match a
    case Lock(t) =>
      if WriteEntered(s) then s.(pc := s.pc[t := Gate1Exclusive(false)])
      else State(s.word + WRITE_ENTERED, s.pc[t := if NumReaders(s) != 0 then Gate2(false) else HoldsExclusive])
    case LockSecondGate(t) =>
      s.(pc := s.pc[t := if NumReaders(s) != 0 then Gate2(false) else HoldsExclusive])
    case TryLock(t) =>
      if s.word == 0 then State(WRITE_ENTERED, s.pc[t := HoldsExclusive]) else s
    case Unlock(t) =>
      State(0, SignalGate1(s.pc[t := Idle]))
    case LockShared(t) =>
      if WriteEntered(s) || NumReaders(s) == N_READERS then s.(pc := s.pc[t := Gate1Shared(false)])
      else State(s.word + 1, s.pc[t := HoldsShared])
    case TryLockShared(t) =>
      if !WriteEntered(s) && NumReaders(s) != N_READERS then State(s.word + 1, s.pc[t := HoldsShared]) else s
    case UnlockShared(t, woken) =>
      State(if s.word > 0 then s.word - 1 else 0, SignalOne(s.pc[t := Idle], woken))
  }

  // s' is reached from s by the actions, in order.
  ghost predicate Runs(s: State, actions: seq<Action>, s': State)
    decreases |actions|
  {
    if actions == [] then s' == s
    else Enabled(s, actions[0]) && Runs(Next(s, actions[0]), actions[1..], s')
  }

  ghost predicate Reachable(n: nat, s: State) {
    exists actions :: Runs(Initial(n), actions, s)
  }

  // ----- counting the readers

  function Readers(pc: seq<Pc>): (r: nat)
    ensures r <= |pc|
  {
    if pc == [] then 0 else Readers(pc[..|pc|-1]) + if pc[|pc|-1].HoldsShared? then 1 else 0
  }

  function One(p: Pc): nat { if p.HoldsShared? then 1 else 0 }

  lemma {:induction false} ReadersUpdate(pc: seq<Pc>, t: nat, p: Pc)
    requires t < |pc|
    ensures Readers(pc[t := p]) == Readers(pc) - One(pc[t]) + One(p)
  {
    var l := |pc| - 1;
    if t == l {
      assert pc[t := p][..l] == pc[..l];
    } else {
      assert pc[t := p][..l] == pc[..l][t := p];
      ReadersUpdate(pc[..l], t, p);
    }
  }

  lemma {:induction false} ReadersSame(pc: seq<Pc>, pc': seq<Pc>)
    requires |pc| == |pc'| && forall i :: 0 <= i < |pc| ==> pc[i].HoldsShared? == pc'[i].HoldsShared?
    ensures Readers(pc) == Readers(pc')
  {
    if pc == [] {
    } else {
      ReadersSame(pc[..|pc|-1], pc'[..|pc|-1]);
    }
  }

  lemma {:induction false} SomeReader(pc: seq<Pc>) returns (t: nat)
    requires Readers(pc) > 0
    ensures t < |pc| && pc[t].HoldsShared?
  {
    var l := |pc| - 1;
    if pc[l].HoldsShared? { t := l; } else { t := SomeReader(pc[..l]); }
  }

  // Two threads that do not hold shared leave at most n - 2 readers.
  lemma TwoOutside(pc: seq<Pc>, t: nat, u: nat)
    requires t < |pc| && u < |pc| && t != u && !pc[t].HoldsShared? && !pc[u].HoldsShared?
    ensures Readers(pc) + 2 <= |pc|
  {
    ReadersUpdate(pc, t, HoldsShared);
    ReadersUpdate(pc[t := HoldsShared], u, HoldsShared);
  }

  // ----- what every step keeps

  predicate Claims(p: Pc) { p.HoldsExclusive? || p.Gate2? }

  ghost predicate SomeClaim(pc: seq<Pc>) {
    exists t :: 0 <= t < |pc| && Claims(pc[t])
  }

  ghost predicate Inv(s: State) {
    && Readers(s.pc) <= N_READERS
    && s.word == Readers(s.pc) + (if SomeClaim(s.pc) then WRITE_ENTERED else 0)
    && (forall t, u :: 0 <= t < |s.pc| && 0 <= u < |s.pc| && Claims(s.pc[t]) && Claims(s.pc[u]) ==> t == u)
    && (forall t :: 0 <= t < |s.pc| && s.pc[t].HoldsExclusive? ==> Readers(s.pc) == 0)
    && (forall t :: 0 <= t < |s.pc| && s.pc[t] == Gate1Exclusive(false) ==> SomeClaim(s.pc))
    && (forall t :: 0 <= t < |s.pc| && s.pc[t] == Gate2(false) ==> Readers(s.pc) > 0)
  }

  // Shared waiters too wait only for a reason.
  ghost predicate SharedWaitersJustified(s: State) {
    forall t :: 0 <= t < |s.pc| && s.pc[t] == Gate1Shared(false) ==> WriteEntered(s) || NumReaders(s) == N_READERS
  }

  lemma WordBits(s: State)
    requires Inv(s)
    ensures WriteEntered(s) <==> SomeClaim(s.pc)
    ensures NumReaders(s) == Readers(s.pc)
  {
  }

  lemma InitialInv(n: nat)
    ensures Inv(Initial(n)) && SharedWaitersJustified(Initial(n)) && Readers(Initial(n).pc) == 0
  {
    var pc := Initial(n).pc;
    if Readers(pc) > 0 {
      var t := SomeReader(pc);
    }
  }

  lemma ClaimUpdate(pc: seq<Pc>, t: nat, p: Pc)
    requires t < |pc| && (Claims(pc[t]) ==> Claims(p))
    ensures SomeClaim(pc[t := p]) <==> SomeClaim(pc) || Claims(p)
  {
    if SomeClaim(pc) {
      var u :| 0 <= u < |pc| && Claims(pc[u]);
      assert Claims(pc[t := p][u]);
    }
    if Claims(p) { assert Claims(pc[t := p][t]); }
  }

  // A thread that neither unlocks nor leaves changes its own place only.
  lemma MoveCounts(s: State, a: Action)
    requires Inv(s) && Enabled(s, a) && !a.Unlock? && !a.UnlockShared?
    ensures var s' := Next(s, a);
      && s'.pc == s.pc[a.t := s'.pc[a.t]] && !s.pc[a.t].HoldsShared?
      && Readers(s'.pc) == Readers(s.pc) + One(s'.pc[a.t])
      && (SomeClaim(s'.pc) <==> SomeClaim(s.pc) || Claims(s'.pc[a.t]))
  {
    WordBits(s);
    ReadersUpdate(s.pc, a.t, Next(s, a).pc[a.t]);
    ClaimUpdate(s.pc, a.t, Next(s, a).pc[a.t]);
  }

  lemma MoveInv(s: State, a: Action)
    requires Inv(s) && Enabled(s, a) && !a.Unlock? && !a.UnlockShared?
    ensures Inv(Next(s, a))
  {
    hide Readers;
    WordBits(s);
    MoveCounts(s, a);
  }

  lemma UnlockInv(s: State, t: nat)
    requires Inv(s) && Enabled(s, Unlock(t))
    ensures Inv(Next(s, Unlock(t)))
  {
    WordBits(s);
    var s' := Next(s, Unlock(t));
    ReadersUpdate(s.pc, t, Idle);
    ReadersSame(s.pc[t := Idle], s'.pc);
    assert forall u :: 0 <= u < |s'.pc| ==> !Claims(s'.pc[u]);
  }

  // A leaving reader and the signal it gives change no claim.
  lemma UnlockSharedCounts(pc: seq<Pc>, t: nat, woken: Option<nat>)
    requires t < |pc| && pc[t].HoldsShared? && (woken.Some? ==> woken.value < |pc|)
    ensures var pc' := SignalOne(pc[t := Idle], woken);
      && Readers(pc') == Readers(pc) - 1 && (SomeClaim(pc') <==> SomeClaim(pc))
      && forall u :: 0 <= u < |pc| ==> Claims(pc'[u]) == Claims(pc[u])
  {
    var pc' := SignalOne(pc[t := Idle], woken);
    ReadersUpdate(pc, t, Idle);
    ReadersSame(pc[t := Idle], pc');
    assert forall u :: 0 <= u < |pc| ==> Claims(pc'[u]) == Claims(pc[u]);
    if SomeClaim(pc) {
      var u :| 0 <= u < |pc| && Claims(pc[u]);
      assert Claims(pc'[u]);
    }
  }

  lemma UnlockSharedInv(s: State, t: nat, woken: Option<nat>)
    requires Inv(s) && Enabled(s, UnlockShared(t, woken))
    ensures Inv(Next(s, UnlockShared(t, woken)))
  {
    hide Readers;
    WordBits(s);
    UnlockSharedCounts(s.pc, t, woken);
  }

  lemma NextInv(s: State, a: Action)
    requires Inv(s) && Enabled(s, a)
    ensures Inv(Next(s, a)) && |Next(s, a).pc| == |s.pc|
  {
    match a
    case Unlock(t) => UnlockInv(s, t);
    case UnlockShared(t, woken) => UnlockSharedInv(s, t, woken);
    case _ => MoveInv(s, a);
  }

  lemma {:induction false} RunInv(s: State, actions: seq<Action>, s': State)
    requires Inv(s) && Runs(s, actions, s')
    ensures Inv(s') && |s'.pc| == |s.pc|
    decreases |actions|
  {
    hide Inv, Next, Enabled;
    if actions == [] {
    } else {
      NextInv(s, actions[0]);
      RunInv(Next(s, actions[0]), actions[1..], s');
    }
  }

  /** In every reachable state a writer excludes all other holders, the low bits of the word count the shared
      holders, and the write bit stands for exactly one thread: the writer, or the one waiting at gate 2. */
  lemma Exclusion(n: nat, s: State)
    requires Reachable(n, s)
    ensures |s.pc| == n
    ensures forall t, u :: 0 <= t < n && 0 <= u < n && t != u && s.pc[t].HoldsExclusive?
              ==> !s.pc[u].HoldsExclusive? && !s.pc[u].HoldsShared?
    ensures NumReaders(s) == Readers(s.pc) && s.word < 0x1_0000_0000
    ensures WriteEntered(s) <==> SomeClaim(s.pc)
    ensures forall t, u :: 0 <= t < n && 0 <= u < n && Claims(s.pc[t]) && Claims(s.pc[u]) ==> t == u
  {
    var actions :| Runs(Initial(n), actions, s);
    InitialInv(n);
    RunInv(Initial(n), actions, s);
    WordBits(s);
    forall u | 0 <= u < n && s.pc[u].HoldsShared?
      ensures Readers(s.pc) > 0
    {
      ReadersUpdate(s.pc, u, Idle);
    }
  }

  // ----- wake-ups

  // No thread waits unsignalled at a gate whose condition has become free.
  ghost predicate NoLostWakeup(s: State) {
    forall t :: 0 <= t < |s.pc| ==>
      match s.pc[t]
      case Gate1Exclusive(false) => WriteEntered(s)
      case Gate1Shared(false) => WriteEntered(s) || NumReaders(s) == N_READERS
      case Gate2(false) => NumReaders(s) > 0
      case _ => true
  }

  lemma NextShared(s: State, a: Action)
    requires Inv(s) && Enabled(s, a) && |s.pc| <= N_READERS + 1 && SharedWaitersJustified(s)
    ensures SharedWaitersJustified(Next(s, a))
  {
    var s' := Next(s, a);
    NextInv(s, a);
    WordBits(s);
    WordBits(s');
    forall t | 0 <= t < |s'.pc| && s'.pc[t] == Gate1Shared(false)
      ensures WriteEntered(s') || NumReaders(s') == N_READERS
    {
      if a.UnlockShared? && !WriteEntered(s) {
        // Only the thread that leaves is not a reader besides t, so notify_one picks t.
        assert s.pc[t] == Gate1Shared(false);
        forall u | 0 <= u < |s.pc| && u != t
          ensures s.pc[u].HoldsShared?
        {
          if !s.pc[u].HoldsShared? { TwoOutside(s.pc, t, u); }
        }
      }
    }
  }

  lemma {:induction false} RunShared(s: State, actions: seq<Action>, s': State)
    requires Inv(s) && Runs(s, actions, s') && |s.pc| <= N_READERS + 1 && SharedWaitersJustified(s)
    ensures SharedWaitersJustified(s') && Inv(s')
    decreases |actions|
  {
    hide Inv, Next, Enabled, SharedWaitersJustified;
    if actions == [] {
    } else {
      NextInv(s, actions[0]);
      NextShared(s, actions[0]);
      RunShared(Next(s, actions[0]), actions[1..], s');
    }
  }

  lemma {:induction false} RunsSnoc(s: State, actions: seq<Action>, s': State, a: Action)
    requires Runs(s, actions, s') && Enabled(s', a)
    ensures Runs(s, actions + [a], Next(s', a))
    decreases |actions|
  {
    hide Next, Enabled;
    if actions == [] {
      assert actions + [a] == [a] && [a][1..] == [];
      assert Runs(Next(s, a), [], Next(s', a));
    } else {
      assert (actions + [a])[1..] == actions[1..] + [a];
      RunsSnoc(Next(s, actions[0]), actions[1..], s', a);
    }
  }

  lemma ReachableNext(n: nat, s: State, a: Action)
    requires Reachable(n, s) && Enabled(s, a)
    ensures Reachable(n, Next(s, a))
  {
    var actions :| Runs(Initial(n), actions, s);
    RunsSnoc(Initial(n), actions, s, a);
  }

  // The first k threads hold shared, the others are idle.
  function ReadersState(n: nat, k: nat): State {
    State(k, seq(n, i => if i < k then HoldsShared else Idle))
  }

  lemma {:induction false} ManyReaders(n: nat, k: nat)
    requires k <= N_READERS && k <= n
    ensures Reachable(n, ReadersState(n, k))
  {
    if k == 0 {
      assert ReadersState(n, 0) == Initial(n);
      assert Runs(Initial(n), [], Initial(n));
    } else {
      ManyReaders(n, k - 1);
      var s := ReadersState(n, k - 1);
      ReachableNext(n, s, LockShared(k - 1));
      assert Next(s, LockShared(k - 1)) == ReadersState(n, k);
    }
  }

  // Two threads more than the counter can hold came to lock shared, and then k of the readers left: the first of them
  // signalled one waiting reader, and the other waits on.
  function Leaving(n: nat, k: nat): State
    requires k <= N_READERS
  {
    State(N_READERS - k, seq(n, i =>
      if i < k then Idle
      else if i < N_READERS then HoldsShared
      else if i == N_READERS then Gate1Shared(true)
      else if i == N_READERS + 1 then Gate1Shared(false)
      else Idle))
  }

  lemma {:induction false} ReadersLeave(n: nat, k: nat)
    requires n >= N_READERS + 2 && 1 <= k <= N_READERS
    ensures Reachable(n, Leaving(n, k))
  {
    if k == 1 {
      FirstLeaves(n);
    } else {
      ReadersLeave(n, k - 1);
      var s := Leaving(n, k - 1);
      assert s.pc[k-1] == HoldsShared;
      ReachableNext(n, s, UnlockShared(k - 1, None));
      assert Next(s, UnlockShared(k - 1, None)) == Leaving(n, k);
    }
  }

  lemma FirstLeaves(n: nat)
    requires n >= N_READERS + 2
    ensures Reachable(n, Leaving(n, 1))
  {
    var m := N_READERS;
    ManyReaders(n, m);
    var s0 := ReadersState(n, m);
    var s1 := State(m, s0.pc[m := Gate1Shared(false)]);
    var s2 := State(m, s1.pc[m + 1 := Gate1Shared(false)]);
    ReachableNext(n, s0, LockShared(m));
    assert Next(s0, LockShared(m)) == s1;
    ReachableNext(n, s1, LockShared(m + 1));
    assert Next(s1, LockShared(m + 1)) == s2;
    ReachableNext(n, s2, UnlockShared(0, Some(m)));
    assert Next(s2, UnlockShared(0, Some(m))) == Leaving(n, 1);
  }

  /** With two threads more than the counter can hold, a reader is left waiting unsignalled although the gate is
      free: only the first of two leaving readers notifies, and it notifies one thread. */
  lemma LostWakeup(n: nat) returns (s: State)
    requires n >= N_READERS + 2
    ensures Reachable(n, s) && !NoLostWakeup(s)
  {
    ReadersLeave(n, 2);
    s := Leaving(n, 2);
    assert s.pc[N_READERS + 1] == Gate1Shared(false);
  }

  /** Wake-ups are never lost, in any interleaving, exactly when there is at most one thread more than the reader
      count can hold. */
  lemma WakeupsNeverLostIff(n: nat)
    ensures (forall s :: Reachable(n, s) ==> NoLostWakeup(s)) <==> n <= N_READERS + 1
  {
    if n <= N_READERS + 1 {
      forall s | Reachable(n, s)
        ensures NoLostWakeup(s)
      {
        var actions :| Runs(Initial(n), actions, s);
        InitialInv(n);
        RunShared(Initial(n), actions, s);
        WordBits(s);
      }
    } else {
      var s := LostWakeup(n);
    }
  }

  predicate Waits(p: Pc) { p.Gate1Exclusive? || p.Gate1Shared? || p.Gate2? }

  // Someone can end the waiting: a thread that holds the mutex, or one that has been signalled.
  ghost predicate SomeoneCanMove(pc: seq<Pc>) {
    exists u :: 0 <= u < |pc| && (pc[u].HoldsExclusive? || pc[u].HoldsShared? || (Waits(pc[u]) && pc[u].signalled))
  }

  // The waiting threads do not block each other.
  ghost predicate NotStuck(s: State) {
    forall t :: 0 <= t < |s.pc| && Waits(s.pc[t]) ==> SomeoneCanMove(s.pc)
  }

  lemma WaiterNotAlone(n: nat, s: State, t: nat)
    requires n <= N_READERS + 1 && Reachable(n, s) && t < |s.pc| && Waits(s.pc[t])
    ensures SomeoneCanMove(s.pc)
  {
    WakeupsNeverLostIff(n);
    Exclusion(n, s);
    if !s.pc[t].signalled {
      if NumReaders(s) > 0 {
        var u := SomeReader(s.pc);
      } else {
        var u :| 0 <= u < |s.pc| && Claims(s.pc[u]);
        assert s.pc[u] != Gate2(false);
      }
    }
  }

  // The reader left behind waits on after everyone else has left.
  lemma StuckReader(n: nat) returns (s: State)
    requires n >= N_READERS + 2
    ensures Reachable(n, s) && !NotStuck(s)
  {
    var m := N_READERS;
    ReadersLeave(n, m);
    var s0 := Leaving(n, m);
    var s1 := State(1, s0.pc[m := HoldsShared]);
    s := State(0, s1.pc[m := Idle]);
    ReachableNext(n, s0, LockShared(m));
    assert Next(s0, LockShared(m)) == s1;
    ReachableNext(n, s1, UnlockShared(m, None));
    assert Next(s1, UnlockShared(m, None)) == s;
    assert forall u :: 0 <= u < n ==> s.pc[u] == if u == m + 1 then Gate1Shared(false) else Idle;
    assert Waits(s.pc[m + 1]);
  }

  /** Some waiting thread can always go on, or waits for a holder, exactly within that bound. */
  lemma NoDeadlockAmongWaitersIff(n: nat)
    ensures (forall s :: Reachable(n, s) ==> NotStuck(s)) <==> n <= N_READERS + 1
  {
    hide Reachable, SomeoneCanMove;
    if n <= N_READERS + 1 {
      forall s, t | Reachable(n, s) && 0 <= t < |s.pc| && Waits(s.pc[t])
        ensures SomeoneCanMove(s.pc)
      {
        WaiterNotAlone(n, s, t);
      }
    } else {
      var s := StuckReader(n);
    }
  }

  // ----- what every member function obtains, gives back and leaves alone

  // How a thread holds the mutex.
  datatype Hold = Nothing | Shared | Exclusive

  function HoldOf(p: Pc): Hold { if p.HoldsShared? then Shared else if p.HoldsExclusive? then Exclusive else Nothing }

  // No thread holds the mutex in any way, or has claimed it and waits at gate 2.
  ghost predicate Unclaimed(pc: seq<Pc>) {
    forall u :: 0 <= u < |pc| ==> HoldOf(pc[u]) == Nothing && !pc[u].Gate2?
  }

  ghost function SharedHolders(pc: seq<Pc>): set<nat> { set u | 0 <= u < |pc| && pc[u].HoldsShared? }

  // All other threads stay where they are.
  ghost predicate OthersStay(pc: seq<Pc>, pc': seq<Pc>, t: nat) {
    |pc'| == |pc| && forall u :: 0 <= u < |pc| && u != t ==> pc'[u] == pc[u]
  }

  lemma {:induction false} ReadersAreHolders(pc: seq<Pc>)
    ensures Readers(pc) == |SharedHolders(pc)|
  {
    if pc == [] {
    } else {
      var l := |pc| - 1;
      ReadersAreHolders(pc[..l]);
      assert SharedHolders(pc) == SharedHolders(pc[..l]) + if pc[l].HoldsShared? then {l} else {};
    }
  }

  lemma ReachableInv(n: nat, s: State)
    requires Reachable(n, s)
    ensures Inv(s) && |s.pc| == n
  {
    var actions :| Runs(Initial(n), actions, s);
    InitialInv(n);
    RunInv(Initial(n), actions, s);
  }

  lemma UnclaimedMeans(pc: seq<Pc>)
    ensures Unclaimed(pc) <==> !SomeClaim(pc) && Readers(pc) == 0
  {
    if Readers(pc) > 0 { var u := SomeReader(pc); }
    if !SomeClaim(pc) && Readers(pc) == 0 {
      forall u | 0 <= u < |pc|
        ensures HoldOf(pc[u]) == Nothing && !pc[u].Gate2?
      {
        ReadersUpdate(pc, u, Idle);
        assert !Claims(pc[u]);
      }
    }
  }

  /**
    * try_lock obtains the mutex exactly when no thread holds or has claimed it. lock claims it exactly when no thread
    * has claimed it, and then holds it exactly when nobody holds it shared. Whoever obtains nothing waits or goes
    * away empty-handed, and no other thread moves.
    */
  lemma GrantsExclusive(n: nat, s: State, a: Action)
    requires Reachable(n, s) && Enabled(s, a) && (a.Lock? || a.LockSecondGate? || a.TryLock?)
    ensures var s' := Next(s, a);
      && OthersStay(s.pc, s'.pc, a.t)
      && s'.pc[a.t] ==
         match a
         case TryLock(_) => if Unclaimed(s.pc) then HoldsExclusive else Idle
         case Lock(_) =>
           if SomeClaim(s.pc) then Gate1Exclusive(false)
           else if SharedHolders(s.pc) == {} then HoldsExclusive else Gate2(false)
         case _ => if SharedHolders(s.pc) == {} then HoldsExclusive else Gate2(false)
  {
    ReachableInv(n, s);
    WordBits(s);
    ReadersAreHolders(s.pc);
    UnclaimedMeans(s.pc);
  }

  /**
    * Both ways of locking shared obtain the mutex exactly when no thread has claimed it and it has fewer than the
    * largest number of shared holders; otherwise lock_shared waits, try_lock_shared goes away, and no other thread
    * moves.
    */
  lemma GrantsShared(n: nat, s: State, a: Action)
    requires Reachable(n, s) && Enabled(s, a) && (a.LockShared? || a.TryLockShared?)
    ensures var s' := Next(s, a);
      && OthersStay(s.pc, s'.pc, a.t)
      && s'.pc[a.t] ==
         if !SomeClaim(s.pc) && |SharedHolders(s.pc)| < N_READERS then HoldsShared
         else if a.LockShared? then Gate1Shared(false) else Idle
  {
    ReachableInv(n, s);
    WordBits(s);
    ReadersAreHolders(s.pc);
  }

  /** Unlocking leaves the caller idle and gives back exactly its hold: no other thread's hold changes. */
  lemma GivesBack(n: nat, s: State, a: Action)
    requires Reachable(n, s) && Enabled(s, a) && (a.Unlock? || a.UnlockShared?)
    ensures var s' := Next(s, a);
      && |s'.pc| == |s.pc| && s'.pc[a.t] == Idle
      && (forall u :: 0 <= u < |s.pc| && u != a.t ==> HoldOf(s'.pc[u]) == HoldOf(s.pc[u]))
      && (a.Unlock? ==> Unclaimed(s'.pc))
      && (a.UnlockShared? ==> SharedHolders(s'.pc) == SharedHolders(s.pc) - {a.t})
  {
    ReachableInv(n, s);
    if a.Unlock? { UnlockUnclaims(s, a.t); }
  }

  /**
    * unlock signals all waiters of gate 1 and nobody else. unlock_shared signals one waiter of gate 2, if there is
    * one, when the last shared holder leaves a claimed mutex, and one waiter of gate 1, if there is one, when the
    * mutex was not claimed and had the largest number of shared holders; otherwise it signals nobody.
    */
  lemma Wakes(n: nat, s: State, a: Action, u: nat)
    requires Reachable(n, s) && Enabled(s, a) && (a.Unlock? || a.UnlockShared?) && u < |s.pc| && u != a.t
    ensures |Next(s, a).pc| == |s.pc|
    ensures a.Unlock? ==>
      Next(s, a).pc[u] == if s.pc[u].Gate1Exclusive? || s.pc[u].Gate1Shared? then Signal(s.pc[u]) else s.pc[u]
    ensures a.UnlockShared? ==> Next(s, a).pc[u] == if a.woken == Some(u) then Signal(s.pc[u]) else s.pc[u]
    ensures a.UnlockShared? && a.woken == Some(u) ==>
      || (SomeClaim(s.pc) && SharedHolders(s.pc) == {a.t} && WaitsAtGate2(s.pc[u]))
      || (!SomeClaim(s.pc) && |SharedHolders(s.pc)| == N_READERS && WaitsAtGate1(s.pc[u]))
    ensures a.UnlockShared? && a.woken == None && SomeClaim(s.pc) && SharedHolders(s.pc) == {a.t} ==>
      !WaitsAtGate2(s.pc[u])
    ensures a.UnlockShared? && a.woken == None && !SomeClaim(s.pc) && |SharedHolders(s.pc)| == N_READERS ==>
      !WaitsAtGate1(s.pc[u])
  {
    if a.UnlockShared? {
      ReachableInv(n, s);
      WordBits(s);
      ReadersAreHolders(s.pc);
      OnlyHolder(s.pc, a.t);
    }
  }

  /** Whatever a thread has come to in a member function, it can take its next step. */
  lemma NextStepExists(s: State, t: nat) returns (a: Action)
    requires t < |s.pc|
    ensures Enabled(s, a) && a.t == t
    ensures match s.pc[t]
      case Idle => true
      case HoldsExclusive => a.Unlock?
      case HoldsShared => a.UnlockShared?
      case Gate1Exclusive(_) => a.Lock?
      case Gate1Shared(_) => a.LockShared?
      case Gate2(_) => a.LockSecondGate?
    ensures s.pc[t].Idle? ==>
      Enabled(s, Lock(t)) && Enabled(s, TryLock(t)) && Enabled(s, LockShared(t)) && Enabled(s, TryLockShared(t))
  {
    match s.pc[t]
    case Idle => a := Lock(t);
    case HoldsExclusive => a := Unlock(t);
    case HoldsShared =>
      var readers, pc := NumReaders(s) - 1, s.pc[t := Idle];
      var gate := if WriteEntered(s) then WaitsAtGate2 else WaitsAtGate1;
      var woken: Option<nat> := None;
      if readers == if WriteEntered(s) then 0 else N_READERS - 1 {
        if u :| 0 <= u < |pc| && gate(pc[u]) { woken := Some(u); }
      }
      a := UnlockShared(t, woken);
    case Gate1Exclusive(_) => a := Lock(t);
    case Gate1Shared(_) => a := LockShared(t);
    case Gate2(_) => a := LockSecondGate(t);
  }

  lemma OnlyHolder(pc: seq<Pc>, t: nat)
    requires t in SharedHolders(pc)
    ensures |SharedHolders(pc)| >= 1 && (|SharedHolders(pc)| == 1 <==> SharedHolders(pc) == {t})
  {
    assert |SharedHolders(pc) - {t}| == |SharedHolders(pc)| - 1;
    assert SharedHolders(pc) - {t} == {} ==> SharedHolders(pc) == {t};
  }

  lemma UnlockUnclaims(s: State, t: nat)
    requires Inv(s) && Enabled(s, Unlock(t))
    ensures Unclaimed(Next(s, Unlock(t)).pc)
  {
    forall u | 0 <= u < |s.pc| && u != t
      ensures !s.pc[u].HoldsShared? && !Claims(s.pc[u])
    {
      ReadersUpdate(s.pc, u, Idle);
      assert Claims(s.pc[t]);
    }
  }
}
