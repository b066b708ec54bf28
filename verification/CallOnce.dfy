/**
  * __call_once as interleaved steps of any number of calls on any number of flags. All flags share one mutex and one
  * condition variable; a call runs func with the mutex released, and broadcasts after releasing it again.
  */
module CallOnce {

  datatype Flag = NotCalled | InProgress | Done  // 0, 1 and ~0

  datatype Pc =
    | NotStarted
    | Waiting(signalled: bool)
    | Running                     // flag set to 1, executing func
    | Broadcasting(threw: bool)   // flag stored and mutex released, broadcast still to come
    | Returned
    | Threw

  // Call c is on flag target[c]; completions[f] counts the normal completions of func for flag f.
  datatype State = State(flag: seq<Flag>, target: seq<nat>, pc: seq<Pc>, completions: seq<nat>)

  datatype Action =
    | Enter(c: nat)         // take the mutex at the start of the call, or when woken
    | FuncReturns(c: nat)
    | FuncThrows(c: nat)
    | Broadcast(c: nat)

  ghost predicate WellFormed(s: State) {
    && |s.pc| == |s.target| && |s.completions| == |s.flag|
    && forall c :: 0 <= c < |s.target| ==> s.target[c] < |s.flag|
  }

  function Initial(flags: nat, target: seq<nat>): State {
    State(seq(flags, _ => NotCalled), target, seq(|target|, _ => NotStarted), seq(flags, _ => 0))
  }

  ghost predicate Enabled(s: State, a: Action) {
    WellFormed(s) && a.c < |s.pc| &&
    match a
    case Enter(c) => s.pc[c].NotStarted? || s.pc[c].Waiting?
    case FuncReturns(c) => s.pc[c].Running?
    case FuncThrows(c) => s.pc[c].Running?
    case Broadcast(c) => s.pc[c].Broadcasting?
  }

  function Wake(p: Pc): Pc { if p.Waiting? then Waiting(true) else p }

  ghost function Next(s: State, a: Action): State
    requires Enabled(s, a)
  {
    var c := a.c;
    var f := s.target[c];
    match a
    case Enter(_) =>
      (match s.flag[f]
       case InProgress => s.(pc := s.pc[c := Waiting(false)])
       case NotCalled => s.(flag := s.flag[f := InProgress], pc := s.pc[c := Running])
       case Done => s.(pc := s.pc[c := Returned]))
    case FuncReturns(_) =>
      s.(flag := s.flag[f := Done], pc := s.pc[c := Broadcasting(false)],
         completions := s.completions[f := s.completions[f] + 1])
    case FuncThrows(_) =>
      s.(flag := s.flag[f := NotCalled], pc := s.pc[c := Broadcasting(true)])
    case Broadcast(_) =>
      s.(pc := seq(|s.pc|, i requires 0 <= i < |s.pc| =>
                 if i == c then (if s.pc[c].threw then Threw else Returned) else Wake(s.pc[i])))
  }

  ghost predicate Runs(s: State, actions: seq<Action>, s': State)
    decreases |actions|
  {
    if actions == [] then s' == s
    else Enabled(s, actions[0]) && Runs(Next(s, actions[0]), actions[1..], s')
  }

  ghost predicate Reachable(flags: nat, target: seq<nat>, s: State) {
    (forall c :: 0 <= c < |target| ==> target[c] < flags) && exists actions :: Runs(Initial(flags, target), actions, s)
  }

  ghost predicate RunningOn(s: State, c: nat, f: nat)
    requires |s.pc| == |s.target|
  {
    c < |s.pc| && s.pc[c].Running? && s.target[c] == f
  }

  ghost predicate BroadcastPending(s: State, f: nat)
    requires |s.pc| == |s.target|
  {
    exists c :: 0 <= c < |s.pc| && s.pc[c].Broadcasting? && s.target[c] == f
  }

  ghost predicate OneRunner(s: State)
    requires WellFormed(s)
  {
    && (forall f :: 0 <= f < |s.flag| ==> (s.flag[f] == InProgress <==> exists c :: RunningOn(s, c, f)))
    && (forall f, c, d :: RunningOn(s, c, f) && RunningOn(s, d, f) ==> c == d)
  }

  ghost predicate Waiters(s: State)
    requires WellFormed(s)
  {
    forall c :: 0 <= c < |s.pc| && s.pc[c] == Waiting(false) ==>
      s.flag[s.target[c]] == InProgress || BroadcastPending(s, s.target[c])
  }

  ghost predicate Completions(s: State)
    requires WellFormed(s)
  {
    && (forall f :: 0 <= f < |s.flag| ==> s.completions[f] == if s.flag[f] == Done then 1 else 0)
    && (forall c :: 0 <= c < |s.pc| && (s.pc[c] == Returned || s.pc[c] == Broadcasting(false)) ==>
          s.flag[s.target[c]] == Done)
  }

  ghost predicate Inv(s: State) {
    WellFormed(s) && OneRunner(s) && Waiters(s) && Completions(s)
  }

  lemma NextOneRunner(s: State, a: Action)
    requires Enabled(s, a) && OneRunner(s)
    ensures WellFormed(Next(s, a)) && OneRunner(Next(s, a))
  {
    var s', c := Next(s, a), a.c;
    assert forall d, f :: d != c ==> (RunningOn(s', d, f) <==> RunningOn(s, d, f));
    assert s.pc[c].Running? ==> RunningOn(s, c, s.target[c]);
    forall f | 0 <= f < |s.flag|
      ensures s'.flag[f] == InProgress <==> exists d :: RunningOn(s', d, f)
    {
      if s'.flag[f] == InProgress {
        if s.flag[f] == InProgress {
          var d :| RunningOn(s, d, f);
          assert RunningOn(s', d, f);
        } else {
          assert RunningOn(s', c, f);
        }
      }
    }
  }

  lemma NextWaiters(s: State, a: Action)
    requires Enabled(s, a) && Waiters(s) && OneRunner(s)
    ensures WellFormed(Next(s, a)) && Waiters(Next(s, a))
  {
    var s', c := Next(s, a), a.c;
    forall d | 0 <= d < |s'.pc| && s'.pc[d] == Waiting(false)
      ensures s'.flag[s'.target[d]] == InProgress || BroadcastPending(s', s'.target[d])
    {
      if d != c && s.flag[s.target[d]] != InProgress {
        var e :| 0 <= e < |s.pc| && s.pc[e].Broadcasting? && s.target[e] == s.target[d];
        assert s'.pc[e].Broadcasting?;
      }
      if d != c && s.flag[s.target[d]] == InProgress && s'.flag[s'.target[d]] != InProgress {
        assert s'.pc[c].Broadcasting?;
      }
    }
  }

  lemma NextCompletions(s: State, a: Action)
    requires Enabled(s, a) && Completions(s) && OneRunner(s)
    ensures WellFormed(Next(s, a)) && Completions(Next(s, a))
  {
    if s.pc[a.c].Running? { assert RunningOn(s, a.c, s.target[a.c]); }
  }

  lemma NextInv(s: State, a: Action)
    requires Inv(s) && Enabled(s, a)
    ensures Inv(Next(s, a)) && Next(s, a).target == s.target && |Next(s, a).flag| == |s.flag|
  {
    hide OneRunner, Waiters, Completions;
    NextOneRunner(s, a);
    NextWaiters(s, a);
    NextCompletions(s, a);
  }

  lemma {:induction false} RunInv(s: State, actions: seq<Action>, s': State)
    requires Inv(s) && Runs(s, actions, s')
    ensures Inv(s') && s'.target == s.target
    decreases |actions|
  {
    hide Inv, Next, Enabled;
    if actions == [] {
    } else {
      NextInv(s, actions[0]);
      RunInv(Next(s, actions[0]), actions[1..], s');
    }
  }

  lemma ReachableInv(flags: nat, target: seq<nat>, s: State)
    requires Reachable(flags, target, s)
    ensures Inv(s) && s.target == target
  {
    var actions :| Runs(Initial(flags, target), actions, s);
    RunInv(Initial(flags, target), actions, s);
  }

  /** In every interleaving at most one call runs func for a flag at a time, func completes normally at most once for
      a flag, and a call that returned normally saw it complete. */
  lemma ExactlyOnce(flags: nat, target: seq<nat>, s: State)
    requires Reachable(flags, target, s)
    ensures WellFormed(s)
    ensures forall f, c, d :: RunningOn(s, c, f) && RunningOn(s, d, f) ==> c == d
    ensures forall f :: 0 <= f < |s.flag| ==> s.completions[f] <= 1 && (s.completions[f] == 1 <==> s.flag[f] == Done)
    ensures forall c :: 0 <= c < |s.pc| && s.pc[c] == Returned ==> s.completions[s.target[c]] == 1
  {
    ReachableInv(flags, target, s);
  }

  /** Once func has completed for a flag the flag stays done in every continuation, and func does not run again. */
  lemma {:induction false} DoneIsFinal(s: State, actions: seq<Action>, s': State, f: nat)
    requires Inv(s) && Runs(s, actions, s') && f < |s.flag| && s.flag[f] == Done
    ensures WellFormed(s') && f < |s'.flag| && s'.flag[f] == Done && forall c :: !RunningOn(s', c, f)
    decreases |actions|
  {
    if actions == [] {
    } else {
      NextInv(s, actions[0]);
      assert forall c :: !RunningOn(s, c, f);
      assert s.target[actions[0].c] == f ==> !s.pc[actions[0].c].Running?;
      DoneIsFinal(Next(s, actions[0]), actions[1..], s', f);
    }
  }

  /** An unsignalled waiter has a reason to wait: its flag is being worked on, or the broadcast that ends the work is
      still to come; so calls never wait for each other alone. */
  lemma WaitersJustified(flags: nat, target: seq<nat>, s: State, c: nat)
    requires Reachable(flags, target, s) && c < |s.pc| && s.pc[c] == Waiting(false)
    ensures WellFormed(s)
    ensures (exists d :: RunningOn(s, d, s.target[c])) || BroadcastPending(s, s.target[c])
  {
    ReachableInv(flags, target, s);
  }

  // ----- what every step does, and what a run has done

  // Every other call stays where it is.
  ghost predicate OthersStay(s: State, s': State, c: nat) {
    |s'.pc| == |s.pc| && forall d :: 0 <= d < |s.pc| && d != c ==> s'.pc[d] == s.pc[d]
  }

  /**
    * A call returns at once exactly when func has completed for its flag, runs func exactly when it has not and nobody
    * runs it, and otherwise waits.
    */
  lemma Entering(flags: nat, target: seq<nat>, s: State, c: nat)
    requires Reachable(flags, target, s) && Enabled(s, Enter(c))
    ensures var s', f := Next(s, Enter(c)), s.target[c];
      && OthersStay(s, s', c) && s'.completions == s.completions
      && s'.pc[c] ==
         if s.completions[f] == 1 then Returned
         else if exists d :: RunningOn(s, d, f) then Waiting(false) else Running
  {
    ReachableInv(flags, target, s);
  }

  /**
    * func ends with what the call will broadcast; only a return counts as completed, and a throw leaves func to
    * others.
    */
  lemma Finishing(flags: nat, target: seq<nat>, s: State, a: Action)
    requires Reachable(flags, target, s) && Enabled(s, a) && (a.FuncReturns? || a.FuncThrows?)
    ensures var s', f := Next(s, a), s.target[a.c];
      && OthersStay(s, s', a.c) && s'.pc[a.c] == Broadcasting(a.FuncThrows?)
      && s'.completions == s.completions[f := if a.FuncReturns? then 1 else 0]
      && forall d :: !RunningOn(s', d, f)
  {
    ReachableInv(flags, target, s);
    assert RunningOn(s, a.c, s.target[a.c]);
    assert forall d :: RunningOn(Next(s, a), d, s.target[a.c]) ==> d != a.c && RunningOn(s, d, s.target[a.c]);
  }

  /** The broadcast ends its call, by throwing exactly if func threw, and signals every waiting call. */
  lemma Ending(flags: nat, target: seq<nat>, s: State, c: nat)
    requires Reachable(flags, target, s) && Enabled(s, Broadcast(c))
    ensures var s' := Next(s, Broadcast(c));
      && s'.completions == s.completions && |s'.pc| == |s.pc|
      && s'.pc[c] == (if s.pc[c].threw then Threw else Returned)
      && forall d :: 0 <= d < |s.pc| && d != c ==> s'.pc[d] == if s.pc[d].Waiting? then Waiting(true) else s.pc[d]
  {
  }

  // How often func completed for a flag in a run.
  ghost function Returns(target: seq<nat>, actions: seq<Action>, f: nat): nat {
    if actions == [] then 0
    else
      var a := actions[|actions|-1];
      Returns(target, actions[..|actions|-1], f)
        + if a.FuncReturns? && a.c < |target| && target[a.c] == f then 1 else 0
  }

  // What has happened to a call so far, and to a flag.
  ghost predicate ToldThrow(s: State, actions: seq<Action>) {
    forall c :: 0 <= c < |s.pc| ==> (FuncThrows(c) in actions <==> s.pc[c] == Broadcasting(true) || s.pc[c] == Threw)
  }

  ghost predicate ToldReturn(s: State, actions: seq<Action>) {
    forall c :: 0 <= c < |s.pc| ==>
      && (FuncReturns(c) in actions ==> s.pc[c] == Broadcasting(false) || s.pc[c] == Returned)
      && (s.pc[c] == Broadcasting(false) ==> FuncReturns(c) in actions)
  }

  ghost predicate ToldCompletions(s: State, actions: seq<Action>) {
    |s.completions| == |s.flag| && forall f :: 0 <= f < |s.flag| ==> s.completions[f] == Returns(s.target, actions, f)
  }

  ghost predicate Told(s: State, actions: seq<Action>) {
    ToldThrow(s, actions) && ToldReturn(s, actions) && ToldCompletions(s, actions)
  }

  lemma ThrowNext(s: State, actions: seq<Action>, a: Action)
    requires Enabled(s, a) && ToldThrow(s, actions)
    ensures ToldThrow(Next(s, a), actions + [a])
  {
    assert forall b :: b in actions + [a] <==> b in actions || b == a;
  }

  lemma ReturnNext(s: State, actions: seq<Action>, a: Action)
    requires Enabled(s, a) && ToldReturn(s, actions)
    ensures ToldReturn(Next(s, a), actions + [a])
  {
    assert forall b :: b in actions + [a] <==> b in actions || b == a;
  }

  lemma CompletionsTold(s: State, actions: seq<Action>, a: Action)
    requires Enabled(s, a) && ToldCompletions(s, actions)
    ensures ToldCompletions(Next(s, a), actions + [a])
  {
    assert (actions + [a])[..|actions|] == actions;
  }

  lemma ToldNext(s: State, actions: seq<Action>, a: Action)
    requires Enabled(s, a) && Told(s, actions)
    ensures Told(Next(s, a), actions + [a])
  {
    hide ToldThrow, ToldReturn, ToldCompletions, Next, Enabled;
    ThrowNext(s, actions, a);
    ReturnNext(s, actions, a);
    CompletionsTold(s, actions, a);
  }

  lemma {:induction false} RunsLast(s: State, actions: seq<Action>, s': State) returns (m: State)
    requires actions != [] && Runs(s, actions, s')
    ensures var l := |actions| - 1;
      Runs(s, actions[..l], m) && Enabled(m, actions[l]) && s' == Next(m, actions[l])
    decreases |actions|
  {
    hide Next, Enabled;
    var l := |actions| - 1;
    if l == 0 {
      m := s;
      assert actions[..0] == [] && actions[1..] == [];
    } else {
      m := RunsLast(Next(s, actions[0]), actions[1..], s');
      assert actions[1..][..l-1] == actions[..l][1..];
    }
  }

  lemma {:induction false} RunTold(flags: nat, target: seq<nat>, actions: seq<Action>, s: State)
    requires (forall c :: 0 <= c < |target| ==> target[c] < flags) && Runs(Initial(flags, target), actions, s)
    ensures Inv(s) && s.target == target && Told(s, actions)
    decreases |actions|
  {
    hide Next, Enabled, Inv, Told;
    if actions == [] {
      ToldInitial(flags, target);
    } else {
      var l := |actions| - 1;
      var m := RunsLast(Initial(flags, target), actions, s);
      RunTold(flags, target, actions[..l], m);
      ToldNext(m, actions[..l], actions[l]);
      NextInv(m, actions[l]);
      assert actions == actions[..l] + [actions[l]];
    }
  }

  lemma ToldInitial(flags: nat, target: seq<nat>)
    requires forall c :: 0 <= c < |target| ==> target[c] < flags
    ensures Inv(Initial(flags, target)) && Told(Initial(flags, target), [])
  {
  }

  /**
    * A call throws exactly if its own run of func threw, whatever happened to other calls; a call that ended normally
    * did not throw; and func has completed for a flag exactly as often as the run says, which is never twice.
    */
  lemma OutcomeIsHistory(flags: nat, target: seq<nat>, actions: seq<Action>, s: State)
    requires (forall c :: 0 <= c < |target| ==> target[c] < flags) && Runs(Initial(flags, target), actions, s)
    ensures WellFormed(s) && s.target == target
    ensures forall c :: 0 <= c < |s.pc| && s.pc[c] == Threw ==> FuncThrows(c) in actions
    ensures forall c :: 0 <= c < |s.pc| && FuncThrows(c) in actions ==>
      s.pc[c] == Broadcasting(true) || s.pc[c] == Threw
    ensures forall c :: 0 <= c < |s.pc| && s.pc[c] == Returned ==>
      FuncThrows(c) !in actions && Returns(target, actions, target[c]) == 1
    ensures forall f :: 0 <= f < |s.flag| ==> s.completions[f] == Returns(target, actions, f) <= 1
  {
    RunTold(flags, target, actions, s);
    ExactlyOnce(flags, target, s);
  }
}
