/**
  * __shared_weak_count as interleaved atomic steps. Handles are identities held by the program: strong (shared_ptr)
  * and weak (weak_ptr). The release and lock operations that span several atomic instructions run in slots, any
  * number of them at once.
  */
module SharedCount {

  datatype Pc =
    | Free                                // no operation in this slot
    | LockLoaded(w: nat, expected: int)   // lock() through weak handle w, object_owners == expected
    | ZeroShared                          // __release_shared reached -1, __on_zero_shared still to come
    | ReleaseWeak                         // about to run __release_weak
    | WeakNotZero                         // __release_weak loaded a count other than 0
    | ZeroWeak(decremented: bool)         // about to run __on_zero_shared_weak

  // shared and weak are the stored counts; destroyed and freed count the __on_zero_* calls.
  datatype State = State(shared: int, weak: int, strong: set<nat>, weakRefs: set<nat>, ops: seq<Pc>,
                         destroyed: nat, freed: nat)

  datatype Action =
    | AddShared(h: nat, made: nat)             // copy strong handle h
    | AddWeak(h: nat, fromStrong: bool, made: nat)  // make a weak handle from handle h
    | ReleaseShared(o: nat, h: nat)             // decrement for strong handle h
    | OnZeroShared(o: nat)
    | StartReleaseWeak(o: nat, w: nat)          // __release_weak called for weak handle w
    | LoadWeak(o: nat)
    | DecrementWeak(o: nat)
    | OnZeroWeak(o: nat)
    | LockLoad(o: nat, w: nat)
    | LockExchange(o: nat, made: nat)          // one round of the compare-exchange loop

  function Initial(slots: nat): State {
    State(0, 0, {0}, {}, seq(slots, _ => Free), 0, 0)
  }

  // What the program may do: use live handles only, and not release a weak handle that a lock() still uses.
  ghost predicate Enabled(s: State, a: Action) {
    match a
    case AddShared(h, made) => h in s.strong && made !in s.strong
    case AddWeak(h, fromStrong, made) => (if fromStrong then h in s.strong else h in s.weakRefs) && made !in s.weakRefs
    case ReleaseShared(o, h) => o < |s.ops| && s.ops[o].Free? && h in s.strong
    case OnZeroShared(o) => o < |s.ops| && s.ops[o].ZeroShared?
    case StartReleaseWeak(o, w) =>
      o < |s.ops| && s.ops[o].Free? && w in s.weakRefs
      && forall i :: 0 <= i < |s.ops| && s.ops[i].LockLoaded? ==> s.ops[i].w != w
    case LoadWeak(o) => o < |s.ops| && s.ops[o].ReleaseWeak?
    case DecrementWeak(o) => o < |s.ops| && s.ops[o].WeakNotZero?
    case OnZeroWeak(o) => o < |s.ops| && s.ops[o].ZeroWeak?
    case LockLoad(o, w) => o < |s.ops| && s.ops[o].Free? && w in s.weakRefs
    case LockExchange(o, made) => o < |s.ops| && s.ops[o].LockLoaded? && made !in s.strong
  }

  ghost function Next(s: State, a: Action): State
    requires Enabled(s, a)
  {
    match a
    case AddShared(_, made) => s.(shared := s.shared + 1, strong := s.strong + {made})
    case AddWeak(_, _, made) => s.(weak := s.weak + 1, weakRefs := s.weakRefs + {made})
    case ReleaseShared(o, h) =>
      s.(shared := s.shared - 1, strong := s.strong - {h},
         ops := if s.shared - 1 == -1 then s.ops[o := ZeroShared] else s.ops)
    case OnZeroShared(o) => s.(destroyed := s.destroyed + 1, ops := s.ops[o := ReleaseWeak])
    case StartReleaseWeak(o, w) => s.(weakRefs := s.weakRefs - {w}, ops := s.ops[o := ReleaseWeak])
    case LoadWeak(o) => s.(ops := s.ops[o := if s.weak == 0 then ZeroWeak(false) else WeakNotZero])
    case DecrementWeak(o) =>
      s.(weak := s.weak - 1, ops := s.ops[o := if s.weak - 1 == -1 then ZeroWeak(true) else Free])
    case OnZeroWeak(o) => s.(freed := s.freed + 1, ops := s.ops[o := Free])
    case LockLoad(o, w) =>
      s.(ops := s.ops[o := if s.shared != -1 then LockLoaded(w, s.shared) else Free])
    case LockExchange(o, made) =>
      var op := s.ops[o];
      if s.shared == op.expected then s.(shared := s.shared + 1, strong := s.strong + {made}, ops := s.ops[o := Free])
      else s.(ops := s.ops[o := if s.shared != -1 then LockLoaded(op.w, s.shared) else Free])
  }

  // The lock() step that hands out a new strong handle.
  ghost predicate LockSucceeds(s: State, a: Action) {
    Enabled(s, a) && a.LockExchange? && s.shared == s.ops[a.o].expected
  }

  ghost predicate Runs(s: State, actions: seq<Action>, s': State)
    decreases |actions|
  {
    if actions == [] then s' == s
    else Enabled(s, actions[0]) && Runs(Next(s, actions[0]), actions[1..], s')
  }

  ghost predicate Reachable(slots: nat, s: State) {
    exists actions :: Runs(Initial(slots), actions, s)
  }

  // ----- counting operations in progress

  datatype Kind = OwesWeak | DestroysObject | DestroysBlock

  // OwesWeak: the operation holds a weak owner of its own, which is the group's while the object is being destroyed,
  // or one being given back that has not been subtracted from the stored count.
  predicate Is(p: Pc, k: Kind) {
    match k
    case OwesWeak => p.ZeroShared? || p.ReleaseWeak? || p.WeakNotZero? || p == ZeroWeak(false)
    case DestroysObject => p.ZeroShared?
    case DestroysBlock => p.ZeroWeak?
  }

  function Count(ops: seq<Pc>, k: Kind): nat {
    if ops == [] then 0 else Count(ops[..|ops|-1], k) + if Is(ops[|ops|-1], k) then 1 else 0
  }

  lemma {:induction false} CountUpdate(ops: seq<Pc>, k: Kind, o: nat, x: Pc)
    requires o < |ops|
    ensures Count(ops[o := x], k) == Count(ops, k) - (if Is(ops[o], k) then 1 else 0) + (if Is(x, k) then 1 else 0)
  {
    var l := |ops| - 1;
    if o == l {
      assert ops[o := x][..l] == ops[..l];
    } else {
      assert ops[o := x][..l] == ops[..l][o := x];
      CountUpdate(ops[..l], k, o, x);
    }
  }

  lemma {:induction false} CountNone(ops: seq<Pc>, k: Kind)
    ensures Count(ops, k) == 0 <==> forall o :: 0 <= o < |ops| ==> !Is(ops[o], k)
  {
    if ops == [] {
    } else {
      CountNone(ops[..|ops|-1], k);
    }
  }

  // Weak owners: live weak handles, the group of strong handles as one, and releases in progress.
  ghost function WeakOwners(s: State): nat {
    |s.weakRefs| + (if s.strong != {} then 1 else 0) + Count(s.ops, OwesWeak)
  }

  // ----- what every step keeps

  // The object: the stored count, and destruction exactly when the last strong handle is gone.
  ghost predicate ObjectInv(s: State) {
    && s.shared == |s.strong| - 1
    && s.destroyed + Count(s.ops, DestroysObject) == (if s.strong == {} then 1 else 0)
  }

  // lock() works on a weak handle that stays live, and holds a count it could increment.
  ghost predicate LocksInv(s: State) {
    forall o :: 0 <= o < |s.ops| && s.ops[o].LockLoaded? ==> s.ops[o].w in s.weakRefs && s.ops[o].expected >= 0
  }

  // The control block: the stored weak count, and destruction exactly when the last weak owner is gone. After the
  // shortcut of __release_weak the last owner still shows in the count.
  ghost predicate BlockInv(s: State) {
    && (s.freed == 0 ==> s.weak == WeakOwners(s) - 1)
    && s.freed + Count(s.ops, DestroysBlock) <= 1
    && (s.freed > 0 ==> WeakOwners(s) == 0)
    && (s.freed == 0 && Count(s.ops, DestroysBlock) == 0 ==> WeakOwners(s) > 0)
    && (forall o :: 0 <= o < |s.ops| && s.ops[o].ZeroWeak? ==> WeakOwners(s) == if s.ops[o].decremented then 0 else 1)
  }

  ghost predicate Inv(s: State) { ObjectInv(s) && LocksInv(s) && BlockInv(s) }

  lemma SlotCounts(s: State, a: Action)
    requires Enabled(s, a) && !a.AddShared? && !a.AddWeak?
    ensures var s' := Next(s, a);
      forall k :: Count(s'.ops, k) == Count(s.ops, k) - (if Is(s.ops[a.o], k) then 1 else 0)
                                                   + (if Is(s'.ops[a.o], k) then 1 else 0)
  {
    var s' := Next(s, a);
    assert s'.ops == s.ops[a.o := s'.ops[a.o]];
    forall k {
      CountUpdate(s.ops, k, a.o, s'.ops[a.o]);
    }
  }

  lemma NextLocks(s: State, a: Action)
    requires ObjectInv(s) && LocksInv(s) && Enabled(s, a)
    ensures LocksInv(Next(s, a))
  {
  }

  lemma NextObjectGrow(s: State, a: Action)
    requires ObjectInv(s) && LocksInv(s) && Enabled(s, a) && (a.AddShared? || a.LockExchange?)
    ensures ObjectInv(Next(s, a))
  {
    hide Count;
    assert |s.strong + {a.made}| == |s.strong| + 1;
    if a.LockExchange? { SlotCounts(s, a); }
  }

  lemma NextObjectSame(s: State, a: Action)
    requires ObjectInv(s) && Enabled(s, a) && !a.ReleaseShared? && !a.AddShared? && !a.LockExchange?
    ensures ObjectInv(Next(s, a))
  {
    hide Count;
    if !a.AddWeak? { SlotCounts(s, a); }
  }

  lemma NextObjectRelease(s: State, a: Action)
    requires ObjectInv(s) && Enabled(s, a) && a.ReleaseShared?
    ensures ObjectInv(Next(s, a))
  {
    hide Count;
    SlotCounts(s, a);
    assert |s.strong - {a.h}| == |s.strong| - 1;
    assert s.strong - {a.h} == {} <==> s.shared == 0;
  }

  lemma OwingSlot(ops: seq<Pc>, i: nat)
    requires i < |ops| && Is(ops[i], OwesWeak)
    ensures Count(ops, OwesWeak) >= 1
    ensures forall j :: 0 <= j < |ops| && j != i && Is(ops[j], OwesWeak) ==> Count(ops, OwesWeak) >= 2
  {
    CountUpdate(ops, OwesWeak, i, Free);
    CountNone(ops[i := Free], OwesWeak);
    assert forall j :: 0 <= j < |ops| && j != i ==> ops[i := Free][j] == ops[j];
  }

  // While a handle lives, or an operation other than the final one owes a weak owner, the block is in use.
  lemma BlockInUse(s: State, i: nat)
    requires BlockInv(s)
    requires s.strong != {} || s.weakRefs != {} || (i < |s.ops| && Is(s.ops[i], OwesWeak) && !s.ops[i].ZeroWeak?)
    ensures s.freed == 0 && Count(s.ops, DestroysBlock) == 0 && forall o :: 0 <= o < |s.ops| ==> !s.ops[o].ZeroWeak?
  {
    if i < |s.ops| && Is(s.ops[i], OwesWeak) { OwingSlot(s.ops, i); }
    assert s.weakRefs != {} ==> |s.weakRefs| > 0;
    forall o | 0 <= o < |s.ops|
      ensures !s.ops[o].ZeroWeak?
    {
      if s.ops[o] == ZeroWeak(false) { OwingSlot(s.ops, o); }
    }
    CountNone(s.ops, DestroysBlock);
  }

  lemma NextReleaseShared(s: State, a: Action)
    requires Inv(s) && Enabled(s, a) && a.ReleaseShared?
    ensures BlockInv(Next(s, a))
  {
    hide Count;
    BlockInUse(s, |s.ops|);
    SlotCounts(s, a);
    assert |s.strong - {a.h}| == |s.strong| - 1;
    assert s.strong - {a.h} == {} <==> s.shared == 0;
  }

  lemma NextCopy(s: State, a: Action)
    requires Inv(s) && Enabled(s, a) && (a.AddShared? || a.AddWeak?)
    ensures BlockInv(Next(s, a))
  {
    hide Count;
    BlockInUse(s, |s.ops|);
  }

  lemma NextLock(s: State, a: Action)
    requires Inv(s) && Enabled(s, a) && (a.LockLoad? || a.LockExchange?)
    ensures BlockInv(Next(s, a))
  {
    hide Count;
    BlockInUse(s, |s.ops|);
    SlotCounts(s, a);
    assert Next(s, a).strong != {} <==> s.strong != {};
  }

  lemma NextRelease(s: State, a: Action)
    requires Inv(s) && Enabled(s, a)
    requires a.OnZeroShared? || a.StartReleaseWeak? || a.LoadWeak? || a.DecrementWeak?
    ensures BlockInv(Next(s, a))
  {
    hide Count;
    BlockInUse(s, a.o);
    SlotCounts(s, a);
  }

  lemma NextFree(s: State, a: Action)
    requires Inv(s) && Enabled(s, a) && a.OnZeroWeak?
    ensures BlockInv(Next(s, a))
  {
    SlotCounts(s, a);
    CountNone(Next(s, a).ops, DestroysBlock);
  }

  lemma NextInv(s: State, a: Action)
    requires Inv(s) && Enabled(s, a)
    ensures Inv(Next(s, a))
  {
    NextLocks(s, a);
    if a.ReleaseShared? { NextObjectRelease(s, a); }
    else if a.AddShared? || a.LockExchange? { NextObjectGrow(s, a); }
    else { NextObjectSame(s, a); }
    if a.OnZeroWeak? { NextFree(s, a); }
    else if a.OnZeroShared? || a.StartReleaseWeak? || a.LoadWeak? || a.DecrementWeak? { NextRelease(s, a); }
    else if a.ReleaseShared? { NextReleaseShared(s, a); }
    else if a.AddShared? || a.AddWeak? { NextCopy(s, a); }
    else { NextLock(s, a); }
  }

  lemma {:induction false} RunInv(s: State, actions: seq<Action>, s': State)
    requires Inv(s) && Runs(s, actions, s')
    ensures Inv(s')
    decreases |actions|
  {
    hide Inv, Next, Enabled;
    if actions == [] {
    } else {
      NextInv(s, actions[0]);
      RunInv(Next(s, actions[0]), actions[1..], s');
    }
  }

  lemma InitialInv(slots: nat)
    ensures Inv(Initial(slots))
  {
    CountNone(Initial(slots).ops, OwesWeak);
    CountNone(Initial(slots).ops, DestroysObject);
    CountNone(Initial(slots).ops, DestroysBlock);
  }

  lemma ReachableInv(slots: nat, s: State)
    requires Reachable(slots, s)
    ensures Inv(s)
  {
    hide Inv, Initial;
    var actions :| Runs(Initial(slots), actions, s);
    InitialInv(slots);
    RunInv(Initial(slots), actions, s);
  }

  // ----- the guarantees

  /** In every interleaving the stored counts are the live owners minus one, the strong handles together counting as
      one weak owner, until the control block is destroyed. */
  lemma CountsAreHandles(slots: nat, s: State)
    requires Reachable(slots, s)
    ensures s.shared == |s.strong| - 1
    ensures s.freed == 0 ==> s.weak == WeakOwners(s) - 1
  {
    ReachableInv(slots, s);
  }

  /** The object is destroyed at most once and never while a strong handle lives; the control block is destroyed at
      most once, after the object, when no handle and no other operation is left. */
  lemma DestroyedOnceInOrder(slots: nat, s: State)
    requires Reachable(slots, s)
    ensures s.destroyed <= 1 && s.freed <= 1
    ensures s.strong != {} ==> s.destroyed == 0
    ensures s.freed == 1 ==> s.destroyed == 1 && s.strong == {} && s.weakRefs == {} &&
                             forall o :: 0 <= o < |s.ops| ==> s.ops[o].Free?
  {
    ReachableInv(slots, s);
    if s.freed == 1 {
      CountNone(s.ops, OwesWeak);
      CountNone(s.ops, DestroysBlock);
      CountNone(s.ops, DestroysObject);
    }
  }

  /** Once every handle is gone and every operation has finished, the object and the control block have both been
      destroyed, each exactly once. */
  lemma NothingLeaks(slots: nat, s: State)
    requires Reachable(slots, s) && s.strong == {} && s.weakRefs == {}
    requires forall o :: 0 <= o < |s.ops| ==> s.ops[o].Free?
    ensures s.destroyed == 1 && s.freed == 1
  {
    ReachableInv(slots, s);
    CountNone(s.ops, OwesWeak);
    CountNone(s.ops, DestroysBlock);
    CountNone(s.ops, DestroysObject);
  }

  /** No step touches the control block after it was destroyed, not even behind the load shortcut. */
  lemma NoUseAfterFree(slots: nat, s: State, a: Action)
    requires Reachable(slots, s) && Enabled(s, a)
    ensures s.freed == 0
  {
    DestroyedOnceInOrder(slots, s);
  }

  /** lock() hands out a handle only while the object lives, and never after it was destroyed. */
  lemma LockNeverRevives(slots: nat, s: State, a: Action)
    requires Reachable(slots, s) && LockSucceeds(s, a)
    ensures s.strong != {} && s.destroyed == 0 && Next(s, a).destroyed == 0
  {
    ReachableInv(slots, s);
  }

  /**
    * lock() gives up only when no strong handle is left. A round that neither succeeds nor gives up goes on with the
    * count it has now seen, so that an undisturbed next round succeeds.
    */
  lemma LockGivesUpOnlyWhenDead(slots: nat, s: State, a: Action)
    requires Reachable(slots, s) && Enabled(s, a) && (a.LockLoad? || a.LockExchange?)
    ensures var s' := Next(s, a);
      if LockSucceeds(s, a) then s'.strong == s.strong + {a.made} && s'.ops[a.o].Free?
      else
        && s'.strong == s.strong && s'.weakRefs == s.weakRefs
        && s'.ops[a.o] == if s.strong == {} then Free
                          else LockLoaded(if a.LockLoad? then a.w else s.ops[a.o].w, |s.strong| - 1)
  {
    ReachableInv(slots, s);
    assert |s.strong| == 0 <==> s.strong == {};
  }

  /** On a live object a lock() that no other step disturbs hands out a strong handle. */
  lemma LockUndisturbed(slots: nat, s: State, o: nat, w: nat, made: nat)
    requires Reachable(slots, s) && Enabled(s, LockLoad(o, w)) && s.strong != {} && made !in s.strong
    ensures var s1 := Next(s, LockLoad(o, w));
      LockSucceeds(s1, LockExchange(o, made)) && Next(s1, LockExchange(o, made)).strong == s.strong + {made}
  {
    LockGivesUpOnlyWhenDead(slots, s, LockLoad(o, w));
    ReachableInv(slots, s);
  }

  /** Copying a handle adds exactly the new one, and releasing a handle takes exactly that one away. */
  lemma HandlesKept(s: State, a: Action)
    requires Enabled(s, a) && !a.LockExchange?
    ensures Next(s, a).strong ==
      if a.AddShared? then s.strong + {a.made} else if a.ReleaseShared? then s.strong - {a.h} else s.strong
    ensures Next(s, a).weakRefs ==
      if a.AddWeak? then s.weakRefs + {a.made} else if a.StartReleaseWeak? then s.weakRefs - {a.w} else s.weakRefs
  {
  }

  /** Whatever an operation has come to, it can take its next step. */
  lemma NextStepExists(s: State, o: nat, made: nat) returns (a: Action)
    requires o < |s.ops| && !s.ops[o].Free? && made !in s.strong
    ensures Enabled(s, a) && !a.AddShared? && !a.AddWeak? && a.o == o
    ensures match s.ops[o]
      case LockLoaded(_, _) => a.LockExchange?
      case ZeroShared => a.OnZeroShared?
      case ReleaseWeak => a.LoadWeak?
      case WeakNotZero => a.DecrementWeak?
      case _ => a.OnZeroWeak?
  {
    match s.ops[o]
    case LockLoaded(_, _) => a := LockExchange(o, made);
    case ZeroShared => a := OnZeroShared(o);
    case ReleaseWeak => a := LoadWeak(o);
    case WeakNotZero => a := DecrementWeak(o);
    case ZeroWeak(_) => a := OnZeroWeak(o);
  }
}
