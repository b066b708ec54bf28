/** The debug database in the abstract: which containers and iterators are registered, and what every operation does. */
module DebugState {
  import opened DebugIndex
  import opened DebugTables
  import opened HashTable
  import opened Options

  // Which containers are registered, and for every registered iterator the container it belongs to.
  datatype State = State(containers: set<Ptr>, owners: map<Ptr, Option<Ptr>>)

  const Empty: State := State({}, map[])

  // What clearing a container does to the owners.
  ghost function Orphaned(owners: map<Ptr, Option<Ptr>>, c: Ptr): map<Ptr, Option<Ptr>> {
    map i | i in owners :: if owners[i] == Some(c) then None else owners[i]
  }

  // Exchanging two containers' arrays exchanges what their iterators belong to.
  ghost function Exchanged(owners: map<Ptr, Option<Ptr>>, c1: Ptr, c2: Ptr): map<Ptr, Option<Ptr>> {
    map i | i in owners ::
      if owners[i] == Some(c1) then Some(c2) else if owners[i] == Some(c2) then Some(c1) else owners[i]
  }

  // What copying an iterator does to the owners.
  ghost function Copied(owners: map<Ptr, Option<Ptr>>, i: Ptr, i0: Ptr): map<Ptr, Option<Ptr>> {
    if i0 in owners then owners[i := owners[i0]] else if i in owners then owners[i := None] else owners
  }

  // ----- the operations

  datatype Op =
    | InsertI(i: Ptr)
    | InsertIC(i: Ptr, c: Ptr)
    | InsertC(c: Ptr)
    | EraseI(i: Ptr)
    | EraseC(c: Ptr)
    | InvalidateAll(c: Ptr)
    | IteratorCopy(i: Ptr, i0: Ptr)
    | SwapC(c1: Ptr, c2: Ptr)
    | FindCFromI(i: Ptr)
    | LessThanComparable(i: Ptr, j: Ptr)

  // What an operation answers.
  datatype Answer = Done | Owner(c: Option<Ptr>) | Comparable(yes: bool)

  // What the callers of an operation guarantee: nothing is registered twice, and what has to be registered is.
  ghost predicate Legal(s: State, op: Op) {
    match op
    case InsertI(i) => i !in s.owners
    case InsertIC(i, c) => c in s.containers ==> i !in s.owners
    case InsertC(c) => c !in s.containers
    case SwapC(c1, c2) => c1 in s.containers && c2 in s.containers
    case FindCFromI(i) => i in s.owners
    case _ => true
  }

  ghost function Step(s: State, op: Op): State {
    match op
    case InsertI(i) => s.(owners := s.owners[i := None])
    case InsertIC(i, c) => if c in s.containers then s.(owners := s.owners[i := Some(c)]) else s
    case InsertC(c) => s.(containers := s.containers + {c})
    case EraseI(i) => s.(owners := s.owners - {i})
    case EraseC(c) =>
      if c in s.containers then State(s.containers - {c}, Orphaned(s.owners, c)) else s
    case InvalidateAll(c) => if c in s.containers then s.(owners := Orphaned(s.owners, c)) else s
    case IteratorCopy(i, i0) => s.(owners := Copied(s.owners, i, i0))
    case SwapC(c1, c2) => s.(owners := Exchanged(s.owners, c1, c2))
    case FindCFromI(_) => s
    case LessThanComparable(_, _) => s
  }

  // Two iterators are comparable if they belong to the same container.
  ghost predicate SameContainer(s: State, i: Ptr, j: Ptr) {
    i in s.owners && j in s.owners && s.owners[i].Some? && s.owners[i] == s.owners[j]
  }

  ghost function AnswerTo(s: State, op: Op): Answer
    requires Legal(s, op)
  {
    match op
    case FindCFromI(i) => Owner(s.owners[i])
    case LessThanComparable(i, j) => Comparable(SameContainer(s, i, j))
    case _ => Done
  }

  // Iterators belong to registered containers only.
  ghost predicate Registered(s: State) {
    forall i :: i in s.owners && s.owners[i].Some? ==> s.owners[i].value in s.containers
  }

  /** What every operation does, for every container and every iterator. */
  lemma StepMeans(s: State, op: Op)
    requires Registered(s) && Legal(s, op)
    ensures var s' := Step(s, op);
      match op
      case InsertI(i) => s'.containers == s.containers && s'.owners == s.owners[i := None]
      case InsertIC(i, c) =>
        && s'.containers == s.containers
        && s'.owners == if c in s.containers then s.owners[i := Some(c)] else s.owners
      case InsertC(c) => s'.containers == s.containers + {c} && s'.owners == s.owners
      case EraseI(i) => s'.containers == s.containers && s'.owners == s.owners - {i}
      case EraseC(c) => s'.containers == s.containers - {c} && Abandoned(s.owners, c, s'.owners)
      case InvalidateAll(c) => s'.containers == s.containers && Abandoned(s.owners, c, s'.owners)
      case IteratorCopy(i, i0) =>
        && s'.containers == s.containers
        && (i0 in s.owners ==> s'.owners == s.owners[i := s.owners[i0]])
        && (i0 !in s.owners && i in s.owners ==> s'.owners == s.owners[i := None])
        && (i0 !in s.owners && i !in s.owners ==> s'.owners == s.owners)
      case SwapC(c1, c2) =>
        && s'.containers == s.containers && s'.owners.Keys == s.owners.Keys
        && Exchanges(s.owners, c1, c2, s'.owners)
      case _ => s' == s
    ensures Registered(Step(s, op))
  {
  }

  // The iterators of a container, and they alone, belong to none afterwards.
  ghost predicate Abandoned(owners: map<Ptr, Option<Ptr>>, c: Ptr, owners': map<Ptr, Option<Ptr>>) {
    && owners'.Keys == owners.Keys
    && (forall i :: i in owners && owners[i] == Some(c) ==> owners'[i] == None)
    && (forall i :: i in owners && owners[i] != Some(c) ==> owners'[i] == owners[i])
  }

  // The iterators of two containers change places, and all others stay.
  ghost predicate Exchanges(owners: map<Ptr, Option<Ptr>>, c1: Ptr, c2: Ptr, owners': map<Ptr, Option<Ptr>>) {
    && owners'.Keys == owners.Keys
    && (forall i :: i in owners && owners[i] == Some(c1) ==> owners'[i] == Some(c2))
    && (forall i :: i in owners && owners[i] == Some(c2) ==> owners'[i] == Some(c1))
    && (forall i :: i in owners && owners[i] != Some(c1) && owners[i] != Some(c2) ==> owners'[i] == owners[i])
  }

  lemma {:induction false} RunRegistered(s: State, ops: seq<Op>)
    requires Registered(s) && LegalRun(s, ops)
    ensures Registered(After(s, ops))
    decreases |ops|
  {
    if ops == [] {
    } else {
      StepMeans(s, ops[0]);
      RunRegistered(Step(s, ops[0]), ops[1..]);
    }
  }

  // ----- runs

  ghost predicate LegalRun(s: State, ops: seq<Op>)
    decreases |ops|
  {
    ops == [] || (Legal(s, ops[0]) && LegalRun(Step(s, ops[0]), ops[1..]))
  }

  ghost function After(s: State, ops: seq<Op>): State
    decreases |ops|
  {
    if ops == [] then s else After(Step(s, ops[0]), ops[1..])
  }

  ghost function Answers(s: State, ops: seq<Op>): seq<Answer>
    requires LegalRun(s, ops)
    decreases |ops|
  {
    if ops == [] then [] else [AnswerTo(s, ops[0])] + Answers(Step(s, ops[0]), ops[1..])
  }

  // ----- what the index in memory stands for

  ghost function OwnerKey(c: CRef): Option<Ptr> {
    if c == null then None else Some(c.key)
  }

  ghost function StateOf(g: Index): State {
    State(g.cnodes.Keys, map i | i in g.owners :: OwnerKey(g.owners[i]))
  }

  lemma StateAbsent(g: Index)
    requires Agreed(g)
    ensures StateOf(g).owners.Keys == g.inodes.Keys && StateOf(g).containers == g.cnodes.Keys
  {
  }

  lemma StateAddContainer(g: Index, n: CNode, l: NodeArray)
    ensures StateOf(AddContainer(g, n, l)) == StateOf(g).(containers := StateOf(g).containers + {n.key})
  {
  }

  lemma StateCleared(g: Index, c: Ptr)
    requires Agreed(g) && c in g.cnodes && c in g.contents
    ensures StateOf(Cleared(g, c)) == StateOf(g).(owners := Orphaned(StateOf(g).owners, c))
  {
    hide Agreed, Cleared;
    ClearedMeans(g, c);
    OwnersRegistered(g);
  }

  lemma StateSwapped(g: Index, c1: Ptr, c2: Ptr)
    requires Agreed(g) && c1 in g.cnodes && c2 in g.cnodes
    ensures StateOf(Swapped(g, c1, c2)) == StateOf(g).(owners := Exchanged(StateOf(g).owners, c1, c2))
  {
    hide Agreed;
    OwnersRegistered(g);
  }

  lemma OwnersRegistered(g: Index)
    requires Agreed(g)
    ensures forall c :: c in g.cnodes ==> g.cnodes[c].key == c
    ensures forall i :: i in g.owners && g.owners[i] != null ==>
      g.owners[i].key in g.cnodes && g.cnodes[g.owners[i].key] == g.owners[i]
  {
  }

  lemma StateRegistered(g: Index)
    requires Agreed(g)
    ensures Registered(StateOf(g))
  {
    OwnersRegistered(g);
    hide Agreed;
  }

  // Only the owners and the registered containers matter.
  lemma StateOwned(g: Index, g': Index, i: Ptr, c: CRef)
    requires g'.cnodes == g.cnodes && g'.owners == g.owners[i := c]
    ensures StateOf(g') == StateOf(g).(owners := StateOf(g).owners[i := OwnerKey(c)])
  {
  }

  lemma StateErased(g: Index, g': Index, i: Ptr)
    requires g'.cnodes == g.cnodes && g'.owners == g.owners - {i}
    ensures StateOf(g') == StateOf(g).(owners := StateOf(g).owners - {i})
  {
  }

  // The copy belongs to the container of the original, and to none if the original is unknown.
  lemma StateCopied(g: Index, g': Index, i: Ptr, i0: Ptr)
    requires g'.cnodes == g.cnodes
    requires g'.owners ==
      if i0 in g.owners then g.owners[i := g.owners[i0]] else if i in g.owners then g.owners[i := null] else g.owners
    ensures StateOf(g') == StateOf(g).(owners := Copied(StateOf(g).owners, i, i0))
  {
  }

  lemma StateDropContainer(g: Index, c: Ptr)
    ensures StateOf(DropContainer(g, c)) == StateOf(g).(containers := StateOf(g).containers - {c})
  {
  }
}
