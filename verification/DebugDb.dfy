/** The debug database: which iterators are registered, and which container each of them belongs to. */
module DebugDb {
  import opened DebugIndex
  import opened DebugState
  import opened DebugTables
  import opened HashTable
  import opened Options

  class Db {
    const itab: ITable
    const ctab: CTable
    ghost var g: Index
    ghost var parts: set<object>

    ghost predicate Valid()
      reads this, parts
    {
      this !in parts && Intact(itab, ctab, g, parts)
    }

    // The objects of the database.
    ghost function Repr(): set<object>
      reads this
    {
      {this} + parts
    }

    // What the database says about its iterators and containers.
    ghost function Abstract(): State
      reads this
    {
      StateOf(g)
    }

    constructor (hash: Ptr -> nat)
      ensures Valid() && fresh(Repr()) && Abstract() == Empty && itab.hash == hash && ctab.hash == hash
    {
      hide Intact, NodeTable.Valid, NodesOf;
      var itable := new NodeTable<CRef>(hash);
      assert allocated(NodesOf(itable.chains));
      var ctable := new NodeTable<NodeArray>(hash);
      itab, ctab := itable, ctable;
      g, parts := EmptyIndex, {itable, ctable, itable.buckets, ctable.buckets};
      EmptyIntact(itable, ctable);
    }

    // __insert_i; the iterator is not registered.
    method InsertI(i: Ptr)
      requires Valid() && i !in Abstract().owners
      modifies Repr()
      ensures Valid() && fresh(Repr() - old(Repr())) && Abstract() == Step(old(Abstract()), Op.InsertI(i))
      ensures Abstract().containers == old(Abstract()).containers
      ensures Abstract().owners == old(Abstract()).owners[i := None]
    {
      hide Intact, StateOf;
      IntactAgrees(itab, ctab, g, parts);
      StateRegistered(g);
      StepMeans(Abstract(), Op.InsertI(i));
      StateAbsent(g);
      ghost var g' := g;
      var n;
      n, g', parts := InsertIterator(itab, ctab, i, g, parts);
      StateOwned(g, g', i, null);
      g := g';
    }

    // __insert_ic; an iterator that gets registered was not.
    method InsertIC(i: Ptr, c: Ptr)
      requires Valid() && (c in Abstract().containers ==> i !in Abstract().owners)
      modifies Repr()
      ensures Valid() && fresh(Repr() - old(Repr())) && Abstract() == Step(old(Abstract()), Op.InsertIC(i, c))
      ensures Abstract().containers == old(Abstract()).containers
      ensures c in old(Abstract()).containers ==> Abstract().owners == old(Abstract()).owners[i := Some(c)]
      ensures c !in old(Abstract()).containers ==> Abstract().owners == old(Abstract()).owners
    {
      hide Intact, StateOf;
      IntactAgrees(itab, ctab, g, parts);
      StateRegistered(g);
      StepMeans(Abstract(), Op.InsertIC(i, c));
      StateAbsent(g);
      var p := FindContainer(itab, ctab, c, g, parts);
      if p == null { return; }
      ghost var before := g;
      g, parts := InsertAttached(itab, ctab, i, p, g, parts);
      StateOwned(before, g, i, p);
    }

    // __insert_c; the container is not registered.
    method InsertC(c: Ptr) returns (r: CNode)
      requires Valid() && c !in Abstract().containers
      modifies Repr()
      ensures Valid() && fresh(Repr() - old(Repr())) && Abstract() == Step(old(Abstract()), Op.InsertC(c)) && r.key == c
      ensures Abstract().containers == old(Abstract()).containers + {c}
      ensures Abstract().owners == old(Abstract()).owners
    {
      hide Intact, StateOf;
      IntactAgrees(itab, ctab, g, parts);
      StateRegistered(g);
      StepMeans(Abstract(), Op.InsertC(c));
      StateAbsent(g);
      ghost var before := g;
      r, g, parts := InsertContainer(itab, ctab, c, g, parts);
      StateAddContainer(before, r, r.info);
    }

    // __erase_i
    method EraseI(i: Ptr)
      requires Valid()
      modifies Repr()
      ensures Valid() && fresh(Repr() - old(Repr())) && Abstract() == Step(old(Abstract()), Op.EraseI(i))
      ensures Abstract().containers == old(Abstract()).containers
      ensures Abstract().owners == old(Abstract()).owners - {i}
    {
      hide Intact, StateOf;
      IntactAgrees(itab, ctab, g, parts);
      StateRegistered(g);
      StepMeans(Abstract(), Op.EraseI(i));
      ghost var before := g;
      g := EraseIterator(itab, ctab, i, g, parts);
      StateErased(before, g, i);
    }

    // __erase_c
    method EraseC(c: Ptr)
      requires Valid()
      modifies Repr()
      ensures Valid() && fresh(Repr() - old(Repr())) && Abstract() == Step(old(Abstract()), Op.EraseC(c))
      ensures Abstract().containers == old(Abstract()).containers - {c}
      ensures Abandoned(old(Abstract()).owners, c, Abstract().owners)
    {
      hide Intact, StateOf, Cleared, Orphaned;
      IntactAgrees(itab, ctab, g, parts);
      StateRegistered(g);
      StepMeans(Abstract(), Op.EraseC(c));
      StateAbsent(g);
      ghost var before := g;
      g := EraseContainer(itab, ctab, c, g, parts);
      if c in before.cnodes {
        StateCleared(before, c);
        StateDropContainer(Cleared(before, c), c);
      }
    }

    // __invalidate_all
    method InvalidateAll(c: Ptr)
      requires Valid()
      modifies Repr()
      ensures Valid() && fresh(Repr() - old(Repr())) && Abstract() == Step(old(Abstract()), Op.InvalidateAll(c))
      ensures Abstract().containers == old(Abstract()).containers
      ensures Abandoned(old(Abstract()).owners, c, Abstract().owners)
    {
      hide Intact, StateOf, Cleared, Orphaned;
      IntactAgrees(itab, ctab, g, parts);
      StateRegistered(g);
      StepMeans(Abstract(), Op.InvalidateAll(c));
      StateAbsent(g);
      var p := FindContainer(itab, ctab, c, g, parts);
      if p == null { return; }
      ghost var before := g;
      g := ClearContainer(itab, ctab, p, g, parts);
      StateCleared(before, c);
    }

    // __iterator_copy
    method IteratorCopy(i: Ptr, i0: Ptr)
      requires Valid()
      modifies Repr()
      ensures Valid() && fresh(Repr() - old(Repr())) && Abstract() == Step(old(Abstract()), Op.IteratorCopy(i, i0))
      ensures Abstract().containers == old(Abstract()).containers
      ensures i0 in old(Abstract()).owners ==>
        Abstract().owners == old(Abstract()).owners[i := old(Abstract()).owners[i0]]
      ensures i0 !in old(Abstract()).owners && i in old(Abstract()).owners ==>
        Abstract().owners == old(Abstract()).owners[i := None]
      ensures i0 !in old(Abstract()).owners && i !in old(Abstract()).owners ==>
        Abstract().owners == old(Abstract()).owners
    {
      hide Intact, StateOf, Copied;
      IntactAgrees(itab, ctab, g, parts);
      StateRegistered(g);
      StepMeans(Abstract(), Op.IteratorCopy(i, i0));
      StateAbsent(g);
      ghost var before := g;
      var n := FindIterator(itab, ctab, i, g, parts);
      var n0 := FindIterator(itab, ctab, i0, g, parts);
      var c0 := if n0 != null then n0.info else null;
      if n != null {
        g, parts := MoveTo(itab, ctab, n, c0, g, parts);
      } else if n0 != null {
        g, parts := InsertCopy(itab, ctab, i, c0, g, parts);
      }
      StateCopied(before, g, i, i0);
    }

    // swap; both containers are registered.
    method SwapC(c1: Ptr, c2: Ptr)
      requires Valid() && c1 in Abstract().containers && c2 in Abstract().containers
      modifies Repr()
      ensures Valid() && fresh(Repr() - old(Repr())) && Abstract() == Step(old(Abstract()), Op.SwapC(c1, c2))
      ensures Abstract().containers == old(Abstract()).containers
      ensures Exchanges(old(Abstract()).owners, c1, c2, Abstract().owners)
    {
      hide Intact, StateOf, Swapped, Exchanged;
      IntactAgrees(itab, ctab, g, parts);
      StateRegistered(g);
      StepMeans(Abstract(), Op.SwapC(c1, c2));
      StateAbsent(g);
      var p1 := FindContainer(itab, ctab, c1, g, parts);
      var p2 := FindContainer(itab, ctab, c2, g, parts);
      ghost var before := g;
      g := SwapContainers(itab, ctab, p1, p2, g, parts);
      StateSwapped(before, c1, c2);
    }

    // __find_c_from_i; the iterator is registered.
    method FindCFromI(i: Ptr) returns (r: Option<Ptr>)
      requires Valid() && i in Abstract().owners
      ensures r == Abstract().owners[i]
    {
      hide Intact;
      IntactAgrees(itab, ctab, g, parts);
      StateAbsent(g);
      var n := FindIterator(itab, ctab, i, g, parts);
      return if n.info != null then Some(n.info.key) else None;
    }

    // __less_than_comparable
    method LessThanComparable(i: Ptr, j: Ptr) returns (r: bool)
      requires Valid()
      ensures r <==> SameContainer(Abstract(), i, j)
      ensures r <==>
        && i in Abstract().owners && j in Abstract().owners
        && Abstract().owners[i].Some? && Abstract().owners[j] == Abstract().owners[i]
    {
      hide Intact;
      IntactAgrees(itab, ctab, g, parts);
      StateAbsent(g);
      var n := FindIterator(itab, ctab, i, g, parts);
      var m := FindIterator(itab, ctab, j, g, parts);
      var ci := if n != null then n.info else null;
      var cj := if m != null then m.info else null;
      return ci != null && ci == cj;
    }

    // ----- runs

    method Perform(op: Op) returns (a: Answer)
      requires Valid() && Legal(Abstract(), op)
      modifies Repr()
      ensures Valid() && fresh(Repr() - old(Repr()))
      ensures Abstract() == Step(old(Abstract()), op) && a == AnswerTo(old(Abstract()), op)
      ensures op.FindCFromI? ==> a == Owner(old(Abstract()).owners[op.i])
      ensures op.LessThanComparable? ==> a.Comparable? && (a.yes <==>
        && op.i in old(Abstract()).owners && op.j in old(Abstract()).owners
        && old(Abstract()).owners[op.i].Some? && old(Abstract()).owners[op.j] == old(Abstract()).owners[op.i])
    {
      hide Valid, Abstract;
      a := Done;
      match op
      case InsertI(i) => InsertI(i);
      case InsertIC(i, c) => InsertIC(i, c);
      case InsertC(c) => var _ := InsertC(c);
      case EraseI(i) => EraseI(i);
      case EraseC(c) => EraseC(c);
      case InvalidateAll(c) => InvalidateAll(c);
      case IteratorCopy(i, i0) => IteratorCopy(i, i0);
      case SwapC(c1, c2) => SwapC(c1, c2);
      case FindCFromI(i) =>
        var c := FindCFromI(i);
        a := Owner(c);
      case LessThanComparable(i, j) =>
        var yes := LessThanComparable(i, j);
        a := Comparable(yes);
    }

    /** Any legal sequence of operations answers and ends as the abstract operations do. */
    method Run(ops: seq<Op>) returns (answers: seq<Answer>)
      requires Valid() && LegalRun(Abstract(), ops)
      modifies Repr()
      ensures Valid() && fresh(Repr() - old(Repr()))
      ensures Abstract() == After(old(Abstract()), ops) && answers == Answers(old(Abstract()), ops)
    {
      hide Valid, Abstract;
      answers := [];
      for k := 0 to |ops|
        invariant Valid() && fresh(Repr() - old(Repr()))
        invariant LegalRun(Abstract(), ops[k..]) && After(Abstract(), ops[k..]) == After(old(Abstract()), ops)
        invariant answers + Answers(Abstract(), ops[k..]) == Answers(old(Abstract()), ops)
      {
        assert ops[k..][1..] == ops[k+1..];
        var a := Perform(ops[k]);
        answers := answers + [a];
      }
    }

    // ----- what holds between operations

    // The nodes are those of the registered keys and point where the abstract state says, every node is where it
    // belongs, and the counters count.
    ghost predicate Consistent()
      reads *
    {
      && g.inodes.Keys == Abstract().owners.Keys && g.cnodes.Keys == Abstract().containers
      && (forall i :: i in g.inodes ==> g.inodes[i].key == i && OwnerKey(g.inodes[i].info) == Abstract().owners[i])
      && (forall i, c :: i in g.inodes && c in g.cnodes ==> PointsIffListed(g.inodes[i], g.cnodes[c]))
      && (forall i :: i in g.inodes ==> InItsBucket(itab, g.inodes[i]))
      && (forall c :: c in g.cnodes ==> InItsBucket(ctab, g.cnodes[c]))
      && itab.size == |Abstract().owners| && ctab.size == |Abstract().containers|
      && forall i :: i in Abstract().owners && Abstract().owners[i].Some? ==>
        Abstract().owners[i].value in Abstract().containers
    }

    /** Iterator nodes point at a container exactly if they are in its array. */
    lemma ArraysAgree(i: Ptr, c: Ptr)
      requires Valid() && i in g.inodes && c in g.cnodes
      ensures PointsIffListed(g.inodes[i], g.cnodes[c])
    {
      hide Agreed, Placed, PointsIffListed, NodeTable.Valid, NodesOf, Known, Separate;
      PlacedPoints(g, i, c);
    }

    /** Every registered node is linked in the bucket its hash selects, and in no other. */
    lemma NodesInBuckets(key: Ptr)
      requires Valid()
      ensures key in g.inodes ==> InItsBucket(itab, g.inodes[key])
      ensures key in g.cnodes ==> InItsBucket(ctab, g.cnodes[key])
    {
      hide Placed, InItsBucket, NodeTable.Valid, NodesOf, Known, Separate;
      OwnersRegistered(g);
      if key in g.inodes {
        KeyOf(g, key);
        Bucketed(itab, key);
      }
      if key in g.cnodes { Bucketed(ctab, key); }
    }

    /** The counters are the numbers of registered iterators and containers, and every owner is registered. */
    lemma Counters()
      requires Valid()
      ensures itab.size == |Abstract().owners| && ctab.size == |Abstract().containers|
      ensures forall i :: i in Abstract().owners && Abstract().owners[i].Some? ==>
        Abstract().owners[i].value in Abstract().containers
    {
      hide Agreed, Placed, Filed, Linked, NodesOf, Known, Separate;
      StateAbsent(g);
      OwnersRegistered(g);
      assert |itab.nodes| == |itab.nodes.Keys| && |Abstract().owners| == |Abstract().owners.Keys|;
      assert |ctab.nodes| == |ctab.nodes.Keys|;
    }

    /** What an iterator node points at is what the abstract state says. */
    lemma NodesMeanOwners(i: Ptr)
      requires Valid()
      ensures g.inodes.Keys == Abstract().owners.Keys && g.cnodes.Keys == Abstract().containers
      ensures i in g.inodes ==> g.inodes[i].key == i && OwnerKey(g.inodes[i].info) == Abstract().owners[i]
    {
      hide Intact;
      IntactAgrees(itab, ctab, g, parts);
      StateAbsent(g);
      if i in g.inodes { IntactPoints(itab, ctab, g, parts, i); }
    }

    lemma ValidIsConsistent()
      requires Valid()
      ensures Consistent()
    {
      hide Valid, PointsIffListed, InItsBucket, Abstract;
      forall i, c | i in g.inodes && c in g.cnodes
        ensures PointsIffListed(g.inodes[i], g.cnodes[c])
      {
        ArraysAgree(i, c);
      }
      forall key
        ensures key in g.inodes ==> InItsBucket(itab, g.inodes[key])
        ensures key in g.cnodes ==> InItsBucket(ctab, g.cnodes[key])
      {
        NodesInBuckets(key);
      }
      forall i
        ensures g.inodes.Keys == Abstract().owners.Keys && g.cnodes.Keys == Abstract().containers
        ensures i in g.inodes ==> g.inodes[i].key == i && OwnerKey(g.inodes[i].info) == Abstract().owners[i]
      {
        NodesMeanOwners(i);
      }
      Counters();
    }

    /** From the empty database on, any legal sequence of operations answers as specified and ends consistently. */
    static method RunFromEmpty(hash: Ptr -> nat, ops: seq<Op>) returns (db: Db, answers: seq<Answer>)
      requires LegalRun(Empty, ops)
      ensures fresh(db) && db.Valid() && db.Consistent()
      ensures db.Abstract() == After(Empty, ops) && answers == Answers(Empty, ops)
    {
      hide Db.Valid, Db.Abstract, Db.Consistent;
      db := new Db(hash);
      answers := db.Run(ops);
      db.ValidIsConsistent();
    }
  }
}
