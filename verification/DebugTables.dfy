/** The two tables of the debug database together with the arrays of its containers: what each change keeps. */
module DebugTables {
  import opened DebugIndex
  import opened HashTable

  type ITable = NodeTable<CRef>
  type CTable = NodeTable<NodeArray>

  // No container's array is a bucket array, and all arrays belong to the database.
  ghost predicate Separate(lists: map<Ptr, NodeArray>, ibuckets: array<IRef>, cbuckets: array<CRef>, parts: set<object>)
    reads lists.Values`beg
  {
    forall c :: c in lists ==>
      && lists[c].beg != ibuckets && (lists[c].beg as object) != cbuckets
      && lists[c] in parts && lists[c].beg in parts
  }

  // New bucket arrays are separate from the arrays that were there, and so is a new container's array.
  lemma SeparateStill(lists: map<Ptr, NodeArray>, ibuckets: array<IRef>, cbuckets: array<CRef>, parts: set<object>,
                      ibuckets': array<IRef>, cbuckets': array<CRef>, parts': set<object>)
    requires Separate(lists, ibuckets, cbuckets, parts) && parts <= parts'
    requires (ibuckets' == ibuckets || ibuckets' !in parts) && (cbuckets' == cbuckets || cbuckets' !in parts)
    ensures Separate(lists, ibuckets', cbuckets', parts')
  {
  }

  lemma SeparateAdd(lists: map<Ptr, NodeArray>, ibuckets: array<IRef>, cbuckets: array<CRef>, parts: set<object>,
                    c: Ptr, l: NodeArray)
    requires Separate(lists, ibuckets, cbuckets, parts) && l in parts && l.beg in parts
    requires l.beg != ibuckets && (l.beg as object) != cbuckets
    ensures Separate(lists[c := l], ibuckets, cbuckets, parts)
  {
  }

  // All nodes belong to the database.
  ghost predicate Known(inodes: map<Ptr, INode>, cnodes: map<Ptr, CNode>, parts: set<object>) {
    && (forall i :: i in inodes ==> inodes[i] in parts)
    && (forall c :: c in cnodes ==> cnodes[c] in parts)
  }

  lemma KnownIterator(inodes: map<Ptr, INode>, cnodes: map<Ptr, CNode>, parts: set<object>, n: INode, more: set<object>)
    requires Known(inodes, cnodes, parts)
    ensures Known(inodes[n.key := n], cnodes, parts + {n} + more)
  {
  }

  lemma KnownContainer(inodes: map<Ptr, INode>, cnodes: map<Ptr, CNode>, parts: set<object>, n: CNode,
                       more: set<object>)
    requires Known(inodes, cnodes, parts)
    ensures Known(inodes, cnodes[n.key := n], parts + {n} + more)
  {
  }

  lemma KnownMore(inodes: map<Ptr, INode>, cnodes: map<Ptr, CNode>, parts: set<object>, more: set<object>)
    requires Known(inodes, cnodes, parts)
    ensures Known(inodes, cnodes, parts + more)
  {
  }

  lemma KnownLess(inodes: map<Ptr, INode>, cnodes: map<Ptr, CNode>, parts: set<object>, key: Ptr)
    requires Known(inodes, cnodes, parts)
    ensures Known(Without(inodes, key), cnodes, parts) && Known(inodes, Without(cnodes, key), parts)
  {
  }

  ghost predicate Disjoint(a: set<object>, b: set<object>) {
    forall o :: o in a ==> o !in b
  }

  // Objects of different classes are different.
  lemma KindsApart(itab: NodeTable<CRef>, ibuckets: array<IRef>, inodes: set<INode>, ctab: NodeTable<NodeArray>,
                   cbuckets: array<CRef>, cnodes: set<CNode>, lists: set<NodeArray>, begs: set<array<IRef>>)
    requires ibuckets !in begs && forall a :: a in begs ==> (a as object) != cbuckets
    ensures Disjoint({itab, ibuckets}, {ctab, cbuckets}) && Disjoint({itab, ibuckets}, cnodes)
    ensures Disjoint({ctab, cbuckets}, inodes) && Disjoint(inodes, cnodes)
    ensures Disjoint(lists, {itab, ctab, ibuckets, cbuckets}) && Disjoint(lists, inodes) && Disjoint(lists, cnodes)
    ensures Disjoint(begs, {itab, ctab, ibuckets, cbuckets}) && Disjoint(begs, inodes) && Disjoint(begs, cnodes)
    ensures Disjoint(inodes, {itab, ibuckets}) && Disjoint(cnodes, {ctab, cbuckets})
  {
  }

  ghost function AddIterator(g: Index, n: INode): (r: Index)
    ensures r.cnodes == g.cnodes && r.lists == g.lists && r.inodes == g.inodes[n.key := n]
  {
    g.(inodes := g.inodes[n.key := n], owners := g.owners[n.key := null])
  }

  lemma AddIteratorKeeps(g: Index, n: INode)
    requires Agreed(g) && Placed(g) && n.key !in g.inodes && n.info == null
    ensures Agreed(AddIterator(g, n)) && Placed(AddIterator(g, n))
  {
    AddIteratorAgrees(g.inodes, g.cnodes, g.owners, g.contents, n);
    hide Agree, Holding, Owning;
  }

  ghost function AddContainer(g: Index, n: CNode, l: NodeArray): (r: Index)
    ensures r.inodes == g.inodes && r.lists == g.lists[n.key := l] && r.cnodes == g.cnodes[n.key := n]
  {
    g.(cnodes := g.cnodes[n.key := n], lists := g.lists[n.key := l], contents := g.contents[n.key := []])
  }

  lemma OwningAdd(cnodes: map<Ptr, CNode>, lists: map<Ptr, NodeArray>, n: CNode, l: NodeArray)
    requires Owning(cnodes, lists) && n.info == l
    ensures Owning(cnodes[n.key := n], lists[n.key := l])
  {
  }

  lemma HoldingAdd(lists: map<Ptr, NodeArray>, contents: map<Ptr, seq<INode>>, c: Ptr, l: NodeArray,
                   ibuckets: array<IRef>, cbuckets: array<CRef>, parts: set<object>)
    requires Holding(lists, contents) && c !in lists && l.Holds([])
    requires Separate(lists, ibuckets, cbuckets, parts) && l !in parts && l.beg !in parts
    ensures Holding(lists[c := l], contents[c := []])
  {
    forall d | d in lists
      ensures lists[d] != l && lists[d].beg != l.beg && lists[d].Holds(contents[d])
    {
    }
    hide NodeArray.Holds, Separate;
  }

  lemma AddContainerKeeps(g: Index, n: CNode, l: NodeArray, ibuckets: array<IRef>, cbuckets: array<CRef>,
                          parts: set<object>)
    requires Agreed(g) && Placed(g) && n.key !in g.cnodes && n.info == l && l.Holds([])
    requires Separate(g.lists, ibuckets, cbuckets, parts) && l !in parts && l.beg !in parts
    ensures Agreed(AddContainer(g, n, l)) && Placed(AddContainer(g, n, l))
  {
    hide Agree, Pointing, Owning, Holding, Separate, NodeArray.Holds;
    assert n.key !in g.lists by { KeysAgree(g); }
    AddContainerAgrees(g.inodes, g.cnodes, g.owners, g.contents, n);
    OwningAdd(g.cnodes, g.lists, n, l);
    HoldingAdd(g.lists, g.contents, n.key, l, ibuckets, cbuckets, parts);
  }

  lemma KeysAgree(g: Index)
    requires Placed(g)
    ensures g.lists.Keys == g.cnodes.Keys == g.contents.Keys && g.owners.Keys == g.inodes.Keys
  {
  }

  // The index without an iterator that is in no array.
  ghost function DropIterator(g: Index, i: Ptr): (r: Index)
    ensures r.cnodes == g.cnodes && r.lists == g.lists && r.inodes == Without(g.inodes, i)
  {
    g.(inodes := Without(g.inodes, i), owners := g.owners - {i})
  }

  lemma DropIteratorPlaced(g: Index, i: Ptr)
    requires Placed(g)
    ensures Placed(DropIterator(g, i))
  {
    hide Holding, Owning;
  }

  lemma DropFreeAgreed(g: Index, i: Ptr)
    requires Agreed(g) && i in g.inodes && g.owners[i] == null
    ensures Agreed(DropIterator(g, i))
  {
    DropIteratorAgrees(g.inodes, g.cnodes, g.owners, g.contents, i);
  }

  // Removing an iterator from its array and dropping it is the same whether or not it first loses its owner.
  lemma DropOwnedAgreed(g: Index, c: Ptr, r: nat)
    requires Agreed(g) && c in g.contents && r < |g.contents[c]|
    ensures Agreed(DropIterator(WithContents(g, c, LeftOut(g.contents[c], r)), g.contents[c][r].key))
  {
    var i := g.contents[c][r].key;
    KnownItem(g, c, r);
    DisconnectedAgreed(g, c, r);
    var d := Disconnected(g, c, r);
    DropFreeAgreed(d, i);
    assert d.owners - {i} == g.owners - {i};
  }

  lemma PointsAt(g: Index, i: Ptr)
    requires Placed(g) && i in g.inodes
    ensures i in g.owners && g.inodes[i].info == g.owners[i]
  {
  }

  // The index without a container whose array is empty.
  ghost function DropContainer(g: Index, c: Ptr): (r: Index)
    ensures r.inodes == g.inodes && r.cnodes == Without(g.cnodes, c) && r.lists == g.lists - {c}
  {
    g.(cnodes := Without(g.cnodes, c), lists := g.lists - {c}, contents := g.contents - {c})
  }

  lemma DropContainerKeeps(g: Index, c: Ptr)
    requires Agreed(g) && Placed(g) && c in g.cnodes && c in g.contents && g.contents[c] == []
    ensures Agreed(DropContainer(g, c)) && Placed(DropContainer(g, c))
  {
    DropContainerAgrees(g.inodes, g.cnodes, g.owners, g.contents, c);
    hide Pointing;
  }

  lemma WithoutAbsent<T>(nodes: map<Ptr, Node<T>>, key: Ptr)
    ensures key !in nodes ==> Without(nodes, key) == nodes
  {
  }

  lemma ListedOnce(g: Index, i: Ptr, c: Ptr)
    requires Agreed(g) && i in g.inodes && c in g.cnodes
    ensures i in g.owners && c in g.contents && (g.owners[i] == g.cnodes[c] <==> g.inodes[i] in g.contents[c])
    ensures forall j, k :: 0 <= j < k < |g.contents[c]| ==> g.contents[c][j] != g.contents[c][k]
  {
  }

  lemma KeyOf(g: Index, i: Ptr)
    requires Agreed(g) && i in g.inodes
    ensures g.inodes[i].key == i && i in g.owners
  {
  }

  /**
    * Both tables and all arrays are sound, they agree with the index, and everything they consist of is among the given
    * parts.
    */
  ghost predicate Intact(itab: ITable, ctab: CTable, g: Index, parts: set<object>)
    reads parts
  {
    && itab in parts && ctab in parts && itab.buckets in parts && ctab.buckets in parts
    && Known(g.inodes, g.cnodes, parts)
    && NodesOf(itab.chains) == g.inodes.Values && NodesOf(ctab.chains) == g.cnodes.Values
    && (forall c :: c in g.lists ==> g.lists[c] in parts)
    && Separate(g.lists, itab.buckets, ctab.buckets, parts)
    && itab.Valid() && ctab.Valid() && itab.nodes == g.inodes && ctab.nodes == g.cnodes
    && Agreed(g) && Placed(g)
  }

  ghost function Begs(lists: map<Ptr, NodeArray>): set<array<IRef>>
    reads lists.Values`beg
  {
    set c | c in lists :: lists[c].beg
  }

  // Which parts are different.
  lemma PartsApart(itab: ITable, ctab: CTable, g: Index, parts: set<object>)
    requires Separate(g.lists, itab.buckets, ctab.buckets, parts)
    ensures Disjoint({itab, itab.buckets}, {ctab, ctab.buckets}) && Disjoint({itab, itab.buckets}, NodesOf(ctab.chains))
    ensures Disjoint({ctab, ctab.buckets}, NodesOf(itab.chains)) && Disjoint(NodesOf(itab.chains), NodesOf(ctab.chains))
    ensures Disjoint(g.lists.Values, {itab, ctab, itab.buckets, ctab.buckets})
    ensures Disjoint(g.lists.Values, NodesOf(itab.chains)) && Disjoint(g.lists.Values, NodesOf(ctab.chains))
    ensures Disjoint(Begs(g.lists), {itab, ctab, itab.buckets, ctab.buckets})
    ensures Disjoint(Begs(g.lists), NodesOf(itab.chains)) && Disjoint(Begs(g.lists), NodesOf(ctab.chains))
    ensures forall c :: c in g.lists ==> g.lists[c] in g.lists.Values && g.lists[c].beg in Begs(g.lists)
    ensures allocated(NodesOf(itab.chains)) && allocated(NodesOf(ctab.chains)) && allocated(g.lists.Values)
      && allocated(Begs(g.lists))
  {
    KindsApart(itab, itab.buckets, NodesOf(itab.chains), ctab, ctab.buckets, NodesOf(ctab.chains), g.lists.Values,
      Begs(g.lists));
  }

  // The nodes of both tables are parts.
  lemma NodesInParts(itab: ITable, ctab: CTable, g: Index, parts: set<object>)
    requires Intact(itab, ctab, g, parts)
    ensures forall n :: n in NodesOf(itab.chains) ==> n in parts
    ensures forall n :: n in NodesOf(ctab.chains) ==> n in parts
  {
    hide Agreed, Placed, NodesOf, Separate, NodeTable.Valid;
  }

  // A new iterator node in the iterator table; the index does not have it yet.
  method LinkIterator(itab: ITable, ctab: CTable, i: Ptr, ghost g: Index, ghost parts: set<object>) returns (r: INode)
    requires Intact(itab, ctab, g, parts) && i !in g.inodes
    modifies itab, itab.buckets, NodesOf(itab.chains)`next
    ensures fresh(r) && r.key == i && r.info == null && (itab.buckets == old(itab.buckets) || fresh(itab.buckets))
    ensures itab.Valid() && itab.nodes == g.inodes[i := r] && ctab.Valid() && ctab.nodes == g.cnodes
    ensures Placed(g) && Separate(g.lists, old(itab.buckets), ctab.buckets, parts)
    ensures NodesOf(ctab.chains) == g.cnodes.Values
  {
    hide Agreed, Placed, NodesOf, NodeTable.Valid, Known, Disjoint, Begs, Separate;
    PartsApart(itab, ctab, g, parts);
    r := itab.Insert(i, null);
  }

  // A new iterator node, with no container.
  method InsertIterator(itab: ITable, ctab: CTable, i: Ptr, ghost g: Index, ghost parts: set<object>)
    returns (r: INode, ghost g': Index, ghost parts': set<object>)
    requires Intact(itab, ctab, g, parts) && i !in g.inodes
    modifies parts
    ensures Intact(itab, ctab, g', parts') && fresh(parts' - parts) && r.key == i && g' == AddIterator(g, r)
  {
    hide Agreed, Placed, NodesOf, NodeTable.Valid, Known, AddIterator, Begs, Separate;
    NodesInParts(itab, ctab, g, parts);
    ghost var buckets := itab.buckets;
    r := LinkIterator(itab, ctab, i, g, parts);
    parts' := parts + {r} + {itab.buckets};
    g' := AddIterator(g, r);
    SeparateStill(g.lists, buckets, ctab.buckets, parts, itab.buckets, ctab.buckets, parts');
    AddIteratorKeeps(g, r);
    KnownIterator(g.inodes, g.cnodes, parts, r, {itab.buckets});
    itab.NodesAreValues();
    ListsInParts(g.lists, itab.buckets, ctab.buckets, parts');
  }

  lemma ListsInParts(lists: map<Ptr, NodeArray>, ibuckets: array<IRef>, cbuckets: array<CRef>, parts: set<object>)
    requires Separate(lists, ibuckets, cbuckets, parts)
    ensures forall c :: c in lists ==> lists[c] in parts
  {
  }

  // A new container node in the container table; the index does not have it yet.
  method LinkContainer(itab: ITable, ctab: CTable, c: Ptr, l: NodeArray, ghost g: Index, ghost parts: set<object>)
    returns (r: CNode)
    requires Intact(itab, ctab, g, parts) && c !in g.cnodes && l.Holds([]) && l !in parts && l.beg !in parts
    modifies ctab, ctab.buckets, NodesOf(ctab.chains)`next
    ensures fresh(r) && r.key == c && r.info == l && (ctab.buckets == old(ctab.buckets) || fresh(ctab.buckets))
    ensures ctab.Valid() && ctab.nodes == g.cnodes[c := r] && itab.Valid() && itab.nodes == g.inodes
    ensures Placed(g) && Separate(g.lists, itab.buckets, old(ctab.buckets), parts)
    ensures NodesOf(itab.chains) == g.inodes.Values && l.Holds([]) && l.beg == old(l.beg)
  {
    hide Agreed, Placed, NodesOf, NodeTable.Valid, Known, Disjoint, Begs, Separate;
    PartsApart(itab, ctab, g, parts);
    KindsApart(itab, itab.buckets, NodesOf(itab.chains), ctab, ctab.buckets, NodesOf(ctab.chains), {l}, {l.beg});
    r := ctab.Insert(c, l);
  }

  // What a linked container node makes of the whole.
  lemma ContainerLinked(itab: ITable, ctab: CTable, g: Index, parts: set<object>, buckets: array<CRef>, r: CNode,
                        l: NodeArray)
    requires Agreed(g) && Placed(g) && Known(g.inodes, g.cnodes, parts) && itab in parts && ctab in parts
      && itab.buckets in parts && buckets in parts
    requires Separate(g.lists, itab.buckets, buckets, parts) && (ctab.buckets == buckets || ctab.buckets !in parts)
    requires l.Holds([]) && l !in parts && l.beg !in parts && (l.beg as object) != ctab.buckets
    requires r.key !in g.cnodes && r.info == l && NodesOf(itab.chains) == g.inodes.Values
    requires itab.Valid() && itab.nodes == g.inodes && ctab.Valid() && ctab.nodes == g.cnodes[r.key := r]
    ensures Intact(itab, ctab, AddContainer(g, r, l), parts + {r} + {ctab.buckets, l, l.beg})
  {
    hide Agreed, Placed, NodesOf, NodeTable.Valid, Known, AddContainer, Begs, Separate, NodeArray.Holds;
    var parts' := parts + {r} + {ctab.buckets, l, l.beg};
    SeparateStill(g.lists, itab.buckets, buckets, parts, itab.buckets, ctab.buckets, parts');
    SeparateAdd(g.lists, itab.buckets, ctab.buckets, parts', r.key, l);
    AddContainerKeeps(g, r, l, itab.buckets, buckets, parts);
    KnownContainer(g.inodes, g.cnodes, parts, r, {ctab.buckets, l, l.beg});
    ctab.NodesAreValues();
    ListsInParts(g.lists[r.key := l], itab.buckets, ctab.buckets, parts');
  }

  // A new container node with an empty array.
  method InsertContainer(itab: ITable, ctab: CTable, c: Ptr, ghost g: Index, ghost parts: set<object>)
    returns (r: CNode, ghost g': Index, ghost parts': set<object>)
    requires Intact(itab, ctab, g, parts) && c !in g.cnodes
    modifies parts
    ensures Intact(itab, ctab, g', parts') && fresh(parts' - parts) && r.key == c && g' == AddContainer(g, r, r.info)
  {
    hide Agreed, Placed, NodesOf, NodeTable.Valid, Known, AddContainer, Begs, Separate, NodeArray.Holds;
    var l := new NodeArray();
    NodesInParts(itab, ctab, g, parts);
    ghost var buckets := ctab.buckets;
    r := LinkContainer(itab, ctab, c, l, g, parts);
    ContainerLinked(itab, ctab, g, parts, buckets, r, l);
    parts' := parts + {r} + {ctab.buckets, l, l.beg};
    g' := AddContainer(g, r, l);
  }

  // Adds an iterator without container to a container.
  method Attach(itab: ITable, ctab: CTable, i: INode, c: CNode, ghost g: Index, ghost parts: set<object>)
    returns (ghost g': Index, ghost parts': set<object>)
    requires Intact(itab, ctab, g, parts) && i.key in g.inodes && g.inodes[i.key] == i && i.key in g.owners
      && g.owners[i.key] == null && c.key in g.cnodes && g.cnodes[c.key] == c
    modifies parts
    ensures c.key in g.contents && g' == Connected(g, i.key, c.key)
    ensures Intact(itab, ctab, g', parts') && fresh(parts' - parts)
  {
    hide Agreed, Placed, NodesOf, NodeTable.Valid, Known, Connected, Disjoint, Begs;
    PartsApart(itab, ctab, g, parts);
    PlacedAt(g, c);
    ConnectedParts(g, i.key, c.key);
    NodeInParts(g, parts, i.key);
    Connect(i, c, g);
    g' := Connected(g, i.key, c.key);
    parts' := parts + {c.info.beg};
    KnownMore(g.inodes, g.cnodes, parts, {c.info.beg});
  }

  lemma NodeInParts(g: Index, parts: set<object>, i: Ptr)
    requires Known(g.inodes, g.cnodes, parts) && i in g.inodes
    ensures g.inodes[i] in parts
  {
  }

  // Takes an iterator out of its container.
  method Detach(itab: ITable, ctab: CTable, i: INode, c: CNode, ghost g: Index, ghost parts: set<object>)
    returns (ghost r: nat, ghost g': Index)
    requires Intact(itab, ctab, g, parts) && i.key in g.inodes && g.inodes[i.key] == i && i.key in g.owners
      && g.owners[i.key] == c && c.key in g.cnodes && g.cnodes[c.key] == c
    modifies parts
    ensures c.key in g.contents && r < |g.contents[c.key]| && g.contents[c.key][r] == i
    ensures g' == Disconnected(g, c.key, r) && Intact(itab, ctab, g', parts)
  {
    hide Agreed, Placed, NodesOf, NodeTable.Valid, Known, Disconnected, Disjoint, Begs;
    PartsApart(itab, ctab, g, parts);
    PlacedAt(g, c);
    NodeInParts(g, parts, i.key);
    r := Disconnect(i, c, g);
    DisconnectedParts(g, c.key, r);
    g' := Disconnected(g, c.key, r);
  }

  lemma NodesAllInParts(g: Index, parts: set<object>)
    requires Known(g.inodes, g.cnodes, parts)
    ensures forall n :: n in g.inodes.Values ==> n in parts
  {
  }

  // Takes all iterators out of a container.
  method ClearContainer(itab: ITable, ctab: CTable, c: CNode, ghost g: Index, ghost parts: set<object>)
    returns (ghost g': Index)
    requires Intact(itab, ctab, g, parts) && c.key in g.cnodes && g.cnodes[c.key] == c
    modifies parts
    ensures c.key in g.contents && g' == Cleared(g, c.key) && Intact(itab, ctab, g', parts)
  {
    hide Agreed, Placed, NodesOf, NodeTable.Valid, Known, Cleared, Disjoint, Begs;
    PartsApart(itab, ctab, g, parts);
    PlacedAt(g, c);
    ClearedMeans(g, c.key);
    NodesAllInParts(g, parts);
    Clear(c, g);
    g' := Cleared(g, c.key);
  }

  // Exchanges the arrays of two containers.
  method SwapContainers(itab: ITable, ctab: CTable, p1: CNode, p2: CNode, ghost g: Index, ghost parts: set<object>)
    returns (ghost g': Index)
    requires Intact(itab, ctab, g, parts)
    requires p1.key in g.cnodes && g.cnodes[p1.key] == p1 && p2.key in g.cnodes && g.cnodes[p2.key] == p2
    modifies parts
    ensures g' == Swapped(g, p1.key, p2.key) && Intact(itab, ctab, g', parts)
  {
    hide Agreed, Placed, NodesOf, NodeTable.Valid, Known, Swapped, Disjoint, Begs;
    PartsApart(itab, ctab, g, parts);
    PlacedAt(g, p1);
    PlacedAt(g, p2);
    SwappedParts(g, p1.key, p2.key);
    NodesAllInParts(g, parts);
    Swap(p1, p2, g);
    g' := Swapped(g, p1.key, p2.key);
  }

  // The node of a registered iterator, taken out of its table.
  method UnlinkIterator(itab: ITable, ctab: CTable, i: Ptr, ghost g: Index, ghost parts: set<object>) returns (p: IRef)
    requires Intact(itab, ctab, g, parts)
    modifies itab`size, itab`nodes, itab`chains, itab.buckets, NodesOf(itab.chains)`next
    ensures p == if i in g.inodes then g.inodes[i] else null
    ensures itab.Valid() && itab.nodes == Without(g.inodes, i) && Placed(g) && ctab.Valid()
    ensures Separate(g.lists, itab.buckets, ctab.buckets, parts) && NodesOf(ctab.chains) == g.cnodes.Values
  {
    hide Agreed, Placed, NodesOf, NodeTable.Valid, Known, Disjoint, Begs, Without, Separate;
    PartsApart(itab, ctab, g, parts);
    p := itab.Unlink(i);
  }

  // The node of a registered container, taken out of its table.
  method UnlinkContainer(itab: ITable, ctab: CTable, c: Ptr, ghost g: Index, ghost parts: set<object>) returns (p: CRef)
    requires Intact(itab, ctab, g, parts)
    modifies ctab`size, ctab`nodes, ctab`chains, ctab.buckets, NodesOf(ctab.chains)`next
    ensures p == if c in g.cnodes then g.cnodes[c] else null
    ensures ctab.Valid() && ctab.nodes == Without(g.cnodes, c) && Placed(g) && itab.Valid()
    ensures Separate(g.lists, itab.buckets, ctab.buckets, parts) && NodesOf(itab.chains) == g.inodes.Values
  {
    hide Agreed, Placed, NodesOf, NodeTable.Valid, Known, Disjoint, Begs, Without, Separate;
    PartsApart(itab, ctab, g, parts);
    p := ctab.Unlink(c);
  }

  // Forgets an iterator whose node has left its table.
  method Forget(itab: ITable, ctab: CTable, p: INode, ghost g: Index, ghost parts: set<object>)
    returns (ghost g': Index)
    requires p.key in g.inodes && g.inodes[p.key] == p && Agreed(g) && Placed(g) && Known(g.inodes, g.cnodes, parts)
    requires Separate(g.lists, itab.buckets, ctab.buckets, parts)
    requires itab.Valid() && itab.nodes == Without(g.inodes, p.key) && ctab.Valid() && ctab.nodes == g.cnodes
    requires itab in parts && ctab in parts && itab.buckets in parts && ctab.buckets in parts
      && NodesOf(ctab.chains) == g.cnodes.Values
    modifies parts
    ensures g'.cnodes == g.cnodes && g'.owners == g.owners - {p.key} && Intact(itab, ctab, g', parts)
  {
    hide Agreed, Placed, NodesOf, NodeTable.Valid, Known, Disjoint, Begs, Without, WithContents;
    PartsApart(itab, ctab, g, parts);
    PointsAt(g, p.key);
    itab.NodesAreValues();
    var c := p.info;
    ghost var h := g;
    if c != null {
      OwnedBy(g, p.key);
      PlacedAt(g, c);
      ghost var r := RemoveFrom(c, p, g);
      DropOwnedAgreed(g, c.key, r);
      h := WithContents(g, c.key, LeftOut(g.contents[c.key], r));
    } else {
      DropFreeAgreed(g, p.key);
    }
    DropIteratorPlaced(h, p.key);
    KnownLess(g.inodes, g.cnodes, parts, p.key);
    g' := DropIterator(h, p.key);
  }

  // Takes an iterator out of its table and out of its container's array.
  method EraseIterator(itab: ITable, ctab: CTable, i: Ptr, ghost g: Index, ghost parts: set<object>)
    returns (ghost g': Index)
    requires Intact(itab, ctab, g, parts)
    modifies parts
    ensures g'.cnodes == g.cnodes && g'.owners == g.owners - {i} && Intact(itab, ctab, g', parts)
  {
    hide Agreed, Placed, NodesOf, NodeTable.Valid, Begs, Without, Separate;
    NodesInParts(itab, ctab, g, parts);
    KeysAgree(g);
    if i in g.inodes { KeyOf(g, i); }
    WithoutAbsent(g.inodes, i);
    g' := g;
    var p := UnlinkIterator(itab, ctab, i, g, parts);
    if p != null {
      g' := Forget(itab, ctab, p, g, parts);
    } else {
      itab.NodesAreValues();
      assert i !in g.owners;
    }
  }

  // Forgets a container whose node has left its table.
  method ForgetContainer(itab: ITable, ctab: CTable, p: CNode, ghost g: Index, ghost parts: set<object>)
    returns (ghost g': Index)
    requires p.key in g.cnodes && g.cnodes[p.key] == p && Agreed(g) && Placed(g) && Known(g.inodes, g.cnodes, parts)
    requires Separate(g.lists, itab.buckets, ctab.buckets, parts)
    requires itab.Valid() && itab.nodes == g.inodes && ctab.Valid() && ctab.nodes == Without(g.cnodes, p.key)
    requires itab in parts && ctab in parts && itab.buckets in parts && ctab.buckets in parts
      && NodesOf(itab.chains) == g.inodes.Values
    modifies parts
    ensures p.key in g.contents && g' == DropContainer(Cleared(g, p.key), p.key) && Intact(itab, ctab, g', parts)
  {
    hide Agreed, Placed, NodesOf, NodeTable.Valid, Known, Disjoint, Begs, Without, DropContainer, Cleared;
    PartsApart(itab, ctab, g, parts);
    PlacedAt(g, p);
    ClearedMeans(g, p.key);
    NodesAllInParts(g, parts);
    ctab.NodesAreValues();
    Clear(p, g);
    ghost var h := Cleared(g, p.key);
    DropContainerKeeps(h, p.key);
    KnownLess(g.inodes, g.cnodes, parts, p.key);
    g' := DropContainer(h, p.key);
  }

  // Takes a container out of its table, after which its iterators belong to no container.
  method EraseContainer(itab: ITable, ctab: CTable, c: Ptr, ghost g: Index, ghost parts: set<object>)
    returns (ghost g': Index)
    requires Intact(itab, ctab, g, parts)
    modifies parts
    ensures if c in g.cnodes then c in g.contents && g' == DropContainer(Cleared(g, c), c) else g' == g
    ensures Intact(itab, ctab, g', parts)
  {
    hide Agreed, Placed, NodesOf, NodeTable.Valid, Begs, Without, Separate, Cleared;
    NodesInParts(itab, ctab, g, parts);
    if c in g.cnodes { OwnersKnown(g, c); }
    WithoutAbsent(g.cnodes, c);
    g' := g;
    var p := UnlinkContainer(itab, ctab, c, g, parts);
    if p != null {
      g' := ForgetContainer(itab, ctab, p, g, parts);
    } else {
      ctab.NodesAreValues();
    }
  }

  lemma OwnersKnown(g: Index, c: Ptr)
    requires Agreed(g) && c in g.cnodes
    ensures g.cnodes[c].key == c && c in g.contents
  {
  }

  // ----- what the source reads off the nodes

  // The node of a key in either table.
  method FindIterator(itab: ITable, ctab: CTable, i: Ptr, ghost g: Index, ghost parts: set<object>) returns (n: IRef)
    requires Intact(itab, ctab, g, parts)
    ensures n == if i in g.inodes then g.inodes[i] else null
    ensures i in g.inodes ==> i in g.owners && n.key == i && n.info == g.owners[i]
    ensures i in g.inodes && g.owners[i] != null ==>
      g.owners[i].key in g.cnodes && g.cnodes[g.owners[i].key] == g.owners[i]
  {
    hide Agreed, Placed, NodesOf, NodeTable.Valid, Known, Separate;
    n := itab.Find(i);
    if i in g.inodes {
      KeyOf(g, i);
      PointsAt(g, i);
      if g.owners[i] != null { OwnedBy(g, i); }
    }
  }

  method FindContainer(itab: ITable, ctab: CTable, c: Ptr, ghost g: Index, ghost parts: set<object>) returns (n: CRef)
    requires Intact(itab, ctab, g, parts)
    ensures n == if c in g.cnodes then g.cnodes[c] else null
    ensures c in g.cnodes ==> n.key == c
  {
    hide Agreed, Placed, NodesOf, NodeTable.Valid, Known, Separate;
    n := ctab.Find(c);
    if c in g.cnodes { OwnersKnown(g, c); }
  }

  // ----- several changes in a row

  // A new iterator node in a container.
  method InsertAttached(itab: ITable, ctab: CTable, i: Ptr, p: CNode, ghost g: Index, ghost parts: set<object>)
    returns (ghost g': Index, ghost parts': set<object>)
    requires Intact(itab, ctab, g, parts) && i !in g.inodes && p.key in g.cnodes && g.cnodes[p.key] == p
    modifies parts
    ensures Intact(itab, ctab, g', parts') && fresh(parts' - parts)
    ensures g'.cnodes == g.cnodes && g'.owners == g.owners[i := p]
  {
    hide Intact;
    IntactAgrees(itab, ctab, g, parts);
    var n;
    n, g', parts' := InsertIterator(itab, ctab, i, g, parts);
    g', parts' := Attach(itab, ctab, n, p, g', parts');
  }

  lemma IntactAgrees(itab: ITable, ctab: CTable, g: Index, parts: set<object>)
    requires Intact(itab, ctab, g, parts)
    ensures Agreed(g)
  {
    hide Agreed, Placed, NodesOf, NodeTable.Valid, Known, Separate;
  }

  // Moves a registered iterator to a container, or to none.
  method MoveTo(itab: ITable, ctab: CTable, n: INode, c0: CRef, ghost g: Index, ghost parts: set<object>)
    returns (ghost g': Index, ghost parts': set<object>)
    requires Intact(itab, ctab, g, parts) && n.key in g.inodes && g.inodes[n.key] == n
    requires c0 != null ==> c0.key in g.cnodes && g.cnodes[c0.key] == c0
    modifies parts
    ensures Intact(itab, ctab, g', parts') && fresh(parts' - parts)
    ensures g'.cnodes == g.cnodes && g'.owners == g.owners[n.key := c0]
  {
    hide Intact, Agreed, Placed;
    IntactPoints(itab, ctab, g, parts, n.key);
    g', parts' := g, parts;
    var c := n.info;
    if c != c0 {
      if c != null {
        ghost var r;
        r, g' := Detach(itab, ctab, n, c, g', parts');
      }
      if c0 != null {
        g', parts' := Attach(itab, ctab, n, c0, g', parts');
      }
    }
  }

  lemma IntactPoints(itab: ITable, ctab: CTable, g: Index, parts: set<object>, i: Ptr)
    requires Intact(itab, ctab, g, parts) && i in g.inodes
    ensures i in g.owners && g.inodes[i].info == g.owners[i] && g.inodes[i].key == i
    ensures g.owners[i] != null ==> g.owners[i].key in g.cnodes && g.cnodes[g.owners[i].key] == g.owners[i]
  {
    hide Agreed, Placed, NodesOf, NodeTable.Valid, Known, Separate;
    KeyOf(g, i);
    PointsAt(g, i);
    if g.owners[i] != null { OwnedBy(g, i); }
  }

  // A new iterator node, moved to a container, or to none.
  method InsertCopy(itab: ITable, ctab: CTable, i: Ptr, c0: CRef, ghost g: Index, ghost parts: set<object>)
    returns (ghost g': Index, ghost parts': set<object>)
    requires Intact(itab, ctab, g, parts) && i !in g.inodes
    requires c0 != null ==> c0.key in g.cnodes && g.cnodes[c0.key] == c0
    modifies parts
    ensures Intact(itab, ctab, g', parts') && fresh(parts' - parts)
    ensures g'.cnodes == g.cnodes && g'.owners == g.owners[i := c0]
  {
    hide Intact;
    var n;
    n, g', parts' := InsertIterator(itab, ctab, i, g, parts);
    g', parts' := MoveTo(itab, ctab, n, c0, g', parts');
  }

  // ----- the empty tables

  const EmptyIndex: Index := Index(map[], map[], map[], map[], map[])

  lemma EmptyIntact(itab: ITable, ctab: CTable)
    requires itab.Valid() && ctab.Valid() && itab.nodes == map[] && ctab.nodes == map[]
    ensures Intact(itab, ctab, EmptyIndex, {itab, ctab, itab.buckets, ctab.buckets})
  {
    itab.NodesAreValues();
    ctab.NodesAreValues();
    hide NodesOf, NodeTable.Valid;
  }

  // ----- what holds of the memory

  // An iterator node points at a container exactly if it stands in the container's array, and then it stands there
  // once.
  ghost predicate PointsIffListed(n: INode, c: CNode)
    reads n, c, c.info, c.info.beg
  {
    var l := c.info;
    && l.end <= l.beg.Length
    && (n.info == c <==> exists k :: 0 <= k < l.end && l.beg[k] == n)
    && forall j, k :: 0 <= j < k < l.end ==> l.beg[j] != l.beg[k]
  }

  lemma PlacedPoints(g: Index, i: Ptr, c: Ptr)
    requires Agreed(g) && Placed(g) && i in g.inodes && c in g.cnodes
    ensures PointsIffListed(g.inodes[i], g.cnodes[c])
  {
    hide Agreed;
    ListedOnce(g, i, c);
    PointsAt(g, i);
    ListHolds(g, c);
    hide Placed, NodeArray.Holds;
    ItemsListed(g.cnodes[c].info, g.contents[c], g.inodes[i]);
  }

  lemma ListHolds(g: Index, c: Ptr)
    requires Placed(g) && c in g.cnodes
    ensures c in g.contents && g.cnodes[c].info.Holds(g.contents[c])
  {
  }

  lemma ItemsListed(l: NodeArray, items: seq<INode>, n: INode)
    requires l.Holds(items) && forall j, k :: 0 <= j < k < |items| ==> items[j] != items[k]
    ensures l.end <= l.beg.Length && (n in items <==> exists k :: 0 <= k < l.end && l.beg[k] == n)
    ensures forall j, k :: 0 <= j < k < l.end ==> l.beg[j] != l.beg[k]
  {
    assert forall k :: 0 <= k < l.end ==> l.beg[k] == items[k];
  }

  // Following the links from the buckets, a node is met in the bucket its hash selects, and in no other.
  ghost predicate InItsBucket<T>(t: NodeTable<T>, n: Node<T>)
    reads t, t.buckets, NodesOf(t.chains)`next
  {
    && t.buckets.Length == |t.chains| > 0
    && forall h :: 0 <= h < |t.chains| ==>
      && t.buckets[h] == At(t.chains[h], 0) && LinkedFrom(t.chains[h], 0)
      && (n in t.chains[h] <==> h == t.hash(n.key) % t.buckets.Length)
  }

  lemma Bucketed<T>(t: NodeTable<T>, key: Ptr)
    requires t.Valid() && key in t.nodes && t.nodes[key].key == key
    ensures InItsBucket(t, t.nodes[key])
  {
    forall h | 0 <= h < |t.chains|
      ensures t.nodes[key] in t.chains[h] <==> h == Slot(t.hash, |t.chains|, key)
    {
      BucketOnly(t.hash, t.chains, t.nodes, key, h);
    }
  }
}
