/** What a container node of the debug database keeps, and when it agrees with what the iterator nodes point at. */
module DebugIndex {
  import opened HashTable

  type CNode = Node<NodeArray>
  type CRef = Node?<NodeArray>
  type INode = Node<CRef>
  type IRef = Node?<CRef>

  // The growable array of a container node: beg_ is beg, end_ stands end places behind it and cap_ behind all of it.
  class NodeArray {
    var beg: array<IRef>
    var end: nat

    ghost predicate Holds(items: seq<INode>)
      reads this, beg
    {
      end == |items| <= beg.Length && forall k :: 0 <= k < end ==> beg[k] == items[k]
    }

    constructor ()
      ensures Holds([]) && fresh(beg)
    {
      beg := new IRef[0];
      end := 0;
    }

    // Appends a node; a full array is first replaced by one of twice the size.
    method Add(i: INode, ghost items: seq<INode>)
      requires Holds(items)
      modifies this, beg
      ensures Holds(items + [i])
      ensures if old(end) < old(beg.Length) then beg == old(beg)
              else fresh(beg) && beg.Length == if old(end) == 0 then 1 else 2 * old(end)
    {
      if end == beg.Length {
        var nc := 2 * beg.Length;
        if nc == 0 { nc := 1; }
        var newBeg := new IRef[nc](_ => null);
        if nc > 1 {
          forall k | 0 <= k < nc / 2 { newBeg[k] := beg[k]; }
        }
        beg := newBeg;
        end := nc / 2;
      }
      beg[end] := i;
      end := end + 1;
    }

    // Removes the first occurrence of a node and moves what is behind it up by one.
    method Remove(p: INode, ghost items: seq<INode>) returns (ghost r: nat)
      requires Holds(items) && p in items
      modifies this, beg
      ensures beg == old(beg) && r < |items| && items[r] == p && p !in items[..r]
      ensures Holds(items[..r] + items[r+1..])
    {
      var at := 0;
      while beg[at] != p
        invariant at < |items| && p !in items[..at] && p in items[at..]
        decreases |items| - at
      {
        at := at + 1;
      }
      end := end - 1;
      if end != at {
        forall k | at <= k < end { beg[k] := beg[k+1]; }
      }
      r := at;
    }
  }

  // ----- the index

  // Every container's array holds the iterator nodes that point at it, each once.
  ghost predicate Agree(inodes: map<Ptr, INode>, cnodes: map<Ptr, CNode>, owners: map<Ptr, CRef>,
                        contents: map<Ptr, seq<INode>>) {
    && owners.Keys == inodes.Keys && contents.Keys == cnodes.Keys
    && (forall i :: i in inodes ==> inodes[i].key == i)
    && (forall c :: c in cnodes ==> cnodes[c].key == c)
    && (forall i :: i in owners && owners[i] != null ==> owners[i].key in cnodes && cnodes[owners[i].key] == owners[i])
    && (forall i, c :: i in inodes && c in cnodes ==> (inodes[i] in contents[c] <==> owners[i] == cnodes[c]))
    && (forall c, k :: c in cnodes && 0 <= k < |contents[c]| ==>
      contents[c][k].key in inodes && inodes[contents[c][k].key] == contents[c][k])
    && (forall c, j, k :: c in cnodes && 0 <= j < k < |contents[c]| ==> contents[c][j] != contents[c][k])
  }

  lemma AddIteratorAgrees(inodes: map<Ptr, INode>, cnodes: map<Ptr, CNode>, owners: map<Ptr, CRef>,
                          contents: map<Ptr, seq<INode>>, n: INode)
    requires Agree(inodes, cnodes, owners, contents) && n.key !in inodes
    ensures Agree(inodes[n.key := n], cnodes, owners[n.key := null], contents)
  {
  }

  lemma AddContainerAgrees(inodes: map<Ptr, INode>, cnodes: map<Ptr, CNode>, owners: map<Ptr, CRef>,
                           contents: map<Ptr, seq<INode>>, n: CNode)
    requires Agree(inodes, cnodes, owners, contents) && n.key !in cnodes
    ensures Agree(inodes, cnodes[n.key := n], owners, contents[n.key := []])
  {
  }

  lemma ConnectAgrees(inodes: map<Ptr, INode>, cnodes: map<Ptr, CNode>, owners: map<Ptr, CRef>,
                      contents: map<Ptr, seq<INode>>, i: Ptr, c: Ptr)
    requires Agree(inodes, cnodes, owners, contents) && i in inodes && c in cnodes && owners[i] == null
    ensures Agree(inodes, cnodes, owners[i := cnodes[c]], contents[c := contents[c] + [inodes[i]]])
  {
  }

  lemma DisconnectAgrees(inodes: map<Ptr, INode>, cnodes: map<Ptr, CNode>, owners: map<Ptr, CRef>,
                         contents: map<Ptr, seq<INode>>, c: Ptr, r: nat)
    requires Agree(inodes, cnodes, owners, contents) && c in cnodes && r < |contents[c]|
    ensures contents[c][r].key in inodes && owners[contents[c][r].key] == cnodes[c]
    ensures Agree(inodes, cnodes, owners[contents[c][r].key := null], contents[c := LeftOut(contents[c], r)])
  {
  }

  lemma DropIteratorAgrees(inodes: map<Ptr, INode>, cnodes: map<Ptr, CNode>, owners: map<Ptr, CRef>,
                           contents: map<Ptr, seq<INode>>, i: Ptr)
    requires Agree(inodes, cnodes, owners, contents) && i in inodes && owners[i] == null
    ensures Agree(Without(inodes, i), cnodes, owners - {i}, contents)
  {
  }

  lemma DropContainerAgrees(inodes: map<Ptr, INode>, cnodes: map<Ptr, CNode>, owners: map<Ptr, CRef>,
                            contents: map<Ptr, seq<INode>>, c: Ptr)
    requires Agree(inodes, cnodes, owners, contents) && c in cnodes && contents[c] == []
    ensures Agree(inodes, Without(cnodes, c), owners, contents - {c})
  {
  }

  lemma SwapAgrees(inodes: map<Ptr, INode>, cnodes: map<Ptr, CNode>, owners: map<Ptr, CRef>,
                   contents: map<Ptr, seq<INode>>, c1: Ptr, c2: Ptr)
    requires Agree(inodes, cnodes, owners, contents) && c1 in cnodes && c2 in cnodes
    ensures Agree(inodes, cnodes, SwapOwners(owners, cnodes[c1], cnodes[c2]),
                  contents[c1 := contents[c2]][c2 := contents[c1]])
  {
  }

  // The items without the r-th one.
  ghost function LeftOut(items: seq<INode>, r: nat): seq<INode>
    requires r < |items|
  {
    items[..r] + items[r+1..]
  }

  ghost function SwapOwners(owners: map<Ptr, CRef>, n1: CNode, n2: CNode): map<Ptr, CRef> {
    map i | i in owners :: if owners[i] == n1 then n2 else if owners[i] == n2 then n1 else owners[i]
  }

  // ----- the index in memory

  // The registered nodes, the array of every container, what every iterator points at and what every array holds.
  datatype Index = Index(inodes: map<Ptr, INode>, cnodes: map<Ptr, CNode>, lists: map<Ptr, NodeArray>,
                         owners: map<Ptr, CRef>, contents: map<Ptr, seq<INode>>)

  ghost predicate Pointing(inodes: map<Ptr, INode>, owners: map<Ptr, CRef>)
    reads inodes.Values`info
  {
    inodes.Keys == owners.Keys && forall i :: i in inodes ==> inodes[i].key == i && inodes[i].info == owners[i]
  }

  ghost predicate Owning(cnodes: map<Ptr, CNode>, lists: map<Ptr, NodeArray>)
    reads cnodes.Values`info
  {
    cnodes.Keys == lists.Keys && forall c :: c in cnodes ==> cnodes[c].key == c && cnodes[c].info == lists[c]
  }

  // No two containers share an array.
  ghost predicate Holding(lists: map<Ptr, NodeArray>, contents: map<Ptr, seq<INode>>)
    reads lists.Values, set c | c in lists :: lists[c].beg
  {
    && lists.Keys == contents.Keys
    && (forall c :: c in lists ==> lists[c].Holds(contents[c]))
    && (forall c, d :: c in lists && d in lists && c != d ==> lists[c] != lists[d] && lists[c].beg != lists[d].beg)
  }

  // The memory is as the index says.
  ghost predicate Placed(g: Index)
    reads g.inodes.Values`info, g.cnodes.Values`info, g.lists.Values, set c | c in g.lists :: g.lists[c].beg
  {
    Pointing(g.inodes, g.owners) && Owning(g.cnodes, g.lists) && Holding(g.lists, g.contents)
  }

  ghost predicate Agreed(g: Index) { Agree(g.inodes, g.cnodes, g.owners, g.contents) }

  ghost function WithContents(g: Index, c: Ptr, items: seq<INode>): (r: Index)
    ensures r.inodes == g.inodes && r.cnodes == g.cnodes && r.lists == g.lists && r.owners == g.owners
  {
    g.(contents := g.contents[c := items])
  }

  ghost function WithOwner(g: Index, i: Ptr, c: CRef): (r: Index)
    ensures r.inodes == g.inodes && r.cnodes == g.cnodes && r.lists == g.lists && r.contents == g.contents
  {
    g.(owners := g.owners[i := c])
  }

  // ----- one change in memory

  method AddItem(l: NodeArray, i: INode, ghost c: Ptr, ghost lists: map<Ptr, NodeArray>,
                 ghost contents: map<Ptr, seq<INode>>)
    requires Holding(lists, contents) && c in lists && lists[c] == l
    modifies l, l.beg
    ensures Holding(lists, contents[c := contents[c] + [i]]) && (l.beg == old(l.beg) || fresh(l.beg))
  {
    l.Add(i, contents[c]);
  }

  method RemoveItem(l: NodeArray, i: INode, ghost c: Ptr, ghost lists: map<Ptr, NodeArray>,
                    ghost contents: map<Ptr, seq<INode>>)
    returns (ghost r: nat)
    requires Holding(lists, contents) && c in lists && lists[c] == l && i in contents[c]
    modifies l, l.beg
    ensures r < |contents[c]| && contents[c][r] == i && Holding(lists, contents[c := LeftOut(contents[c], r)])
      && l.beg == old(l.beg)
  {
    r := l.Remove(i, contents[c]);
  }

  // Appends to a container's array.
  method AddTo(c: CNode, i: INode, ghost g: Index)
    requires Placed(g) && c.key in g.cnodes && g.cnodes[c.key] == c && c.key in g.contents
    modifies c.info, c.info.beg
    ensures Placed(WithContents(g, c.key, g.contents[c.key] + [i]))
    ensures c.info == old(c.info) && (c.info.beg == old(c.info.beg) || fresh(c.info.beg))
  {
    hide Pointing, Holding;
    AddItem(c.info, i, c.key, g.lists, g.contents);
    assert Pointing(g.inodes, g.owners) && Owning(g.cnodes, g.lists);
  }

  // Removes an iterator from a container's array.
  method RemoveFrom(c: CNode, i: INode, ghost g: Index) returns (ghost r: nat)
    requires Placed(g) && c.key in g.cnodes && g.cnodes[c.key] == c && c.key in g.contents && i in g.contents[c.key]
    modifies c.info, c.info.beg
    ensures r < |g.contents[c.key]| && g.contents[c.key][r] == i
      && Placed(WithContents(g, c.key, LeftOut(g.contents[c.key], r)))
    ensures c.info == old(c.info) && c.info.beg == old(c.info.beg)
  {
    hide Pointing, Holding;
    r := RemoveItem(c.info, i, c.key, g.lists, g.contents);
    assert Pointing(g.inodes, g.owners) && Owning(g.cnodes, g.lists);
  }

  // Lets an iterator point at a container, or at none.
  method Point(i: INode, c: CRef, ghost g: Index)
    requires Placed(g) && i.key in g.inodes && g.inodes[i.key] == i
    modifies i`info
    ensures Placed(WithOwner(g, i.key, c))
  {
    hide Holding;
    i.info := c;
  }

  // ----- connecting and disconnecting

  ghost function Connected(g: Index, i: Ptr, c: Ptr): Index
    requires i in g.inodes && c in g.cnodes && c in g.contents
  {
    WithOwner(WithContents(g, c, g.contents[c] + [g.inodes[i]]), i, g.cnodes[c])
  }

  // The index without the r-th node in a container's array.
  ghost function Disconnected(g: Index, c: Ptr, r: nat): Index
    requires c in g.contents && r < |g.contents[c]|
  {
    WithOwner(WithContents(g, c, LeftOut(g.contents[c], r)), g.contents[c][r].key, null)
  }

  lemma ConnectedAgreed(g: Index, i: Ptr, c: Ptr)
    requires Agreed(g) && i in g.inodes && c in g.cnodes && g.owners[i] == null
    ensures c in g.contents && Agreed(Connected(g, i, c))
  {
    ConnectAgrees(g.inodes, g.cnodes, g.owners, g.contents, i, c);
  }

  lemma DisconnectedAgreed(g: Index, c: Ptr, r: nat)
    requires Agreed(g) && c in g.contents && r < |g.contents[c]|
    ensures Agreed(Disconnected(g, c, r))
  {
    DisconnectAgrees(g.inodes, g.cnodes, g.owners, g.contents, c, r);
  }

  // What it means to point at a container.
  lemma OwnedBy(g: Index, i: Ptr)
    requires Agreed(g) && i in g.inodes && g.owners[i] != null
    ensures var c := g.owners[i];
      && c.key in g.cnodes && g.cnodes[c.key] == c && c.key in g.contents
      && g.inodes[i] in g.contents[c.key]
  {
  }

  // Adds an iterator without owner to a container.
  method Connect(i: INode, c: CNode, ghost g: Index)
    requires Placed(g) && Agreed(g)
    requires i.key in g.inodes && g.inodes[i.key] == i && g.owners[i.key] == null && c.key in g.cnodes
      && g.cnodes[c.key] == c
    modifies i`info, c.info, c.info.beg
    ensures c.key in g.contents && Placed(Connected(g, i.key, c.key)) && Agreed(Connected(g, i.key, c.key))
    ensures c.info == old(c.info) && (c.info.beg == old(c.info.beg) || fresh(c.info.beg))
  {
    hide Placed, Agreed, Agree, Pointing, Owning, Holding, WithContents, WithOwner, LeftOut;
    ConnectedAgreed(g, i.key, c.key);
    AddTo(c, i, g);
    Point(i, c, WithContents(g, c.key, g.contents[c.key] + [i]));
  }

  // Takes an iterator out of its container.
  method Disconnect(i: INode, c: CNode, ghost g: Index) returns (ghost r: nat)
    requires Placed(g) && Agreed(g)
    requires i.key in g.inodes && g.inodes[i.key] == i && g.owners[i.key] == c
    modifies i`info, c.info, c.info.beg
    ensures c.key in g.contents && r < |g.contents[c.key]| && g.contents[c.key][r] == i
    ensures Placed(Disconnected(g, c.key, r)) && Agreed(Disconnected(g, c.key, r))
    ensures c.info == old(c.info) && c.info.beg == old(c.info.beg)
  {
    hide Placed, Agreed, Agree, Pointing, Owning, Holding, WithContents, WithOwner, LeftOut;
    OwnedBy(g, i.key);
    r := RemoveFrom(c, i, g);
    DisconnectedAgreed(g, c.key, r);
    Point(i, null, WithContents(g, c.key, LeftOut(g.contents[c.key], r)));
  }

  // ----- clearing a container

  method PopItem(l: NodeArray, ghost c: Ptr, ghost lists: map<Ptr, NodeArray>, ghost contents: map<Ptr, seq<INode>>)
    returns (i: INode)
    requires Holding(lists, contents) && c in lists && lists[c] == l && l.end > 0
    modifies l`end
    ensures contents[c] != [] && i == contents[c][|contents[c]|-1]
    ensures Holding(lists, contents[c := LeftOut(contents[c], |contents[c]| - 1)])
  {
    l.end := l.end - 1;
    i := l.beg[l.end];
  }

  lemma PlacedAt(g: Index, c: CNode)
    requires Placed(g) && c.key in g.cnodes && g.cnodes[c.key] == c
    ensures c.key in g.lists && c.info == g.lists[c.key] && c.key in g.contents && c.info.end == |g.contents[c.key]|
  {
  }

  // Takes the last iterator out of an array.
  method PopFrom(c: CNode, ghost g: Index) returns (i: INode)
    requires Placed(g) && c.key in g.cnodes && g.cnodes[c.key] == c && c.key in g.contents && c.info.end > 0
    modifies c.info`end
    ensures g.contents[c.key] != [] && i == g.contents[c.key][|g.contents[c.key]|-1]
    ensures Placed(WithContents(g, c.key, LeftOut(g.contents[c.key], |g.contents[c.key]| - 1)))
  {
    hide Pointing, Holding;
    i := PopItem(c.info, c.key, g.lists, g.contents);
    assert Pointing(g.inodes, g.owners) && Owning(g.cnodes, g.lists);
  }

  // The index with all iterators taken out of a container, the last one first.
  ghost function Cleared(g: Index, c: Ptr): Index
    requires c in g.contents
    decreases |g.contents[c]|
  {
    if g.contents[c] == [] then g else Cleared(Disconnected(g, c, |g.contents[c]| - 1), c)
  }

  lemma KnownItem(g: Index, c: Ptr, r: nat)
    requires Agreed(g) && c in g.contents && r < |g.contents[c]|
    ensures var n := g.contents[c][r];
      && c in g.cnodes && n.key in g.inodes && g.inodes[n.key] == n
      && n.key in g.owners && g.owners[n.key] == g.cnodes[c]
  {
  }

  lemma ConnectedParts(g: Index, i: Ptr, c: Ptr)
    requires i in g.inodes && c in g.cnodes && c in g.contents
    ensures var d := Connected(g, i, c); d.inodes == g.inodes && d.cnodes == g.cnodes && d.lists == g.lists
  {
  }

  lemma DisconnectedParts(g: Index, c: Ptr, r: nat)
    requires c in g.contents && r < |g.contents[c]|
    ensures var d := Disconnected(g, c, r);
      && d.inodes == g.inodes && d.cnodes == g.cnodes && d.lists == g.lists && c in d.contents
        && |d.contents[c]| == |g.contents[c]| - 1
  {
  }

  method Clear(c: CNode, ghost g: Index)
    requires Placed(g) && Agreed(g) && c.key in g.cnodes && g.cnodes[c.key] == c && c.key in g.contents
    modifies c.info`end, g.inodes.Values`info
    ensures Placed(Cleared(g, c.key)) && Agreed(Cleared(g, c.key))
  {
    hide Placed, Agreed, Agree, Pointing, Owning, Holding, WithContents, WithOwner, LeftOut, Disconnected;
    ghost var h := g;
    PlacedAt(h, c);
    while c.info.end != 0
      invariant Placed(h) && Agreed(h) && h.inodes == g.inodes && h.cnodes == g.cnodes && h.lists == g.lists
      invariant c.info == g.lists[c.key]
      invariant c.key in h.contents && c.info.end == |h.contents[c.key]| && Cleared(h, c.key) == Cleared(g, c.key)
      decreases c.info.end
    {
      ghost var last := |h.contents[c.key]| - 1;
      KnownItem(h, c.key, last);
      DisconnectedAgreed(h, c.key, last);
      DisconnectedParts(h, c.key, last);
      var i := PopAndForget(c, h);
      h := Disconnected(h, c.key, last);
      PlacedAt(h, c);
    }
  }

  method PopAndForget(c: CNode, ghost g: Index) returns (i: INode)
    requires Placed(g) && Agreed(g) && c.key in g.cnodes && g.cnodes[c.key] == c && c.key in g.contents
    requires c.info.end > 0
    modifies c.info`end, g.inodes.Values`info
    ensures g.contents[c.key] != [] && Placed(Disconnected(g, c.key, |g.contents[c.key]| - 1))
  {
    hide Placed, Agreed, Agree, Pointing, Owning, Holding, WithContents, WithOwner, LeftOut;
    i := PopFrom(c, g);
    KnownItem(g, c.key, |g.contents[c.key]| - 1);
    Point(i, null, WithContents(g, c.key, LeftOut(g.contents[c.key], |g.contents[c.key]| - 1)));
  }

  ghost function Disowned(owners: map<Ptr, CRef>, n: CNode): map<Ptr, CRef> {
    map i | i in owners :: if owners[i] == n then null else owners[i]
  }

  lemma DisownedOne(owners: map<Ptr, CRef>, n: CNode, i: Ptr)
    requires i in owners && owners[i] == n
    ensures Disowned(owners[i := null], n) == Disowned(owners, n)
  {
  }

  lemma DisownedNone(g: Index, c: Ptr)
    requires Agreed(g) && c in g.contents && g.contents[c] == []
    ensures c in g.cnodes && Disowned(g.owners, g.cnodes[c]) == g.owners && g.contents == g.contents[c := []]
  {
    forall i | i in g.owners
      ensures g.owners[i] != g.cnodes[c]
    {
      assert g.inodes[i] !in g.contents[c];
    }
  }

  // Clearing leaves the container empty and its iterators without owner, and changes nothing else.
  lemma {:induction false} ClearedMeans(g: Index, c: Ptr)
    requires Agreed(g) && c in g.contents
    ensures c in g.cnodes
      && Cleared(g, c) == g.(contents := g.contents[c := []], owners := Disowned(g.owners, g.cnodes[c]))
    decreases |g.contents[c]|
  {
    hide Agreed, Disowned, LeftOut;
    if g.contents[c] == [] {
      DisownedNone(g, c);
    } else {
      var last := |g.contents[c]| - 1;
      KnownItem(g, c, last);
      DisconnectedAgreed(g, c, last);
      DisconnectedParts(g, c, last);
      DisownedOne(g.owners, g.cnodes[c], g.contents[c][last].key);
      ClearedMeans(Disconnected(g, c, last), c);
    }
  }

  // ----- exchanging the arrays of two containers

  method SwapArrays(l1: NodeArray, l2: NodeArray, ghost items1: seq<INode>, ghost items2: seq<INode>)
    requires l1.Holds(items1) && l2.Holds(items2) && (l1 == l2 ==> items1 == items2)
    modifies l1, l2
    ensures l1.Holds(items2) && l2.Holds(items1) && l1.beg == old(l2.beg) && l2.beg == old(l1.beg)
  {
    var beg, end := l1.beg, l1.end;
    l1.beg, l1.end := l2.beg, l2.end;
    l2.beg, l2.end := beg, end;
  }

  method SwapItems(l1: NodeArray, l2: NodeArray, ghost c1: Ptr, ghost c2: Ptr, ghost lists: map<Ptr, NodeArray>,
                   ghost contents: map<Ptr, seq<INode>>)
    requires Holding(lists, contents) && c1 in lists && lists[c1] == l1 && c2 in lists && lists[c2] == l2
    modifies l1, l2
    ensures Holding(lists, contents[c1 := contents[c2]][c2 := contents[c1]])
    ensures l1.beg == old(l2.beg) && l2.beg == old(l1.beg)
  {
    hide NodeArray.Holds;
    SwapArrays(l1, l2, contents[c1], contents[c2]);
  }

  method SwapLists(p1: CNode, p2: CNode, ghost g: Index)
    requires Placed(g) && p1.key in g.cnodes && g.cnodes[p1.key] == p1 && p2.key in g.cnodes && g.cnodes[p2.key] == p2
    requires p1.key in g.contents && p2.key in g.contents
    modifies p1.info, p2.info
    ensures Placed(WithContents(WithContents(g, p1.key, g.contents[p2.key]), p2.key, g.contents[p1.key]))
    ensures p1.info.beg == old(p2.info.beg) && p2.info.beg == old(p1.info.beg) && p1.info == old(p1.info)
      && p2.info == old(p2.info)
  {
    hide Pointing, Holding;
    SwapItems(p1.info, p2.info, p1.key, p2.key, g.lists, g.contents);
    assert Pointing(g.inodes, g.owners) && Owning(g.cnodes, g.lists);
  }

  ghost function PointedTo(g: Index, items: seq<INode>, c: CNode): (r: Index)
    ensures r.inodes == g.inodes && r.cnodes == g.cnodes && r.lists == g.lists && r.contents == g.contents
  {
    if items == [] then g else WithOwner(PointedTo(g, items[..|items|-1], c), items[|items|-1].key, c)
  }

  // Lets the iterators in a container's array point at it.
  method PointAll(c: CNode, ghost g: Index)
    requires Placed(g) && c.key in g.cnodes && g.cnodes[c.key] == c && c.key in g.contents
    requires forall k :: 0 <= k < |g.contents[c.key]| ==>
      var n := g.contents[c.key][k]; n.key in g.inodes && g.inodes[n.key] == n
    modifies g.inodes.Values`info
    ensures Placed(PointedTo(g, g.contents[c.key], c))
  {
    hide Placed, Pointing, Owning, Holding, WithOwner;
    ghost var items := g.contents[c.key];
    PlacedAt(g, c);
    ghost var h := g;
    for k := 0 to c.info.end
      invariant c.info.end == |items| && Placed(h) && h == PointedTo(g, items[..k], c)
    {
      PlacedItem(h, c, k);
      var i := c.info.beg[k];
      Point(i, c, h);
      h := WithOwner(h, i.key, c);
      assert items[..k+1][..k] == items[..k];
      PlacedAt(h, c);
    }
    assert items[..|items|] == items;
  }

  lemma PlacedItem(g: Index, c: CNode, k: nat)
    requires Placed(g) && c.key in g.cnodes && g.cnodes[c.key] == c && c.key in g.contents && k < |g.contents[c.key]|
    ensures k < c.info.beg.Length && c.info.beg[k] == g.contents[c.key][k]
  {
  }

  // What pointing at a container changes.
  lemma {:induction false} PointedToMeans(g: Index, items: seq<INode>, c: CNode)
    requires forall k :: 0 <= k < |items| ==> items[k].key in g.inodes && g.inodes[items[k].key] == items[k]
    requires g.owners.Keys == g.inodes.Keys && forall i :: i in g.inodes ==> g.inodes[i].key == i
    ensures var r := PointedTo(g, items, c).owners;
      r.Keys == g.owners.Keys && forall i :: i in r ==> r[i] == if g.inodes[i] in items then c else g.owners[i]
  {
    if items == [] {
    } else {
      var last := |items| - 1;
      PointedToMeans(g, items[..last], c);
      assert items == items[..last] + [items[last]];
    }
  }

  ghost function SwappedContents(g: Index, c1: Ptr, c2: Ptr): (r: Index)
    requires c1 in g.contents && c2 in g.contents
    ensures r.inodes == g.inodes && r.cnodes == g.cnodes && r.lists == g.lists && r.owners == g.owners
    ensures r.contents == g.contents[c1 := g.contents[c2]][c2 := g.contents[c1]]
  {
    WithContents(WithContents(g, c1, g.contents[c2]), c2, g.contents[c1])
  }

  // The index with two containers' arrays exchanged and their iterators pointing at the new ones.
  ghost function Swapped(g: Index, c1: Ptr, c2: Ptr): Index
    requires c1 in g.cnodes && c2 in g.cnodes
  {
    g.(contents := if c1 in g.contents
      && c2 in g.contents then g.contents[c1 := g.contents[c2]][c2 := g.contents[c1]] else g.contents,
       owners := SwapOwners(g.owners, g.cnodes[c1], g.cnodes[c2]))
  }

  lemma SwappedParts(g: Index, c1: Ptr, c2: Ptr)
    requires c1 in g.cnodes && c2 in g.cnodes
    ensures var r := Swapped(g, c1, c2); r.inodes == g.inodes && r.cnodes == g.cnodes && r.lists == g.lists
  {
  }

  lemma SwappedAgreed(g: Index, c1: Ptr, c2: Ptr)
    requires Agreed(g) && c1 in g.cnodes && c2 in g.cnodes
    ensures Agreed(Swapped(g, c1, c2)) && c1 in g.contents && c2 in g.contents
    ensures forall k :: 0 <= k < |g.contents[c1]| ==>
      var n := g.contents[c1][k]; n.key in g.inodes && g.inodes[n.key] == n
    ensures forall k :: 0 <= k < |g.contents[c2]| ==>
      var n := g.contents[c2][k]; n.key in g.inodes && g.inodes[n.key] == n
  {
    SwapAgrees(g.inodes, g.cnodes, g.owners, g.contents, c1, c2);
  }

  // Pointing the nodes of the second array at the first container, and those of the first at the second, swaps owners.
  lemma SwapPoints(inodes: map<Ptr, INode>, owners: map<Ptr, CRef>, items1: seq<INode>, items2: seq<INode>, n1: CNode,
                   n2: CNode, once: map<Ptr, CRef>, twice: map<Ptr, CRef>)
    requires owners.Keys == inodes.Keys && once.Keys == owners.Keys && twice.Keys == owners.Keys
    requires forall i :: i in inodes ==> (inodes[i] in items1 <==> owners[i] == n1)
    requires forall i :: i in inodes ==> (inodes[i] in items2 <==> owners[i] == n2)
    requires forall i :: i in once ==> once[i] == if inodes[i] in items2 then n1 else owners[i]
    requires forall i :: i in twice ==> twice[i] == if inodes[i] in items1 then n2 else once[i]
    ensures twice == SwapOwners(owners, n1, n2)
  {
  }

  lemma ItemsOwned(g: Index, c: Ptr)
    requires Agreed(g) && c in g.cnodes
    ensures c in g.contents && g.owners.Keys == g.inodes.Keys && forall i :: i in g.inodes ==> g.inodes[i].key == i
    ensures forall i :: i in g.inodes ==> (g.inodes[i] in g.contents[c] <==> g.owners[i] == g.cnodes[c])
  {
  }

  // The two loops of swap point every iterator where it belongs.
  lemma SwapLoops(g: Index, c1: Ptr, c2: Ptr)
    requires Agreed(g) && c1 in g.cnodes && c2 in g.cnodes && c1 in g.contents && c2 in g.contents
    ensures var h := SwappedContents(g, c1, c2);
      && c1 in h.contents && c2 in h.contents
      && PointedTo(PointedTo(h, h.contents[c1], g.cnodes[c1]), h.contents[c2], g.cnodes[c2]) == Swapped(g, c1, c2)
  {
    hide Agreed, PointedTo, SwapOwners;
    var h := SwappedContents(g, c1, c2);
    var n1, n2 := g.cnodes[c1], g.cnodes[c2];
    SwappedAgreed(g, c1, c2);
    ItemsOwned(g, c1);
    ItemsOwned(g, c2);
    PointedToMeans(h, h.contents[c1], n1);
    var h1 := PointedTo(h, h.contents[c1], n1);
    PointedToMeans(h1, h.contents[c2], n2);
    var h2 := PointedTo(h1, h.contents[c2], n2);
    SwapPoints(g.inodes, g.owners, g.contents[c1], g.contents[c2], n1, n2, h1.owners, h2.owners);
  }

  // swap for two registered containers, possibly the same.
  method Swap(p1: CNode, p2: CNode, ghost g: Index)
    requires Placed(g) && Agreed(g) && p1.key in g.cnodes && g.cnodes[p1.key] == p1 && p2.key in g.cnodes
      && g.cnodes[p2.key] == p2
    modifies p1.info, p2.info, g.inodes.Values`info
    ensures Placed(Swapped(g, p1.key, p2.key)) && Agreed(Swapped(g, p1.key, p2.key))
    ensures p1.info == old(p1.info) && p2.info == old(p2.info) && p1.info.beg == old(p2.info.beg)
      && p2.info.beg == old(p1.info.beg)
  {
    hide Placed, Agreed, Pointing, Owning, Holding, Swapped, PointedTo, WithContents;
    SwappedAgreed(g, p1.key, p2.key);
    SwapLoops(g, p1.key, p2.key);
    SwapLists(p1, p2, g);
    ghost var h := SwappedContents(g, p1.key, p2.key);
    PointAll(p1, h);
    PointAll(p2, PointedTo(h, h.contents[p1.key], p1));
  }
}
