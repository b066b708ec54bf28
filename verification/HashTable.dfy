/**
  * The chained hash table of the debug database. The source writes the same code for iterator nodes and for container
  * nodes; here it is one class for nodes that carry anything.
  */
module HashTable {
  import NextPrime

  // An address.
  type Ptr = nat

  class Node<T> {
    const key: Ptr
    var next: Node?<T>
    var info: T

    constructor (key: Ptr, next: Node?<T>, info: T)
      ensures this.key == key && this.next == next && this.info == info
    {
      this.key, this.next, this.info := key, next, info;
    }
  }

  function At<T>(chain: seq<Node<T>>, k: nat): Node?<T> {
    if k < |chain| then chain[k] else null
  }

  // The links run along the chain from its k-th node on.
  ghost predicate LinkedFrom<T>(chain: seq<Node<T>>, k: nat)
    reads chain`next
  {
    forall j :: k <= j < |chain| ==> chain[j].next == At(chain, j + 1)
  }

  // ----- what a chain holds

  ghost function Without<T>(nodes: map<Ptr, Node<T>>, key: Ptr): map<Ptr, Node<T>> { nodes - {key} }

  // A chain holds the nodes for the given keys, each once.
  ghost predicate Holds<T>(chain: seq<Node<T>>, keys: set<Ptr>, nodes: map<Ptr, Node<T>>) {
    && (forall key :: key in keys ==> key in nodes && nodes[key].key == key && nodes[key] in chain)
    && (forall k :: 0 <= k < |chain| ==> chain[k].key in keys && nodes[chain[k].key] == chain[k])
    && (forall j, k :: 0 <= j < k < |chain| ==> chain[j] != chain[k])
  }

  lemma HoldsPush<T>(chain: seq<Node<T>>, keys: set<Ptr>, nodes: map<Ptr, Node<T>>, q: Node<T>)
    requires Holds(chain, keys, nodes) && q.key !in nodes
    ensures Holds([q] + chain, keys + {q.key}, nodes[q.key := q]) && q !in chain
  {
    forall key | key in keys
      ensures nodes[key] in [q] + chain
    {
    }
  }

  lemma HoldsStill<T>(chain: seq<Node<T>>, keys: set<Ptr>, nodes: map<Ptr, Node<T>>, other: map<Ptr, Node<T>>)
    requires Holds(chain, keys, nodes) && forall key :: key in keys ==> key in other && other[key] == nodes[key]
    ensures Holds(chain, keys, other)
  {
  }

  lemma HoldsWithout<T>(chain: seq<Node<T>>, keys: set<Ptr>, nodes: map<Ptr, Node<T>>, j: nat)
    requires Holds(chain, keys, nodes) && j < |chain|
    ensures chain[j].key in nodes
    ensures Holds(chain[..j] + chain[j+1..], keys - {chain[j].key}, Without(nodes, chain[j].key))
  {
    var rest := chain[..j] + chain[j+1..];
    forall key | key in keys && key != chain[j].key
      ensures nodes[key] in rest
    {
      var k :| 0 <= k < |chain| && chain[k] == nodes[key];
      assert rest[if k < j then k else k - 1] == nodes[key];
    }
  }

  // What a search along a chain finds.
  lemma HoldsFind<T>(chain: seq<Node<T>>, keys: set<Ptr>, nodes: map<Ptr, Node<T>>, key: Ptr, j: nat)
    requires Holds(chain, keys, nodes) && j <= |chain|
    requires forall k :: 0 <= k < j ==> chain[k].key != key
    requires j < |chain| ==> chain[j].key == key
    ensures j < |chain| <==> key in keys
    ensures j < |chain| ==> key in nodes && nodes[key] == chain[j]
  {
  }

  // ----- what the buckets hold

  // The bucket that a key's hash selects.
  function Slot(hash: Ptr -> nat, n: nat, key: Ptr): (h: nat)
    requires n > 0
    ensures h < n
  {
    hash(key) % n
  }

  // The keys that belong in one bucket.
  ghost function KeysIn<T>(hash: Ptr -> nat, n: nat, nodes: map<Ptr, Node<T>>, h: nat): set<Ptr> {
    set key | key in nodes && n > 0 && Slot(hash, n, key) == h
  }

  // Every chain holds exactly the nodes that belong in its bucket.
  ghost predicate Filed<T>(hash: Ptr -> nat, chains: seq<seq<Node<T>>>, nodes: map<Ptr, Node<T>>) {
    && (nodes != map[] ==> |chains| > 0)
    && forall h :: 0 <= h < |chains| ==> Holds(chains[h], KeysIn(hash, |chains|, nodes, h), nodes)
  }

  ghost function NodesOf<T>(chains: seq<seq<Node<T>>>): set<Node<T>> {
    set h, k | 0 <= h < |chains| && 0 <= k < |chains[h]| :: chains[h][k]
  }

  // Every bucket starts its chain.
  ghost predicate Linked<T>(buckets: array<Node?<T>>, chains: seq<seq<Node<T>>>)
    reads buckets, NodesOf(chains)`next
  {
    && buckets.Length == |chains|
    && forall h :: 0 <= h < |chains| ==> buckets[h] == At(chains[h], 0) && LinkedFrom(chains[h], 0)
  }

  lemma FiledPush<T>(hash: Ptr -> nat, chains: seq<seq<Node<T>>>, nodes: map<Ptr, Node<T>>, q: Node<T>)
    requires |chains| > 0 && Filed(hash, chains, nodes) && q.key !in nodes
    ensures var h := Slot(hash, |chains|, q.key); Filed(hash, chains[h := [q] + chains[h]], nodes[q.key := q])
    ensures forall g :: 0 <= g < |chains| ==> q !in chains[g]
  {
    var n, slot := |chains|, Slot(hash, |chains|, q.key);
    hide Holds, Slot;
    forall h | 0 <= h < n
      ensures Holds(chains[slot := [q] + chains[slot]][h], KeysIn(hash, n, nodes[q.key := q], h), nodes[q.key := q])
      ensures q !in chains[h]
    {
      HoldsPush(chains[h], KeysIn(hash, n, nodes, h), nodes, q);
      if h == slot {
        assert KeysIn(hash, n, nodes[q.key := q], h) == KeysIn(hash, n, nodes, h) + {q.key};
      } else {
        assert KeysIn(hash, n, nodes[q.key := q], h) == KeysIn(hash, n, nodes, h);
        HoldsStill(chains[h], KeysIn(hash, n, nodes, h), nodes, nodes[q.key := q]);
      }
    }
  }

  // The chains without the j-th node of one of them.
  ghost function CutOut<T>(chains: seq<seq<Node<T>>>, h: nat, j: nat): seq<seq<Node<T>>>
    requires h < |chains| && j < |chains[h]|
  {
    chains[h := chains[h][..j] + chains[h][j+1..]]
  }

  lemma FiledWithout<T>(hash: Ptr -> nat, chains: seq<seq<Node<T>>>, nodes: map<Ptr, Node<T>>, slot: nat, j: nat)
    requires slot < |chains| && j < |chains[slot]| && Filed(hash, chains, nodes)
    ensures var key := chains[slot][j].key;
      key in nodes && Filed(hash, CutOut(chains, slot, j), Without(nodes, key))
    ensures forall g :: 0 <= g < |chains| && g != slot ==> forall k :: 0 <= k < |chains[g]| ==>
      chains[g][k] != chains[slot][j]
  {
    var n, key := |chains|, chains[slot][j].key;
    HoldsWithout(chains[slot], KeysIn(hash, n, nodes, slot), nodes, j);
    assert KeysIn(hash, n, Without(nodes, key), slot) == KeysIn(hash, n, nodes, slot) - {key};
    forall h | 0 <= h < n && h != slot
      ensures Holds(chains[h], KeysIn(hash, n, Without(nodes, key), h), Without(nodes, key))
    {
      assert KeysIn(hash, n, Without(nodes, key), h) == KeysIn(hash, n, nodes, h);
      HoldsStill(chains[h], KeysIn(hash, n, nodes, h), nodes, Without(nodes, key));
    }
  }

  lemma LinkedPush<T>(q: Node<T>, chain: seq<Node<T>>)
    requires LinkedFrom(chain, 0) && q.next == At(chain, 0)
    ensures LinkedFrom([q] + chain, 0)
  {
  }

  // Puts a node at the head of its chain.
  method Push<T>(hash: Ptr -> nat, buckets: array<Node?<T>>, q: Node<T>, ghost chains: seq<seq<Node<T>>>,
                 ghost nodes: map<Ptr, Node<T>>)
    returns (ghost newChains: seq<seq<Node<T>>>)
    requires buckets.Length > 0 && q.key !in nodes && Filed(hash, chains, nodes) && Linked(buckets, chains)
    modifies buckets, q`next
    ensures Filed(hash, newChains, nodes[q.key := q]) && Linked(buckets, newChains)
  {
    FiledPush(hash, chains, nodes, q);
    hide Filed, Slot, Holds;
    var h := Slot(hash, buckets.Length, q.key);
    q.next := buckets[h];
    buckets[h] := q;
    newChains := chains[h := [q] + chains[h]];
    forall g | 0 <= g < |chains|
      ensures LinkedFrom(chains[g], 0)
    {
      assert old(LinkedFrom(chains[g], 0));
    }
    LinkedPush(q, chains[h]);
  }

  // Nodes with the first j nodes of a chain added.
  ghost function Joined<T>(nodes: map<Ptr, Node<T>>, chain: seq<Node<T>>, j: nat): map<Ptr, Node<T>>
    requires j <= |chain|
  {
    if j == 0 then nodes else Joined(nodes, chain, j - 1)[chain[j-1].key := chain[j-1]]
  }

  lemma {:induction false} JoinedMeans<T>(moved: map<Ptr, Node<T>>, chain: seq<Node<T>>, j: nat, key: Ptr)
    requires j <= |chain|
    ensures key in Joined(moved, chain, j) <==> key in moved || exists k :: 0 <= k < j && chain[k].key == key
    ensures key in Joined(moved, chain, j) && (forall k :: 0 <= k < j ==> chain[k].key != key) ==>
      Joined(moved, chain, j)[key] == moved[key]
    ensures key in Joined(moved, chain, j) && (exists k :: 0 <= k < j && chain[k].key == key) ==>
      exists k :: 0 <= k < j && chain[k].key == key && Joined(moved, chain, j)[key] == chain[k]
  {
    if j == 0 {
    } else {
      JoinedMeans(moved, chain, j - 1, key);
      if chain[j-1].key == key { assert Joined(moved, chain, j)[key] == chain[j-1]; }
    }
  }

  // The next node of a chain is not among those before it.
  lemma NextIsNew<T>(chain: seq<Node<T>>, keys: set<Ptr>, nodes: map<Ptr, Node<T>>, moved: map<Ptr, Node<T>>, j: nat)
    requires Holds(chain, keys, nodes) && keys !! moved.Keys && j < |chain|
    ensures chain[j].key !in Joined(moved, chain, j)
    ensures forall k :: j < k < |chain| ==> chain[k] != chain[j]
  {
    JoinedMeans(moved, chain, j, chain[j].key);
  }

  lemma AllJoined<T>(chain: seq<Node<T>>, keys: set<Ptr>, nodes: map<Ptr, Node<T>>, moved: map<Ptr, Node<T>>)
    requires Holds(chain, keys, nodes) && keys !! moved.Keys
    ensures var all := Joined(moved, chain, |chain|);
      && all.Keys == moved.Keys + keys
      && forall key :: key in all ==> all[key] == if key in keys then nodes[key] else moved[key]
  {
    hide Joined;
    var all := Joined(moved, chain, |chain|);
    forall key
      ensures key in all <==> key in moved || key in keys
      ensures key in all ==> all[key] == if key in keys then nodes[key] else moved[key]
    {
      JoinedMeans(moved, chain, |chain|, key);
      if key in keys { var k :| 0 <= k < |chain| && chain[k] == nodes[key]; }
    }
  }

  // Files the nodes of a chain, from its head on, in other buckets.
  method MoveChain<T>(hash: Ptr -> nat, buckets: array<Node?<T>>, head: Node?<T>, ghost chain: seq<Node<T>>,
                      ghost keys: set<Ptr>, ghost nodes: map<Ptr, Node<T>>, ghost chains: seq<seq<Node<T>>>,
                      ghost moved: map<Ptr, Node<T>>)
    returns (ghost newChains: seq<seq<Node<T>>>, ghost newMoved: map<Ptr, Node<T>>)
    requires buckets.Length > 0 && Filed(hash, chains, moved) && Linked(buckets, chains)
    requires head == At(chain, 0) && LinkedFrom(chain, 0) && Holds(chain, keys, nodes) && keys !! moved.Keys
    modifies buckets, chain`next
    ensures Filed(hash, newChains, newMoved) && Linked(buckets, newChains)
    ensures newMoved.Keys == moved.Keys + keys
    ensures forall key :: key in newMoved ==> newMoved[key] == if key in keys then nodes[key] else moved[key]
  {
    hide Filed, Linked, Slot, Holds;
    newChains, newMoved := chains, moved;
    var q := head;
    ghost var j := 0;
    while q != null
      invariant j <= |chain| && q == At(chain, j) && LinkedFrom(chain, j)
      invariant Filed(hash, newChains, newMoved) && Linked(buckets, newChains) && newMoved == Joined(moved, chain, j)
      decreases |chain| - j
    {
      NextIsNew(chain, keys, nodes, moved, j);
      var r := q.next;
      newChains := Push(hash, buckets, q, newChains, newMoved);
      newMoved := newMoved[q.key := q];
      q := r;
      j := j + 1;
    }
    AllJoined(chain, keys, nodes, moved);
  }

  // Walks along a chain.
  method Walk<T>(head: Node?<T>, key: Ptr, ghost chain: seq<Node<T>>) returns (p: Node?<T>, q: Node?<T>, ghost j: nat)
    requires head == At(chain, 0) && LinkedFrom(chain, 0)
    ensures j <= |chain| && p == At(chain, j) && (p != null ==> p.key == key) && forall k :: 0 <= k < j ==>
      chain[k].key != key
    ensures q == if j > 0 then chain[j-1] else null
  {
    p, q, j := head, null, 0;
    while p != null && p.key != key
      invariant j <= |chain| && p == At(chain, j) && forall k :: 0 <= k < j ==> chain[k].key != key
      invariant q == if j > 0 then chain[j-1] else null
      decreases |chain| - j
    {
      q := p;
      p := p.next;
      j := j + 1;
    }
  }

  // The nodes that belong in the first p buckets.
  ghost function Part<T>(hash: Ptr -> nat, n: nat, nodes: map<Ptr, Node<T>>, p: nat): map<Ptr, Node<T>> {
    map key | key in nodes && n > 0 && Slot(hash, n, key) < p :: nodes[key]
  }

  // One more bucket.
  lemma PartStep<T>(hash: Ptr -> nat, n: nat, nodes: map<Ptr, Node<T>>, p: nat)
    ensures KeysIn(hash, n, nodes, p) !! Part(hash, n, nodes, p).Keys
    ensures Part(hash, n, nodes, p + 1).Keys == Part(hash, n, nodes, p).Keys + KeysIn(hash, n, nodes, p)
    ensures forall key :: key in Part(hash, n, nodes, p + 1) ==>
      Part(hash, n, nodes, p + 1)[key] == if key in KeysIn(hash, n, nodes, p) then nodes[key]
        else Part(hash, n, nodes, p)[key]
  {
  }

  lemma PartEnds<T>(hash: Ptr -> nat, chains: seq<seq<Node<T>>>, nodes: map<Ptr, Node<T>>)
    requires Filed(hash, chains, nodes)
    ensures Part(hash, |chains|, nodes, 0) == map[] && Part(hash, |chains|, nodes, |chains|) == nodes
  {
  }

  // The chains from the p-th on are linked.
  ghost predicate RestLinked<T>(chains: seq<seq<Node<T>>>, p: nat)
    reads NodesOf(chains)`next
  {
    forall h :: p <= h < |chains| ==> LinkedFrom(chains[h], 0)
  }

  // A node is in the chain of its own bucket only.
  lemma ChainsApart<T>(hash: Ptr -> nat, chains: seq<seq<Node<T>>>, nodes: map<Ptr, Node<T>>, p: nat, h: nat)
    requires Filed(hash, chains, nodes) && p < |chains| && h < |chains| && h != p
    ensures forall k :: 0 <= k < |chains[h]| ==> chains[h][k] !in chains[p]
  {
  }

  lemma ChainOf<T>(hash: Ptr -> nat, chains: seq<seq<Node<T>>>, nodes: map<Ptr, Node<T>>, h: nat)
    requires Filed(hash, chains, nodes) && h < |chains|
    ensures Holds(chains[h], KeysIn(hash, |chains|, nodes, h), nodes)
    ensures forall n :: n in chains[h] ==> n in NodesOf(chains)
  {
  }

  // A node is in the chain of its bucket only.
  lemma BucketOnly<T>(hash: Ptr -> nat, chains: seq<seq<Node<T>>>, nodes: map<Ptr, Node<T>>, key: Ptr, h: nat)
    requires Filed(hash, chains, nodes) && key in nodes && h < |chains|
    ensures nodes[key] in chains[h] <==> h == Slot(hash, |chains|, key)
  {
    var s := Slot(hash, |chains|, key);
    assert key in KeysIn(hash, |chains|, nodes, s);
    if h != s { ChainsApart(hash, chains, nodes, h, s); }
  }

  // The filed nodes are the nodes of the chains.
  lemma FiledNodes<T>(hash: Ptr -> nat, chains: seq<seq<Node<T>>>, nodes: map<Ptr, Node<T>>)
    requires Filed(hash, chains, nodes)
    ensures NodesOf(chains) == nodes.Values
  {
    forall n | n in NodesOf(chains)
      ensures n in nodes.Values
    {
    }
    forall n | n in nodes.Values
      ensures n in NodesOf(chains)
    {
      var key :| key in nodes && nodes[key] == n;
      var h := Slot(hash, |chains|, key);
      assert key in KeysIn(hash, |chains|, nodes, h);
    }
  }

  method MoreBuckets(n: nat) returns (nc: nat)
    ensures NextPrime.LeastPrimeFrom(2 * n + 1, nc) && nc > 2 * n
  {
    nc := NextPrime.NextPrime(2 * n + 1);
  }

  // Files the nodes of the p-th bucket in new buckets.
  method MoveBucket<T>(hash: Ptr -> nat, head: Node?<T>, newBuckets: array<Node?<T>>, ghost p: nat,
                       ghost chains: seq<seq<Node<T>>>, ghost nodes: map<Ptr, Node<T>>,
                       ghost newChains: seq<seq<Node<T>>>)
    returns (ghost r: seq<seq<Node<T>>>)
    requires p < |chains| && head == At(chains[p], 0) && Filed(hash, chains, nodes) && RestLinked(chains, p)
    requires newBuckets.Length > 0 && Filed(hash, newChains, Part(hash, |chains|, nodes, p))
      && Linked(newBuckets, newChains)
    modifies newBuckets, NodesOf(chains)`next
    ensures Filed(hash, r, Part(hash, |chains|, nodes, p + 1)) && Linked(newBuckets, r)
    ensures RestLinked(chains, p + 1)
  {
    ChainOf(hash, chains, nodes, p);
    PartStep(hash, |chains|, nodes, p);
    hide Filed, Linked, NodesOf, KeysIn, Part, Slot, Holds;
    ghost var moved;
    r, moved := MoveChain(hash, newBuckets, head, chains[p], KeysIn(hash, |chains|, nodes, p), nodes, newChains,
      Part(hash, |chains|, nodes, p));
    assert moved == Part(hash, |chains|, nodes, p + 1);
    forall h | p < h < |chains|
      ensures LinkedFrom(chains[h], 0)
    {
      assert old(LinkedFrom(chains[h], 0));
      ChainsApart(hash, chains, nodes, p, h);
    }
  }

  // Files all nodes of some buckets in new ones.
  method MoveAll<T>(hash: Ptr -> nat, buckets: array<Node?<T>>, newBuckets: array<Node?<T>>,
                    ghost chains: seq<seq<Node<T>>>, ghost nodes: map<Ptr, Node<T>>)
    returns (ghost newChains: seq<seq<Node<T>>>)
    requires Filed(hash, chains, nodes) && Linked(buckets, chains)
    requires newBuckets.Length > 0 && newBuckets != buckets && forall h :: 0 <= h < newBuckets.Length ==>
      newBuckets[h] == null
    modifies newBuckets, NodesOf(chains)`next
    ensures Filed(hash, newChains, nodes) && Linked(newBuckets, newChains)
  {
    newChains := seq(newBuckets.Length, _ => []);
    PartEnds(hash, chains, nodes);
    EmptyLinked(hash, newBuckets, newChains);
    assert RestLinked(chains, 0);
    hide Filed, LinkedFrom, RestLinked, NodesOf, KeysIn, Part, Slot, Holds;
    for p := 0 to buckets.Length
      invariant Filed(hash, newChains, Part(hash, |chains|, nodes, p)) && Linked(newBuckets, newChains)
      invariant RestLinked(chains, p)
    {
      newChains := MoveBucket(hash, buckets[p], newBuckets, p, chains, nodes, newChains);
    }
  }

  lemma EmptyLinked<T>(hash: Ptr -> nat, buckets: array<Node?<T>>, chains: seq<seq<Node<T>>>)
    requires buckets.Length == |chains| && forall h :: 0 <= h < |chains| ==> chains[h] == [] && buckets[h] == null
    ensures Filed(hash, chains, map[]) && Linked(buckets, chains)
  {
  }

  // Without its j-th node a chain is linked around it.
  lemma LinkedWithout<T>(chain: seq<Node<T>>, j: nat, rest: seq<Node<T>>)
    requires j < |chain| && rest == chain[..j] + chain[j+1..]
    requires forall k :: 0 <= k < |chain| && k + 1 != j && k != j ==> chain[k].next == At(chain, k + 1)
    requires j > 0 ==> chain[j-1].next == At(chain, j + 1)
    ensures LinkedFrom(rest, 0)
  {
    forall k | 0 <= k < |rest|
      ensures rest[k].next == At(rest, k + 1)
    {
      assert rest[k] == chain[if k < j then k else k + 1];
    }
  }

  // The nodes of a chain occur once in it and in no other.
  ghost predicate Apart<T>(chains: seq<seq<Node<T>>>, h: nat)
    requires h < |chains|
  {
    && (forall i, k :: 0 <= i < k < |chains[h]| ==> chains[h][i] != chains[h][k])
    && (forall g :: 0 <= g < |chains| && g != h ==> forall k :: 0 <= k < |chains[g]| ==> chains[g][k] !in chains[h])
  }

  // Links around the j-th node p of a chain, which stands behind q.
  method Cut<T>(buckets: array<Node?<T>>, h: nat, p: Node<T>, q: Node?<T>, ghost chains: seq<seq<Node<T>>>,
                ghost j: nat)
    requires Linked(buckets, chains) && h < |chains| && j < |chains[h]| && p == chains[h][j]
    requires q == if j > 0 then chains[h][j-1] else null
    requires Apart(chains, h)
    modifies buckets, (if q == null then {} else {q})`next
    ensures Linked(buckets, CutOut(chains, h, j))
  {
    ghost var chain := chains[h];
    ghost var rest := chain[..j] + chain[j+1..];
    if q == null {
      buckets[h] := p.next;
    } else {
      q.next := p.next;
    }
    LinkedWithout(chain, j, rest);
    forall g | 0 <= g < |chains| && g != h
      ensures LinkedFrom(chains[g], 0)
    {
      assert old(LinkedFrom(chains[g], 0));
    }
  }

  // Where a walk along a chain stops, and what its table is without the node found there.
  lemma Unfiled<T>(hash: Ptr -> nat, chains: seq<seq<Node<T>>>, nodes: map<Ptr, Node<T>>, h: nat, j: nat)
    requires Filed(hash, chains, nodes) && h < |chains| && j < |chains[h]|
    ensures var key := chains[h][j].key;
      key in nodes && nodes[key] == chains[h][j] && Filed(hash, CutOut(chains, h, j), Without(nodes, key))
    ensures Apart(chains, h)
  {
    FiledWithout(hash, chains, nodes, h, j);
    forall g | 0 <= g < |chains| && g != h
      ensures forall k :: 0 <= k < |chains[g]| ==> chains[g][k] !in chains[h]
    {
      ChainsApart(hash, chains, nodes, h, g);
    }
  }

  lemma WithoutSize<T>(nodes: map<Ptr, Node<T>>, key: Ptr)
    ensures if key in nodes then |nodes| > 0 && |Without(nodes, key)| == |nodes| - 1 else Without(nodes, key) == nodes
  {
    assert key in nodes ==> (Without(nodes, key)).Keys == nodes.Keys - {key};
  }

  ghost predicate Sound<T>(hash: Ptr -> nat, buckets: array<Node?<T>>, size: nat, chains: seq<seq<Node<T>>>,
                           nodes: map<Ptr, Node<T>>)
    reads buckets, NodesOf(chains)`next
  {
    size == |nodes| && NodesOf(chains) == nodes.Values && Filed(hash, chains, nodes) && Linked(buckets, chains)
  }

  // Takes the j-th node p of a chain, which stands behind q, out of a table.
  method Drop<T>(hash: Ptr -> nat, buckets: array<Node?<T>>, size: nat, h: nat, p: Node<T>, q: Node?<T>,
                 ghost chains: seq<seq<Node<T>>>, ghost nodes: map<Ptr, Node<T>>, ghost j: nat)
    requires Sound(hash, buckets, size, chains, nodes)
    requires h < |chains| && j < |chains[h]| && p == chains[h][j] && q == if j > 0 then chains[h][j-1] else null
    modifies buckets, (if q == null then {} else {q})`next
    ensures size > 0 && Sound(hash, buckets, size - 1, CutOut(chains, h, j), Without(nodes, p.key))
  {
    ChainOf(hash, chains, nodes, h);
    Unfiled(hash, chains, nodes, h, j);
    WithoutSize(nodes, p.key);
    hide Holds, KeysIn, Filed, Linked, NodesOf, Apart, Without, CutOut;
    FiledNodes(hash, CutOut(chains, h, j), Without(nodes, p.key));
    Cut(buckets, h, p, q, chains, j);
  }

  lemma BucketOf<T>(hash: Ptr -> nat, buckets: array<Node?<T>>, size: nat, chains: seq<seq<Node<T>>>,
                    nodes: map<Ptr, Node<T>>, key: Ptr)
    requires Sound(hash, buckets, size, chains, nodes)
    ensures buckets.Length == |chains| && (buckets.Length == 0 ==> key !in nodes)
    ensures buckets.Length > 0 ==>
      var h := Slot(hash, buckets.Length, key);
      && buckets[h] == At(chains[h], 0) && LinkedFrom(chains[h], 0)
        && Holds(chains[h], KeysIn(hash, |chains|, nodes, h), nodes)
      && (forall n :: n in chains[h] ==> n in NodesOf(chains))
      && (key in nodes <==> key in KeysIn(hash, |chains|, nodes, h))
  {
  }

  // Takes the node for a key out of a table.
  method UnlinkFrom<T>(hash: Ptr -> nat, buckets: array<Node?<T>>, size: nat, key: Ptr,
                       ghost chains: seq<seq<Node<T>>>, ghost nodes: map<Ptr, Node<T>>)
    returns (p: Node?<T>, newSize: nat, ghost newChains: seq<seq<Node<T>>>, ghost newNodes: map<Ptr, Node<T>>)
    requires Sound(hash, buckets, size, chains, nodes)
    modifies buckets, NodesOf(chains)`next
    ensures p == if key in nodes then nodes[key] else null
    ensures Sound(hash, buckets, newSize, newChains, newNodes) && newNodes == Without(nodes, key)
  {
    hide Filed, Linked, NodesOf, Slot, KeysIn, Holds, LinkedFrom, Without, CutOut;
    BucketOf(hash, buckets, size, chains, nodes, key);
    WithoutSize(nodes, key);
    newSize, newChains, newNodes := size, chains, nodes;
    if buckets.Length == 0 { return null, newSize, newChains, newNodes; }
    var h := Slot(hash, buckets.Length, key);
    var q; ghost var j;
    p, q, j := Walk(buckets[h], key, chains[h]);
    HoldsFind(chains[h], KeysIn(hash, |chains|, nodes, h), nodes, key, j);
    if p != null {
      Drop(hash, buckets, size, h, p, q, chains, nodes, j);
      newSize, newChains, newNodes := size - 1, CutOut(chains, h, j), Without(nodes, key);
    }
  }

  class NodeTable<T> {
    const hash: Ptr -> nat
    var buckets: array<Node?<T>>
    var size: nat
    ghost var nodes: map<Ptr, Node<T>>
    ghost var chains: seq<seq<Node<T>>>

    ghost predicate Valid()
      reads this, buckets, NodesOf(chains)`next
    {
      Sound(hash, buckets, size, chains, nodes)
    }

    constructor (hash: Ptr -> nat)
      ensures Valid() && nodes == map[] && this.hash == hash && fresh(buckets)
    {
      this.hash := hash;
      buckets := new Node?<T>[0];
      size := 0;
      nodes := map[];
      chains := [];
    }

    lemma NodesAreValues()
      requires Valid()
      ensures NodesOf(chains) == nodes.Values
    {
    }

    // The node for a key, null when there is none.
    method Find(key: Ptr) returns (p: Node?<T>)
      requires Valid()
      ensures p == if key in nodes then nodes[key] else null
    {
      if buckets.Length == 0 { return null; }
      var h := Slot(hash, buckets.Length, key);
      hide Holds, Slot;
      ghost var q, j;
      p, q, j := Walk(buckets[h], key, chains[h]);
      HoldsFind(chains[h], KeysIn(hash, |chains|, nodes, h), nodes, key, j);
    }

    // Replaces the buckets by more than twice as many, the least prime number of them, and files all nodes again.
    method Grow()
      requires Valid()
      modifies this`buckets, this`chains, NodesOf(chains)`next
      ensures Valid() && fresh(buckets) && buckets.Length > 2 * old(buckets.Length)
      ensures NextPrime.LeastPrimeFrom(2 * old(buckets.Length) + 1, buckets.Length)
    {
      hide Filed, Linked, NodesOf;
      var nc := MoreBuckets(buckets.Length);
      var newBuckets := new Node?<T>[nc](_ => null);
      chains := MoveAll(hash, buckets, newBuckets, chains, nodes);
      buckets := newBuckets;
      FiledNodes(hash, chains, nodes);
    }

    // Files a new node for a key that has none.
    method Insert(key: Ptr, info: T) returns (r: Node<T>)
      requires Valid() && key !in nodes
      modifies this, buckets, NodesOf(chains)`next
      ensures Valid() && fresh(r) && r.key == key && r.info == info && nodes == old(nodes)[key := r]
      ensures if old(size) < old(buckets.Length) then buckets == old(buckets)
              else fresh(buckets) && NextPrime.LeastPrimeFrom(2 * old(buckets.Length) + 1, buckets.Length)
      ensures old(size) <= old(buckets.Length) ==> size <= buckets.Length
    {
      hide Filed, Linked, NodesOf, Slot;
      if size + 1 > buckets.Length { Grow(); }
      r := new Node(key, null, info);
      chains := Push(hash, buckets, r, chains, nodes);
      nodes := nodes[key := r];
      FiledNodes(hash, chains, nodes);
      size := size + 1;
    }

    // Takes the node for a key out of the table and returns it, null when there is none.
    method Unlink(key: Ptr) returns (p: Node?<T>)
      requires Valid()
      modifies this`size, this`nodes, this`chains, buckets, NodesOf(chains)`next
      ensures Valid() && p == if key in old(nodes) then old(nodes)[key] else null
      ensures nodes == Without(old(nodes), key)
    {
      hide Filed, Linked, NodesOf, Without;
      p, size, chains, nodes := UnlinkFrom(hash, buckets, size, key, chains, nodes);
    }
  }
}
