/**
  * dsmalloc and the mem* functions over one flat, growing memory of 64 KiB pages with 32-bit addresses. Address and
  * page arithmetic wraps exactly as on the machine; a memory of that kind never has more than 65536 pages.
  */
module FlatMemory {
  import opened Arith
  import opened Bytes

  const PAGE: nat := 0x1_0000
  const WORD: nat := 0x1_0000_0000
  const MAX_PAGES: nat := 0x1_0000

  function Wrap(x: nat): nat { x % WORD }

  // (ptr + 7) & ~7
  function Align8(ptr: nat): nat {
    Wrap(ptr + 7) - Wrap(ptr + 7) % 8
  }

  datatype Block = Block(start: nat, size: nat)

  // A null pointer for size 0, a pointer, or the abort of the failed check.
  datatype Outcome = Null | Ptr(p: nat) | Aborted

  // Copying byte by byte in increasing address order, as the loop of memcpy does.
  function CopyForward(m: seq<Byte>, dst: nat, src: nat, n: nat): (r: seq<Byte>)
    requires dst + n <= |m| && src + n <= |m|
    ensures |r| == |m|
  {
    if n == 0 then m
    else
      var r := CopyForward(m, dst, src, n - 1);
      r[dst + n - 1 := r[src + n - 1]]
  }

  // Memory m with the n bytes at src put at dst.
  function Moved(m: seq<Byte>, dst: nat, src: nat, n: nat): (r: seq<Byte>)
    requires dst + n <= |m| && src + n <= |m|
    ensures |r| == |m|
  {
    m[..dst] + m[src..src+n] + m[dst+n..]
  }

  /** The forward loop moves the bytes when the destination does not start inside the source. */
  lemma {:induction false} CopyForwardMoves(m: seq<Byte>, dst: nat, src: nat, n: nat)
    requires dst + n <= |m| && src + n <= |m|
    requires dst <= src || src + n <= dst
    ensures CopyForward(m, dst, src, n) == Moved(m, dst, src, n)
  {
    if n > 0 {
      hide Moved;
      CopyForwardMoves(m, dst, src, n - 1);
      MovedNext(m, dst, src, n);
    } else {
      MovedNone(m, dst, src);
    }
  }

  lemma MovedAt(m: seq<Byte>, dst: nat, src: nat, n: nat, a: nat)
    requires dst + n <= |m| && src + n <= |m| && a < |m|
    ensures Moved(m, dst, src, n)[a] == if dst <= a < dst + n then m[src + (a - dst)] else m[a]
  {
    var front, middle := m[..dst], m[src..src+n];
    if a < dst {
      assert (front + middle)[a] == front[a];
    } else if a < dst + n {
      assert (front + middle)[a] == middle[a - dst];
    } else {
      assert Moved(m, dst, src, n)[a] == m[dst+n..][a - (dst + n)];
    }
  }

  lemma MovedNone(m: seq<Byte>, dst: nat, src: nat)
    requires dst <= |m| && src <= |m|
    ensures Moved(m, dst, src, 0) == m
  {
    hide Moved;
    forall a | 0 <= a < |m|
      ensures Moved(m, dst, src, 0)[a] == m[a]
    {
      MovedAt(m, dst, src, 0, a);
    }
  }

  lemma MovedNext(m: seq<Byte>, dst: nat, src: nat, n: nat)
    requires n > 0 && dst + n <= |m| && src + n <= |m|
    requires dst <= src || src + n <= dst
    ensures var r := Moved(m, dst, src, n - 1); r[dst + n - 1 := r[src + n - 1]] == Moved(m, dst, src, n)
  {
    hide Moved;
    var r := Moved(m, dst, src, n - 1);
    MovedAt(m, dst, src, n - 1, src + n - 1);
    var s := r[dst + n - 1 := r[src + n - 1]];
    forall a | 0 <= a < |m|
      ensures s[a] == Moved(m, dst, src, n)[a]
    {
      MovedAt(m, dst, src, n - 1, a);
      MovedAt(m, dst, src, n, a);
    }
  }

  // The byte that ends up at address a when the bytes from src up to dst repeat from dst on.
  function Repeated(m: seq<Byte>, dst: nat, src: nat, a: nat): Byte
    requires src < dst <= a && dst <= |m|
  {
    PeriodFits(a - dst, dst - src);
    m[src + (a - dst) % (dst - src)]
  }

  lemma PeriodFits(k: nat, d: nat)
    requires d > 0
    ensures 0 <= k % d < d
  {
  }

  // What the loop reads when it has copied k bytes that repeat.
  lemma RepeatedNext(m: seq<Byte>, r: seq<Byte>, dst: nat, src: nat, k: nat)
    requires src < dst && dst + k < |m| == |r|
    requires forall a :: dst <= a < dst + k ==> r[a] == Repeated(m, dst, src, a)
    requires forall a :: 0 <= a < dst ==> r[a] == m[a]
    ensures r[src + k] == Repeated(m, dst, src, dst + k)
  {
    var d := dst - src;
    if k >= d {
      PeriodBack(k, d);
      assert r[src + k] == Repeated(m, dst, src, src + k);
      assert src + k - dst == k - d;
    } else {
      SmallRemainder(k, d);
    }
  }

  /** When the destination starts behind the source, the loop repeats the bytes between them. */
  lemma {:induction false} CopyForwardRepeats(m: seq<Byte>, dst: nat, src: nat, n: nat)
    requires src < dst && dst + n <= |m|
    ensures forall a :: dst <= a < dst + n ==> CopyForward(m, dst, src, n)[a] == Repeated(m, dst, src, a)
    ensures forall a :: 0 <= a < |m| && !(dst <= a < dst + n) ==> CopyForward(m, dst, src, n)[a] == m[a]
  {
    hide Repeated;
    if n == 0 {
    } else {
      hide CopyForward;
      var k := n - 1;
      CopyForwardRepeats(m, dst, src, k);
      RepeatedNext(m, CopyForward(m, dst, src, k), dst, src, k);
      CopyForwardNext(m, dst, src, n);
    }
  }

  lemma CopyForwardNext(m: seq<Byte>, dst: nat, src: nat, n: nat)
    requires n > 0 && dst + n <= |m| && src + n <= |m|
    ensures var r := CopyForward(m, dst, src, n - 1); CopyForward(m, dst, src, n) == r[dst + n - 1 := r[src + n - 1]]
  {
  }

  lemma SmallRemainder(k: nat, d: nat)
    requires k < d
    ensures k % d == k
  {
    DivModUnique(k, d, 0, k);
  }

  lemma PeriodBack(k: nat, d: nat)
    requires 0 < d <= k
    ensures (k - d) % d == k % d
  {
    var q, r := k / d, k % d;
    assert k - d == d * (q - 1) + r by { assert k == d * q + r; }
    ScaleBounds(d, q - 1);
    DivModUnique(k - d, d, q - 1, r);
  }

  // The size of a block with its padding.
  function Padded(sz: nat): (r: nat)
    ensures sz <= r < sz + 8 && r % 8 == 0
  {
    (sz + 7) / 8 * 8
  }

  // The wrapping arithmetic of one allocation, for every request that the 65536 pages could hold.
  lemma BlockEnd(lastPtr: nat, sz: nat, pages: nat, asked: nat)
    requires lastPtr % 8 == 0 && lastPtr < pages * PAGE && asked == pages + sz / PAGE && asked < MAX_PAGES
    ensures lastPtr + sz + 7 < WORD && lastPtr + Padded(sz) < (asked + 1) * PAGE
  {
    EndsBefore(lastPtr, sz, pages, asked);
  }

  lemma EndsBefore(lastPtr: nat, sz: nat, pages: nat, asked: nat)
    requires lastPtr % 8 == 0 && lastPtr < pages * PAGE && asked == pages + sz / PAGE
    ensures lastPtr + sz + 7 < (asked + 1) * PAGE && lastPtr + Padded(sz) < (asked + 1) * PAGE
  {
    var w, a, b := sz / PAGE, lastPtr / 8, (sz + 7) / 8;
    assert lastPtr == 8 * a && Padded(sz) == 8 * b && sz + 7 <= 8 * b + 7;
    assert a + 1 <= pages * 8192;
    assert b <= w * 8192 + 8192 by { assert sz == PAGE * w + sz % PAGE; }
    hide Padded;
  }

  lemma WrapSmall(x: nat)
    requires x < WORD
    ensures Wrap(x) == x
  {
  }

  lemma Align8Adds(lastPtr: nat, sz: nat)
    requires lastPtr % 8 == 0 && lastPtr + sz + 7 < WORD
    ensures Align8(Wrap(lastPtr + sz)) == lastPtr + Padded(sz)
  {
    WrapSmall(lastPtr + sz);
    WrapSmall(lastPtr + sz + 7);
    hide Wrap;
    DivModUnique(lastPtr + sz + 7, 8, lastPtr / 8 + (sz + 7) / 8, (sz + 7) % 8);
  }

  // Pages that the memory needs so that a block of sz bytes and its padding end strictly below its end.
  function PagesFor(lastPtr: nat, sz: nat, pages: nat): nat {
    if (pages + sz / PAGE) * PAGE <= lastPtr + Padded(sz) then pages + sz / PAGE + 1 else pages + sz / PAGE
  }

  lemma GrowthFits(lastPtr: nat, sz: nat, pages: nat, asked: nat)
    requires lastPtr % 8 == 0 && lastPtr < pages * PAGE && asked == pages + sz / PAGE < MAX_PAGES
    ensures Wrap(asked * PAGE) == asked * PAGE
    ensures Align8(Wrap(lastPtr + sz)) == lastPtr + Padded(sz) < (asked + 1) * PAGE
  {
    hide Align8, Padded, Wrap;
    BlockEnd(lastPtr, sz, pages, asked);
    Align8Adds(lastPtr, sz);
    WrapSmall(asked * PAGE);
  }

  lemma FullMemoryWraps()
    ensures Wrap(MAX_PAGES * PAGE) == 0
  {
  }

  // The page count that the wrapping arithmetic arrives at, when asked pages hold the request without padding.
  function PagesAsked(asked: nat, end: nat): nat { if Wrap(asked * PAGE) <= end then asked + 1 else asked }

  lemma Growth(lastPtr: nat, sz: nat, pages: nat, limit: nat)
    requires lastPtr % 8 == 0 && lastPtr < pages * PAGE && limit <= MAX_PAGES
    ensures var end, asked := Align8(Wrap(lastPtr + sz)), pages + sz / PAGE;
      var total := PagesAsked(asked, end);
      && (total > limit <==> PagesFor(lastPtr, sz, pages) > limit || asked == MAX_PAGES)
      && (total <= limit ==> total == PagesFor(lastPtr, sz, pages) && end == lastPtr + Padded(sz) < total * PAGE)
  {
    hide Align8, Padded, Wrap, PagesFor;
    var asked := pages + sz / PAGE;
    PagesForAsked(lastPtr, sz, pages, asked);
    if asked < MAX_PAGES {
      GrowthFits(lastPtr, sz, pages, asked);
    } else if asked == MAX_PAGES {
      FullMemoryWraps();
    }
  }

  lemma PagesForAsked(lastPtr: nat, sz: nat, pages: nat, asked: nat)
    requires asked == pages + sz / PAGE
    ensures PagesFor(lastPtr, sz, pages) == if asked * PAGE <= lastPtr + Padded(sz) then asked + 1 else asked
  {
  }

  /** The memory grows by the whole pages asked for, and by one more exactly when the padded block would not fit. */
  lemma PagesForIsLeast(lastPtr: nat, sz: nat, pages: nat)
    requires lastPtr % 8 == 0 && lastPtr < pages * PAGE
    ensures var p := PagesFor(lastPtr, sz, pages);
      && p >= pages + sz / PAGE && lastPtr + Padded(sz) < p * PAGE
      && forall q: nat :: q >= pages + sz / PAGE && lastPtr + Padded(sz) < q * PAGE ==> q >= p
  {
    var asked := pages + sz / PAGE;
    PagesForAsked(lastPtr, sz, pages, asked);
    EndsBefore(lastPtr, sz, pages, asked);
  }

  // Blocks are not empty, 8-aligned, inside the heap area that ends at end, and pairwise disjoint.
  ghost predicate Laid(blocks: seq<Block>, heap: nat, end: nat) {
    && (forall i :: 0 <= i < |blocks| ==> blocks[i].size > 0 && blocks[i].start % 8 == 0)
    && (forall i :: 0 <= i < |blocks| ==> heap <= blocks[i].start && blocks[i].start + blocks[i].size <= end)
    && (forall i, j :: 0 <= i < j < |blocks| ==> blocks[i].start + blocks[i].size <= blocks[j].start)
  }

  lemma LayNext(blocks: seq<Block>, heap: nat, end: nat, sz: nat)
    requires Laid(blocks, heap, end) && heap <= end && end % 8 == 0 && sz > 0
    ensures Laid(blocks + [Block(end, sz)], heap, end + Padded(sz)) && (end + Padded(sz)) % 8 == 0
  {
    hide Padded;
    MultiplesAdd(end, Padded(sz));
    var all := blocks + [Block(end, sz)];
    assert forall i :: 0 <= i < |all| ==> all[i] == if i < |blocks| then blocks[i] else Block(end, sz);
  }

  lemma MultiplesAdd(a: nat, b: nat)
    requires a % 8 == 0 && b % 8 == 0
    ensures (a + b) % 8 == 0
  {
    DivModEquation(a, 8);
    DivModEquation(b, 8);
    DivModUnique(a + b, 8, a / 8 + b / 8, 0);
  }

  // Moving through a buffer behind the memory in use is moving.
  lemma MoveThrough(m: seq<Byte>, grown: seq<Byte>, p: nat, dst: nat, src: nat, n: nat)
    requires m <= grown && dst + n <= p && src + n <= p <= |m| && p + n <= |grown|
    ensures Moved(Moved(grown, p, src, n), dst, p, n)[..p] == Moved(m, dst, src, n)[..p]
  {
    hide Moved;
    var between := Moved(grown, p, src, n);
    forall a | 0 <= a < p
      ensures Moved(between, dst, p, n)[a] == Moved(m, dst, src, n)[a]
    {
      MovedAt(between, dst, p, n, a);
      MovedAt(m, dst, src, n, a);
      MovedAt(grown, p, src, n, a);
      if dst <= a < dst + n { MovedAt(grown, p, src, n, p + (a - dst)); }
    }
  }

  class Heap {
    var mem: seq<Byte>        // the linear memory
    const limit: nat          // the page count beyond which the host refuses to grow it
    const heap: nat
    var lastPtr: nat
    var nextPage: nat
    ghost var blocks: seq<Block>  // every block handed out so far, in order

    ghost predicate Valid()
      reads this
    {
      && nextPage * PAGE == |mem| && nextPage <= limit <= MAX_PAGES
      && heap % 8 == 0 && lastPtr % 8 == 0 && heap <= lastPtr < |mem|
      && Laid(blocks, heap, lastPtr)
    }

    // The heap base that the linker wrote, once aligned, lies inside the memory the program starts with.
    constructor (heapBase: nat, initial: seq<Byte>, limit: nat)
      requires |initial| % PAGE == 0 && |initial| / PAGE <= limit <= MAX_PAGES
      requires Padded(heapBase) < |initial|
      ensures Valid() && blocks == [] && mem == initial && heap == lastPtr == Padded(heapBase)
    {
      Align8Adds(0, heapBase);
      WrapSmall(heapBase);
      mem := initial;
      this.limit := limit;
      heap := Align8(heapBase);
      lastPtr := Align8(heapBase);
      nextPage := |initial| / PAGE;
      blocks := [];
    }

    // GROW_MEMORY
    method GrowMemory(more: nat, ghost pages: nat) returns (ok: bool)
      requires |mem| == pages * PAGE
      modifies this`mem
      ensures ok <==> pages + more <= limit
      ensures ok ==> |mem| == (pages + more) * PAGE && old(mem) <= mem
      ensures ok ==> forall a :: |old(mem)| <= a < |mem| ==> mem[a] == 0
      ensures !ok ==> mem == old(mem)
    {
      DivModUnique(|mem|, PAGE, pages, 0);
      Distribute(pages, more, PAGE);
      if |mem| / PAGE + more > limit { return false; }
      mem := mem + seq(more * PAGE, _ => 0);
      return true;
    }

    /** Returns the next free address and puts the end of the block, rounded up to 8, strictly below the end of a
        memory grown with zeros; aborts exactly when the host refuses, or when the grown memory would have 65536 pages
        before the spare page is considered. */
    method Alloc(sz: nat) returns (r: Outcome)
      requires Valid() && sz < WORD
      modifies this
      ensures r == Null <==> sz == 0
      ensures r == Null ==> mem == old(mem) && lastPtr == old(lastPtr)
      ensures r == Null ==> nextPage == old(nextPage) && blocks == old(blocks)
      ensures r == Aborted <==>
        && sz > 0
        && (old(PagesFor(lastPtr, sz, nextPage)) > limit || old(nextPage) + sz / PAGE == MAX_PAGES)
      ensures r != Aborted ==> Valid()
      ensures r.Ptr? ==> r.p == old(lastPtr) && blocks == old(blocks) + [Block(r.p, sz)]
      ensures r.Ptr? ==> lastPtr == r.p + Padded(sz) && |mem| == old(PagesFor(lastPtr, sz, nextPage)) * PAGE
      ensures r.Ptr? ==> old(mem) <= mem && forall a :: |old(mem)| <= a < |mem| ==> mem[a] == 0
    {
      hide Align8, Wrap, PagesFor, Padded, Laid;
      if sz == 0 { return Null; }
      Growth(lastPtr, sz, nextPage, limit);
      LayNext(blocks, heap, lastPtr, sz);
      var ret := lastPtr;
      lastPtr := Align8(Wrap(lastPtr + sz));
      var pagesToAlloc := sz / PAGE;
      nextPage := nextPage + pagesToAlloc;
      if Wrap(nextPage * PAGE) <= lastPtr {
        nextPage := nextPage + 1;
        pagesToAlloc := pagesToAlloc + 1;
      }
      var grown := GrowMemory(pagesToAlloc, old(nextPage));
      if !grown { return Aborted; }
      blocks := blocks + [Block(ret, sz)];
      return Ptr(ret);
    }

    /** memcpy: the bytes are copied one by one, in increasing address order. */
    method MemCpy(dst: nat, src: nat, n: nat)
      requires dst + n <= |mem| && src + n <= |mem|
      modifies this`mem
      ensures mem == CopyForward(old(mem), dst, src, n)
    {
      for i := 0 to n
        invariant mem == CopyForward(old(mem), dst, src, i)
      {
        mem := mem[dst + i := mem[src + i]];
      }
    }

    /** memmove: goes through a fresh block, so that overlapping ranges of the memory in use are moved correctly;
        nothing else below the heap's end changes. Aborts only when the block cannot be obtained. */
    method MemMove(dst: nat, src: nat, n: nat) returns (done: bool)
      requires Valid() && dst + n <= lastPtr && src + n <= lastPtr
      modifies this
      ensures done ==> Valid() && |mem| >= |old(mem)|
      ensures done ==> mem[..old(lastPtr)] == Moved(old(mem), dst, src, n)[..old(lastPtr)]
      ensures done ==> blocks == old(blocks) + [Block(old(lastPtr), if n == 0 then 1 else n)]
    {
      hide Laid, Moved, CopyForward, PagesFor, Padded;
      // new uint8_t[n] asks malloc for one byte when n is 0
      var r := Alloc(if n == 0 then 1 else n);
      if r.Aborted? { return false; }
      ghost var before := mem;
      MemCpy(r.p, src, n);
      CopyForwardMoves(before, r.p, src, n);
      ghost var between := mem;
      MemCpy(dst, r.p, n);
      CopyForwardMoves(between, dst, r.p, n);
      MoveThrough(old(mem), before, r.p, dst, src, n);
      return true;
    }
  }
}
