/** gslice::__init: the flat positions of a generalised slice, enumerated with an odometer of indices. */
module GSlice {
  import opened Arith
  import opened MixedRadix

  // size_t has 32 bits on the target machine.
  const WORD: nat := 0x1_0000_0000

  function Wrap(x: int): (r: nat)
    ensures r < WORD
  {
    x % WORD
  }

  lemma WrapCongruent(a: int, b: int, m: int)
    requires a == b + WORD * m
    ensures Wrap(a) == Wrap(b)
  {
  }

  lemma WrapSmall(x: int)
    requires 0 <= x < WORD
    ensures Wrap(x) == x
  {
  }

  lemma WrapDifference(a: int, b: int)
    ensures Wrap(Wrap(a) - Wrap(b)) == Wrap(a - b)
    ensures Wrap(Wrap(a) + b) == Wrap(a + b)
  {
    WrapCongruent(a - b, Wrap(a) - Wrap(b), a / WORD - b / WORD);
    WrapCongruent(a + b, Wrap(a) + b, a / WORD);
  }

  lemma WrapProduct(a: int, b: int)
    ensures Wrap(Wrap(a) * b) == Wrap(a * b)
  {
    assert a * b == Wrap(a) * b + WORD * (a / WORD * b) by { assert a == Wrap(a) + WORD * (a / WORD); }
    WrapCongruent(a * b, Wrap(a) * b, a / WORD * b);
  }

  // ----- positions

  function Dot(stride: seq<nat>, v: seq<nat>): nat
    requires |v| == |stride|
  {
    if v == [] then 0 else Dot(stride[..|v|-1], v[..|v|-1]) + stride[|v|-1] * v[|v|-1]
  }

  /**
    * It is the sum of the strides weighted by the indices: no index adds nothing, and one index more adds its stride.
    */
  lemma {:induction false} DotIsWeightedSum(stride: seq<nat>, v: seq<nat>, i: nat, x: nat)
    requires |v| == |stride| && i < |v|
    ensures Dot(stride, v[i := x]) + stride[i] * v[i] == Dot(stride, v) + stride[i] * x
    ensures (forall j :: 0 <= j < |v| ==> v[j] == 0) ==> Dot(stride, v) == 0
  {
    var l := |v| - 1;
    if i == l {
      assert v[i := x][..l] == v[..l];
    } else {
      assert v[i := x][..l] == v[..l][i := x];
      DotIsWeightedSum(stride[..l], v[..l], i, x);
    }
    if forall j :: 0 <= j < |v| ==> v[j] == 0 { ZeroIsFirst(v, stride, v); }
  }

  // The position, modulo the word, that section 26.6.6 of ISO C++11 assigns to index vector number k.
  function Position(start: nat, size: seq<nat>, stride: seq<nat>, k: nat): nat
    requires |size| == |stride|
  {
    Wrap(start + Dot(stride, Unrank(size, k)))
  }

  // ----- one tick of the odometer

  // The strides to take back when the digits from i on return from their maximum to zero.
  function Rewind(stride: seq<nat>, size: seq<nat>, i: nat, j: nat): int
    requires |size| == |stride| && i <= j <= |size|
  {
    if i == j then 0 else Rewind(stride, size, i, j - 1) + stride[j-1] * (size[j-1] as int - 1)
  }

  function Tick(v: seq<nat>, i: nat): seq<nat>
    requires i < |v|
  {
    v[..i] + [v[i] + 1] + seq(|v| - i - 1, _ => 0)
  }

  // The digits behind position i are at their maximum.
  ghost predicate FullFrom(size: seq<nat>, v: seq<nat>, i: nat) {
    |v| == |size| && forall j :: i <= j < |v| ==> v[j] + 1 == size[j]
  }

  lemma TickIsIndex(size: seq<nat>, v: seq<nat>, i: nat)
    requires IsIndex(size, v) && i < |v| && v[i] + 1 < size[i]
    ensures IsIndex(size, Tick(v, i))
  {
  }

  lemma {:induction false} TickRank(size: seq<nat>, v: seq<nat>, i: nat)
    requires i < |v| && FullFrom(size, v, i + 1)
    ensures Rank(size, Tick(v, i)) == Rank(size, v) + 1
  {
    hide Rank;
    var l := |v| - 1;
    RankSnoc(size, v);
    RankSnoc(size, Tick(v, i));
    if i == l {
      assert Tick(v, i)[..l] == v[..l];
    } else {
      assert Tick(v, i)[..l] == Tick(v[..l], i);
      TickRank(size[..l], v[..l], i);
      NextMultiple(Rank(size[..l], v[..l]), size[l]);
    }
  }

  lemma {:induction false} TickDot(size: seq<nat>, stride: seq<nat>, v: seq<nat>, i: nat)
    requires |stride| == |size| && i < |v| && FullFrom(size, v, i + 1)
    ensures Dot(stride, Tick(v, i)) == Dot(stride, v) + stride[i] - Rewind(stride, size, i + 1, |v|)
  {
    var l := |v| - 1;
    if i == l {
      assert Tick(v, i)[..l] == v[..l];
      assert stride[l] * (v[l] + 1) == stride[l] * v[l] + stride[l];
    } else {
      assert Tick(v, i)[..l] == Tick(v[..l], i);
      TickDot(size[..l], stride[..l], v[..l], i);
      RewindPrefix(stride, size, i + 1, l);
      assert stride[l] * Tick(v, i)[l] == 0;
    }
  }

  lemma {:induction false} RewindPrefix(stride: seq<nat>, size: seq<nat>, i: nat, j: nat)
    requires |size| == |stride| && i <= j < |size|
    ensures Rewind(stride[..|size|-1], size[..|size|-1], i, j) == Rewind(stride, size, i, j)
  {
    if i == j {
    } else {
      RewindPrefix(stride, size, i, j - 1);
    }
  }

  lemma {:induction false} FullIsLast(size: seq<nat>, v: seq<nat>)
    requires IsIndex(size, v) && FullFrom(size, v, 0)
    ensures Rank(size, v) + 1 == Product(size)
  {
    if v == [] {
    } else {
      var l := |v| - 1;
      FullIsLast(size[..l], v[..l]);
      NextMultiple(Rank(size[..l], v[..l]), size[l]);
    }
  }

  lemma {:induction false} ZeroIsFirst(size: seq<nat>, stride: seq<nat>, v: seq<nat>)
    requires |stride| == |size| == |v| && forall i :: 0 <= i < |v| ==> v[i] == 0
    ensures Rank(size, v) == 0 && Dot(stride, v) == 0
  {
    if v == [] {
    } else {
      ZeroIsFirst(size[..|v|-1], stride[..|v|-1], v[..|v|-1]);
    }
  }

  // What one turn of the odometer does: it fills a slot, finds that all are filled, or would fill one that does not
  // exist.
  datatype Turned = Filled | Exhausted | Outside

  class GSlice {
    const size: seq<nat>
    const stride: seq<nat>
    var oneD: array<nat>
    ghost var outside: bool  // construction wrote behind the last slot

    // gslice takes one stride per size; each is a size_t.
    ghost predicate WellFormed() {
      |size| == |stride|
      && (forall i :: 0 <= i < |size| ==> size[i] < WORD)
      && (forall i :: 0 <= i < |stride| ==> stride[i] < WORD)
    }

    /** A new gslice enumerates its positions exactly if their number fits a word. */
    constructor (start: nat, size: seq<nat>, stride: seq<nat>)
      requires start < WORD && |size| == |stride|
      requires (forall i :: 0 <= i < |size| ==> size[i] < WORD) && (forall i :: 0 <= i < |stride| ==> stride[i] < WORD)
      ensures this.size == size && this.stride == stride && SlotsFilled(start)
      ensures Enumerates(start) <==> Product(size) < WORD
      ensures outside <==> Product(size) >= WORD && Wrap(Product(size)) != 0
    {
      this.size, this.stride := size, stride;
      this.oneD := new nat[0];
      new;
      var inBounds := Init(start);
      outside := !inBounds;
    }

    // Every slot holds its position, and the slots are as many as the wrapped count says.
    ghost predicate SlotsFilled(start: nat)
      reads this, oneD
    {
      |size| == |stride|
      && oneD.Length == (if size == [] then 0 else Wrap(Product(size)))
      && forall k :: 0 <= k < oneD.Length ==> oneD[k] == Position(start, size, stride, k)
    }

    // The slots are the positions of all index vectors; without dimensions there is none.
    ghost predicate Enumerates(start: nat)
      reads this, oneD
    {
      SlotsFilled(start) && oneD.Length == if size == [] then 0 else Product(size)
    }

    // The number of slots, computed with wrap-around.
    method SlotCount() returns (k: nat)
      ensures k == if size == [] then 0 else Wrap(Product(size))
    {
      hide Wrap;
      k := if |size| != 0 then Wrap(1) else 0;
      for i := 0 to |size|
        invariant k == if |size| != 0 then Wrap(Product(size[..i])) else 0
      {
        assert size[..i+1][..i] == size[..i];
        WrapProduct(Product(size[..i]), size[i]);
        k := Wrap(k * size[i]);
      }
      assert size[..|size|] == size;
    }

    // Fills slot k from slot k - 1 when digit i steps and the digits behind it return to zero.
    method FillSlot(k: nat, i: nat)
      requires WellFormed() && 1 <= k < oneD.Length && i < |size|
      modifies oneD
      ensures oneD[k] == Wrap(oneD[k-1] + stride[i] - Rewind(stride, size, i + 1, |size|))
      ensures forall q :: 0 <= q < oneD.Length && q != k ==> oneD[q] == old(oneD[q])
    {
      hide Wrap;
      oneD[k] := Wrap(oneD[k-1] + stride[i]);
      for j := i + 1 to |size|
        invariant oneD[k] == Wrap(oneD[k-1] + stride[i] - Rewind(stride, size, i + 1, j))
        invariant forall q :: 0 <= q < oneD.Length && q != k ==> oneD[q] == old(oneD[q])
      {
        var back := Wrap(stride[j] * (size[j] as int - 1));
        WrapDifference(oneD[k-1] + stride[i] - Rewind(stride, size, i + 1, j), stride[j] * (size[j] as int - 1));
        oneD[k] := Wrap(oneD[k] as int - back);
      }
    }

    // One turn of the odometer: steps the last index that is not at its maximum and fills the next slot. The source
    // fills it unchecked; here a slot that does not exist is reported.
    method Turn(indices: array<nat>, k: nat, ghost start: nat) returns (turned: Turned)
      requires WellFormed() && indices.Length == |size| > 0 && indices != oneD && oneD.Length <= Product(size)
      requires IsIndex(size, indices[..]) && Rank(size, indices[..]) == k < oneD.Length
      requires oneD[k] == Position(start, size, stride, k)
      modifies indices, oneD
      ensures turned.Exhausted? <==> k + 1 == Product(size)
      ensures turned.Outside? <==> k + 1 == oneD.Length < Product(size)
      ensures turned.Filled? ==> IsIndex(size, indices[..]) && Rank(size, indices[..]) == k + 1 < oneD.Length
      ensures turned.Filled? ==> oneD[k+1] == Position(start, size, stride, k + 1)
      ensures forall q :: 0 <= q <= k ==> oneD[q] == old(oneD[q])
    {
      hide Rank, Unrank, Dot, Product, Rewind, Wrap, Position;
      ghost var v := indices[..];
      var i := |size| - 1;
      while true
        invariant 0 <= i < |size|
        invariant forall j :: 0 <= j <= i ==> indices[j] == v[j]
        invariant forall j :: i < j < |size| ==> indices[j] == 0
        invariant FullFrom(size, v, i + 1)
        modifies indices
        decreases i
      {
        indices[i] := indices[i] + 1;
        if indices[i] < size[i] { break; }
        if i == 0 {
          FullIsLast(size, v);
          return Exhausted;
        }
        indices[i] := 0;
        i := i - 1;
      }
      assert indices[..] == Tick(v, i);
      TickSuccessor(size, v, i);
      if k + 1 == oneD.Length { return Outside; }
      TickPosition(start, size, stride, v, i, k);
      FillSlot(k + 1, i);
      return Filled;
    }

    /**
      * Fills every slot with its position. The slots are all positions exactly if their number fits a word; a larger
      * number that does not wrap to zero makes the odometer run past the last slot, which is the result false here.
      */
    method Init(start: nat) returns (inBounds: bool)
      requires WellFormed() && start < WORD
      modifies this`oneD
      ensures SlotsFilled(start) && fresh(oneD)
      ensures Enumerates(start) <==> Product(size) < WORD
      ensures !inBounds <==> Product(size) >= WORD && Wrap(Product(size)) != 0
    {
      hide Rank, Unrank, Dot, Product, Wrap, Position;
      var indices := new nat[|size|](_ => 0);
      var k := SlotCount();
      oneD := new nat[k](_ => 0);
      CountFits(size);
      if oneD.Length == 0 { return true; }
      PositiveFactors(size);
      ZeroIsFirst(size, stride, indices[..]);
      RankIsNumbering(size, indices[..]);
      PositionOf(start, size, stride, 0, indices[..]);
      WrapSmall(start);
      k := 0;
      oneD[k] := start;
      while true
        invariant indices.Length == |size| > 0 && fresh(indices) && fresh(oneD) && oneD.Length == Wrap(Product(size))
        invariant indices != oneD && IsIndex(size, indices[..]) && Rank(size, indices[..]) == k < oneD.Length
        invariant forall q :: 0 <= q <= k ==> oneD[q] == Position(start, size, stride, q)
        modifies indices, oneD
        decreases oneD.Length - k
      {
        var turned := Turn(indices, k, start);
        match turned
        case Exhausted => return true;
        case Outside => return false;
        case Filled => k := k + 1;
      }
    }
  }

  // The count of slots is the number of index vectors exactly if that fits a word, and is smaller otherwise.
  lemma CountFits(size: seq<nat>)
    ensures Wrap(Product(size)) <= Product(size) && (Wrap(Product(size)) == Product(size) <==> Product(size) < WORD)
    ensures size == [] ==> Product(size) == 1
  {
  }

  lemma TickPosition(start: nat, size: seq<nat>, stride: seq<nat>, v: seq<nat>, i: nat, k: nat)
    requires |stride| == |size| == |v| && i < |v| && FullFrom(size, v, i + 1)
    requires Unrank(size, k) == v && Unrank(size, k + 1) == Tick(v, i)
    ensures Position(start, size, stride, k + 1)
         == Wrap(Position(start, size, stride, k) + stride[i] - Rewind(stride, size, i + 1, |size|))
  {
    hide Wrap, Unrank, Dot, Rewind;
    TickDot(size, stride, v, i);
    WrapDifference(start + Dot(stride, v), stride[i] - Rewind(stride, size, i + 1, |size|));
  }

  lemma TickSuccessor(size: seq<nat>, v: seq<nat>, i: nat)
    requires IsIndex(size, v) && i < |v| && v[i] + 1 < size[i] && FullFrom(size, v, i + 1)
    ensures IsIndex(size, Tick(v, i)) && Rank(size, Tick(v, i)) == Rank(size, v) + 1 < Product(size)
    ensures Unrank(size, Rank(size, v) + 1) == Tick(v, i) && Unrank(size, Rank(size, v)) == v
  {
    hide Rank, Unrank, Product;
    TickIsIndex(size, v, i);
    TickRank(size, v, i);
    RankIsNumbering(size, v);
    RankIsNumbering(size, Tick(v, i));
  }

  lemma PositionOf(start: nat, size: seq<nat>, stride: seq<nat>, k: nat, v: seq<nat>)
    requires |stride| == |size| == |v| && Unrank(size, k) == v
    ensures Position(start, size, stride, k) == Wrap(start + Dot(stride, v))
  {
    hide Wrap, Unrank, Dot;
  }

  /** Three times 0x5555_5556 index vectors get two slots, so the third write is outside. */
  lemma CountWrapsShort()
    ensures Product([3, 0x5555_5556]) >= WORD && Wrap(Product([3, 0x5555_5556])) == 2
  {
    assert [3, 0x5555_5556][..1] == [3];
  }

  /** Here the count wraps to zero: nothing is written, and nothing is enumerated. */
  lemma CountWrapsToZero()
    ensures Product([0x1_0000, 0x1_0000]) == WORD && Wrap(Product([0x1_0000, 0x1_0000])) == 0
  {
    assert [0x1_0000, 0x1_0000][..1] == [0x1_0000];
  }
}
