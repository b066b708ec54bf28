/** Digit vectors in mixed radix, most significant digit first, and their numbering in lexicographic order. */
module MixedRadix {
  import opened Arith

  function Product(size: seq<nat>): nat {
    if size == [] then 1 else Product(size[..|size|-1]) * size[|size|-1]
  }

  ghost predicate IsIndex(size: seq<nat>, v: seq<nat>) {
    |v| == |size| && forall i :: 0 <= i < |v| ==> v[i] < size[i]
  }

  // The position of an index vector when the last index varies fastest.
  function Rank(size: seq<nat>, v: seq<nat>): nat
    requires |v| == |size|
  {
    if v == [] then 0 else Rank(size[..|v|-1], v[..|v|-1]) * size[|v|-1] + v[|v|-1]
  }

  lemma RankSnoc(size: seq<nat>, v: seq<nat>)
    requires |v| == |size| && v != []
    ensures Rank(size, v) == Rank(size[..|size|-1], v[..|v|-1]) * size[|size|-1] + v[|v|-1]
  {
  }

  // The index vector at position k.
  function Unrank(size: seq<nat>, k: nat): (v: seq<nat>)
    ensures |v| == |size|
  {
    if size == [] then []
    else
      var n := size[|size|-1];
      if n == 0 then Unrank(size[..|size|-1], k) + [0]
      else Unrank(size[..|size|-1], k / n) + [k % n]
  }

  ghost predicate LexLess(v: seq<nat>, w: seq<nat>)
    requires |v| == |w|
  {
    exists i :: 0 <= i < |v| && v[..i] == w[..i] && v[i] < w[i]
  }

  /** Rank numbers the index vectors 0, 1, ... without gap or repetition: Unrank is its two-sided inverse. */
  lemma {:induction false} RankIsNumbering(size: seq<nat>, v: seq<nat>)
    requires IsIndex(size, v)
    ensures Rank(size, v) < Product(size)
    ensures Unrank(size, Rank(size, v)) == v
  {
    if v == [] {
    } else {
      var l := |v| - 1;
      var q, n := Rank(size[..l], v[..l]), size[l];
      RankIsNumbering(size[..l], v[..l]);
      DivModUnique(q * n + v[l], n, q, v[l]);
      RankCarries(q, Product(size[..l]), n, v[l], 0);
    }
  }

  lemma {:induction false} UnrankIsIndex(size: seq<nat>, k: nat)
    requires k < Product(size)
    ensures IsIndex(size, Unrank(size, k)) && Rank(size, Unrank(size, k)) == k
  {
    if size == [] {
    } else {
      var l := |size| - 1;
      var n := size[l];
      assert n > 0;
      DivBelow(k, n, Product(size[..l]));
      UnrankIsIndex(size[..l], k / n);
      var v := Unrank(size, k);
      assert v[..l] == Unrank(size[..l], k / n);
      DivModEquation(k, n);
    }
  }

  /** The numbering is row-major: it increases exactly in lexicographic order. */
  lemma {:induction false} RankIsRowMajor(size: seq<nat>, v: seq<nat>, w: seq<nat>)
    requires IsIndex(size, v) && IsIndex(size, w)
    ensures LexLess(v, w) <==> Rank(size, v) < Rank(size, w)
  {
    if LexLess(v, w) {
      var i :| 0 <= i < |v| && v[..i] == w[..i] && v[i] < w[i];
      LexIncreases(size, v, w, i);
    }
    if !LexLess(v, w) && v != w {
      var i := FirstDifference(v, w);
      assert w[..i] == v[..i] && w[i] < v[i];
      LexIncreases(size, w, v, i);
    }
  }

  lemma FirstDifference(v: seq<nat>, w: seq<nat>) returns (i: nat)
    requires |v| == |w| && v != w
    ensures i < |v| && v[..i] == w[..i] && v[i] != w[i]
  {
    i := 0;
    while v[i] == w[i]
      invariant i < |v| && v[..i] == w[..i] && v[i..] != w[i..]
      decreases |v| - i
    {
      assert v[i..] == [v[i]] + v[i+1..] && w[i..] == [w[i]] + w[i+1..];
      i := i + 1;
    }
  }

  lemma RankCarries(a: nat, b: nat, n: nat, x: nat, y: nat)
    requires a < b && x < n
    ensures a * n + x < b * n + y
  {
    MulMonotone(a + 1, b, n);
    NextMultiple(a, n);
  }

  lemma {:induction false} LexIncreases(size: seq<nat>, v: seq<nat>, w: seq<nat>, i: nat)
    requires IsIndex(size, v) && IsIndex(size, w) && i < |v| && v[..i] == w[..i] && v[i] < w[i]
    ensures Rank(size, v) < Rank(size, w)
  {
    var l := |v| - 1;
    if i < l {
      assert v[..l][..i] == v[..i] && w[..l][..i] == w[..i];
      LexIncreases(size[..l], v[..l], w[..l], i);
      RankCarries(Rank(size[..l], v[..l]), Rank(size[..l], w[..l]), size[l], v[l], w[l]);
    } else {
      assert v[..l] == w[..l];
    }
  }

  lemma {:induction false} PositiveFactors(size: seq<nat>)
    requires Product(size) > 0
    ensures forall i :: 0 <= i < |size| ==> size[i] > 0
  {
    if size == [] {
    } else {
      PositiveFactors(size[..|size|-1]);
    }
  }

  lemma {:induction false} ProductSplit(size: seq<nat>, i: nat)
    requires i <= |size|
    ensures Product(size) == Product(size[..i]) * Product(size[i..])
  {
    if i == |size| {
      assert size[..i] == size;
    } else {
      var l := |size| - 1;
      ProductSplit(size[..l], i);
      assert size[..l][..i] == size[..i] && size[..l][i..] == size[i..][..l-i];
      Associate(Product(size[..i]), Product(size[..l][i..]), size[l]);
    }
  }

  lemma Regroup(a: nat, p: nat, b: nat, n: nat, x: nat)
    ensures (a * p + b) * n + x == a * (p * n) + (b * n + x)
  {
    Distribute(a * p, b, n);
    Associate(a, p, n);
  }

  /** A vector splits into its leading digits, weighted by the number of vectors behind them, and the rest. */
  lemma {:induction false} RankSplit(size: seq<nat>, v: seq<nat>, i: nat)
    requires |v| == |size| && i <= |v|
    ensures Rank(size, v) == Rank(size[..i], v[..i]) * Product(size[i..]) + Rank(size[i..], v[i..])
  {
    if i == |v| {
      assert v[..i] == v && size[..i] == size;
    } else {
      var l := |v| - 1;
      RankSplit(size[..l], v[..l], i);
      assert size[..l][..i] == size[..i] && v[..l][..i] == v[..i];
      assert size[..l][i..] == size[i..][..l-i] && v[..l][i..] == v[i..][..l-i];
      Regroup(Rank(size[..i], v[..i]), Product(size[i..][..l-i]), Rank(size[i..][..l-i], v[i..][..l-i]), size[l], v[l]);
    }
  }
}
