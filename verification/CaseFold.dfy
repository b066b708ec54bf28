/**
  * unicode-case-fold.py: compiles a sorted list of case mappings into straight-line code. The emitted statements
  * are kept as syntax; their meaning is Exec.
  */
module CaseFold {
  import opened Arith
  import opened Options

  // One C or S entry of the database: code point and replacement.
  datatype Mapping = Mapping(from: int, to: int)

  // The five shapes of statement that dump_block emits.
  datatype Stmt =
    | ReturnIfEqual(code: int, to: int)                                   // if (C == code) return to;
    | ReturnSelfBelow(first: int)                                         // if (C < first) return C;
    // if (C <= last && C % stride == modulo) return C + shift;
    | ReturnStrided(last: int, stride: int, modulo: int, shift: int)
    | ReturnOrOne(last: int)                                              // if (C <= last) return C | 1;
    | ReturnShifted(last: int, shift: int)                                // if (C <= last) return C + shift;

  datatype Outcome = Code(body: seq<Stmt>) | Unsorted | NoMappings

  // ----- the emitted language

  // Remainder as in C: truncated towards zero.
  function CMod(c: int, n: int): int
    requires n > 0
  {
    if c >= 0 then c % n else -((-c) % n)
  }

  function OrOne(c: int): int {
    if c % 2 == 0 then c + 1 else c
  }

  function ExecStmt(s: Stmt, c: int): Option<int> {
    match s
    case ReturnIfEqual(code, to) => if c == code then Some(to) else None
    case ReturnSelfBelow(first) => if c < first then Some(c) else None
    case ReturnStrided(last, stride, modulo, shift) =>
      if c <= last && stride > 0 && CMod(c, stride) == modulo then Some(c + shift) else None
    case ReturnOrOne(last) => if c <= last then Some(OrOne(c)) else None
    case ReturnShifted(last, shift) => if c <= last then Some(c + shift) else None
  }

  // What a statement sequence returns, None when control falls off its end.
  function Exec(code: seq<Stmt>, c: int): Option<int> {
    if code == [] then None
    else
      var r := ExecStmt(code[0], c);
      if r.Some? then r else Exec(code[1..], c)
  }

  // foldCharSimple: the emitted body followed by "return C".
  function FoldChar(code: seq<Stmt>, c: int): int {
    match Exec(code, c) case Some(r) => r case None => c
  }

  // The mapping list as a function.
  function Lookup(maps: seq<Mapping>, c: int): int {
    if maps == [] then c
    else if maps[0].from == c then maps[0].to
    else Lookup(maps[1..], c)
  }

  // ----- the code generator's arithmetic

  function Shift(m: Mapping): int { m.to - m.from }

  function Stride2(m1: Mapping, m2: Mapping): int { m2.from - m1.from }

  function Stride(block: seq<Mapping>): int
    requires |block| >= 2
  {
    Stride2(block[0], block[1])
  }

  ghost predicate Sorted(maps: seq<Mapping>) {
    (maps != [] ==> maps[0].from >= 0) && forall i :: 1 <= i < |maps| ==> maps[i-1].from < maps[i].from
  }

  // The assumption dump_block states: one shift, and one stride between neighbours.
  ghost predicate Uniform(b: seq<Mapping>) {
    && (forall i :: 0 <= i < |b| ==> Shift(b[i]) == Shift(b[0]))
    && (forall i :: 1 <= i < |b| ==> Stride2(b[i-1], b[i]) == Stride(b))
  }

  // The statements dump_block appends for a block.
  function BlockCode(b: seq<Mapping>): seq<Stmt>
    requires b != [] && (|b| >= 2 ==> Stride(b) > 0)
  {
    if |b| == 1 then [ReturnIfEqual(b[0].from, b[0].to)]
    else
      var first := b[0].from;
      var last := first + Stride(b) * (|b| - 1);
      [ReturnSelfBelow(first),
       if Stride(b) == 2 && Shift(b[0]) == 1 && first % 2 == 0 then ReturnOrOne(last)
       else if Stride(b) == 1 then ReturnShifted(last, Shift(b[0]))
       else ReturnStrided(last, Stride(b), first % Stride(b), Shift(b[0]))]
  }

  // ----- what a piece of emitted code does for the mappings it was emitted for

  ghost predicate Listed(maps: seq<Mapping>, c: int) {
    exists i :: 0 <= i < |maps| && maps[i].from == c
  }

  // Listed code points are mapped, others keep their value or fall through, and those above the list fall through.
  ghost predicate CoversAt(code: seq<Stmt>, maps: seq<Mapping>, c: int) {
    && (forall i :: 0 <= i < |maps| && maps[i].from == c ==> Exec(code, c) == Some(maps[i].to))
    && (!Listed(maps, c) ==> Exec(code, c) == None || Exec(code, c) == Some(c))
    && ((forall i :: 0 <= i < |maps| ==> maps[i].from < c) ==> Exec(code, c) == None)
  }

  lemma {:induction false} ExecConcat(a: seq<Stmt>, b: seq<Stmt>, c: int)
    ensures Exec(a + b, c) == if Exec(a, c).Some? then Exec(a, c) else Exec(b, c)
  {
    if a == [] {
      assert a + b == b;
    } else {
      assert (a + b)[1..] == a[1..] + b;
      ExecConcat(a[1..], b, c);
    }
  }

  lemma {:induction false} SortedBefore(maps: seq<Mapping>, i: nat, j: nat)
    requires Sorted(maps) && i < j < |maps|
    ensures 0 <= maps[i].from < maps[j].from
  {
    if i > 0 { SortedBefore(maps, i - 1, i); }
    if i < j - 1 { SortedBefore(maps, i, j - 1); }
  }

  lemma {:induction false} BlockForm(b: seq<Mapping>, i: nat)
    requires |b| >= 2 && Uniform(b) && i < |b|
    ensures b[i].from == b[0].from + Stride(b) * i && b[i].to == b[i].from + Shift(b[0])
  {
    if i > 0 {
      BlockForm(b, i - 1);
      assert Stride2(b[i-1], b[i]) == Stride(b);
      assert Stride(b) * i == Stride(b) * (i - 1) + Stride(b);
    }
    assert Shift(b[i]) == Shift(b[0]);
  }

  // The modulo test of the generic pattern selects exactly the members of the block.
  lemma MemberPassesModulo(b: seq<Mapping>, i: nat)
    requires |b| >= 2 && Uniform(b) && Stride(b) > 0 && b[0].from >= 0 && i < |b|
    ensures b[i].from % Stride(b) == b[0].from % Stride(b)
  {
    var first, s := b[0].from, Stride(b);
    BlockForm(b, i);
    assert s * (first / s + i) == s * (first / s) + s * i;
    DivModUnique(b[i].from, s, first / s + i, first % s);
  }

  lemma ModuloFindsMember(b: seq<Mapping>, c: int) returns (k: nat)
    requires |b| >= 2 && Uniform(b) && Stride(b) > 0 && b[0].from >= 0
    requires b[0].from <= c <= b[0].from + Stride(b) * (|b| - 1) && c % Stride(b) == b[0].from % Stride(b)
    ensures k < |b| && b[k].from == c
  {
    k := Multiple(b[0].from, c, Stride(b), |b| - 1);
    BlockForm(b, k);
  }

  lemma Multiple(first: nat, c: nat, s: nat, n: nat) returns (k: nat)
    requires s > 0 && c % s == first % s && first <= c <= first + s * n
    ensures k <= n && c == first + s * k
  {
    var d := c / s - first / s;
    assert c - first == s * d by { DivModEquation(c, s); DivModEquation(first, s); }
    ScaleBounds(s, d);
    ScaleBounds(s, d - n);
    assert s * (d - n) == s * d - s * n;
    k := d;
  }

  lemma BlockCovers(b: seq<Mapping>, c: int)
    requires b != [] && Uniform(b) && b[0].from >= 0 && (|b| >= 2 ==> Stride(b) > 0)
    ensures CoversAt(BlockCode(b), b, c)
  {
    if |b| >= 2 {
      var first, s, n := b[0].from, Stride(b), |b| - 1;
      var last := first + s * n;
      forall i | 0 <= i < |b|
        ensures first <= b[i].from <= last && b[i].to == b[i].from + Shift(b[0])
      {
        BlockForm(b, i);
        ScaleBounds(s, i);
        assert s * n == s * i + s * (n - i);
        ScaleBounds(s, n - i);
      }
      BlockForm(b, n);
      assert b[n].from == last;
      forall i | 0 <= i < |b|
        ensures b[i].from % s == first % s
      {
        MemberPassesModulo(b, i);
      }
      if first <= c <= last && c % s == first % s { var _ := ModuloFindsMember(b, c); }
      var code := BlockCode(b);
      assert code[1..] == [code[1]] && code[1..][1..] == [];
      assert Exec(code[1..], c) == ExecStmt(code[1], c);
    }
  }

  // Code for a list followed by code for a later list is code for the concatenation.
  lemma CoversConcat(code1: seq<Stmt>, maps1: seq<Mapping>, code2: seq<Stmt>, maps2: seq<Mapping>, c: int)
    requires Sorted(maps1 + maps2) && maps2 != []
    requires CoversAt(code1, maps1, c) && CoversAt(code2, maps2, c)
    ensures CoversAt(code1 + code2, maps1 + maps2, c)
  {
    ExecConcat(code1, code2, c);
    var maps := maps1 + maps2;
    forall i, j | 0 <= i < |maps1| && 0 <= j < |maps2|
      ensures maps1[i].from < maps2[j].from
    {
      SortedBefore(maps, i, |maps1| + j);
    }
    assert forall i :: 0 <= i < |maps1| ==> maps[i] == maps1[i];
    assert forall j :: 0 <= j < |maps2| ==> maps[|maps1| + j] == maps2[j];
    assert Listed(maps1, c) || Listed(maps2, c) ==> Listed(maps, c);
  }

  lemma {:induction false} LookupFinds(maps: seq<Mapping>, c: int)
    requires Sorted(maps)
    ensures forall i :: 0 <= i < |maps| && maps[i].from == c ==> Lookup(maps, c) == maps[i].to
    ensures !Listed(maps, c) ==> Lookup(maps, c) == c
  {
    LookupSuffix(maps, c, 0);
    assert maps[0..] == maps;
  }

  lemma {:induction false} LookupSuffix(maps: seq<Mapping>, c: int, k: nat)
    requires Sorted(maps) && k <= |maps|
    ensures forall i :: k <= i < |maps| && maps[i].from == c ==> Lookup(maps[k..], c) == maps[i].to
    ensures !Listed(maps, c) ==> Lookup(maps[k..], c) == c
    decreases |maps| - k
  {
    if k == |maps| {
    } else {
      LookupSuffix(maps, c, k + 1);
      assert maps[k..][1..] == maps[k+1..];
      forall i | k < i < |maps|
        ensures maps[i].from != maps[k].from
      {
        SortedBefore(maps, k, i);
      }
    }
  }

  /** Code that covers a list computes the list's function on every character. */
  lemma CoveredMeaning(code: seq<Stmt>, maps: seq<Mapping>, c: int)
    requires Sorted(maps) && CoversAt(code, maps, c)
    ensures FoldChar(code, c) == Lookup(maps, c)
  {
    LookupFinds(maps, c);
  }

  ghost predicate Covers(code: seq<Stmt>, maps: seq<Mapping>) {
    forall c :: CoversAt(code, maps, c)
  }

  lemma DumpCovers(code: seq<Stmt>, maps: seq<Mapping>, b: seq<Mapping>)
    requires Sorted(maps + b) && b != [] && Uniform(b) && Covers(code, maps)
    ensures b[0].from >= 0 && (|b| >= 2 ==> Stride(b) > 0)
    ensures Covers(code + BlockCode(b), maps + b)
  {
    assert forall j :: 0 <= j < |b| ==> (maps + b)[|maps| + j] == b[j];
    assert maps == [] ==> maps + b == b;
    if |maps| > 0 { SortedBefore(maps + b, 0, |maps|); }
    if |b| >= 2 { SortedBefore(maps + b, |maps|, |maps| + 1); }
    forall c
      ensures CoversAt(code + BlockCode(b), maps + b, c)
    {
      BlockCovers(b, c);
      CoversConcat(code, maps, BlockCode(b), b, c);
    }
  }

  ghost predicate Implements(code: seq<Stmt>, maps: seq<Mapping>) {
    forall c :: FoldChar(code, c) == Lookup(maps, c)
  }

  lemma CoversImplements(code: seq<Stmt>, maps: seq<Mapping>)
    requires Sorted(maps) && Covers(code, maps)
    ensures Implements(code, maps)
  {
    forall c
      ensures FoldChar(code, c) == Lookup(maps, c)
    {
      CoveredMeaning(code, maps, c);
    }
  }

  lemma NothingCoversNothing()
    ensures Sorted([]) && Covers([], [])
  {
  }

  lemma NextSorted(input: seq<Mapping>, k: nat)
    requires k < |input| && Sorted(input[..k])
    ensures Sorted(input[..k+1]) <==> input[k].from > (if k == 0 then -1 else input[k-1].from)
    ensures Sorted(input) ==> Sorted(input[..k+1])
  {
  }

  lemma UniformNext(b: seq<Mapping>, m: Mapping)
    ensures Uniform([m])
    ensures b != [] && Uniform(b) && Shift(b[0]) == Shift(m) && (|b| == 1 || Stride(b) == Stride2(b[|b|-1], m)) ==>
      Uniform(b + [m])
  {
  }

  class Emitter {
    var body: seq<Stmt>  // the text of the function body, as syntax

    constructor ()
      ensures body == []
    {
      body := [];
    }

    // dump_block: raises on an empty block, whose first mapping does not exist.
    method DumpBlock(b: seq<Mapping>) returns (ok: bool)
      requires |b| >= 2 ==> Stride(b) > 0
      modifies this
      ensures ok <==> b != []
      ensures body == if ok then old(body) + BlockCode(b) else old(body)
    {
      if |b| == 0 { return false; }
      if |b| == 1 {
        body := body + [ReturnIfEqual(b[0].from, b[0].to)];
        return true;
      }
      var first := b[0].from;
      var last := first + Stride(b) * (|b| - 1);
      var modulo := first % Stride(b);
      body := body + [ReturnSelfBelow(first)];
      var pattern := ReturnStrided(last, Stride(b), modulo, Shift(b[0]));
      if Stride(b) == 2 && Shift(b[0]) == 1 && modulo == 0 {
        pattern := ReturnOrOne(last);
      } else if Stride(b) == 1 {
        pattern := ReturnShifted(last, Shift(b[0]));
      }
      body := body + [pattern];
      return true;
    }

    // Appends the code of a block behind code for the mappings before it.
    method Flush(b: seq<Mapping>, ghost before: seq<Mapping>)
      requires b != [] && Uniform(b) && Sorted(before + b) && Covers(body, before)
      modifies this
      ensures Covers(body, before + b)
    {
      hide Covers, Sorted, Uniform, BlockCode;
      DumpCovers(body, before, b);
      var _ := DumpBlock(b);
    }

    /** The whole script: the entries in file order give code for their mapping, unless they are not strictly
        increasing or there are none. */
    method Generate(input: seq<Mapping>) returns (r: Outcome)
      requires body == []
      modifies this
      ensures r == Unsorted <==> !Sorted(input)
      ensures r == NoMappings <==> input == []
      ensures r.Code? ==> Implements(r.body, input)
    {
      hide Covers, Sorted, Implements, Uniform;
      var previous := -1;
      var block: seq<Mapping> := [];
      ghost var done := 0;
      NothingCoversNothing();
      for k := 0 to |input|
        invariant 0 <= done <= k && block == input[done..k] && (k > 0 ==> block != [])
        invariant previous == if k == 0 then -1 else input[k-1].from
        invariant Sorted(input[..k]) && Covers(body, input[..done])
        invariant block != [] ==> Uniform(block)
      {
        var m := input[k];
        NextSorted(input, k);
        if m.from <= previous { return Unsorted; }
        assert input[..done] + block == input[..k];
        UniformNext(block, m);
        if |block| == 0 {
          block := [m];
        } else if Shift(block[0]) != Shift(m) {
          Flush(block, input[..done]);
          block, done := [m], k;
        } else if |block| == 1 || Stride(block) == Stride2(block[|block|-1], m) {
          block := block + [m];
        } else {
          Flush(block, input[..done]);
          block, done := [m], k;
        }
        previous := m.from;
      }
      assert input[..|input|] == input && Sorted(input);
      assert input[..done] + block == input;
      if block != [] { DumpCovers(body, input[..done], block); }
      var ok := DumpBlock(block);
      if !ok { return NoMappings; }
      CoversImplements(body, input);
      return Code(body);
    }
  }
}
