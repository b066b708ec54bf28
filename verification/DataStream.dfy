/**
  * datastream: packing and unpacking of values of a recursive universe of types. Encode and Decode are the wire
  * format as functions; the methods below write and read it byte by byte through streams.
  */
module DataStream {
  import opened Arith
  import opened Bytes
  import opened Varint

  // The supported types. Vec stands for vector, list and deque; Str for string and vector<char>; Tuple for tuple, pair
  // and plain class; CArr for C arrays; Ordered for set, ordered by less, and for map, whose elements are pairs ordered
  // by their first component. Arithmetic types have at most 16 bytes.
  datatype Type =
    | Prim(size: nat, signed: bool)
    | VarUint
    | VarInt
    | Bool
    | Str
    | Vec(elem: Type)
    | Arr(elem: Type, n: nat)
    | CArr(elem: Type, n: nat)
    | Opt(elem: Type)
    | Variant(alts: seq<Type>)
    | Tuple(fields: seq<Type>)
    | Ordered(elem: Type, less: (Value, Value) -> bool)

  datatype Value =
    | Num(n: int)
    | Bits(b: bv32)
    | Text(s: seq<Byte>)
    | List(items: seq<Value>)
    | Nothing
    | Just(v: Value)
    | Alt(index: nat, v: Value)

  // ----- values of a type

  function Pow256(n: nat): (p: nat)
    ensures p > 0
  {
    if n == 0 then 1 else 256 * Pow256(n - 1)
  }

  ghost predicate SortedBy(items: seq<Value>, less: (Value, Value) -> bool) {
    forall i, j :: 0 <= i < j < |items| ==> less(items[i], items[j])
  }

  ghost predicate HasType(v: Value, t: Type)
    decreases t, 0
  {
    match t
    case Prim(size, signed) =>
      && v.Num? && 0 < size <= 16
      && if signed then -(Pow256(size) as int) <= 2 * v.n < Pow256(size) else 0 <= v.n < Pow256(size)
    case VarUint => v.Num? && 0 <= v.n < WORD
    case VarInt => v.Bits?
    case Bool => v.Num? && 0 <= v.n <= 1
    case Str => v.Text? && |v.s| < WORD
    case Vec(elem) => v.List? && |v.items| < WORD && AllHaveType(v.items, elem)
    case Arr(elem, n) => v.List? && |v.items| == n && AllHaveType(v.items, elem)
    case CArr(elem, n) => v.List? && |v.items| == n < WORD && AllHaveType(v.items, elem)
    case Opt(elem) => v.Nothing? || (v.Just? && HasType(v.v, elem))
    case Variant(alts) => v.Alt? && v.index < |alts| < WORD / 2 && HasType(v.v, alts[v.index])
    case Tuple(fields) => v.List? && FieldsHaveType(v.items, fields)
    case Ordered(elem, less) => v.List? && |v.items| < WORD && AllHaveType(v.items, elem) && SortedBy(v.items, less)
  }

  ghost predicate AllHaveType(items: seq<Value>, elem: Type)
    decreases elem, 1
  {
    forall i :: 0 <= i < |items| ==> HasType(items[i], elem)
  }

  ghost predicate FieldsHaveType(items: seq<Value>, fields: seq<Type>)
    decreases fields, 1
  {
    |items| == |fields| && (fields != [] ==> HasType(items[0], fields[0]) && FieldsHaveType(items[1..], fields[1..]))
  }

  // ----- the wire format

  // The low size bytes of n, least significant first.
  function LittleEndian(n: nat, size: nat): (r: seq<Byte>)
    ensures |r| == size
  {
    if size == 0 then [] else [n % 256] + LittleEndian(n / 256, size - 1)
  }

  function FromLittleEndian(s: seq<Byte>): nat {
    if s == [] then 0 else s[0] + 256 * FromLittleEndian(s[1..])
  }

  // The object representation of an arithmetic value, two's complement when negative.
  function EncodePrim(n: int, size: nat): (r: seq<Byte>)
    ensures |r| == size
  {
    LittleEndian(if n >= 0 then n else if n + Pow256(size) >= 0 then n + Pow256(size) else 0, size)
  }

  function DecodePrim(s: seq<Byte>, signed: bool): int {
    var u := FromLittleEndian(s);
    if signed && 2 * u >= Pow256(|s|) then u - Pow256(|s|) else u
  }

  ghost function Encode(v: Value, t: Type): seq<Byte>
    requires HasType(v, t)
    decreases t, 0
  {
    match t
    case Prim(size, _) => EncodePrim(v.n, size)
    case VarUint => EncodeUint(v.n)
    case VarInt => EncodeUint(Zig(v.b) as nat)
    case Bool => [v.n]
    case Str => EncodeUint(|v.s|) + v.s
    case Vec(elem) => EncodeCounted(v.items, elem)
    case Arr(elem, _) => EncodeAll(v.items, elem)
    case CArr(elem, _) => EncodeCounted(v.items, elem)
    case Opt(elem) => if v.Nothing? then [0] else [1] + Encode(v.v, elem)
    case Variant(alts) => EncodeUint(v.index) + Encode(v.v, alts[v.index])
    case Tuple(fields) => EncodeFields(v.items, fields)
    case Ordered(elem, _) => EncodeCounted(v.items, elem)
  }

  // The elements of a container behind their number.
  ghost function EncodeCounted(items: seq<Value>, elem: Type): seq<Byte>
    requires AllHaveType(items, elem)
    decreases elem, |items| + 2
  {
    EncodeUint(|items|) + EncodeAll(items, elem)
  }

  ghost function EncodeAll(items: seq<Value>, elem: Type): seq<Byte>
    requires AllHaveType(items, elem)
    decreases elem, |items| + 1
  {
    if items == [] then [] else Encode(items[0], elem) + EncodeAll(items[1..], elem)
  }

  ghost function EncodeFields(items: seq<Value>, fields: seq<Type>): seq<Byte>
    requires FieldsHaveType(items, fields)
    decreases fields, 1
  {
    if fields == [] then [] else Encode(items[0], fields[0]) + EncodeFields(items[1..], fields[1..])
  }

  // std::set::emplace and std::map::emplace: an element equivalent to a present one is dropped, another one goes in
  // front of the first element that is not less.
  function Emplace(sorted: seq<Value>, x: Value, less: (Value, Value) -> bool): seq<Value> {
    if sorted == [] then [x]
    else if less(sorted[0], x) then [sorted[0]] + Emplace(sorted[1..], x, less)
    else if less(x, sorted[0]) then [x] + sorted
    else sorted
  }

  function EmplaceAll(items: seq<Value>, less: (Value, Value) -> bool): seq<Value> {
    if items == [] then [] else Emplace(EmplaceAll(items[..|items|-1], less), items[|items|-1], less)
  }

  // Reading a value of type t off the front of s.
  function Decode(s: seq<Byte>, t: Type): (r: Parsed<Value>)
    ensures r.Got? ==> r.used <= |s|
    decreases t, 0
  {
    match t
    case Prim(size, signed) => if |s| < size then Fail else Got(Num(DecodePrim(s[..size], signed)), size)
    case VarUint => (match DecodeUint(s) case Fail => Fail case Got(n, used) => Got(Num(n), used))
    case VarInt => (match DecodeUint(s) case Fail => Fail case Got(n, used) => Got(Bits(Zag(Word(n))), used))
    case Bool => if s == [] then Fail else Got(Num(if s[0] != 0 then 1 else 0), 1)
    case Str =>
      (match DecodeUint(s)
       case Fail => Fail
       case Got(n, used) => if |s| - used < n then Fail else Got(Text(s[used..used+n]), used + n))
    case Vec(elem) =>
      (match DecodeCounted(s, elem) case Fail => Fail case Got(items, used) => Got(List(items), used))
    case Arr(elem, n) =>
      (match DecodeAll(s, elem, n) case Fail => Fail case Got(items, used) => Got(List(items), used))
    case CArr(elem, n) =>
      (match DecodeUint(s)
       case Fail => Fail
       case Got(count, used) =>
         if count != n then Fail
         else (match DecodeAll(s[used..], elem, n)
               case Fail => Fail
               case Got(items, more) => Got(List(items), used + more)))
    case Opt(elem) =>
      if s == [] then Fail
      else if s[0] == 0 then Got(Nothing, 1)
      else (match Decode(s[1..], elem) case Fail => Fail case Got(v, used) => Got(Just(v), used + 1))
    case Variant(alts) =>
      (match DecodeUint(s)
       case Fail => Fail
       case Got(i, used) =>
         if i >= |alts| then Fail
         else (match Decode(s[used..], alts[i]) case Fail => Fail case Got(v, more) => Got(Alt(i, v), used + more)))
    case Tuple(fields) =>
      (match DecodeFields(s, fields) case Fail => Fail case Got(items, used) => Got(List(items), used))
    case Ordered(elem, less) =>
      (match DecodeCounted(s, elem)
       case Fail => Fail
       case Got(items, used) => Got(List(EmplaceAll(items, less)), used))
  }

  function DecodeCounted(s: seq<Byte>, elem: Type): (r: Parsed<seq<Value>>)
    ensures r.Got? ==> r.used <= |s|
    decreases elem, WORD + 1
  {
    match DecodeUint(s)
    case Fail => Fail
    case Got(n, used) =>
      match DecodeAll(s[used..], elem, n)
      case Fail => Fail
      case Got(items, more) => Got(items, used + more)
  }

  function DecodeAll(s: seq<Byte>, elem: Type, n: nat): (r: Parsed<seq<Value>>)
    ensures r.Got? ==> r.used <= |s|
    decreases elem, n + 1
  {
    if n == 0 then Got([], 0)
    else
      match Decode(s, elem)
      case Fail => Fail
      case Got(v, used) =>
        match DecodeAll(s[used..], elem, n - 1)
        case Fail => Fail
        case Got(vs, more) => Got([v] + vs, used + more)
  }

  function DecodeFields(s: seq<Byte>, fields: seq<Type>): (r: Parsed<seq<Value>>)
    ensures r.Got? ==> r.used <= |s|
    decreases fields, 1
  {
    if fields == [] then Got([], 0)
    else
      match Decode(s, fields[0])
      case Fail => Fail
      case Got(v, used) =>
        match DecodeFields(s[used..], fields[1..])
        case Fail => Fail
        case Got(vs, more) => Got([v] + vs, used + more)
  }

  // ----- round trips

  lemma {:induction false} LittleEndianRoundTrip(n: nat, size: nat)
    requires n < Pow256(size)
    ensures FromLittleEndian(LittleEndian(n, size)) == n
  {
    if size == 0 {
    } else {
      assert n / 256 < Pow256(size - 1);
      LittleEndianRoundTrip(n / 256, size - 1);
      assert LittleEndian(n, size)[1..] == LittleEndian(n / 256, size - 1);
    }
  }

  lemma PrimRoundTrip(n: int, size: nat, signed: bool)
    requires HasType(Num(n), Prim(size, signed))
    ensures DecodePrim(EncodePrim(n, size), signed) == n
  {
    LittleEndianRoundTrip(if n >= 0 then n else n + Pow256(size), size);
  }

  lemma {:induction false} EmplaceLast(sorted: seq<Value>, x: Value, less: (Value, Value) -> bool)
    requires forall i :: 0 <= i < |sorted| ==> less(sorted[i], x)
    ensures Emplace(sorted, x, less) == sorted + [x]
  {
    if sorted == [] {
    } else {
      EmplaceLast(sorted[1..], x, less);
    }
  }

  // Emplacing the elements of a set in their order rebuilds the set.
  lemma {:induction false} EmplaceSorted(items: seq<Value>, less: (Value, Value) -> bool)
    requires SortedBy(items, less)
    ensures EmplaceAll(items, less) == items
  {
    if items == [] {
    } else {
      var l := |items| - 1;
      EmplaceSorted(items[..l], less);
      EmplaceLast(items[..l], items[l], less);
    }
  }

  // A strict weak order, as ordered containers demand it.
  ghost predicate StrictOrder(less: (Value, Value) -> bool) {
    && (forall a :: !less(a, a))
    && (forall a, b, c :: less(a, b) && less(b, c) ==> less(a, c))
    && (forall a, b, c :: less(a, c) ==> less(a, b) || less(b, c))
  }

  predicate Apart(a: Value, b: Value, less: (Value, Value) -> bool) { less(a, b) || less(b, a) }

  ghost predicate NewTo(sorted: seq<Value>, x: Value, less: (Value, Value) -> bool) {
    forall i :: 0 <= i < |sorted| ==> Apart(sorted[i], x, less)
  }

  lemma NewToCons(sorted: seq<Value>, x: Value, less: (Value, Value) -> bool)
    requires sorted != []
    ensures NewTo(sorted, x, less) <==> Apart(sorted[0], x, less) && NewTo(sorted[1..], x, less)
    ensures forall y :: y in sorted <==> y == sorted[0] || y in sorted[1..]
  {
    hide Apart;
    assert sorted == [sorted[0]] + sorted[1..];
  }

  // What is put behind an element stays behind it.
  lemma SortedCons(first: Value, r: seq<Value>, rest: seq<Value>, x: Value, less: (Value, Value) -> bool)
    requires SortedBy([first] + rest, less) && less(first, x) && SortedBy(r, less)
    requires forall y :: y in r ==> y in rest || y == x
    ensures SortedBy([first] + r, less)
  {
    forall k | 0 <= k < |r|
      ensures less(first, r[k])
    {
      assert r[k] in r;
      if r[k] in rest {
        var m :| 0 <= m < |rest| && rest[m] == r[k];
        var all := [first] + rest;
        assert less(all[0], all[m+1]) && all[m+1] == rest[m];
      }
    }
  }

  // What is less than the first element is less than all.
  lemma LessThanAll(sorted: seq<Value>, x: Value, less: (Value, Value) -> bool)
    requires StrictOrder(less) && SortedBy(sorted, less) && sorted != [] && less(x, sorted[0])
    ensures SortedBy([x] + sorted, less) && NewTo(sorted, x, less)
  {
    forall i | 0 <= i < |sorted|
      ensures less(x, sorted[i])
    {
    }
  }

  // Emplacing keeps the order and adds the element exactly if no equivalent one is there.
  lemma {:induction false} EmplaceKeeps(sorted: seq<Value>, x: Value, less: (Value, Value) -> bool)
    requires StrictOrder(less) && SortedBy(sorted, less)
    ensures SortedBy(Emplace(sorted, x, less), less)
    ensures forall y :: y in Emplace(sorted, x, less) <==> y in sorted || (y == x && NewTo(sorted, x, less))
  {
    if sorted == [] {
    } else {
      var rest := sorted[1..];
      assert sorted == [sorted[0]] + rest && SortedBy(rest, less);
      hide StrictOrder, SortedBy, NewTo;
      NewToCons(sorted, x, less);
      if less(sorted[0], x) {
        EmplaceKeeps(rest, x, less);
        SortedCons(sorted[0], Emplace(rest, x, less), rest, x, less);
      } else if less(x, sorted[0]) {
        LessThanAll(sorted, x, less);
      }
    }
  }

  // The element occurs, and its first occurrence has no equivalent one before it.
  ghost predicate IsFirst(items: seq<Value>, y: Value, less: (Value, Value) -> bool) {
    exists i :: 0 <= i < |items| && items[i] == y && NewTo(items[..i], y, less)
  }

  lemma FirstsSnoc(front: seq<Value>, x: Value, y: Value, less: (Value, Value) -> bool)
    ensures IsFirst(front + [x], y, less) <==> IsFirst(front, y, less) || (y == x && NewTo(front, x, less))
  {
    hide NewTo;
    var items, l := front + [x], |front|;
    assert items[..l] == front && items[l] == x;
    assert forall i :: 0 <= i < l ==> items[..i] == front[..i] && items[i] == front[i];
  }

  /** Emplacing any elements gives them in order, and of equivalent ones the first. */
  lemma {:induction false} EmplaceMeans(items: seq<Value>, less: (Value, Value) -> bool)
    requires StrictOrder(less)
    ensures SortedBy(EmplaceAll(items, less), less)
    ensures forall y :: y in EmplaceAll(items, less) <==> IsFirst(items, y, less)
  {
    if items == [] {
    } else {
      var l := |items| - 1;
      var front, x := items[..l], items[l];
      EmplaceMeans(front, less);
      var sorted := EmplaceAll(front, less);
      EmplaceKeeps(sorted, x, less);
      FirstStands(front, sorted, x, less);
      hide IsFirst, NewTo, StrictOrder, SortedBy, Emplace;
      assert items == front + [x];
      forall y
        ensures y in EmplaceAll(items, less) <==> IsFirst(items, y, less)
      {
        FirstsSnoc(front, x, y, less);
      }
    }
  }

  // Looking for an equivalent element among the firsts is looking for one among all.
  lemma {:induction false} FirstStands(items: seq<Value>, firsts: seq<Value>, x: Value, less: (Value, Value) -> bool)
    requires StrictOrder(less)
    requires forall y :: y in firsts <==> IsFirst(items, y, less)
    ensures NewTo(firsts, x, less) <==> NewTo(items, x, less)
  {
    if NewTo(firsts, x, less) {
      forall i | 0 <= i < |items|
        ensures Apart(items[i], x, less)
      {
        var j := FirstEquivalent(items, i, less);
        assert items[j] in firsts;
        var k :| 0 <= k < |firsts| && firsts[k] == items[j];
        assert Apart(firsts[k], x, less);
      }
    }
    if NewTo(items, x, less) {
      forall k | 0 <= k < |firsts|
        ensures Apart(firsts[k], x, less)
      {
        assert firsts[k] in firsts;
      }
    }
  }

  lemma {:induction false} FirstEquivalent(items: seq<Value>, i: nat, less: (Value, Value) -> bool) returns (j: nat)
    requires StrictOrder(less) && i < |items|
    ensures j <= i && !Apart(items[j], items[i], less) && NewTo(items[..j], items[j], less)
  {
    if NewTo(items[..i], items[i], less) {
      j := i;
    } else {
      var m :| 0 <= m < i && !Apart(items[..i][m], items[i], less);
      j := FirstEquivalent(items, m, less);
    }
  }

  lemma LengthRoundTrip(n: nat, rest: seq<Byte>)
    requires n < WORD
    ensures DecodeUint(EncodeUint(n) + rest) == Got(n, |EncodeUint(n)|)
  {
    UintRoundTrip(n, rest);
  }

  predicate IsLeaf(t: Type) { t.Prim? || t.VarUint? || t.VarInt? || t.Bool? || t.Str? }

  lemma IntRoundTrip(v: Value, rest: seq<Byte>)
    requires HasType(v, VarInt)
    ensures Decode(Encode(v, VarInt) + rest, VarInt) == Got(v, |Encode(v, VarInt)|)
  {
    hide EncodeUint, DecodeUint, Zig, Zag, Word;
    var z := Zig(v.b);
    BitsRoundTrip(z);
    LengthRoundTrip(z as nat, rest);
    ZigZag(v.b);
  }

  lemma LeafRoundTrip(v: Value, t: Type, rest: seq<Byte>)
    requires HasType(v, t) && IsLeaf(t)
    ensures Decode(Encode(v, t) + rest, t) == Got(v, |Encode(v, t)|)
  {
    hide EncodeUint, DecodeUint, EncodePrim, DecodePrim, EmplaceAll, Zig, Zag, Word;
    var s := Encode(v, t) + rest;
    match t
    case Prim(size, signed) =>
      PrimRoundTrip(v.n, size, signed);
      assert s[..size] == EncodePrim(v.n, size);
    case VarUint => LengthRoundTrip(v.n, rest);
    case VarInt => IntRoundTrip(v, rest);
    case Bool =>
    case Str =>
      LengthRoundTrip(|v.s|, v.s + rest);
      assert s == EncodeUint(|v.s|) + (v.s + rest);
  }

  /** For every value of every type, reading back its encoding gives the value and consumes exactly its bytes,
      whatever follows them. */
  lemma {:induction false} RoundTrip(v: Value, t: Type, rest: seq<Byte>)
    requires HasType(v, t)
    ensures Decode(Encode(v, t) + rest, t) == Got(v, |Encode(v, t)|)
    decreases t, 0
  {
    hide EncodeUint, DecodeUint, EncodePrim, DecodePrim, EmplaceAll, EncodeAll, DecodeAll, EncodeFields, DecodeFields;
    if IsLeaf(t) {
      LeafRoundTrip(v, t, rest);
      return;
    }
    match t
    case Vec(elem) => CountedRoundTrip(v.items, elem, rest);
    case Arr(elem, _) => AllRoundTrip(v.items, elem, rest);
    case CArr(elem, n) => CArrRoundTrip(v.items, elem, n, rest);
    case Opt(elem) => OptRoundTrip(v, elem, rest);
    case Variant(alts) => VariantRoundTrip(v, alts, rest);
    case Tuple(fields) => FieldsRoundTrip(v.items, fields, rest);
    case Ordered(elem, less) =>
      CountedRoundTrip(v.items, elem, rest);
      EmplaceSorted(v.items, less);
  }

  lemma {:induction false} OptRoundTrip(v: Value, elem: Type, rest: seq<Byte>)
    requires HasType(v, Opt(elem))
    ensures Decode(Encode(v, Opt(elem)) + rest, Opt(elem)) == Got(v, |Encode(v, Opt(elem))|)
    decreases elem, 1
  {
    hide Encode, Decode, HasType;
    OptForm(v, elem);
    if v.Nothing? {
      DecodeNothing([0] + rest, elem);
    } else {
      var e := Encode(v.v, elem);
      RoundTrip(v.v, elem, rest);
      assert [1] + e + rest == [1] + (e + rest);
      DecodeJust(e + rest, elem, v.v, |e|);
    }
  }

  lemma OptForm(v: Value, elem: Type)
    requires HasType(v, Opt(elem))
    ensures v.Nothing? ==> Encode(v, Opt(elem)) == [0]
    ensures v.Nothing? || (v.Just? && HasType(v.v, elem) && Encode(v, Opt(elem)) == [1] + Encode(v.v, elem))
  {
  }

  lemma DecodeNothing(s: seq<Byte>, elem: Type)
    requires s != [] && s[0] == 0
    ensures Decode(s, Opt(elem)) == Got(Nothing, 1)
  {
  }

  lemma DecodeJust(s: seq<Byte>, elem: Type, v: Value, used: nat)
    requires Decode(s, elem) == Got(v, used)
    ensures Decode([1] + s, Opt(elem)) == Got(Just(v), used + 1)
  {
    assert ([1] + s)[1..] == s;
  }

  lemma {:induction false} VariantRoundTrip(v: Value, alts: seq<Type>, rest: seq<Byte>)
    requires HasType(v, Variant(alts))
    ensures Decode(Encode(v, Variant(alts)) + rest, Variant(alts)) == Got(v, |Encode(v, Variant(alts))|)
    decreases alts, 1
  {
    hide EncodeUint, DecodeUint;
    var head, e := EncodeUint(v.index), Encode(v.v, alts[v.index]);
    LengthRoundTrip(v.index, e + rest);
    assert Encode(v, Variant(alts)) + rest == head + (e + rest);
    RoundTrip(v.v, alts[v.index], rest);
    assert (head + (e + rest))[|head|..] == e + rest;
  }

  lemma {:induction false} CountedRoundTrip(items: seq<Value>, elem: Type, rest: seq<Byte>)
    requires |items| < WORD && AllHaveType(items, elem)
    ensures DecodeCounted(EncodeCounted(items, elem) + rest, elem) == Got(items, |EncodeCounted(items, elem)|)
    decreases elem, |items| + 2
  {
    hide Encode, Decode, HasType, EncodeUint, DecodeUint;
    var head, tail := EncodeUint(|items|), EncodeAll(items, elem);
    assert head + tail + rest == head + (tail + rest);
    LengthRoundTrip(|items|, tail + rest);
    assert (head + (tail + rest))[|head|..] == tail + rest;
    AllRoundTrip(items, elem, rest);
  }

  lemma CArrDecodes(s: seq<Byte>, elem: Type, n: nat, used: nat, items: seq<Value>, more: nat)
    requires DecodeUint(s) == Got(n, used) && used <= |s| && DecodeAll(s[used..], elem, n) == Got(items, more)
    ensures Decode(s, CArr(elem, n)) == Got(List(items), used + more)
  {
    hide DecodeUint, DecodeAll;
  }

  lemma {:induction false} CArrRoundTrip(items: seq<Value>, elem: Type, n: nat, rest: seq<Byte>)
    requires |items| == n < WORD && AllHaveType(items, elem)
    ensures Decode(EncodeCounted(items, elem) + rest, CArr(elem, n)) == Got(List(items), |EncodeCounted(items, elem)|)
    decreases elem, |items| + 2
  {
    hide Encode, Decode, HasType, AllHaveType, EncodeUint, DecodeUint, EncodeAll, DecodeAll;
    var head, tail := EncodeUint(n), EncodeAll(items, elem);
    var s := head + (tail + rest);
    assert head + tail + rest == s;
    LengthRoundTrip(n, tail + rest);
    assert s[|head|..] == tail + rest;
    AllRoundTrip(items, elem, rest);
    CArrDecodes(s, elem, n, |head|, items, |tail|);
  }

  lemma HeadAndTail(items: seq<Value>, elem: Type)
    requires AllHaveType(items, elem) && items != []
    ensures HasType(items[0], elem) && AllHaveType(items[1..], elem)
  {
  }

  lemma EncodeCons(items: seq<Value>, elem: Type)
    requires AllHaveType(items, elem) && items != []
    ensures HasType(items[0], elem) && AllHaveType(items[1..], elem)
    ensures EncodeAll(items, elem) == Encode(items[0], elem) + EncodeAll(items[1..], elem)
  {
    HeadAndTail(items, elem);
    hide HasType, AllHaveType, Encode;
  }

  lemma DecodeFirstFails(s: seq<Byte>, elem: Type, n: nat)
    requires n > 0 && Decode(s, elem) == Fail
    ensures DecodeAll(s, elem, n) == Fail
  {
    hide Decode;
  }

  lemma DecodeRestFails(s: seq<Byte>, elem: Type, n: nat, v: Value, used: nat)
    requires n > 0 && used <= |s| && Decode(s, elem) == Got(v, used) && DecodeAll(s[used..], elem, n - 1) == Fail
    ensures DecodeAll(s, elem, n) == Fail
  {
    hide Decode;
  }

  lemma DecodeCons(s: seq<Byte>, elem: Type, n: nat, v: Value, used: nat, vs: seq<Value>, more: nat)
    requires n > 0 && used <= |s| && Decode(s, elem) == Got(v, used)
    requires DecodeAll(s[used..], elem, n - 1) == Got(vs, more)
    ensures DecodeAll(s, elem, n) == Got([v] + vs, used + more)
  {
    hide Decode;
  }

  lemma {:induction false} AllRoundTrip(items: seq<Value>, elem: Type, rest: seq<Byte>)
    requires AllHaveType(items, elem)
    ensures DecodeAll(EncodeAll(items, elem) + rest, elem, |items|) == Got(items, |EncodeAll(items, elem)|)
    decreases elem, |items| + 1
  {
    hide Encode, Decode, HasType, AllHaveType;
    if items == [] {
    } else {
      HeadAndTail(items, elem);
      var e, f := Encode(items[0], elem), EncodeAll(items[1..], elem);
      var s := e + (f + rest);
      assert EncodeAll(items, elem) + rest == s;
      assert s[|e|..] == f + rest;
      RoundTrip(items[0], elem, f + rest);
      AllRoundTrip(items[1..], elem, rest);
      DecodeCons(s, elem, |items|, items[0], |e|, items[1..], |f|);
      assert [items[0]] + items[1..] == items;
    }
  }

  lemma {:induction false} FieldsRoundTrip(items: seq<Value>, fields: seq<Type>, rest: seq<Byte>)
    requires FieldsHaveType(items, fields)
    ensures DecodeFields(EncodeFields(items, fields) + rest, fields) == Got(items, |EncodeFields(items, fields)|)
    decreases fields, 1
  {
    hide Encode, Decode, HasType, EncodeUint, DecodeUint;
    if fields == [] {
    } else {
      var e, f := Encode(items[0], fields[0]), EncodeFields(items[1..], fields[1..]);
      assert EncodeFields(items, fields) + rest == e + (f + rest);
      RoundTrip(items[0], fields[0], f + rest);
      assert (e + (f + rest))[|e|..] == f + rest;
      FieldsRoundTrip(items[1..], fields[1..], rest);
      assert [items[0]] + items[1..] == items;
    }
  }

  /** Different values of a type never share an encoding. */
  lemma EncodeInjective(v: Value, w: Value, t: Type)
    requires HasType(v, t) && HasType(w, t) && Encode(v, t) == Encode(w, t)
    ensures v == w
  {
    hide Encode, Decode, HasType, EncodeUint, DecodeUint;
    RoundTrip(v, t, []);
    RoundTrip(w, t, []);
  }

  // ----- the layout, byte by byte

  lemma Pow256Next(n: nat, i: nat)
    ensures n / 256 / Pow256(i) == n / Pow256(i + 1)
  {
    DivDiv(n, 256, Pow256(i));
  }

  lemma {:induction false} LittleEndianByte(n: nat, size: nat, i: nat)
    requires i < size
    ensures LittleEndian(n, size)[i] == n / Pow256(i) % 256
  {
    if i == 0 {
      assert Pow256(0) == 1;
    } else {
      LittleEndianByte(n / 256, size - 1, i - 1);
      Pow256Next(n, i - 1);
    }
  }

  lemma {:induction false} Pow256Split(size: nat, i: nat)
    requires i < size
    ensures Pow256(size) == Pow256(size - 1 - i) * 256 * Pow256(i)
  {
    if i == 0 {
      assert Pow256(0) == 1;
    } else {
      Pow256Split(size - 1, i - 1);
      Associate(Pow256(size - 1 - i) * 256, Pow256(i - 1), 256);
    }
  }

  // Adding a multiple of the next power of 256 does not change a byte.
  lemma ByteModulo(n: int, p: nat, q: nat)
    requires p > 0
    ensures (n + q * 256 * p) / p % 256 == n / p % 256
  {
    var x, r := n / p, n % p;
    assert n == p * x + r;
    assert n + q * 256 * p == p * (x + q * 256) + r by { Distribute(x, q * 256, p); }
    DivModUnique(n + q * 256 * p, p, x + q * 256, r);
  }

  /** Byte i of an arithmetic value n, negative or not, is n / 256^i modulo 256: two's complement, least byte first. */
  lemma PrimByte(n: int, size: nat, signed: bool, i: nat)
    requires HasType(Num(n), Prim(size, signed)) && i < size
    ensures EncodePrim(n, size)[i] == n / Pow256(i) % 256
  {
    if n >= 0 {
      LittleEndianByte(n, size, i);
    } else {
      LittleEndianByte(n + Pow256(size), size, i);
      Pow256Split(size, i);
      ByteModulo(n, Pow256(i), Pow256(size - 1 - i));
    }
  }

  // The bytes of a number at their places.
  function ByteSum(s: seq<Byte>): nat {
    if s == [] then 0 else ByteSum(s[..|s|-1]) + s[|s|-1] * Pow256(|s| - 1)
  }

  lemma {:induction false} ByteSumFront(s: seq<Byte>)
    requires s != []
    ensures ByteSum(s) == s[0] + 256 * ByteSum(s[1..]) && ByteSum(s) < Pow256(|s|)
  {
    var l := |s| - 1;
    if l == 0 {
      assert s[..0] == [] && s[1..] == [] && Pow256(0) == 1 && Pow256(1) == 256;
    } else {
      ByteSumFront(s[..l]);
      assert s[..l][1..] == s[1..][..l-1] && s[..l][0] == s[0] && s[1..][l-1] == s[l];
      Associate(256, Pow256(l - 1), s[l]);
      var b: nat := s[l];
      MulMonotone(b + 1, 256, Pow256(l));
      NextMultiple(b, Pow256(l));
      assert 256 * (ByteSum(s[1..][..l-1]) + s[l] * Pow256(l - 1)) == 256 * ByteSum(s[1..][..l-1]) + s[l] * Pow256(l);
    }
  }

  lemma {:induction false} LittleEndianSum(s: seq<Byte>)
    ensures FromLittleEndian(s) == ByteSum(s)
  {
    if s == [] {
    } else {
      LittleEndianSum(s[1..]);
      ByteSumFront(s);
    }
  }

  // What the object representation of an arithmetic type stands for.
  function Represented(s: seq<Byte>, signed: bool): int {
    ByteSum(s) - if signed && s != [] && s[|s|-1] >= 128 then Pow256(|s|) else 0
  }

  /** What is read is the sum of the bytes at their places, less 256^size when the sign bit of a signed type is set. */
  lemma PrimRepresented(s: seq<Byte>, signed: bool)
    requires s != []
    ensures DecodePrim(s, signed) == Represented(s, signed)
  {
    LittleEndianSum(s);
    var l := |s| - 1;
    var p := Pow256(l);
    if l > 0 { ByteSumFront(s[..l]); } else { assert ByteSum(s[..l]) == 0; }
    assert ByteSum(s[..l]) < p && Pow256(|s|) == 256 * p;
    var b: nat := s[l];
    if b >= 128 { MulMonotone(128, b, p); } else { MulMonotone(b + 1, 128, p); NextMultiple(b, p); }
  }

  /** The elements of a container stand behind each other, in their order. */
  lemma {:induction false} ElementsInOrder(items: seq<Value>, elem: Type, k: nat)
    requires AllHaveType(items, elem) && k < |items|
    ensures AllHaveType(items[..k], elem) && HasType(items[k], elem) && AllHaveType(items[k+1..], elem)
    ensures EncodeAll(items, elem) ==
      EncodeAll(items[..k], elem) + Encode(items[k], elem) + EncodeAll(items[k+1..], elem)
  {
    hide Encode, HasType, AllHaveType, EncodeAll;
    PartsHaveType(items, elem, k);
    EncodeCons(items, elem);
    if k == 0 {
      AllEncoded(items[..0], elem);
      assert [] + Encode(items[0], elem) == Encode(items[0], elem);
    } else {
      var front, rest := items[..k], items[1..];
      ElementsInOrder(rest, elem, k - 1);
      EncodeCons(front, elem);
      assert front[1..] == rest[..k-1] && rest[k..] == items[k+1..] && rest[k-1] == items[k];
      Rejoin(Encode(items[0], elem), EncodeAll(front[1..], elem), Encode(items[k], elem),
        EncodeAll(items[k+1..], elem));
    }
  }

  lemma Rejoin(a: seq<Byte>, b: seq<Byte>, c: seq<Byte>, d: seq<Byte>)
    ensures a + (b + c + d) == a + b + c + d
  {
  }

  lemma PartsHaveType(items: seq<Value>, elem: Type, k: nat)
    requires AllHaveType(items, elem) && k < |items|
    ensures AllHaveType(items[..k], elem) && HasType(items[k], elem) && AllHaveType(items[k+1..], elem)
  {
  }

  lemma AllEncoded(items: seq<Value>, elem: Type)
    requires items == []
    ensures AllHaveType(items, elem) && EncodeAll(items, elem) == []
  {
  }

  lemma FieldsCons(items: seq<Value>, fields: seq<Type>)
    requires FieldsHaveType(items, fields) && fields != []
    ensures HasType(items[0], fields[0]) && FieldsHaveType(items[1..], fields[1..])
    ensures EncodeFields(items, fields) == Encode(items[0], fields[0]) + EncodeFields(items[1..], fields[1..])
  {
    hide Encode, HasType;
  }

  lemma FieldsSize(items: seq<Value>, fields: seq<Type>)
    requires FieldsHaveType(items, fields)
    ensures |items| == |fields| && FieldsHaveType([], []) && EncodeFields([], []) == []
  {
  }

  lemma {:induction false} FieldsTake(items: seq<Value>, fields: seq<Type>, k: nat)
    requires FieldsHaveType(items, fields) && k <= |fields|
    ensures |items| == |fields| && FieldsHaveType(items[..k], fields[..k])
    decreases k
  {
    hide HasType;
    if k == 0 {
    } else {
      FieldsTake(items[1..], fields[1..], k - 1);
      assert items[..k][1..] == items[1..][..k-1] && fields[..k][1..] == fields[1..][..k-1];
    }
  }

  /** The fields of a class, pair or tuple stand behind each other, in their order. */
  lemma {:induction false} FieldsInOrder(items: seq<Value>, fields: seq<Type>, k: nat)
    requires FieldsHaveType(items, fields) && k < |fields|
    ensures |items| == |fields| && FieldsHaveType(items[..k], fields[..k]) && HasType(items[k], fields[k])
    ensures FieldsHaveType(items[k+1..], fields[k+1..])
    ensures EncodeFields(items, fields) ==
      EncodeFields(items[..k], fields[..k]) + Encode(items[k], fields[k]) + EncodeFields(items[k+1..], fields[k+1..])
    decreases k
  {
    hide Encode, HasType, EncodeFields, FieldsHaveType;
    FieldsCons(items, fields);
    FieldsSize(items, fields);
    if k == 0 {
      assert items[..0] == [] && fields[..0] == [];
      assert [] + Encode(items[0], fields[0]) == Encode(items[0], fields[0]);
    } else {
      var front, types := items[..k], fields[..k];
      FieldsInOrder(items[1..], fields[1..], k - 1);
      FieldsTake(items, fields, k);
      FieldsCons(front, types);
      assert front[1..] == items[1..][..k-1] && types[1..] == fields[1..][..k-1];
      assert items[1..][k..] == items[k+1..] && fields[1..][k..] == fields[k+1..];
      assert items[1..][k-1] == items[k] && fields[1..][k-1] == fields[k];
      Rejoin(Encode(items[0], fields[0]), EncodeFields(front[1..], types[1..]), Encode(items[k], fields[k]),
        EncodeFields(items[k+1..], fields[k+1..]));
    }
  }

  /** What stands in front of the parts of a value: a count, a length, an index, or a byte for presence. */
  lemma Fronts(v: Value, t: Type)
    requires HasType(v, t)
    ensures t.Str? ==> Encode(v, t) == EncodeUint(|v.s|) + v.s
    ensures t.Vec? || t.CArr? || t.Ordered? ==>
      AllHaveType(v.items, t.elem) && Encode(v, t) == EncodeUint(|v.items|) + EncodeAll(v.items, t.elem)
    ensures t.Arr? ==> AllHaveType(v.items, t.elem) && Encode(v, t) == EncodeAll(v.items, t.elem)
    ensures t.Opt? && v.Nothing? ==> Encode(v, t) == [0]
    ensures t.Opt? && !v.Nothing? ==> v.Just? && HasType(v.v, t.elem) && Encode(v, t) == [1] + Encode(v.v, t.elem)
    ensures t.Variant? ==>
      && v.Alt? && v.index < |t.alts| && HasType(v.v, t.alts[v.index])
      && Encode(v, t) == EncodeUint(v.index) + Encode(v.v, t.alts[v.index])
    ensures t.Tuple? ==> FieldsHaveType(v.items, t.fields) && Encode(v, t) == EncodeFields(v.items, t.fields)
    ensures t.Bool? ==> |Encode(v, t)| == 1 && Encode(v, t)[0] == v.n
    ensures t.VarUint? ==> Encode(v, t) == EncodeUint(v.n)
    ensures t.VarInt? ==> Encode(v, t) == EncodeUint(Zig(v.b) as nat)
    ensures t.Prim? ==> Encode(v, t) == EncodePrim(v.n, t.size)
  {
  }
}
