/** The wire format as a relation between bytes and values, and that decoding follows it on every input. */
module WireFormat {
  import opened Bytes
  import opened DataStream
  import opened Varint

  // How many bytes there are up to the first one without a mark.
  function HeadLength(s: seq<Byte>): (n: nat)
    ensures n <= |s|
  {
    if s == [] then 0 else if s[0] < 128 then 1 else 1 + HeadLength(s[1..])
  }

  // The bytes start with a base-128 number, and it is n.
  predicate Counted(s: seq<Byte>, n: nat) {
    UintForm(s[..HeadLength(s)]) && UintValue(s[..HeadLength(s)]) == n
  }

  function Behind(s: seq<Byte>): seq<Byte> { s[HeadLength(s)..] }

  /**
    * The bytes are a form of the value. A number may have superfluous groups, any byte but 0 stands for true or for
    * presence, and the elements of an ordered container may come in any order and more than once.
    */
  ghost predicate Wire(t: Type, s: seq<Byte>, v: Value)
    decreases t, 0
  {
    match t
    case Prim(size, signed) => |s| == size && v == Num(Represented(s, signed))
    case VarUint => UintForm(s) && v == Num(UintValue(s))
    case VarInt => UintForm(s) && v == Bits(Zag(Word(UintValue(s))))
    case Bool => |s| == 1 && v == Num(if s[0] == 0 then 0 else 1)
    case Str => Counted(s, |Behind(s)|) && v == Text(Behind(s))
    case Vec(elem) => v.List? && Counted(s, |v.items|) && AllWire(elem, Behind(s), v.items)
    case Arr(elem, n) => v.List? && |v.items| == n && AllWire(elem, s, v.items)
    case CArr(elem, n) => v.List? && |v.items| == n && Counted(s, n) && AllWire(elem, Behind(s), v.items)
    case Opt(elem) => s != [] && if s[0] == 0 then s == [0] && v == Nothing else v.Just? && Wire(elem, s[1..], v.v)
    case Variant(alts) =>
      v.Alt? && v.index < |alts| && Counted(s, v.index) && Wire(alts[v.index], Behind(s), v.v)
    case Tuple(fields) => v.List? && FieldsWire(fields, s, v.items)
    case Ordered(elem, less) =>
      exists items: seq<Value> ::
        Counted(s, |items|) && AllWire(elem, Behind(s), items) && v == List(EmplaceAll(items, less))
  }

  ghost predicate AllWire(elem: Type, s: seq<Byte>, items: seq<Value>)
    decreases elem, |items| + 1
  {
    if items == [] then s == []
    else exists k :: 0 <= k <= |s| && Wire(elem, s[..k], items[0]) && AllWire(elem, s[k..], items[1..])
  }

  ghost predicate FieldsWire(fields: seq<Type>, s: seq<Byte>, items: seq<Value>)
    decreases fields, 1
  {
    && |items| == |fields|
    && if fields == [] then s == []
       else exists k ::
         0 <= k <= |s| && Wire(fields[0], s[..k], items[0]) && FieldsWire(fields[1..], s[k..], items[1..])
  }

  // ----- the numbers in front

  lemma {:induction false} HeadOfForm(p: seq<Byte>, rest: seq<Byte>)
    requires p != [] && p[|p|-1] < 128 && forall i :: 0 <= i < |p| - 1 ==> p[i] >= 128
    ensures HeadLength(p + rest) == |p|
  {
    if |p| == 1 {
    } else {
      assert (p + rest)[1..] == p[1..] + rest;
      HeadOfForm(p[1..], rest);
    }
  }

  // The number in front is what is read.
  lemma HeadDecodes(s: seq<Byte>)
    ensures var h := HeadLength(s);
      DecodeUint(s) == if UintForm(s[..h]) then Got(UintValue(s[..h]), h) else Fail
  {
    hide DecodeUint, UintValue, HeadLength;
    DecodeUintExactly(s);
    if DecodeUint(s).Got? {
      var n := DecodeUint(s).used;
      assert s[..n] + s[n..] == s;
      HeadOfForm(s[..n], s[n..]);
    }
  }

  lemma CountedDecodes(s: seq<Byte>, n: nat, rest: seq<Byte>)
    requires Counted(s, n)
    ensures DecodeUint(s + rest) == Got(n, HeadLength(s)) && (s + rest)[HeadLength(s)..] == Behind(s) + rest
  {
    hide DecodeUint, UintValue, HeadLength;
    var h := HeadLength(s);
    assert s + rest == s[..h] + (s[h..] + rest);
    HeadOfForm(s[..h], s[h..] + rest);
    HeadDecodes(s + rest);
    assert (s + rest)[..h] == s[..h];
  }

  // What was read as a number and something behind it.
  lemma DecodedCounts(s: seq<Byte>, more: nat)
    requires DecodeUint(s).Got? && DecodeUint(s).used + more <= |s|
    ensures var n, u := DecodeUint(s).value, DecodeUint(s).used;
      Counted(s[..u+more], n) && Behind(s[..u+more]) == s[u..][..more]
  {
    hide DecodeUint, UintValue, HeadLength;
    HeadDecodes(s);
    var u := DecodeUint(s).used;
    var front := s[..u+more];
    assert front[..u] == s[..u] && front == s[..u] + front[u..];
    HeadOfForm(s[..u], front[u..]);
  }

  lemma FormDecodes(s: seq<Byte>, rest: seq<Byte>)
    requires UintForm(s)
    ensures DecodeUint(s + rest) == Got(UintValue(s), |s|)
  {
    hide DecodeUint, UintValue;
    HeadOfForm(s, rest);
    HeadDecodes(s + rest);
    assert (s + rest)[..|s|] == s;
  }

  lemma PrimIsRepresented(s: seq<Byte>, signed: bool)
    ensures DecodePrim(s, signed) == Represented(s, signed)
  {
    if s == [] {
      assert ByteSum(s) == 0 && FromLittleEndian(s) == 0 && Pow256(0) == 1;
    } else {
      PrimRepresented(s, signed);
    }
  }

  // ----- every form is read

  lemma PrimDecodes(size: nat, signed: bool, s: seq<Byte>, v: Value, rest: seq<Byte>)
    requires Wire(Prim(size, signed), s, v)
    ensures Decode(s + rest, Prim(size, signed)) == Got(v, |s|)
  {
    hide DecodePrim, Represented;
    assert (s + rest)[..size] == s;
    PrimIsRepresented(s, signed);
  }

  lemma UintDecodes(s: seq<Byte>, v: Value, rest: seq<Byte>)
    requires Wire(VarUint, s, v)
    ensures Decode(s + rest, VarUint) == Got(v, |s|)
  {
    hide DecodeUint, UintForm, UintValue;
    FormDecodes(s, rest);
  }

  lemma IntDecodes(s: seq<Byte>, v: Value, rest: seq<Byte>)
    requires Wire(VarInt, s, v)
    ensures Decode(s + rest, VarInt) == Got(v, |s|)
  {
    hide DecodeUint, UintForm, UintValue, Zag, Word;
    FormDecodes(s, rest);
  }

  lemma StrDecodes(s: seq<Byte>, v: Value, rest: seq<Byte>)
    requires Wire(Str, s, v)
    ensures Decode(s + rest, Str) == Got(v, |s|)
  {
    hide DecodeUint, UintForm, UintValue, HeadLength, Counted;
    CountedDecodes(s, |Behind(s)|, rest);
    var h := HeadLength(s);
    assert (s + rest)[h..h+|Behind(s)|] == Behind(s);
  }

  lemma BoolDecodes(s: seq<Byte>, v: Value, rest: seq<Byte>)
    requires Wire(Bool, s, v)
    ensures Decode(s + rest, Bool) == Got(v, |s|)
  {
  }

  lemma LeafDecodes(t: Type, s: seq<Byte>, v: Value, rest: seq<Byte>)
    requires Wire(t, s, v) && IsLeaf(t)
    ensures Decode(s + rest, t) == Got(v, |s|)
  {
    hide Wire, Decode;
    match t
    case Prim(size, signed) => PrimDecodes(size, signed, s, v, rest);
    case VarUint => UintDecodes(s, v, rest);
    case VarInt => IntDecodes(s, v, rest);
    case Bool => BoolDecodes(s, v, rest);
    case Str => StrDecodes(s, v, rest);
  }

  /** A form of a value is read as the value, whatever follows it. */
  lemma {:induction false} WireDecodes(t: Type, s: seq<Byte>, v: Value, rest: seq<Byte>)
    requires Wire(t, s, v)
    ensures Decode(s + rest, t) == Got(v, |s|)
    decreases t, 0, 1
  {
    hide Wire, Decode;
    if IsLeaf(t) {
      LeafDecodes(t, s, v, rest);
      return;
    }
    match t
    case Vec(elem) => VecDecodes(elem, s, v, rest);
    case Arr(elem, n) => ArrDecodes(elem, n, s, v, rest);
    case CArr(elem, n) => CArrDecodes(elem, n, s, v, rest);
    case Opt(elem) => OptDecodes(elem, s, v, rest);
    case Variant(alts) => VariantDecodes(alts, s, v, rest);
    case Tuple(fields) => TupleDecodes(fields, s, v, rest);
    case Ordered(elem, less) => OrderedDecodes(elem, less, s, v, rest);
  }

  lemma {:induction false} CountedAllDecode(elem: Type, s: seq<Byte>, items: seq<Value>, rest: seq<Byte>)
    requires Counted(s, |items|) && AllWire(elem, Behind(s), items)
    ensures DecodeCounted(s + rest, elem) == Got(items, |s|)
    decreases elem, |items| + 2, 0
  {
    hide DecodeUint, DecodeAll, AllWire, UintForm, UintValue, HeadLength, Counted;
    CountedDecodes(s, |items|, rest);
    AllDecode(elem, Behind(s), items, rest);
  }

  lemma {:induction false} VecDecodes(elem: Type, s: seq<Byte>, v: Value, rest: seq<Byte>)
    requires Wire(Vec(elem), s, v)
    ensures Decode(s + rest, Vec(elem)) == Got(v, |s|)
    decreases Vec(elem), 0, 0
  {
    hide DecodeCounted, AllWire, Counted;
    CountedAllDecode(elem, s, v.items, rest);
  }

  lemma {:induction false} ArrDecodes(elem: Type, n: nat, s: seq<Byte>, v: Value, rest: seq<Byte>)
    requires Wire(Arr(elem, n), s, v)
    ensures Decode(s + rest, Arr(elem, n)) == Got(v, |s|)
    decreases Arr(elem, n), 0, 0
  {
    hide DecodeAll, AllWire;
    AllDecode(elem, s, v.items, rest);
  }

  lemma {:induction false} CArrDecodes(elem: Type, n: nat, s: seq<Byte>, v: Value, rest: seq<Byte>)
    requires Wire(CArr(elem, n), s, v)
    ensures Decode(s + rest, CArr(elem, n)) == Got(v, |s|)
    decreases CArr(elem, n), 0, 0
  {
    hide DecodeUint, DecodeAll, AllWire, UintForm, UintValue, HeadLength, Counted;
    CountedDecodes(s, n, rest);
    AllDecode(elem, Behind(s), v.items, rest);
  }

  lemma {:induction false} OptDecodes(elem: Type, s: seq<Byte>, v: Value, rest: seq<Byte>)
    requires Wire(Opt(elem), s, v)
    ensures Decode(s + rest, Opt(elem)) == Got(v, |s|)
    decreases Opt(elem), 0, 0
  {
    assert (s + rest)[1..] == s[1..] + rest;
    if s[0] != 0 { WireDecodes(elem, s[1..], v.v, rest); }
  }

  lemma {:induction false} VariantDecodes(alts: seq<Type>, s: seq<Byte>, v: Value, rest: seq<Byte>)
    requires Wire(Variant(alts), s, v)
    ensures Decode(s + rest, Variant(alts)) == Got(v, |s|)
    decreases Variant(alts), 0, 0
  {
    hide DecodeUint, UintForm, UintValue, HeadLength, Counted;
    CountedDecodes(s, v.index, rest);
    WireDecodes(alts[v.index], Behind(s), v.v, rest);
  }

  lemma {:induction false} TupleDecodes(fields: seq<Type>, s: seq<Byte>, v: Value, rest: seq<Byte>)
    requires Wire(Tuple(fields), s, v)
    ensures Decode(s + rest, Tuple(fields)) == Got(v, |s|)
    decreases Tuple(fields), 0, 0
  {
    hide DecodeFields, FieldsWire;
    FieldsDecode(fields, s, v.items, rest);
  }

  lemma {:induction false} OrderedDecodes(elem: Type, less: (Value, Value) -> bool, s: seq<Byte>, v: Value,
                                          rest: seq<Byte>)
    requires Wire(Ordered(elem, less), s, v)
    ensures Decode(s + rest, Ordered(elem, less)) == Got(v, |s|)
    decreases Ordered(elem, less), 0, 0
  {
    hide DecodeCounted, AllWire, Counted, EmplaceAll;
    var items: seq<Value> :|
      Counted(s, |items|) && AllWire(elem, Behind(s), items) && v == List(EmplaceAll(items, less));
    CountedAllDecode(elem, s, items, rest);
  }

  lemma {:induction false} AllDecode(elem: Type, s: seq<Byte>, items: seq<Value>, rest: seq<Byte>)
    requires AllWire(elem, s, items)
    ensures DecodeAll(s + rest, elem, |items|) == Got(items, |s|)
    decreases elem, |items| + 1
  {
    hide Wire, Decode;
    if items == [] {
    } else {
      var k :| 0 <= k <= |s| && Wire(elem, s[..k], items[0]) && AllWire(elem, s[k..], items[1..]);
      assert s + rest == s[..k] + (s[k..] + rest);
      WireDecodes(elem, s[..k], items[0], s[k..] + rest);
      AllDecode(elem, s[k..], items[1..], rest);
      assert (s + rest)[k..] == s[k..] + rest;
      DecodeCons(s + rest, elem, |items|, items[0], k, items[1..], |s| - k);
      assert [items[0]] + items[1..] == items;
    }
  }

  lemma {:induction false} FieldsDecode(fields: seq<Type>, s: seq<Byte>, items: seq<Value>, rest: seq<Byte>)
    requires FieldsWire(fields, s, items)
    ensures DecodeFields(s + rest, fields) == Got(items, |s|)
    decreases fields, 1
  {
    hide Wire, Decode;
    if fields == [] {
    } else {
      var k :| 0 <= k <= |s| && Wire(fields[0], s[..k], items[0]) && FieldsWire(fields[1..], s[k..], items[1..]);
      assert s + rest == s[..k] + (s[k..] + rest);
      WireDecodes(fields[0], s[..k], items[0], s[k..] + rest);
      FieldsDecode(fields[1..], s[k..], items[1..], rest);
      assert (s + rest)[k..] == s[k..] + rest;
      assert [items[0]] + items[1..] == items;
    }
  }

  // ----- whatever is read is a form

  lemma DecodedPrim(s: seq<Byte>, size: nat, signed: bool)
    requires Decode(s, Prim(size, signed)).Got?
    ensures Wire(Prim(size, signed), s[..Decode(s, Prim(size, signed)).used], Decode(s, Prim(size, signed)).value)
  {
    hide DecodePrim, Represented;
    PrimIsRepresented(s[..size], signed);
  }

  lemma DecodedUint(s: seq<Byte>)
    requires Decode(s, VarUint).Got?
    ensures Wire(VarUint, s[..Decode(s, VarUint).used], Decode(s, VarUint).value)
  {
    hide DecodeUint, UintForm, UintValue, HeadLength;
    HeadDecodes(s);
  }

  lemma DecodedInt(s: seq<Byte>)
    requires Decode(s, VarInt).Got?
    ensures Wire(VarInt, s[..Decode(s, VarInt).used], Decode(s, VarInt).value)
  {
    hide DecodeUint, UintForm, UintValue, HeadLength, Zag, Word;
    HeadDecodes(s);
  }

  lemma DecodedStr(s: seq<Byte>)
    requires Decode(s, Str).Got?
    ensures Wire(Str, s[..Decode(s, Str).used], Decode(s, Str).value)
  {
    hide DecodeUint, UintForm, UintValue, HeadLength, Counted;
    DecodedCounts(s, DecodeUint(s).value);
  }

  lemma DecodedBool(s: seq<Byte>)
    requires Decode(s, Bool).Got?
    ensures Wire(Bool, s[..Decode(s, Bool).used], Decode(s, Bool).value)
  {
  }

  lemma DecodedLeaf(s: seq<Byte>, t: Type)
    requires IsLeaf(t) && Decode(s, t).Got?
    ensures Wire(t, s[..Decode(s, t).used], Decode(s, t).value)
  {
    hide Wire, Decode;
    match t
    case Prim(size, signed) => DecodedPrim(s, size, signed);
    case VarUint => DecodedUint(s);
    case VarInt => DecodedInt(s);
    case Bool => DecodedBool(s);
    case Str => DecodedStr(s);
  }

  /** What is read from the front of the bytes stands there in one of its forms. */
  lemma {:induction false} DecodedIsWire(s: seq<Byte>, t: Type)
    requires Decode(s, t).Got?
    ensures Wire(t, s[..Decode(s, t).used], Decode(s, t).value)
    decreases t, 0
  {
    hide DecodeUint, DecodeAll, DecodeFields, UintForm, UintValue, EmplaceAll, HeadLength, Counted;
    if IsLeaf(t) {
      DecodedLeaf(s, t);
      return;
    }
    match t
    case Vec(elem) => DecodedCounted(s, elem);
    case Arr(elem, n) => DecodedAll(s, elem, n);
    case CArr(elem, n) => DecodedCArr(s, elem, n);
    case Opt(elem) =>
      if s[0] != 0 {
        DecodedIsWire(s[1..], elem);
        var used := Decode(s[1..], elem).used;
        assert s[..used+1][1..] == s[1..][..used];
      }
    case Variant(alts) =>
      var i, used := DecodeUint(s).value, DecodeUint(s).used;
      DecodedIsWire(s[used..], alts[i]);
      DecodedCounts(s, Decode(s[used..], alts[i]).used);
    case Tuple(fields) => DecodedFields(s, fields);
    case Ordered(elem, less) => DecodedCounted(s, elem);
  }

  lemma {:induction false} DecodedCounted(s: seq<Byte>, elem: Type)
    requires DecodeCounted(s, elem).Got?
    ensures var r := DecodeCounted(s, elem);
      Counted(s[..r.used], |r.value|) && AllWire(elem, Behind(s[..r.used]), r.value)
    decreases elem, 2
  {
    hide DecodeUint, DecodeAll, Counted, Behind, Wire, AllWire;
    var n, used := DecodeUint(s).value, DecodeUint(s).used;
    DecodedAll(s[used..], elem, n);
    DecodedCounts(s, DecodeAll(s[used..], elem, n).used);
  }

  lemma {:induction false} DecodedCArr(s: seq<Byte>, elem: Type, n: nat)
    requires Decode(s, CArr(elem, n)).Got?
    ensures var r := Decode(s, CArr(elem, n)); Wire(CArr(elem, n), s[..r.used], r.value)
    decreases elem, 2
  {
    hide DecodeUint, DecodeAll, Counted, Behind, AllWire;
    var used := DecodeUint(s).used;
    DecodedAll(s[used..], elem, n);
    DecodedCounts(s, DecodeAll(s[used..], elem, n).used);
  }

  lemma AllWireCons(elem: Type, s: seq<Byte>, items: seq<Value>, k: nat)
    requires items != [] && k <= |s| && Wire(elem, s[..k], items[0]) && AllWire(elem, s[k..], items[1..])
    ensures AllWire(elem, s, items)
  {
    hide Wire;
  }

  lemma NoElements(s: seq<Byte>, elem: Type)
    ensures DecodeAll(s, elem, 0) == Got([], 0) && s[..0] == [] && AllWire(elem, [], [])
  {
  }

  lemma AllDecodeParts(s: seq<Byte>, elem: Type, n: nat)
    requires n > 0 && DecodeAll(s, elem, n).Got?
    ensures Decode(s, elem).Got?
    ensures var k := Decode(s, elem).used;
      && DecodeAll(s[k..], elem, n - 1).Got?
      && DecodeAll(s, elem, n).value == [Decode(s, elem).value] + DecodeAll(s[k..], elem, n - 1).value
      && DecodeAll(s, elem, n).used == k + DecodeAll(s[k..], elem, n - 1).used
  {
    hide Decode;
  }

  lemma {:induction false} DecodedAll(s: seq<Byte>, elem: Type, n: nat)
    requires DecodeAll(s, elem, n).Got?
    ensures var r := DecodeAll(s, elem, n); |r.value| == n && AllWire(elem, s[..r.used], r.value)
    decreases elem, 1, n
  {
    hide Wire, Decode, AllWire, DecodeAll;
    if n == 0 {
      NoElements(s, elem);
    } else {
      AllDecodeParts(s, elem, n);
      var k := Decode(s, elem).used;
      DecodedIsWire(s, elem);
      DecodedAll(s[k..], elem, n - 1);
      var r, more := DecodeAll(s, elem, n), DecodeAll(s[k..], elem, n - 1);
      assert r.value[1..] == more.value;
      assert s[..r.used][..k] == s[..k] && s[..r.used][k..] == s[k..][..more.used];
      AllWireCons(elem, s[..r.used], r.value, k);
    }
  }

  lemma {:induction false} DecodedFields(s: seq<Byte>, fields: seq<Type>)
    requires DecodeFields(s, fields).Got?
    ensures var r := DecodeFields(s, fields); FieldsWire(fields, s[..r.used], r.value)
    decreases fields, 1
  {
    hide Wire, Decode;
    if fields == [] {
    } else {
      var v, k := Decode(s, fields[0]).value, Decode(s, fields[0]).used;
      DecodedIsWire(s, fields[0]);
      DecodedFields(s[k..], fields[1..]);
      var r := DecodeFields(s, fields);
      assert r.value[0] == v && r.value[1..] == DecodeFields(s[k..], fields[1..]).value;
      assert s[..r.used][..k] == s[..k] && s[..r.used][k..] == s[k..][..r.used-k];
    }
  }

  // ----- the results

  /** Decoding reads a value exactly if a form of it stands in front; it fails exactly if no form of any value does. */
  lemma DecodeExactly(s: seq<Byte>, t: Type)
    ensures forall n, v :: 0 <= n <= |s| ==> (Wire(t, s[..n], v) <==> Decode(s, t) == Got(v, n))
    ensures Decode(s, t) == Fail <==> forall n, v :: 0 <= n <= |s| ==> !Wire(t, s[..n], v)
  {
    hide Wire, Decode;
    forall n, v | 0 <= n <= |s| && Wire(t, s[..n], v)
      ensures Decode(s, t) == Got(v, n)
    {
      WireDecodes(t, s[..n], v, s[n..]);
      assert s[..n] + s[n..] == s;
    }
    if Decode(s, t).Got? { DecodedIsWire(s, t); }
  }

  /** An encoding is a form of its value. */
  lemma EncodingIsWire(v: Value, t: Type)
    requires HasType(v, t)
    ensures Wire(t, Encode(v, t), v)
  {
    hide Wire, Decode, Encode, HasType;
    var s := Encode(v, t);
    RoundTrip(v, t, []);
    assert s + [] == s && s[..|s|] == s;
    DecodedIsWire(s, t);
  }
}
