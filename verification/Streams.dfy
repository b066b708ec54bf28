/** The two datastream classes and the stream operators, pack, pack_size and unpack. */
module Streams {
  import Arith
  import opened Bytes
  import opened DataStream
  import opened Options
  import opened Varint

  // Half the numbers of a word are negative as int32_t.
  const HALF: nat := WORD / 2

  function AsSigned(n: nat): int { if n < HALF then n else n - WORD }

  // The check of write, with n bytes to write and room bytes left: both sides are signed 32-bit numbers.
  predicate CheckPasses(room: nat, n: nat) { AsSigned(n) <= AsSigned(room) }

  /** The check tells whether the bytes fit exactly if both numbers are below 2^31 or neither is. */
  lemma CheckMeansRoom(room: nat, n: nat)
    requires room < WORD && n < WORD
    ensures (CheckPasses(room, n) <==> n <= room) <==> (room < HALF <==> n < HALF)
  {
  }

  /** In a small buffer 2^31 bytes pass the check, and in one of 2^31 bytes not even one byte does. */
  lemma CheckFails()
    ensures CheckPasses(5, HALF) && !CheckPasses(HALF, 1)
  {
  }

  // Whether writes of n bytes in all succeed: with 2^31 bytes or more of room, none does.
  ghost predicate FitsRoom(room: int, n: nat) { n == 0 || n <= room < HALF }

  lemma FitsInTurn(room: int, m: nat, n: nat)
    ensures FitsRoom(room, m + n) <==> FitsRoom(room, m) && FitsRoom(room - m, n)
  {
  }

  // The bytes of a base-128 number behind the first.
  ghost function GroupsBehind(v: nat): seq<Byte> { if v / 128 > 0 then EncodeUint(v / 128) else [] }

  lemma UintGroups(v: nat)
    ensures EncodeUint(v) == [if v / 128 > 0 then v % 128 + 128 else v % 128] + GroupsBehind(v)
    ensures GroupsBehind(v) == if v / 128 > 0 then EncodeUint(v / 128) else []
  {
    EncodeUintStep(v);
  }

  lemma Regroup(a: seq<Byte>, b: seq<Byte>, c: seq<Byte>)
    ensures a + (b + c) == a + b + c
  {
  }

  // What a write does: it writes, its check aborts, or it writes behind the end of the buffer.
  datatype Outcome = Written | Refused | Outside

  // datastream<char*> over a buffer, or, without one, datastream<size_t>, which only counts, in one word.
  class OutStream {
    const buffer: array?<Byte>
    const end: nat  // how much of the buffer the stream may fill
    var pos: nat
    ghost var out: seq<Byte>  // everything written so far

    ghost function Cells(): set<object>
    {
      if buffer == null then {} else {buffer}
    }

    ghost predicate Valid()
      reads this, Cells()
    {
      if buffer == null then pos == |out| % WORD
      else pos == |out| <= end <= buffer.Length && end < WORD && buffer[..pos] == out
    }

    // Whether an encoding of n bytes can be written.
    ghost predicate Fits(n: nat)
      reads this
    {
      buffer == null || FitsRoom(end - |out|, n)
    }

    constructor Counting()
      ensures Valid() && buffer == null && out == []
    {
      buffer := null;
      end := 0;
      pos := 0;
      out := [];
    }

    constructor Over(data: array<Byte>, s: nat)
      requires s <= data.Length && s < WORD
      ensures Valid() && buffer == data && end == s && out == []
    {
      buffer := data;
      end := s;
      pos := 0;
      out := [];
    }

    method Write(d: seq<Byte>) returns (r: Outcome)
      requires Valid() && |d| < WORD
      modifies this`pos, this`out, Cells()
      ensures Valid() && out == if r.Written? then old(out) + d else old(out)
      ensures buffer == null ==> r.Written?
      ensures buffer != null && r.Refused? <==> buffer != null && !CheckPasses(end - |old(out)|, |d|)
      ensures buffer != null && r.Outside? <==>
        buffer != null && CheckPasses(end - |old(out)|, |d|) && |d| > end - |old(out)|
    {
      if buffer == null {
        pos, out := (pos + |d|) % WORD, out + d;
        return Written;
      }
      if !CheckPasses(end - pos, |d|) { return Refused; }
      if |d| > end - pos { return Outside; }
      CopyIn(d);
      pos, out := pos + |d|, out + d;
      return Written;
    }

    method CopyIn(d: seq<Byte>)
      requires buffer != null && pos + |d| <= buffer.Length
      modifies buffer
      ensures buffer[..pos+|d|] == old(buffer[..pos]) + d
    {
      forall i | 0 <= i < |d| {
        buffer[pos + i] := d[i];
      }
    }

    // A write of less than 2^31 bytes, or with less room than that.
    method Append(d: seq<Byte>) returns (r: Outcome)
      requires Valid() && 0 < |d| < WORD && (|d| < HALF || buffer == null || end - |out| < HALF)
      modifies this`pos, this`out, Cells()
      ensures Valid() && (r.Written? <==> old(Fits(|d|))) && (r.Written? ==> out == old(out) + d)
    {
      hide Valid;
      ValidRoom();
      r := Write(d);
    }

    lemma ValidRoom()
      requires Valid()
      ensures buffer != null ==> |out| <= end < WORD
    {
    }

    // The operator << of unsigned_int, and of signed_int behind its zig-zag.
    method PutUint(val: nat) returns (r: Outcome)
      requires Valid()
      modifies this`pos, this`out, Cells()
      ensures Valid() && (r.Written? <==> old(Fits(|EncodeUint(val)|)))
      ensures r.Written? ==> out == old(out) + EncodeUint(val)
    {
      hide EncodeUint, Valid, FitsRoom, GroupsBehind;
      var v := val;
      ghost var fits, total := Fits(|EncodeUint(val)|), out + EncodeUint(val);
      while true
        invariant Valid() && out + EncodeUint(v) == total && (fits <==> Fits(|EncodeUint(v)|))
        decreases v
      {
        UintGroups(v);
        ghost var before, rest := out, GroupsBehind(v);
        var b := v % 128;
        v := v / 128;
        if v > 0 { b := b + 128; }
        FitsInTurn(end - |out|, 1, |rest|);
        Regroup(before, [b], rest);
        r := Append([b]);
        if !r.Written? { return; }
        if v == 0 { return; }
      }
    }

    method PutLeaf(v: Value, t: Type) returns (r: Outcome)
      requires Valid() && HasType(v, t) && IsLeaf(t)
      modifies this`pos, this`out, Cells()
      ensures Valid() && (r.Written? <==> old(Fits(|Encode(v, t)|))) && (r.Written? ==> out == old(out) + Encode(v, t))
    {
      hide EncodeUint, EncodePrim, Zig, Valid;
      match t
      case Prim(size, _) => r := Append(EncodePrim(v.n, size));
      case VarUint => r := PutUint(v.n);
      case VarInt => r := PutUint(Zig(v.b) as nat);
      case Bool => r := Append([v.n]);
      case Str =>
        r := PutUint(|v.s|);
        if r.Written? && |v.s| > 0 { r := Append(v.s); }
    }

    // The elements of a container behind their number.
    method PutCounted(items: seq<Value>, elem: Type) returns (r: Outcome)
      requires Valid() && AllHaveType(items, elem)
      modifies this`pos, this`out, Cells()
      ensures Valid() && (r.Written? <==> old(Fits(|EncodeCounted(items, elem)|)))
      ensures r.Written? ==> out == old(out) + EncodeCounted(items, elem)
      decreases elem, 2
    {
      hide EncodeUint, EncodeAll, Valid;
      r := PutUint(|items|);
      if r.Written? { r := PutAll(items, elem); }
    }

    method PutOpt(v: Value, elem: Type) returns (r: Outcome)
      requires Valid() && HasType(v, Opt(elem))
      modifies this`pos, this`out, Cells()
      ensures Valid() && (r.Written? <==> old(Fits(|Encode(v, Opt(elem))|)))
      ensures r.Written? ==> out == old(out) + Encode(v, Opt(elem))
      decreases elem, 1
    {
      hide Valid, FitsRoom;
      if v.Just? {
        FitsInTurn(end - |out|, 1, |Encode(v.v, elem)|);
        Regroup(out, [1], Encode(v.v, elem));
      }
      r := Append([if v.Just? then 1 else 0]);
      if r.Written? && v.Just? { r := Put(v.v, elem); }
    }

    method PutVariant(v: Value, alts: seq<Type>) returns (r: Outcome)
      requires Valid() && HasType(v, Variant(alts))
      modifies this`pos, this`out, Cells()
      ensures Valid() && (r.Written? <==> old(Fits(|Encode(v, Variant(alts))|)))
      ensures r.Written? ==> out == old(out) + Encode(v, Variant(alts))
      decreases alts, 1
    {
      hide Valid, FitsRoom, EncodeUint;
      FitsInTurn(end - |out|, |EncodeUint(v.index)|, |Encode(v.v, alts[v.index])|);
      Regroup(out, EncodeUint(v.index), Encode(v.v, alts[v.index]));
      r := PutUint(v.index);
      if r.Written? { r := Put(v.v, alts[v.index]); }
    }

    /**
      * The operator << of every type: appends the encoding exactly if it fits, which a nonempty encoding does if there
      * is room for it and less than 2^31 bytes of room.
      */
    method Put(v: Value, t: Type) returns (r: Outcome)
      requires Valid() && HasType(v, t)
      modifies this`pos, this`out, Cells()
      ensures Valid() && (r.Written? <==> old(Fits(|Encode(v, t)|))) && (r.Written? ==> out == old(out) + Encode(v, t))
      decreases t, 0
    {
      hide EncodeUint, EncodeAll, EncodeFields, EncodeCounted, Valid, FitsRoom;
      if IsLeaf(t) {
        r := PutLeaf(v, t);
        return;
      }
      match t
      case Vec(elem) => r := PutCounted(v.items, elem);
      case Arr(elem, _) => r := PutAll(v.items, elem);
      case CArr(elem, _) => r := PutCounted(v.items, elem);
      case Opt(elem) => r := PutOpt(v, elem);
      case Variant(alts) => r := PutVariant(v, alts);
      case Tuple(fields) => r := PutFields(v.items, fields);
      case Ordered(elem, _) => r := PutCounted(v.items, elem);
    }

    method PutAll(items: seq<Value>, elem: Type) returns (r: Outcome)
      requires Valid() && AllHaveType(items, elem)
      modifies this`pos, this`out, Cells()
      ensures Valid() && (r.Written? <==> old(Fits(|EncodeAll(items, elem)|)))
      ensures r.Written? ==> out == old(out) + EncodeAll(items, elem)
      decreases elem, 1
    {
      hide Encode, EncodeAll, HasType, AllHaveType, Valid;
      ghost var rest, total := items, out + EncodeAll(items, elem);
      ghost var fits := Fits(|EncodeAll(items, elem)|);
      AllWritten(items[|items|..], elem);
      for i := 0 to |items|
        invariant rest == items[i..] && AllHaveType(rest, elem)
        invariant Valid() && out + EncodeAll(rest, elem) == total && (fits <==> Fits(|EncodeAll(rest, elem)|))
      {
        EncodeCons(rest, elem);
        ghost var before := out;
        r := Put(items[i], elem);
        if !r.Written? { return; }
        rest := rest[1..];
        assert before + (Encode(items[i], elem) + EncodeAll(rest, elem)) == out + EncodeAll(rest, elem);
      }
      return Written;
    }

    method PutFields(items: seq<Value>, fields: seq<Type>) returns (r: Outcome)
      requires Valid() && FieldsHaveType(items, fields)
      modifies this`pos, this`out, Cells()
      ensures Valid() && (r.Written? <==> old(Fits(|EncodeFields(items, fields)|)))
      ensures r.Written? ==> out == old(out) + EncodeFields(items, fields)
      decreases fields, 1
    {
      hide Encode, HasType, Valid;
      r := Written;
      if fields != [] {
        r := Put(items[0], fields[0]);
        if r.Written? { r := PutFields(items[1..], fields[1..]); }
      }
    }
  }

  lemma AllWritten(items: seq<Value>, elem: Type)
    requires items == []
    ensures AllHaveType(items, elem) && EncodeAll(items, elem) == []
  {
  }

  method PackSize(v: Value, t: Type) returns (size: nat)
    requires HasType(v, t)
    ensures size == |Encode(v, t)| % WORD
  {
    var ps := new OutStream.Counting();
    var r := ps.Put(v, t);
    assert ps.out == Encode(v, t);
    return ps.pos;
  }

  /**
    * pack: allocates what the counting pass asks for and fills it exactly. That succeeds exactly for encodings of less
    * than 2^31 bytes; None where a check aborts or a write leaves the buffer.
    */
  method Pack(v: Value, t: Type) returns (data: Option<array<Byte>>)
    requires HasType(v, t)
    ensures data.Some? <==> |Encode(v, t)| < HALF
    ensures data.Some? ==> fresh(data.value) && data.value[..] == Encode(v, t)
  {
    hide Encode, HasType;
    var size := PackSize(v, t);
    var bytes := new Byte[size](_ => 0);
    var ds := new OutStream.Over(bytes, size);
    var r := ds.Put(v, t);
    if !r.Written? { return None; }
    assert bytes[..] == bytes[..size] && ds.out == Encode(v, t);
    return Some(bytes);
  }

  // ----- reading

  // Result r and position to are what a decoder prescribes for reading from position from.
  predicate Reads<T(==)>(r: Option<T>, spec: Parsed<T>, from: nat, to: nat) {
    match spec
    case Fail => r.None?
    case Got(v, used) => r == Some(v) && to == from + used
  }

  // After the items read so far, from consumed bytes, the whole is what the remaining elements make of it.
  ghost predicate Continues(items: seq<Value>, rest: Parsed<seq<Value>>, consumed: nat, whole: Parsed<seq<Value>>) {
    match rest
    case Fail => whole == Fail
    case Got(vs, used) => whole == Got(items + vs, consumed + used)
  }

  lemma NothingLeft(s: seq<Byte>, elem: Type)
    ensures DecodeAll(s, elem, 0) == Got([], 0)
  {
  }

  // datastream<const char*> over the bytes of a buffer.
  class InStream {
    const data: seq<Byte>
    var pos: nat

    constructor (data: seq<Byte>)
      ensures this.data == data && pos == 0
    {
      this.data := data;
      pos := 0;
    }

    // read: None where the check fails.
    method Read(s: nat) returns (r: Option<seq<Byte>>)
      requires pos <= |data|
      modifies this`pos
      ensures old(pos) <= pos <= |data|
      ensures r.Some? <==> s <= |data| - old(pos)
      ensures r.Some? ==> r.value == data[old(pos)..pos] && pos == old(pos) + s
    {
      if |data| - pos < s { return None; }
      r := Some(data[pos..pos+s]);
      pos := pos + s;
    }

    // The operator >> of unsigned_int. The groups occupy different bits, so joining them is addition.
    method GetUint() returns (r: Option<nat>)
      requires pos <= |data|
      modifies this`pos
      ensures old(pos) <= pos <= |data| && Reads(r, DecodeUint(data[old(pos)..]), old(pos), pos)
    {
      var v: nat, shift: nat := 0, 0;
      while true
        invariant old(pos) <= pos <= |data|
        invariant match DecodeUint(data[pos..], shift, v)
          case Fail => DecodeUint(data[old(pos)..]) == Fail
          case Got(x, used) => DecodeUint(data[old(pos)..]) == Got(x, used + (pos - old(pos)))
        decreases |data| - pos
      {
        if pos >= |data| || shift >= 32 { return None; }
        var b := data[pos];
        assert data[pos..][1..] == data[pos+1..];
        pos := pos + 1;
        v := (v + b % 128 * Arith.Pow2(shift) % WORD) % WORD;
        shift := shift + 7;
        if b < 128 { return Some(v); }
      }
    }

    method GetLeaf(t: Type) returns (r: Option<Value>)
      requires pos <= |data| && IsLeaf(t)
      modifies this`pos
      ensures old(pos) <= pos <= |data| && Reads(r, Decode(data[old(pos)..], t), old(pos), pos)
    {
      hide DecodeUint;
      match t
      case Prim(size, signed) => r := GetPrim(size, signed);
      case VarUint =>
        var n := GetUint();
        return if n.Some? then Some(Num(n.value)) else None;
      case VarInt => r := GetInt();
      case Bool =>
        var d := Read(1);
        return if d.Some? then Some(Num(if d.value[0] != 0 then 1 else 0)) else None;
      case Str => r := GetStr();
    }

    method GetPrim(size: nat, signed: bool) returns (r: Option<Value>)
      requires pos <= |data|
      modifies this`pos
      ensures old(pos) <= pos <= |data| && Reads(r, Decode(data[old(pos)..], Prim(size, signed)), old(pos), pos)
    {
      hide DecodePrim;
      var d := Read(size);
      if d.None? { return None; }
      assert d.value == data[old(pos)..][..size];
      return Some(Num(DecodePrim(d.value, signed)));
    }

    method GetInt() returns (r: Option<Value>)
      requires pos <= |data|
      modifies this`pos
      ensures old(pos) <= pos <= |data| && Reads(r, Decode(data[old(pos)..], VarInt), old(pos), pos)
    {
      hide DecodeUint, Zag, Word;
      var n := GetUint();
      return if n.Some? then Some(Bits(Zag(Word(n.value)))) else None;
    }

    method GetStr() returns (r: Option<Value>)
      requires pos <= |data|
      modifies this`pos
      ensures old(pos) <= pos <= |data| && Reads(r, Decode(data[old(pos)..], Str), old(pos), pos)
    {
      hide DecodeUint;
      var n := GetUint();
      if n.None? { return None; }
      ghost var used := pos - old(pos);
      var d := Read(n.value);
      if d.None? { return None; }
      assert d.value == data[old(pos)..][used..used+n.value];
      return Some(Text(d.value));
    }

    // The count-prefixed elements of a container.
    method GetCounted(elem: Type) returns (r: Option<seq<Value>>)
      requires pos <= |data|
      modifies this`pos
      ensures old(pos) <= pos <= |data| && Reads(r, DecodeCounted(data[old(pos)..], elem), old(pos), pos)
      decreases elem, 2
    {
      hide DecodeUint, DecodeAll;
      var n := GetUint();
      if n.None? { return None; }
      assert data[old(pos)..][pos-old(pos)..] == data[pos..];
      r := GetAll(elem, n.value);
    }

    // A C array, whose number of elements must be the written one.
    method GetCArr(elem: Type, n: nat) returns (r: Option<Value>)
      requires pos <= |data|
      modifies this`pos
      ensures old(pos) <= pos <= |data| && Reads(r, Decode(data[old(pos)..], CArr(elem, n)), old(pos), pos)
      decreases elem, 2
    {
      hide DecodeUint, DecodeAll;
      var count := GetUint();
      if count.None? || count.value != n { return None; }
      assert data[old(pos)..][pos-old(pos)..] == data[pos..];
      var items := GetAll(elem, n);
      return if items.Some? then Some(List(items.value)) else None;
    }

    method GetOpt(elem: Type) returns (r: Option<Value>)
      requires pos <= |data|
      modifies this`pos
      ensures old(pos) <= pos <= |data| && Reads(r, Decode(data[old(pos)..], Opt(elem)), old(pos), pos)
      decreases elem, 1
    {
      var d := Read(1);
      if d.None? { return None; }
      if d.value[0] == 0 { return Some(Nothing); }
      assert data[old(pos)..][1..] == data[pos..];
      var v := Get(elem);
      return if v.Some? then Some(Just(v.value)) else None;
    }

    method GetVariant(alts: seq<Type>) returns (r: Option<Value>)
      requires pos <= |data|
      modifies this`pos
      ensures old(pos) <= pos <= |data| && Reads(r, Decode(data[old(pos)..], Variant(alts)), old(pos), pos)
      decreases alts, 1
    {
      hide DecodeUint;
      var i := GetUint();
      if i.None? || i.value >= |alts| { return None; }
      assert data[old(pos)..][pos-old(pos)..] == data[pos..];
      var v := Get(alts[i.value]);
      return if v.Some? then Some(Alt(i.value, v.value)) else None;
    }

    /** The operator >> of every type: reads what Decode prescribes and stops behind it, None where a check fails. */
    method Get(t: Type) returns (r: Option<Value>)
      requires pos <= |data|
      modifies this`pos
      ensures old(pos) <= pos <= |data| && Reads(r, Decode(data[old(pos)..], t), old(pos), pos)
      decreases t, 0
    {
      hide DecodeUint, DecodeAll, DecodeFields, DecodeCounted, EmplaceAll;
      if IsLeaf(t) {
        r := GetLeaf(t);
        return;
      }
      match t
      case Vec(elem) =>
        var items := GetCounted(elem);
        return if items.Some? then Some(List(items.value)) else None;
      case Arr(elem, n) =>
        var items := GetAll(elem, n);
        return if items.Some? then Some(List(items.value)) else None;
      case CArr(elem, n) => r := GetCArr(elem, n);
      case Opt(elem) => r := GetOpt(elem);
      case Variant(alts) => r := GetVariant(alts);
      case Tuple(fields) =>
        var items := GetFields(fields);
        return if items.Some? then Some(List(items.value)) else None;
      case Ordered(elem, less) =>
        var items := GetCounted(elem);
        return if items.Some? then Some(List(EmplaceAll(items.value, less))) else None;
    }

    method GetAll(elem: Type, n: nat) returns (r: Option<seq<Value>>)
      requires pos <= |data|
      modifies this`pos
      ensures old(pos) <= pos <= |data| && Reads(r, DecodeAll(data[old(pos)..], elem, n), old(pos), pos)
      decreases elem, 1
    {
      var items: seq<Value> := [];
      NothingLeft(data, elem);
      hide Decode, DecodeAll;
      assert forall vs: seq<Value> :: [] + vs == vs;
      for i := 0 to n
        invariant old(pos) <= pos <= |data|
        invariant Continues(items, DecodeAll(data[pos..], elem, n - i), pos - old(pos),
                            DecodeAll(data[old(pos)..], elem, n))
      {
        ghost var s := data[pos..];
        ghost var from := pos;
        var v := Get(elem);
        if v.None? {
          DecodeFirstFails(s, elem, n - i);
          return None;
        }
        assert s[pos-from..] == data[pos..];
        match DecodeAll(data[pos..], elem, n - i - 1) {
          case Fail => DecodeRestFails(s, elem, n - i, v.value, pos - from);
          case Got(vs, more) =>
            DecodeCons(s, elem, n - i, v.value, pos - from, vs, more);
            assert items + ([v.value] + vs) == items + [v.value] + vs;
        }
        items := items + [v.value];
      }
      assert data[pos..] == data[pos..] && items + [] == items;
      NothingLeft(data[pos..], elem);
      return Some(items);
    }

    method GetFields(fields: seq<Type>) returns (r: Option<seq<Value>>)
      requires pos <= |data|
      modifies this`pos
      ensures old(pos) <= pos <= |data| && Reads(r, DecodeFields(data[old(pos)..], fields), old(pos), pos)
      decreases fields, 1
    {
      if fields == [] { return Some([]); }
      var v := Get(fields[0]);
      if v.None? { return None; }
      assert data[old(pos)..][pos-old(pos)..] == data[pos..];
      var vs := GetFields(fields[1..]);
      return if vs.Some? then Some([v.value] + vs.value) else None;
    }
  }

  /** unpack: None where a check aborts, otherwise the decoded value. */
  method Unpack(bytes: seq<Byte>, t: Type) returns (r: Option<Value>)
    ensures r == (match Decode(bytes, t) case Fail => None case Got(v, _) => Some(v))
  {
    var ds := new InStream(bytes);
    assert bytes[0..] == bytes;
    r := ds.Get(t);
  }

  /** Whatever can be packed is unpacked again, with any bytes behind it. */
  method PackUnpack(v: Value, t: Type, rest: seq<Byte>) returns (r: Option<Value>)
    requires HasType(v, t)
    ensures r == if |Encode(v, t)| < HALF then Some(v) else None
  {
    hide Encode, HasType;
    var data := Pack(v, t);
    if data.None? { return None; }
    RoundTrip(v, t, rest);
    r := Unpack(data.value[..] + rest, t);
  }
}
