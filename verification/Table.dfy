/** table<TableName, K, V>: a typed map kept in the host's byte-keyed store under packed keys. */
module Table {
  import opened Bytes
  import opened DataStream
  import opened Options
  import opened Streams
  import Names

  const MAX_KEY_LENGTH: nat := 32

  // The host's database: for a table and key bytes, the stored bytes.
  class HostStore {
    var db: map<(nat, seq<Byte>), seq<Byte>>

    constructor ()
      ensures db == map[]
    {
      db := map[];
    }
  }

  // The packed key, None when MapKey's size check aborts.
  method MapKey(key: Value, t: Type) returns (r: Option<seq<Byte>>)
    requires HasType(key, t)
    ensures r == if |Encode(key, t)| <= MAX_KEY_LENGTH then Some(Encode(key, t)) else None
  {
    hide Encode, HasType;
    var size := PackSize(key, t);
    if size > MAX_KEY_LENGTH { return None; }
    var bytes := new Byte[MAX_KEY_LENGTH](_ => 0);
    var ds := new OutStream.Over(bytes, size);
    var written := ds.Put(key, t);
    if !written.Written? { return None; }
    assert [] + Encode(key, t) == Encode(key, t);
    return Some(bytes[..size]);
  }

  datatype Answer = Done | Found(value: Value) | Present(b: bool) | Aborted

  datatype Op = Put(key: Value, value: Value) | Get(key: Value) | HasKey(key: Value) | Erase(key: Value)

  // What one operation does to a map from K to V, and what it answers.
  ghost function MapStep(m: map<Value, Value>, op: Op, fits: bool): (map<Value, Value>, Answer) {
    if !fits then (m, Aborted)
    else
      match op
      case Put(k, v) => (m[k := v], Done)
      case Get(k) => (m, if k in m then Found(m[k]) else Aborted)
      case HasKey(k) => (m, Present(k in m))
      case Erase(k) => (m - {k}, Done)
  }

  ghost predicate OpTyped(op: Op, keyType: Type, valueType: Type) {
    HasType(op.key, keyType) && (op.Put? ==> HasType(op.value, valueType))
  }

  // The key fits the key buffer, and a value to store can be packed.
  ghost predicate OpFits(op: Op, keyType: Type, valueType: Type)
    requires OpTyped(op, keyType, valueType)
  {
    |Encode(op.key, keyType)| <= MAX_KEY_LENGTH && (op.Put? ==> |Encode(op.value, valueType)| < HALF)
  }

  // A run of operations; an abort ends it.
  ghost function MapRun(m: map<Value, Value>, ops: seq<Op>, keyType: Type, valueType: Type)
    : (map<Value, Value>, seq<Answer>)
    requires forall i :: 0 <= i < |ops| ==> OpTyped(ops[i], keyType, valueType)
    decreases |ops|
  {
    if ops == [] then (m, [])
    else
      var (m', a) := MapStep(m, ops[0], OpFits(ops[0], keyType, valueType));
      if a.Aborted? then (m', [a])
      else
        var (end, answers) := MapRun(m', ops[1..], keyType, valueType);
        (end, [a] + answers)
  }

  type Store = map<(nat, seq<Byte>), seq<Byte>>

  ghost predicate Entry(db: Store, name: nat, keyType: Type, valueType: Type, k: Value, v: Value) {
    && HasType(k, keyType) && HasType(v, valueType)
    && (name, Encode(k, keyType)) in db && db[(name, Encode(k, keyType))] == Encode(v, valueType)
  }

  // Every entry of the map is stored, packed, under the packed key.
  ghost predicate Stored(db: Store, name: nat, keyType: Type, valueType: Type, contents: map<Value, Value>) {
    forall k :: k in contents ==> Entry(db, name, keyType, valueType, k, contents[k])
  }

  ghost predicate IsKey(b: seq<Byte>, keyType: Type, contents: map<Value, Value>) {
    exists k :: k in contents && HasType(k, keyType) && Encode(k, keyType) == b
  }

  // Under a table's name nothing else is stored.
  ghost predicate Known(db: Store, name: nat, keyType: Type, contents: map<Value, Value>) {
    forall b :: (name, b) in db ==> IsKey(b, keyType, contents)
  }

  // Different keys have different bytes, so that storing or removing an entry touches no other.
  lemma DifferentKeys(k: Value, key: Value, keyType: Type)
    requires HasType(k, keyType) && HasType(key, keyType) && k != key
    ensures Encode(k, keyType) != Encode(key, keyType)
  {
    hide Encode, HasType;
    if Encode(k, keyType) == Encode(key, keyType) { EncodeInjective(k, key, keyType); }
  }

  lemma KeyKept(b: seq<Byte>, keyType: Type, contents: map<Value, Value>, contents': map<Value, Value>)
    requires IsKey(b, keyType, contents)
    requires forall k :: k in contents && HasType(k, keyType) && Encode(k, keyType) == b ==> k in contents'
    ensures IsKey(b, keyType, contents')
  {
    hide Encode, HasType;
    var k :| k in contents && HasType(k, keyType) && Encode(k, keyType) == b;
    assert k in contents';
  }

  lemma KnownPut(db: Store, name: nat, keyType: Type, contents: map<Value, Value>, key: Value, value: Value,
                 packed: seq<Byte>)
    requires Known(db, name, keyType, contents) && HasType(key, keyType)
    ensures Known(db[(name, Encode(key, keyType)) := packed], name, keyType, contents[key := value])
  {
    hide Encode, HasType, IsKey;
    forall b | (name, b) in db
      ensures IsKey(b, keyType, contents[key := value])
    {
      KeyKept(b, keyType, contents, contents[key := value]);
    }
    NewKey(keyType, contents[key := value], key);
  }

  lemma NewKey(keyType: Type, contents: map<Value, Value>, key: Value)
    requires key in contents && HasType(key, keyType)
    ensures IsKey(Encode(key, keyType), keyType, contents)
  {
    hide Encode, HasType;
  }

  lemma KnownErase(db: Store, name: nat, keyType: Type, contents: map<Value, Value>, key: Value)
    requires Known(db, name, keyType, contents) && HasType(key, keyType)
    ensures Known(db - {(name, Encode(key, keyType))}, name, keyType, contents - {key})
  {
    hide Encode, HasType, IsKey;
    forall b | (name, b) in db && b != Encode(key, keyType)
      ensures IsKey(b, keyType, contents - {key})
    {
      KeyKept(b, keyType, contents, contents - {key});
    }
  }

  lemma EntryTyped(db: Store, name: nat, keyType: Type, valueType: Type, k: Value, v: Value)
    requires Entry(db, name, keyType, valueType, k, v)
    ensures HasType(k, keyType)
  {
    hide Encode, HasType;
  }

  lemma NewEntry(db: Store, name: nat, keyType: Type, valueType: Type, k: Value, v: Value)
    requires HasType(k, keyType) && HasType(v, valueType)
    ensures Entry(db[(name, Encode(k, keyType)) := Encode(v, valueType)], name, keyType, valueType, k, v)
  {
    hide Encode, HasType;
  }

  lemma EntryKept(db: Store, db': Store, name: nat, keyType: Type, valueType: Type, k: Value, v: Value,
                  b: seq<Byte>, packed: seq<Byte>)
    requires Entry(db, name, keyType, valueType, k, v)
    requires Encode(k, keyType) != b && (db' == db - {(name, b)} || db' == db[(name, b) := packed])
    ensures Entry(db', name, keyType, valueType, k, v)
  {
    hide Encode, HasType;
  }

  lemma StoredPut(db: Store, name: nat, keyType: Type, valueType: Type, contents: map<Value, Value>, key: Value,
                  value: Value)
    requires Stored(db, name, keyType, valueType, contents) && HasType(key, keyType) && HasType(value, valueType)
    ensures Stored(db[(name, Encode(key, keyType)) := Encode(value, valueType)], name, keyType, valueType,
                   contents[key := value])
  {
    hide Encode, HasType, Entry;
    var db' := db[(name, Encode(key, keyType)) := Encode(value, valueType)];
    NewEntry(db, name, keyType, valueType, key, value);
    forall k | k in contents && k != key
      ensures Entry(db', name, keyType, valueType, k, contents[k])
    {
      EntryTyped(db, name, keyType, valueType, k, contents[k]);
      DifferentKeys(k, key, keyType);
      EntryKept(db, db', name, keyType, valueType, k, contents[k], Encode(key, keyType), Encode(value, valueType));
    }
  }

  lemma StoredErase(db: Store, name: nat, keyType: Type, valueType: Type, contents: map<Value, Value>, key: Value)
    requires Stored(db, name, keyType, valueType, contents) && HasType(key, keyType)
    ensures Stored(db - {(name, Encode(key, keyType))}, name, keyType, valueType, contents - {key})
  {
    hide Encode, HasType, Entry;
    var db' := db - {(name, Encode(key, keyType))};
    forall k | k in contents && k != key
      ensures Entry(db', name, keyType, valueType, k, contents[k])
    {
      EntryTyped(db, name, keyType, valueType, k, contents[k]);
      DifferentKeys(k, key, keyType);
      EntryKept(db, db', name, keyType, valueType, k, contents[k], Encode(key, keyType), []);
    }
  }

  // Everything stored under the name is a packed value under a packed key.
  ghost predicate WellStored(db: Store, name: nat, keyType: Type, valueType: Type) {
    forall b :: (name, b) in db ==> IsEncoding(b, keyType) && IsEncoding(db[(name, b)], valueType)
  }

  ghost predicate IsEncoding(b: seq<Byte>, t: Type) {
    exists v :: HasType(v, t) && Encode(v, t) == b
  }

  // What bytes decode to, when they are an encoding.
  ghost function Meaning(b: seq<Byte>, t: Type): Value {
    match Decode(b, t)
    case Got(v, _) => v
    case Fail => Nothing
  }

  lemma EncodingMeans(b: seq<Byte>, t: Type)
    requires IsEncoding(b, t)
    ensures HasType(Meaning(b, t), t) && Encode(Meaning(b, t), t) == b
  {
    hide Encode, HasType, Decode;
    var v :| HasType(v, t) && Encode(v, t) == b;
    RoundTrip(v, t, []);
    assert b + [] == b;
  }

  // The keys with an entry under a name, and the map a store holds there.
  ghost function KeysUnder(db: Store, name: nat, keyType: Type): set<Value> {
    set e | e in db && e.0 == name :: Meaning(e.1, keyType)
  }

  ghost function ContentsOf(db: Store, name: nat, keyType: Type, valueType: Type): map<Value, Value>
    requires WellStored(db, name, keyType, valueType)
  {
    map k | k in KeysUnder(db, name, keyType) :: ValueUnder(db, name, keyType, valueType, k)
  }

  ghost function ValueUnder(db: Store, name: nat, keyType: Type, valueType: Type, k: Value): Value
    requires WellStored(db, name, keyType, valueType) && k in KeysUnder(db, name, keyType)
  {
    KeyStored(db, name, keyType, valueType, k);
    Meaning(db[(name, Encode(k, keyType))], valueType)
  }

  lemma KeyStored(db: Store, name: nat, keyType: Type, valueType: Type, k: Value)
    requires WellStored(db, name, keyType, valueType) && k in KeysUnder(db, name, keyType)
    ensures HasType(k, keyType) && (name, Encode(k, keyType)) in db
  {
    hide Encode, HasType, Meaning, IsEncoding;
    var e :| e in db && e.0 == name && Meaning(e.1, keyType) == k;
    assert (name, e.1) == e;
    EncodingMeans(e.1, keyType);
  }

  /** Any store with nothing but packed entries under the name is some map's, so a table can be opened over it. */
  lemma Reopened(db: Store, name: nat, keyType: Type, valueType: Type)
    requires WellStored(db, name, keyType, valueType)
    ensures var contents := ContentsOf(db, name, keyType, valueType);
      Stored(db, name, keyType, valueType, contents) && Known(db, name, keyType, contents)
  {
    hide IsEncoding, Meaning, IsKey, Entry, Encode, HasType, KeysUnder, ValueUnder;
    var contents := ContentsOf(db, name, keyType, valueType);
    forall k | k in contents
      ensures Entry(db, name, keyType, valueType, k, contents[k])
    {
      EntryUnder(db, name, keyType, valueType, k);
    }
    forall b | (name, b) in db
      ensures IsKey(b, keyType, contents)
    {
      EncodingMeans(b, keyType);
      KeyUnder(db, name, keyType, b);
      NewKey(keyType, contents, Meaning(b, keyType));
    }
  }

  lemma EntryUnder(db: Store, name: nat, keyType: Type, valueType: Type, k: Value)
    requires WellStored(db, name, keyType, valueType) && k in KeysUnder(db, name, keyType)
    ensures Entry(db, name, keyType, valueType, k, ValueUnder(db, name, keyType, valueType, k))
  {
    hide IsEncoding, Meaning, Encode, HasType, KeysUnder;
    KeyStored(db, name, keyType, valueType, k);
    EncodingMeans(db[(name, Encode(k, keyType))], valueType);
  }

  lemma KeyUnder(db: Store, name: nat, keyType: Type, b: seq<Byte>)
    requires (name, b) in db
    ensures Meaning(b, keyType) in KeysUnder(db, name, keyType)
  {
    assert (name, b).0 == name && (name, b).1 == b;
  }

  class Table {
    const name: nat
    const keyType: Type
    const valueType: Type
    const store: HostStore
    ghost var contents: map<Value, Value>

    ghost predicate Valid()
      reads this, store
    {
      Stored(store.db, name, keyType, valueType, contents) && Known(store.db, name, keyType, contents)
    }

    // The name has at most twelve characters. The handle itself has no state: it is made over whatever the store holds.
    constructor (name: nat, keyType: Type, valueType: Type, store: HostStore, ghost contents: map<Value, Value>)
      requires name < Names.CAP && |Names.Text(name)| < 13
      requires Stored(store.db, name, keyType, valueType, contents) && Known(store.db, name, keyType, contents)
      ensures Valid() && this.contents == contents
      ensures this.name == name && this.keyType == keyType && this.valueType == valueType && this.store == store
    {
      this.name, this.keyType, this.valueType, this.store := name, keyType, valueType, store;
      this.contents := contents;
    }

    ghost predicate Fits(key: Value)
      requires HasType(key, keyType)
    {
      |Encode(key, keyType)| <= MAX_KEY_LENGTH
    }

    // The entry for a key is found under the key's own bytes.
    lemma Lookup(key: Value)
      requires Valid() && HasType(key, keyType)
      ensures (name, Encode(key, keyType)) in store.db <==> key in contents
      ensures key in contents ==>
        HasType(contents[key], valueType) && store.db[(name, Encode(key, keyType))] == Encode(contents[key], valueType)
    {
      var b := Encode(key, keyType);
      if (name, b) in store.db {
        assert IsKey(b, keyType, contents);
        var k :| k in contents && HasType(k, keyType) && Encode(k, keyType) == b;
        EncodeInjective(k, key, keyType);
      }
    }

    method Put(key: Value, value: Value) returns (ok: bool)
      requires Valid() && HasType(key, keyType) && HasType(value, valueType)
      modifies this`contents, store
      ensures Valid() && ok == (Fits(key) && |Encode(value, valueType)| < HALF)
      ensures contents == if ok then old(contents)[key := value] else old(contents)
      ensures forall t, b :: t != name ==> ((t, b) in store.db <==> (t, b) in old(store.db))
      ensures forall t, b :: t != name && (t, b) in store.db ==> store.db[(t, b)] == old(store.db)[(t, b)]
    {
      hide Encode, HasType, Stored, Known;
      var buffer := Pack(value, valueType);
      if buffer.None? { return false; }
      var packed := buffer.value[..];
      var pk := MapKey(key, keyType);
      if pk.None? { return false; }
      StoredPut(store.db, name, keyType, valueType, contents, key, value);
      KnownPut(store.db, name, keyType, contents, key, value, packed);
      store.db := store.db[(name, pk.value) := packed];
      contents := contents[key := value];
      return true;
    }

    // Aborts when the host has no entry; what it has always unpacks.
    method Get(key: Value) returns (r: Option<Value>)
      requires Valid() && HasType(key, keyType)
      ensures r == if Fits(key) && key in contents then Some(contents[key]) else None
    {
      var primary := MapKey(key, keyType);
      if primary.None? { return None; }
      Lookup(key);
      if (name, primary.value) !in store.db { return None; }
      var buffer := store.db[(name, primary.value)];
      RoundTrip(contents[key], valueType, []);
      assert Encode(contents[key], valueType) + [] == buffer;
      r := Unpack(buffer, valueType);
    }

    method HasKey(key: Value) returns (r: Option<bool>)
      requires Valid() && HasType(key, keyType)
      ensures r == if Fits(key) then Some(key in contents) else None
    {
      var pk := MapKey(key, keyType);
      if pk.None? { return None; }
      Lookup(key);
      return Some((name, pk.value) in store.db);
    }

    method Erase(key: Value) returns (ok: bool)
      requires Valid() && HasType(key, keyType)
      modifies this`contents, store
      ensures Valid() && ok == Fits(key)
      ensures contents == if ok then old(contents) - {key} else old(contents)
      ensures forall t, b :: t != name ==> ((t, b) in store.db <==> (t, b) in old(store.db))
      ensures forall t, b :: t != name && (t, b) in store.db ==> store.db[(t, b)] == old(store.db)[(t, b)]
    {
      hide Encode, HasType, Stored, Known;
      var pk := MapKey(key, keyType);
      if pk.None? { return false; }
      StoredErase(store.db, name, keyType, valueType, contents, key);
      KnownErase(store.db, name, keyType, contents, key);
      store.db := store.db - {(name, pk.value)};
      contents := contents - {key};
      return true;
    }

    // One operation, with what it answers.
    method Perform(op: Op) returns (a: Answer)
      requires Valid() && OpTyped(op, keyType, valueType)
      modifies this`contents, store
      ensures Valid() && (contents, a) == MapStep(old(contents), op, OpFits(op, keyType, valueType))
      ensures a == Aborted <==> !OpFits(op, keyType, valueType) || (op.Get? && op.key !in old(contents))
      ensures op.Put? && a != Aborted ==> a == Done && contents == old(contents)[op.key := op.value]
      ensures op.Get? && a != Aborted ==> a == Found(old(contents)[op.key])
      ensures op.HasKey? && a != Aborted ==> a == Present(op.key in old(contents))
      ensures op.Erase? && a != Aborted ==> a == Done && contents == old(contents) - {op.key}
      ensures a == Aborted || op.Get? || op.HasKey? ==> contents == old(contents)
    {
      a := Aborted;
      match op {
        case Put(k, v) =>
          var ok := Put(k, v);
          if ok { a := Done; }
        case Get(k) =>
          var v := Get(k);
          if v.Some? { a := Found(v.value); }
        case HasKey(k) =>
          var b := HasKey(k);
          if b.Some? { a := Present(b.value); }
        case Erase(k) =>
          var ok := Erase(k);
          if ok { a := Done; }
      }
    }

    /** Any sequence of operations answers what the same sequence answers on a map from K to V, up to the first one
        that aborts. */
    method Run(ops: seq<Op>) returns (answers: seq<Answer>)
      requires Valid() && forall i :: 0 <= i < |ops| ==> OpTyped(ops[i], keyType, valueType)
      modifies this`contents, store
      ensures Valid() && (contents, answers) == MapRun(old(contents), ops, keyType, valueType)
    {
      hide Valid, Encode, HasType, OpTyped, OpFits;
      answers := [];
      ghost var whole := MapRun(contents, ops, keyType, valueType);
      assert ops[0..] == ops && [] + whole.1 == whole.1;
      for i := 0 to |ops|
        invariant Valid()
        invariant var rest := MapRun(contents, ops[i..], keyType, valueType); whole == (rest.0, answers + rest.1)
      {
        var a := Perform(ops[i]);
        assert ops[i..][1..] == ops[i+1..];
        ghost var rest := MapRun(contents, ops[i+1..], keyType, valueType).1;
        assert answers + ([a] + rest) == answers + [a] + rest;
        answers := answers + [a];
        if a.Aborted? { return; }
      }
      assert ops[|ops|..] == [] && answers + [] == answers;
    }
  }
}
