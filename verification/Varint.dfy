/** unsigned_int and signed_int: base-128 integers of at most 32 bits, low groups first. */
module Varint {
  import opened Arith
  import opened Bytes

  const WORD: nat := 0x1_0000_0000

  // A failed check, a reading the code gives no meaning to, or a value and the number of bytes read.
  datatype Parsed<T> = Fail | Got(value: T, used: nat)

  function EncodeUint(val: nat): (r: seq<Byte>)
    ensures |r| >= 1
  {
    if val / 128 > 0 then [val % 128 + 128] + EncodeUint(val / 128) else [val % 128]
  }

  lemma EncodeUintStep(val: nat)
    ensures EncodeUint(val) == if val / 128 > 0 then [val % 128 + 128] + EncodeUint(val / 128) else [val % 128]
  {
  }

  // Reading on with the given shift and the groups accumulated so far, which occupy the bits below it. A sixth byte
  // would be shifted by more than the word.
  function DecodeUint(s: seq<Byte>, shift: nat := 0, acc: nat := 0): (r: Parsed<nat>)
    ensures r.Got? ==> 1 <= r.used <= |s| && r.value < WORD
    decreases |s|
  {
    if s == [] || shift >= 32 then Fail
    else
      var joined := (acc + s[0] % 128 * Pow2(shift) % WORD) % WORD;
      if s[0] < 128 then Got(joined, 1)
      else
        match DecodeUint(s[1..], shift + 7, joined)
        case Fail => Fail
        case Got(v, used) => Got(v, used + 1)
  }

  lemma Pow2By7(n: nat)
    ensures Pow2(n + 7) == 128 * Pow2(n)
  {
    assert Pow2(n + 7) == 2 * Pow2(n + 6) == 4 * Pow2(n + 5) == 8 * Pow2(n + 4);
    assert Pow2(n + 4) == 2 * Pow2(n + 3) == 4 * Pow2(n + 2) == 8 * Pow2(n + 1);
  }

  lemma {:induction false} Pow2Word(n: nat)
    requires n >= 32
    ensures Pow2(n) >= WORD
  {
    if n == 32 {
      Pow2By7(25);
      Pow2By7(18);
      Pow2By7(11);
      Pow2By7(4);
      assert Pow2(4) == 2 * Pow2(3) == 4 * Pow2(2) == 8 * Pow2(1);
    } else {
      Pow2Word(n - 1);
    }
  }

  // ----- the layout, byte by byte

  lemma Shift7(val: nat, i: nat)
    ensures val / 128 / Pow2(7 * i) == val / Pow2(7 * (i + 1))
  {
    hide Pow2;
    Pow2By7(7 * i);
    assert 7 * i + 7 == 7 * (i + 1);
    DivDiv(val, 128, Pow2(7 * i));
  }

  /** Byte i of an encoded number holds its i-th group of seven bits, and a mark except in the last byte. */
  lemma {:induction false} UintByte(val: nat, i: nat)
    requires i < |EncodeUint(val)|
    ensures EncodeUint(val)[i] == val / Pow2(7 * i) % 128 + if i + 1 < |EncodeUint(val)| then 128 else 0
  {
    hide Pow2, EncodeUint;
    EncodeUintStep(val);
    if i == 0 {
      Pow2Zero();
    } else {
      assert EncodeUint(val)[i] == EncodeUint(val / 128)[i-1];
      UintByte(val / 128, i - 1);
      Shift7(val, i - 1);
    }
  }

  lemma Pow2Zero()
    ensures Pow2(0) == 1
  {
  }

  /** An encoded number is as short as its groups allow. */
  lemma {:induction false} UintLength(val: nat)
    ensures val < Pow2(7 * |EncodeUint(val)|)
    ensures |EncodeUint(val)| > 1 ==> val >= Pow2(7 * (|EncodeUint(val)| - 1))
  {
    hide Pow2;
    EncodeUintStep(val);
    Pow2Zero();
    if val < 128 {
      Pow2By7(0);
    } else {
      var l := |EncodeUint(val / 128)|;
      UintLength(val / 128);
      Pow2By7(7 * l);
      assert 7 * (l + 1) == 7 * l + 7;
      Pow2By7(7 * (l - 1));
      assert 7 * (l - 1) + 7 == 7 * l;
    }
  }

  // ----- what is read

  // Up to five bytes of which exactly the last one is unmarked.
  predicate UintForm(s: seq<Byte>) {
    1 <= |s| <= 5 && s[|s|-1] < 128 && forall i :: 0 <= i < |s| - 1 ==> s[i] >= 128
  }

  // The groups of s, of which the first is the j-th of the number, at their places.
  function GroupSum(s: seq<Byte>, j: nat): nat {
    if s == [] then 0 else s[0] % 128 * Pow2(7 * j) + GroupSum(s[1..], j + 1)
  }

  // The number that bytes of that form are read as; what does not fit the word is lost.
  function UintValue(s: seq<Byte>): (n: nat)
    ensures n < WORD
  {
    GroupSum(s, 0) % WORD
  }

  lemma GroupSumStep(s: seq<Byte>, j: nat)
    ensures s == [] ==> GroupSum(s, j) == 0
    ensures s != [] ==> GroupSum(s, j) == s[0] % 128 * Pow2(7 * j) + GroupSum(s[1..], j + 1)
  {
  }

  lemma WrapSum(a: nat, x: nat, r: nat)
    ensures ((a + x % WORD) % WORD + r) % WORD == (a + (x + r)) % WORD
  {
  }

  // The next group joined to what was read before.
  function Join(acc: nat, b: Byte, shift: nat): nat { (acc + b % 128 * Pow2(shift) % WORD) % WORD }

  lemma DecodeStep(s: seq<Byte>, shift: nat, acc: nat)
    requires s != [] && shift < 32
    ensures s[0] < 128 ==> DecodeUint(s, shift, acc) == Got(Join(acc, s[0], shift), 1)
    ensures s[0] >= 128 ==>
      var more := DecodeUint(s[1..], shift + 7, Join(acc, s[0], shift));
      DecodeUint(s, shift, acc) == if more.Fail? then Fail else Got(more.value, more.used + 1)
  {
    hide Pow2;
  }

  lemma JoinSum(s: seq<Byte>, j: nat, acc: nat)
    requires s != []
    ensures (Join(acc, s[0], 7 * j) + GroupSum(s[1..], j + 1)) % WORD == (acc + GroupSum(s, j)) % WORD
    ensures |s| == 1 ==> Join(acc, s[0], 7 * j) == (acc + GroupSum(s, j)) % WORD
  {
    hide Pow2, GroupSum;
    GroupSumStep(s, j);
    GroupSumStep(s[1..], j + 1);
    WrapSum(acc, s[0] % 128 * Pow2(7 * j), GroupSum(s[1..], j + 1));
  }

  lemma {:induction false} DecodeForm(s: seq<Byte>, rest: seq<Byte>, j: nat, acc: nat)
    requires s != [] && j + |s| <= 5 && s[|s|-1] < 128 && forall i :: 0 <= i < |s| - 1 ==> s[i] >= 128
    ensures DecodeUint(s + rest, 7 * j, acc) == Got((acc + GroupSum(s, j)) % WORD, |s|)
    decreases |s|
  {
    hide DecodeUint, GroupSum, Join;
    JoinSum(s, j, acc);
    DecodeStep(s + rest, 7 * j, acc);
    if |s| > 1 {
      var tail := s[1..];
      assert (s + rest)[1..] == tail + rest && 7 * j + 7 == 7 * (j + 1);
      assert forall i :: 0 <= i < |tail| ==> tail[i] == s[i + 1];
      DecodeForm(tail, rest, j + 1, Join(acc, s[0], 7 * j));
    }
  }

  lemma DecodeNothing(s: seq<Byte>, shift: nat, acc: nat)
    requires DecodeUint(s, shift, acc).Got?
    ensures s != [] && shift < 32
  {
  }

  lemma {:induction false} FormDecoded(s: seq<Byte>, j: nat, acc: nat)
    requires DecodeUint(s, 7 * j, acc).Got?
    ensures var n := DecodeUint(s, 7 * j, acc).used;
      j + n <= 5 && s[n-1] < 128 && forall i :: 0 <= i < n - 1 ==> s[i] >= 128
    decreases |s|
  {
    hide DecodeUint, Join;
    DecodeNothing(s, 7 * j, acc);
    DecodeStep(s, 7 * j, acc);
    if s[0] >= 128 {
      var joined := Join(acc, s[0], 7 * j);
      assert 7 * j + 7 == 7 * (j + 1);
      FormDecoded(s[1..], j + 1, joined);
      var n := DecodeUint(s[1..], 7 * (j + 1), joined).used;
      assert s[n] == s[1..][n-1];
      forall i | 0 <= i < n
        ensures s[i] >= 128
      {
        if i > 0 { assert s[i] == s[1..][i-1]; }
      }
    }
  }

  lemma {:induction false} GroupsOf(val: nat, j: nat)
    ensures GroupSum(EncodeUint(val), j) == val * Pow2(7 * j)
  {
    hide Pow2, GroupSum, EncodeUint;
    var s, p := EncodeUint(val), Pow2(7 * j);
    EncodeUintStep(val);
    GroupSumStep(s, j);
    GroupSumStep(s[1..], j + 1);
    if val / 128 > 0 {
      assert s[1..] == EncodeUint(val / 128) && 7 * (j + 1) == 7 * j + 7;
      GroupsOf(val / 128, j + 1);
      Pow2By7(7 * j);
      Distribute(val / 128 * 128, val % 128, p);
      Associate(val / 128, 128, p);
    }
  }

  lemma EncodedForm(val: nat)
    requires val < WORD
    ensures UintForm(EncodeUint(val))
  {
    hide Pow2, EncodeUint;
    var s := EncodeUint(val);
    UintLength(val);
    if |s| > 5 { Pow2Word(7 * (|s| - 1)); }
    forall i | 0 <= i < |s|
      ensures s[i] >= 128 <==> i + 1 < |s|
    {
      UintByte(val, i);
    }
  }

  /** Reading back an encoded number gives the number and stops behind its last byte, whatever follows. */
  lemma UintRoundTrip(val: nat, rest: seq<Byte>)
    requires val < WORD
    ensures DecodeUint(EncodeUint(val) + rest) == Got(val, |EncodeUint(val)|)
  {
    hide Pow2, EncodeUint, DecodeUint, GroupSum;
    EncodedForm(val);
    GroupsOf(val, 0);
    Pow2Zero();
    DecodeForm(EncodeUint(val), rest, 0, 0);
  }

  /** Reading succeeds exactly on bytes of the form, and gives the number they stand for, whatever follows. */
  lemma DecodeUintExactly(s: seq<Byte>)
    ensures forall n :: 0 <= n <= |s| && UintForm(s[..n]) ==> DecodeUint(s) == Got(UintValue(s[..n]), n)
    ensures DecodeUint(s).Got? ==>
      var n := DecodeUint(s).used; UintForm(s[..n]) && DecodeUint(s).value == UintValue(s[..n])
  {
    hide DecodeUint, GroupSum;
    forall n | 0 <= n <= |s| && UintForm(s[..n])
      ensures DecodeUint(s) == Got(UintValue(s[..n]), n)
    {
      DecodeForm(s[..n], s[n..], 0, 0);
      assert s[..n] + s[n..] == s;
    }
    if DecodeUint(s).Got? { FormDecoded(s, 0, 0); }
  }

  // ----- zig-zag

  // uint32_t((value << 1) ^ (value >> 31)), the second shift being arithmetic
  function Zig(b: bv32): bv32 {
    (b << 1) ^ (if b & 0x8000_0000 != 0 then 0xFFFF_FFFF else 0)
  }

  function Word(n: nat): bv32
    requires n < WORD
  {
    n as bv32
  }

  // (v >> 1) ^ (~(v & 1) + 1), truncated to 32 bits
  function Zag(v: bv32): bv32 {
    (v >> 1) ^ (!(v & 1) + 1)
  }

  lemma ZigZagBits(b: bv32)
    ensures b & 0x8000_0000 == 0 ==> ((b << 1) >> 1) ^ (!((b << 1) & 1) + 1) == b
    ensures b & 0x8000_0000 != 0 ==>
              (((b << 1) ^ 0xFFFF_FFFF) >> 1) ^ (!(((b << 1) ^ 0xFFFF_FFFF) & 1) + 1) == b
  {
  }

  lemma ZigZag(b: bv32)
    ensures Zag(Zig(b)) == b
  {
    ZigZagBits(b);
    assert (b << 1) ^ 0 == b << 1;
  }

  lemma BitsRoundTrip(b: bv32)
    ensures b as nat < WORD && Word(b as nat) == b
  {
  }

  /** The zig-zag of n is 2n, and of a negative n, which is its two's complement, it is -2n - 1. */
  lemma ZigMeans(b: bv32)
    ensures b < 0x8000_0000 ==> Zig(b) == 2 * b
    ensures b >= 0x8000_0000 ==> Zig(b) == 2 * (0 - b) - 1
  {
  }
}
