/**
  * The converters and their length functions, with the cursors and loops they run with. A call reads frm from the
  * front and fills to from the front; what it returns is the result and how far both cursors came.
  */
module Converters {
  import Arith
  import opened Bytes
  import opened Unicode
  import opened UnicodeLaws

  type Word16 = x: nat | x < 0x1_0000
  type Word32 = x: nat | x < 0x1_0000_0000

  // ----- where a loop stands

  // The whole call is what was read and written so far and a call on the rest.
  ghost predicate Reached(whole: Outcome, codec: Codec, s: seq<nat>, p: nat, room: nat, out: seq<nat>, maxcode: nat) {
    p <= |s| && |out| <= room && whole == After(p, out, Convert(codec, s[p..], room - |out|, maxcode))
  }

  lemma Begin(codec: Codec, s: seq<nat>, room: nat, maxcode: nat, header: bool)
    ensures var whole := Call(codec, s, room, maxcode, header);
      if !header then Reached(whole, codec, s, 0, room, [], maxcode)
      else if codec.to in {Utf8, Utf16be} then
        var mark := ByteOrderMark(codec.to);
        if room < |mark| then whole == Outcome(Partial, 0, []) else Reached(whole, codec, s, 0, room, mark, maxcode)
      else
        var mark := ByteOrderMark(codec.from);
        if mark <= s then Reached(whole, codec, s, |mark|, room, [], maxcode)
          else Reached(whole, codec, s, 0, room, [], maxcode)
  {
    hide Convert;
    assert s[0..] == s;
    assert [] + Convert(codec, s, room, maxcode).out == Convert(codec, s, room, maxcode).out;
  }

  lemma AfterAfter(n: nat, x: seq<nat>, m: nat, y: seq<nat>, rest: Outcome)
    ensures After(n, x, After(m, y, rest)) == After(n + m, x + y, rest)
  {
    assert x + (y + rest.out) == x + y + rest.out;
  }

  // What a turn of the loop does to that, and what stopping there returns.
  lemma Turn(whole: Outcome, codec: Codec, s: seq<nat>, p: nat, room: nat, out: seq<nat>, maxcode: nat)
    requires Reached(whole, codec, s, p, room, out, maxcode)
    ensures p == |s| ==> whole == Outcome(Ok, p, out)
    ensures p < |s| ==>
      match StepOf(codec, s[p..], room - |out|, maxcode)
      case Stop(result) => whole == Outcome(result, p, out)
      case Take(used, more) => Reached(whole, codec, s, p + used, room, out + more, maxcode)
  {
    hide StepOf;
    assert out + [] == out;
    if p < |s| && StepOf(codec, s[p..], room - |out|, maxcode).Take? {
      var step := StepOf(codec, s[p..], room - |out|, maxcode);
      assert s[p..][step.used..] == s[p + step.used..];
      AfterAfter(p, out, step.used, step.out, Convert(codec, s[p + step.used..], room - |out + step.out|, maxcode));
    }
  }

  // ----- the bit fields the loops use

  lemma PairFields(w1: nat, w2: nat)
    requires 0xD800 <= w1 < 0xDC00
    ensures Paired(w1, w2) == PairCode(w1, w2)
  {
    Arith.Field(w1, 16, 64);
  }

  // The bytes that the loops mask out of a character, or out of a surrogate pair with the plane bits z.
  function Lead2(c: nat): Byte
    requires c < 0x800
  {
    0xC0 + c / 64
  }

  function Lead3(c: nat): Byte
    requires c < 0x1_0000
  {
    0xE0 + c / 0x1000
  }

  function Lead4(c: nat): Byte { 0xF0 + c / 0x4_0000 % 16 }

  function SecondOf4(c: nat): Byte { 0x80 + c % 0x4_0000 / 0x1000 }

  function Middle(c: nat): Byte { 0x80 + c % 0x1000 / 64 }

  function Last(c: nat): Byte { 0x80 + c % 64 }

  function PlaneBits(w1: nat): (z: nat)
    ensures 1 <= z <= 16
  {
    w1 % 0x400 / 64 + 1
  }

  function PairLead(z: nat): Byte
    requires z <= 16
  {
    0xF0 + z / 4
  }

  function PairSecond(z: nat, w1: nat): Byte { 0x80 + z % 4 * 16 + w1 % 64 / 4 }

  function PairThird(w1: nat, w2: nat): Byte { 0x80 + w1 % 4 * 16 + w2 % 0x400 / 64 }

  function PairCode(w1: nat, w2: nat): (c: nat)
    ensures c < 0x11_0000
  {
    PlaneBits(w1) * 0x1_0000 + w1 % 64 * 0x400 + w2 % 0x400
  }

  lemma PairInUtf8(w1: nat, w2: nat)
    requires 0xD800 <= w1 < 0xDC00
    ensures var z := PlaneBits(w1);
      EncodeOne(Utf8, Paired(w1, w2)) == [PairLead(z), PairSecond(z, w1), PairThird(w1, w2), Last(w2)]
  {
    hide EncodeOne, Paired;
    PairFields(w1, w2);
    Characters4Of(PlaneBits(w1), w1 % 64, w2 % 0x400);
    Arith.Field(w2, 16, 64);
    Arith.Field(w1, 16, 4);
  }

  lemma Characters4Of(z: nat, x: nat, y: nat)
    requires 1 <= z <= 16 && x < 64 && y < 0x400
    ensures EncodeOne(Utf8, z * 0x1_0000 + x * 0x400 + y) ==
      [0xF0 + z / 4, 0x80 + z % 4 * 16 + x / 4, 0x80 + x % 4 * 16 + y / 64, 0x80 + y % 64]
  {
    var c := z * 0x1_0000 + x * 0x400 + y;
    Join4(z / 4, z % 4 * 16 + x / 4, x % 4 * 16 + y / 64, y % 64);
    assert c == z / 4 * 0x4_0000 + (z % 4 * 16 + x / 4) * 0x1000 + (x % 4 * 16 + y / 64) * 64 + y % 64;
  }

  lemma PlaneJoin(p: nat, x: nat, y: nat)
    requires 1 <= p <= 16 && x < 64 && y < 0x400
    ensures var c := p * 0x1_0000 + x * 0x400 + y; High(c) == 0xD800 + (p - 1) * 64 + x && Low(c) == 0xDC00 + y
  {
    var c := p * 0x1_0000 + x * 0x400 + y;
    assert c / 0x400 == p * 64 + x;
    assert c / 0x1_0000 == p;
  }

  lemma PlaneOfBytes(b1: nat, b2: nat)
    requires 0xF0 <= b1 < 0xF5 && Second4(b1, b2)
    ensures 1 <= b1 % 8 * 4 + b2 % 64 / 16 <= 16
  {
  }

  lemma FieldsOfBytes(b1: nat, b2: nat, b3: nat, b4: nat)
    ensures Code4(b1, b2, b3, b4) ==
      (b1 % 8 * 4 + b2 % 64 / 16) * 0x1_0000 + (b2 % 16 * 4 + b3 % 64 / 16) * 0x400 + (b3 % 16 * 64 + b4 % 64)
  {
    Arith.Field(b2, 4, 16);
    Arith.Field(b3, 4, 16);
  }

  // The surrogate pair of a four-byte character.
  function HighHalfOf(b1: nat, b2: nat, b3: nat): Word16
    requires 0xF0 <= b1 < 0xF5 && Second4(b1, b2)
  {
    PlaneOfBytes(b1, b2);
    0xD800 + (b1 % 8 * 4 + b2 % 64 / 16 - 1) * 64 + (b2 % 16 * 4 + b3 % 64 / 16)
  }

  function LowHalfOf(b3: nat, b4: nat): Word16 { 0xDC00 + (b3 % 16 * 64 + b4 % 64) }

  lemma Utf8InPair(b1: nat, b2: nat, b3: nat, b4: nat)
    requires 0xF0 <= b1 < 0xF5 && Second4(b1, b2)
    ensures var c := Code4(b1, b2, b3, b4);
      c >= 0x1_0000 && High(c) == HighHalfOf(b1, b2, b3) && Low(c) == LowHalfOf(b3, b4)
  {
    hide High, Low, Code4, Second4;
    PlaneOfBytes(b1, b2);
    FieldsOfBytes(b1, b2, b3, b4);
    PlaneJoin(b1 % 8 * 4 + b2 % 64 / 16, b2 % 16 * 4 + b3 % 64 / 16, b3 % 16 * 64 + b4 % 64);
  }

  // ----- the encoders

  // One to four units written one behind the other.
  method Put1<T>(to: array<T>, at: nat, x: T)
    requires at + 1 <= to.Length
    modifies to
    ensures to[..at+1] == old(to[..at]) + [x] && forall k :: at + 1 <= k < to.Length ==> to[k] == old(to[k])
  {
    to[at] := x;
  }

  method Put2<T>(to: array<T>, at: nat, x1: T, x2: T)
    requires at + 2 <= to.Length
    modifies to
    ensures to[..at+2] == old(to[..at]) + [x1, x2] && forall k :: at + 2 <= k < to.Length ==> to[k] == old(to[k])
  {
    to[at] := x1;
    to[at+1] := x2;
  }

  method Put3<T>(to: array<T>, at: nat, x1: T, x2: T, x3: T)
    requires at + 3 <= to.Length
    modifies to
    ensures to[..at+3] == old(to[..at]) + [x1, x2, x3] && forall k :: at + 3 <= k < to.Length ==> to[k] == old(to[k])
  {
    to[at] := x1;
    to[at+1] := x2;
    to[at+2] := x3;
  }

  method Put4<T>(to: array<T>, at: nat, x1: T, x2: T, x3: T, x4: T)
    requires at + 4 <= to.Length
    modifies to
    ensures to[..at+4] == old(to[..at]) + [x1, x2, x3, x4]
    ensures forall k :: at + 4 <= k < to.Length ==> to[k] == old(to[k])
  {
    to[at] := x1;
    to[at+1] := x2;
    to[at+2] := x3;
    to[at+3] := x4;
  }

  // A character that the encoders write, when there is room for it.
  function Written(used: nat, c: nat, to: Format, room: nat): Step {
    if |EncodeOne(to, c)| > room then Stop(Partial) else Take(used, EncodeOne(to, c))
  }

  lemma Utf16Turn(s: seq<nat>, room: nat, maxcode: nat)
    requires s != []
    ensures s[0] > maxcode ==> StepOf(UTF16_TO_UTF8, s, room, maxcode) == Stop(Error)
    ensures s[0] <= maxcode && !Surrogate(s[0]) ==>
      StepOf(UTF16_TO_UTF8, s, room, maxcode) == Written(1, s[0], Utf8, room)
    ensures s[0] <= maxcode && HighHalf(s[0]) && |s| < 2 ==> StepOf(UTF16_TO_UTF8, s, room, maxcode) == Stop(Partial)
    ensures s[0] <= maxcode && HighHalf(s[0]) && |s| > 1 && s[1] / 0x400 != 0x37 ==>
      StepOf(UTF16_TO_UTF8, s, room, maxcode) == Stop(Error)
    ensures s[0] <= maxcode && HighHalf(s[0]) && |s| > 1 && s[1] / 0x400 == 0x37 ==>
      && |EncodeOne(Utf8, Paired(s[0], s[1]))| == 4
      && StepOf(UTF16_TO_UTF8, s, room, maxcode) ==
        if room < 4 then Stop(Partial) else if Paired(s[0], s[1]) > maxcode then Stop(Error)
          else Take(2, EncodeOne(Utf8, Paired(s[0], s[1])))
    ensures s[0] <= maxcode && LowHalf(s[0]) ==> StepOf(UTF16_TO_UTF8, s, room, maxcode) == Stop(Error)
  {
    hide Paired, EncodeOne;
    if |s| > 1 && HighHalf(s[0]) { PairInUtf8(s[0], s[1]); }
  }

  // The bytes of a character of up to sixteen bits, by their number.
  lemma SmallInUtf8(c: nat)
    requires c < 0x1_0000
    ensures EncodeOne(Utf8, c) ==
      if c < 0x80 then [c] else if c < 0x800 then [Lead2(c), Last(c)] else [Lead3(c), Middle(c), Last(c)]
  {
    Arith.Field(c, 64, 64);
  }

  method Utf16ToUtf8(frm: seq<Word16>, to: array<Byte>, maxcode: nat, header: bool)
    returns (r: Result, frmNxt: nat, toNxt: nat)
    modifies to
    ensures toNxt <= to.Length
      && Outcome(r, frmNxt, to[..toNxt]) == Call(UTF16_TO_UTF8, frm, to.Length, maxcode, header)
    ensures forall k :: toNxt <= k < to.Length ==> to[k] == old(to[k])
  {
    hide Convert, Reached, Call, Paired, StepOf, EncodeOne, Lead2, Lead3, Middle, Last, PlaneBits, PairLead, PairSecond,
      PairThird, PairCode;
    frmNxt, toNxt := 0, 0;
    ghost var whole := Call(UTF16_TO_UTF8, frm, to.Length, maxcode, header);
    Begin(UTF16_TO_UTF8, frm, to.Length, maxcode, header);
    if header {
      if to.Length - toNxt < 3 { return Partial, 0, 0; }
      to[0], to[1], to[2] := 0xEF, 0xBB, 0xBF;
      toNxt := 3;
    }
    assert to[..toNxt] == if header then ByteOrderMark(Utf8) else [];
    while frmNxt < |frm|
      invariant frmNxt <= |frm| && toNxt <= to.Length
      invariant forall k :: toNxt <= k < to.Length ==> to[k] == old(to[k])
      invariant Reached(whole, UTF16_TO_UTF8, frm, frmNxt, to.Length, to[..toNxt], maxcode)
    {
      Turn(whole, UTF16_TO_UTF8, frm, frmNxt, to.Length, to[..toNxt], maxcode);
      Utf16Turn(frm[frmNxt..], to.Length - toNxt, maxcode);
      var wc1 := frm[frmNxt];
      SmallInUtf8(wc1);
      if wc1 > maxcode { return Error, frmNxt, toNxt; }
      if wc1 < 0x80 {
        if to.Length - toNxt < 1 { return Partial, frmNxt, toNxt; }
        Put1(to, toNxt, wc1);
        toNxt := toNxt + 1;
      } else if wc1 < 0x800 {
        if to.Length - toNxt < 2 { return Partial, frmNxt, toNxt; }
        Put2(to, toNxt, Lead2(wc1), Last(wc1));
        toNxt := toNxt + 2;
      } else if wc1 < 0xD800 {
        if to.Length - toNxt < 3 { return Partial, frmNxt, toNxt; }
        Put3(to, toNxt, Lead3(wc1), Middle(wc1), Last(wc1));
        toNxt := toNxt + 3;
      } else if wc1 < 0xDC00 {
        if |frm| - frmNxt < 2 { return Partial, frmNxt, toNxt; }
        var wc2 := frm[frmNxt + 1];
        if wc2 / 0x400 != 0x37 { return Error, frmNxt, toNxt; }
        if to.Length - toNxt < 4 { return Partial, frmNxt, toNxt; }
        PairFields(wc1, wc2);
        PairInUtf8(wc1, wc2);
        if PairCode(wc1, wc2) > maxcode { return Error, frmNxt, toNxt; }
        frmNxt := frmNxt + 1;
        var z := PlaneBits(wc1);
        Put4(to, toNxt, PairLead(z), PairSecond(z, wc1), PairThird(wc1, wc2), Last(wc2));
        toNxt := toNxt + 4;
      } else if wc1 < 0xE000 {
        return Error, frmNxt, toNxt;
      } else {
        if to.Length - toNxt < 3 { return Partial, frmNxt, toNxt; }
        Put3(to, toNxt, Lead3(wc1), Middle(wc1), Last(wc1));
        toNxt := toNxt + 3;
      }
      frmNxt := frmNxt + 1;
    }
    Turn(whole, UTF16_TO_UTF8, frm, frmNxt, to.Length, to[..toNxt], maxcode);
    r := Ok;
  }

  lemma Ucs4Turn(to: Format, s: seq<nat>, room: nat, maxcode: nat)
    requires s != [] && to in {Utf8, Utf16be}
    ensures StepOf(Codec(Ucs4, to), s, room, maxcode) == if Surrogate(s[0]) || s[0] > maxcode then Stop(Error)
      else Written(1, s[0], to, room)
  {
    hide EncodeOne;
  }

  lemma LargeInUtf8(c: nat)
    requires c >= 0x1_0000
    ensures EncodeOne(Utf8, c) == [Lead4(c), SecondOf4(c), Middle(c), Last(c)]
  {
    Arith.Field(c, 64, 0x1000);
    Arith.Field(c, 64, 64);
  }

  method Ucs4ToUtf8(frm: seq<Word32>, to: array<Byte>, maxcode: nat, header: bool)
    returns (r: Result, frmNxt: nat, toNxt: nat)
    modifies to
    ensures toNxt <= to.Length && Outcome(r, frmNxt, to[..toNxt]) == Call(UCS4_TO_UTF8, frm, to.Length, maxcode, header)
    ensures forall k :: toNxt <= k < to.Length ==> to[k] == old(to[k])
  {
    hide Convert, Reached, Call, StepOf, EncodeOne, Lead2, Lead3, Lead4, SecondOf4, Middle, Last;
    frmNxt, toNxt := 0, 0;
    ghost var whole := Call(UCS4_TO_UTF8, frm, to.Length, maxcode, header);
    Begin(UCS4_TO_UTF8, frm, to.Length, maxcode, header);
    if header {
      if to.Length - toNxt < 3 { return Partial, 0, 0; }
      to[0], to[1], to[2] := 0xEF, 0xBB, 0xBF;
      toNxt := 3;
    }
    assert to[..toNxt] == if header then ByteOrderMark(Utf8) else [];
    while frmNxt < |frm|
      invariant frmNxt <= |frm| && toNxt <= to.Length
      invariant forall k :: toNxt <= k < to.Length ==> to[k] == old(to[k])
      invariant Reached(whole, UCS4_TO_UTF8, frm, frmNxt, to.Length, to[..toNxt], maxcode)
    {
      Turn(whole, UCS4_TO_UTF8, frm, frmNxt, to.Length, to[..toNxt], maxcode);
      Ucs4Turn(Utf8, frm[frmNxt..], to.Length - toNxt, maxcode);
      var wc := frm[frmNxt];
      if wc / 0x800 == 0x1B || wc > maxcode { return Error, frmNxt, toNxt; }
      if wc < 0x1_0000 { SmallInUtf8(wc); } else { LargeInUtf8(wc); }
      if wc < 0x80 {
        if to.Length - toNxt < 1 { return Partial, frmNxt, toNxt; }
        Put1(to, toNxt, wc);
        toNxt := toNxt + 1;
      } else if wc < 0x800 {
        if to.Length - toNxt < 2 { return Partial, frmNxt, toNxt; }
        Put2(to, toNxt, Lead2(wc), Last(wc));
        toNxt := toNxt + 2;
      } else if wc < 0x1_0000 {
        if to.Length - toNxt < 3 { return Partial, frmNxt, toNxt; }
        Put3(to, toNxt, Lead3(wc), Middle(wc), Last(wc));
        toNxt := toNxt + 3;
      } else {
        if to.Length - toNxt < 4 { return Partial, frmNxt, toNxt; }
        Put4(to, toNxt, Lead4(wc), SecondOf4(wc), Middle(wc), Last(wc));
        toNxt := toNxt + 4;
      }
      frmNxt := frmNxt + 1;
    }
    Turn(whole, UCS4_TO_UTF8, frm, frmNxt, to.Length, to[..toNxt], maxcode);
    r := Ok;
  }

  // The first half of the pair as the encoder masks it out of the code.
  lemma HighFields(c: nat)
    requires c >= 0x1_0000
    ensures var plane := c % 0x20_0000 / 0x1_0000;
      High(c) == (if plane == 0 then 0xFFC0 else 0xD800 + (plane - 1) * 64) + c % 0x1_0000 / 0x400
    ensures High(c) < 0x1_0000 && Low(c) < 0x1_0000
  {
    Arith.Field(c, 32, 0x1_0000);
    Arith.Field(c, 64, 0x400);
  }

  lemma CodeInUtf16be(c: nat)
    ensures EncodeOne(Utf16be, c) == if c < 0x1_0000 then [c / 256, c % 256]
      else [High(c) / 256, High(c) % 256, Low(c) / 256, Low(c) % 256]
  {
  }

  method Ucs4ToUtf16be(frm: seq<Word32>, to: array<Byte>, maxcode: nat, header: bool)
    returns (r: Result, frmNxt: nat, toNxt: nat)
    modifies to
    ensures toNxt <= to.Length
      && Outcome(r, frmNxt, to[..toNxt]) == Call(UCS4_TO_UTF16BE, frm, to.Length, maxcode, header)
    ensures forall k :: toNxt <= k < to.Length ==> to[k] == old(to[k])
  {
    hide Convert, Reached, Call, StepOf, EncodeOne, High;
    frmNxt, toNxt := 0, 0;
    ghost var whole := Call(UCS4_TO_UTF16BE, frm, to.Length, maxcode, header);
    Begin(UCS4_TO_UTF16BE, frm, to.Length, maxcode, header);
    if header {
      if to.Length - toNxt < 2 { return Partial, 0, 0; }
      to[0], to[1] := 0xFE, 0xFF;
      toNxt := 2;
    }
    assert to[..toNxt] == if header then ByteOrderMark(Utf16be) else [];
    while frmNxt < |frm|
      invariant frmNxt <= |frm| && toNxt <= to.Length
      invariant forall k :: toNxt <= k < to.Length ==> to[k] == old(to[k])
      invariant Reached(whole, UCS4_TO_UTF16BE, frm, frmNxt, to.Length, to[..toNxt], maxcode)
    {
      Turn(whole, UCS4_TO_UTF16BE, frm, frmNxt, to.Length, to[..toNxt], maxcode);
      Ucs4Turn(Utf16be, frm[frmNxt..], to.Length - toNxt, maxcode);
      var wc := frm[frmNxt];
      CodeInUtf16be(wc);
      if wc / 0x800 == 0x1B || wc > maxcode { return Error, frmNxt, toNxt; }
      if wc < 0x1_0000 {
        if to.Length - toNxt < 2 { return Partial, frmNxt, toNxt; }
        Put2(to, toNxt, wc / 256, wc % 256);
        toNxt := toNxt + 2;
      } else {
        if to.Length - toNxt < 4 { return Partial, frmNxt, toNxt; }
        HighFields(wc);
        // Without plane bits the subtraction borrows: every bit from the sixth up is set.
        var plane := wc % 0x20_0000 / 0x1_0000;
        var t := (if plane == 0 then 0xFFC0 else 0xD800 + (plane - 1) * 64) + wc % 0x1_0000 / 0x400;
        var u := 0xDC00 + wc % 0x400;
        Put4(to, toNxt, t / 256, t % 256, u / 256, u % 256);
        toNxt := toNxt + 4;
      }
      frmNxt := frmNxt + 1;
    }
    Turn(whole, UCS4_TO_UTF16BE, frm, frmNxt, to.Length, to[..toNxt], maxcode);
    r := Ok;
  }

  // ----- the decoders

  lemma NoRoom(codec: Codec, s: seq<nat>, maxcode: nat)
    requires s != [] && codec.to in {Utf16, Ucs4}
    ensures StepOf(codec, s, 0, maxcode) == Stop(Partial)
  {
  }

  lemma Utf8To16Turn(s: seq<nat>, room: nat, maxcode: nat)
    requires s != [] && room > 0
    ensures StepOf(UTF8_TO_UTF16, s, room, maxcode) ==
      if s[0] > maxcode then Stop(Error)
      else
        match DecodeUtf8(s)
        case Short => Stop(Partial)
        case Bad => Stop(Error)
        case Char(used, c) =>
          if c < 0x1_0000 then if c > maxcode then Stop(Error) else Take(used, [c])
          else if room < 2 then Stop(Partial) else if c > maxcode then Stop(Error) else Take(used, [High(c), Low(c)])
  {
    hide DecodeUtf8;
  }

  lemma Utf8To32Turn(s: seq<nat>, room: nat, maxcode: nat)
    requires s != [] && room > 0
    ensures StepOf(UTF8_TO_UCS4, s, room, maxcode) ==
      match DecodeUtf8(s)
      case Short => Stop(Partial)
      case Bad => Stop(Error)
      case Char(used, c) => if c > maxcode then Stop(Error) else Take(used, [c])
  {
    hide DecodeUtf8;
  }

  lemma Utf16beTurn(s: seq<nat>, room: nat, maxcode: nat)
    requires s != []
    ensures StepOf(UTF16BE_TO_UCS4, s, room, maxcode) ==
      if room == 0 then Stop(Partial)
      else
        match DecodeUtf16be(s)
        case Short => Stop(Partial)
        case Bad => Stop(Error)
        case Char(used, c) => if c > maxcode then Stop(Error) else Take(used, [c])
  {
    hide DecodeUtf16be;
  }

  method Utf8ToUtf16(frm: seq<Byte>, to: array<Word16>, maxcode: nat, header: bool)
    returns (r: Result, frmNxt: nat, toNxt: nat)
    modifies to
    ensures toNxt <= to.Length
      && Outcome(r, frmNxt, to[..toNxt]) == Call(UTF8_TO_UTF16, frm, to.Length, maxcode, header)
    ensures forall k :: toNxt <= k < to.Length ==> to[k] == old(to[k])
  {
    hide Convert, Reached, Call, StepOf, EncodeOne, High, Low, Code2, Code3, Code4, Second3, Second4, Tail,
      HighHalfOf, LowHalfOf;
    frmNxt, toNxt := 0, 0;
    ghost var whole := Call(UTF8_TO_UTF16, frm, to.Length, maxcode, header);
    Begin(UTF8_TO_UTF16, frm, to.Length, maxcode, header);
    if header {
      if |frm| - frmNxt >= 3 && frm[0] == 0xEF && frm[1] == 0xBB && frm[2] == 0xBF { frmNxt := 3; }
    }
    assert ByteOrderMark(Utf8) <= frm <==> |frm| >= 3 && frm[0] == 0xEF && frm[1] == 0xBB && frm[2] == 0xBF;
    assert to[..toNxt] == [];
    while frmNxt < |frm| && toNxt < to.Length
      invariant frmNxt <= |frm| && toNxt <= to.Length
      invariant forall k :: toNxt <= k < to.Length ==> to[k] == old(to[k])
      invariant Reached(whole, UTF8_TO_UTF16, frm, frmNxt, to.Length, to[..toNxt], maxcode)
      decreases |frm| - frmNxt
    {
      Turn(whole, UTF8_TO_UTF16, frm, frmNxt, to.Length, to[..toNxt], maxcode);
      Utf8To16Turn(frm[frmNxt..], to.Length - toNxt, maxcode);
      var c1: nat := frm[frmNxt];
      if c1 > maxcode { return Error, frmNxt, toNxt; }
      if c1 < 0x80 {
        Put1(to, toNxt, c1);
        frmNxt := frmNxt + 1;
      } else if c1 < 0xC2 {
        return Error, frmNxt, toNxt;
      } else if c1 < 0xE0 {
        if |frm| - frmNxt < 2 { return Partial, frmNxt, toNxt; }
        var c2: nat := frm[frmNxt + 1];
        if !Tail(c2) { return Error, frmNxt, toNxt; }
        var t := Code2(c1, c2);
        if t > maxcode { return Error, frmNxt, toNxt; }
        Put1(to, toNxt, t);
        frmNxt := frmNxt + 2;
      } else if c1 < 0xF0 {
        if |frm| - frmNxt < 3 { return Partial, frmNxt, toNxt; }
        var c2: nat, c3: nat := frm[frmNxt + 1], frm[frmNxt + 2];
        if !Second3(c1, c2) || !Tail(c3) { return Error, frmNxt, toNxt; }
        var t := Code3(c1, c2, c3);
        if t > maxcode { return Error, frmNxt, toNxt; }
        Put1(to, toNxt, t);
        frmNxt := frmNxt + 3;
      } else if c1 < 0xF5 {
        if |frm| - frmNxt < 4 { return Partial, frmNxt, toNxt; }
        var c2: nat, c3: nat, c4: nat := frm[frmNxt + 1], frm[frmNxt + 2], frm[frmNxt + 3];
        if !Second4(c1, c2) || !Tail(c3) || !Tail(c4) { return Error, frmNxt, toNxt; }
        Utf8InPair(c1, c2, c3, c4);
        if to.Length - toNxt < 2 { return Partial, frmNxt, toNxt; }
        if Code4(c1, c2, c3, c4) > maxcode { return Error, frmNxt, toNxt; }
        Put2(to, toNxt, HighHalfOf(c1, c2, c3), LowHalfOf(c3, c4));
        toNxt := toNxt + 1;
        frmNxt := frmNxt + 4;
      } else {
        return Error, frmNxt, toNxt;
      }
      toNxt := toNxt + 1;
    }
    Turn(whole, UTF8_TO_UTF16, frm, frmNxt, to.Length, to[..toNxt], maxcode);
    if frmNxt < |frm| { NoRoom(UTF8_TO_UTF16, frm[frmNxt..], maxcode); }
    r := if frmNxt < |frm| then Partial else Ok;
  }

  method Utf8ToUcs4(frm: seq<Byte>, to: array<Word32>, maxcode: nat, header: bool)
    returns (r: Result, frmNxt: nat, toNxt: nat)
    modifies to
    ensures toNxt <= to.Length && Outcome(r, frmNxt, to[..toNxt]) == Call(UTF8_TO_UCS4, frm, to.Length, maxcode, header)
    ensures forall k :: toNxt <= k < to.Length ==> to[k] == old(to[k])
  {
    hide Convert, Reached, Call, StepOf, Code2, Code3, Code4, Second3, Second4, Tail;
    frmNxt, toNxt := 0, 0;
    ghost var whole := Call(UTF8_TO_UCS4, frm, to.Length, maxcode, header);
    Begin(UTF8_TO_UCS4, frm, to.Length, maxcode, header);
    if header {
      if |frm| - frmNxt >= 3 && frm[0] == 0xEF && frm[1] == 0xBB && frm[2] == 0xBF { frmNxt := 3; }
    }
    assert ByteOrderMark(Utf8) <= frm <==> |frm| >= 3 && frm[0] == 0xEF && frm[1] == 0xBB && frm[2] == 0xBF;
    assert to[..toNxt] == [];
    while frmNxt < |frm| && toNxt < to.Length
      invariant frmNxt <= |frm| && toNxt <= to.Length
      invariant forall k :: toNxt <= k < to.Length ==> to[k] == old(to[k])
      invariant Reached(whole, UTF8_TO_UCS4, frm, frmNxt, to.Length, to[..toNxt], maxcode)
    {
      Turn(whole, UTF8_TO_UCS4, frm, frmNxt, to.Length, to[..toNxt], maxcode);
      ghost var s := frm[frmNxt..];
      Utf8To32Turn(s, to.Length - toNxt, maxcode);
      var c1: nat := frm[frmNxt];
      assert s[0] == c1;
      if c1 < 0x80 {
        if c1 > maxcode { return Error, frmNxt, toNxt; }
        Put1(to, toNxt, c1);
        frmNxt := frmNxt + 1;
      } else if c1 < 0xC2 {
        return Error, frmNxt, toNxt;
      } else if c1 < 0xE0 {
        if |frm| - frmNxt < 2 { return Partial, frmNxt, toNxt; }
        var c2: nat := frm[frmNxt + 1];
        assert s[1] == c2;
        if !Tail(c2) { return Error, frmNxt, toNxt; }
        var t := Code2(c1, c2);
        if t > maxcode { return Error, frmNxt, toNxt; }
        Put1(to, toNxt, t);
        frmNxt := frmNxt + 2;
      } else if c1 < 0xF0 {
        if |frm| - frmNxt < 3 { return Partial, frmNxt, toNxt; }
        var c2: nat, c3: nat := frm[frmNxt + 1], frm[frmNxt + 2];
        assert s[1] == c2 && s[2] == c3;
        if !Second3(c1, c2) || !Tail(c3) { return Error, frmNxt, toNxt; }
        var t := Code3(c1, c2, c3);
        if t > maxcode { return Error, frmNxt, toNxt; }
        Put1(to, toNxt, t);
        frmNxt := frmNxt + 3;
      } else if c1 < 0xF5 {
        if |frm| - frmNxt < 4 { return Partial, frmNxt, toNxt; }
        var c2: nat, c3: nat, c4: nat := frm[frmNxt + 1], frm[frmNxt + 2], frm[frmNxt + 3];
        assert s[1] == c2 && s[2] == c3 && s[3] == c4;
        if !Second4(c1, c2) || !Tail(c3) || !Tail(c4) { return Error, frmNxt, toNxt; }
        var t := Code4(c1, c2, c3, c4);
        if t > maxcode { return Error, frmNxt, toNxt; }
        Put1(to, toNxt, t);
        frmNxt := frmNxt + 4;
      } else {
        return Error, frmNxt, toNxt;
      }
      toNxt := toNxt + 1;
    }
    Turn(whole, UTF8_TO_UCS4, frm, frmNxt, to.Length, to[..toNxt], maxcode);
    if frmNxt < |frm| { NoRoom(UTF8_TO_UCS4, frm[frmNxt..], maxcode); }
    r := if frmNxt < |frm| then Partial else Ok;
  }

  method Utf16beToUcs4(frm: seq<Byte>, to: array<Word32>, maxcode: nat, header: bool)
    returns (r: Result, frmNxt: nat, toNxt: nat)
    modifies to
    ensures toNxt <= to.Length
      && Outcome(r, frmNxt, to[..toNxt]) == Call(UTF16BE_TO_UCS4, frm, to.Length, maxcode, header)
    ensures forall k :: toNxt <= k < to.Length ==> to[k] == old(to[k])
  {
    hide Convert, Reached, Call, StepOf, Paired, PairCode;
    frmNxt, toNxt := 0, 0;
    ghost var whole := Call(UTF16BE_TO_UCS4, frm, to.Length, maxcode, header);
    Begin(UTF16BE_TO_UCS4, frm, to.Length, maxcode, header);
    if header {
      if |frm| - frmNxt >= 2 && frm[0] == 0xFE && frm[1] == 0xFF { frmNxt := 2; }
    }
    assert ByteOrderMark(Utf16be) <= frm <==> |frm| >= 2 && frm[0] == 0xFE && frm[1] == 0xFF;
    assert to[..toNxt] == [];
    while frmNxt < |frm| - 1 && toNxt < to.Length
      invariant frmNxt <= |frm| && toNxt <= to.Length
      invariant forall k :: toNxt <= k < to.Length ==> to[k] == old(to[k])
      invariant Reached(whole, UTF16BE_TO_UCS4, frm, frmNxt, to.Length, to[..toNxt], maxcode)
    {
      Turn(whole, UTF16BE_TO_UCS4, frm, frmNxt, to.Length, to[..toNxt], maxcode);
      Utf16beTurn(frm[frmNxt..], to.Length - toNxt, maxcode);
      var c1 := frm[frmNxt] as nat * 256 + frm[frmNxt + 1];
      if c1 / 0x400 == 0x37 { return Error, frmNxt, toNxt; }
      if c1 / 0x400 != 0x36 {
        if c1 > maxcode { return Error, frmNxt, toNxt; }
        Put1(to, toNxt, c1);
        frmNxt := frmNxt + 2;
      } else {
        if |frm| - frmNxt < 4 { return Partial, frmNxt, toNxt; }
        var c2 := frm[frmNxt + 2] as nat * 256 + frm[frmNxt + 3];
        if c2 / 0x400 != 0x37 { return Error, frmNxt, toNxt; }
        PairFields(c1, c2);
        var t := PairCode(c1, c2);
        if t > maxcode { return Error, frmNxt, toNxt; }
        Put1(to, toNxt, t);
        frmNxt := frmNxt + 4;
      }
      toNxt := toNxt + 1;
    }
    Turn(whole, UTF16BE_TO_UCS4, frm, frmNxt, to.Length, to[..toNxt], maxcode);
    if frmNxt < |frm| { Utf16beTurn(frm[frmNxt..], to.Length - toNxt, maxcode); }
    r := if frmNxt < |frm| then Partial else Ok;
  }

  // ----- the length functions

  // static_cast<int> of a pointer difference.
  function CastToInt(n: nat): (r: int)
    ensures n < 0x8000_0000 ==> r == n
  {
    (n + 0x8000_0000) % 0x1_0000_0000 - 0x8000_0000
  }

  /** How much of frm the converter consumes when it is given room for mx units. */
  method Utf8ToUtf16Length(frm: seq<Byte>, mx: nat, maxcode: nat, header: bool) returns (n: int)
    ensures n == CastToInt(Call(UTF8_TO_UTF16, frm, mx, maxcode, header).used)
  {
    hide Convert, Reached, Call, StepOf, High, Low, Code2, Code3, Code4, Second3, Second4, Tail;
    var frmNxt := 0;
    ghost var whole := Call(UTF8_TO_UTF16, frm, mx, maxcode, header);
    Begin(UTF8_TO_UTF16, frm, mx, maxcode, header);
    if header {
      if |frm| - frmNxt >= 3 && frm[0] == 0xEF && frm[1] == 0xBB && frm[2] == 0xBF { frmNxt := 3; }
    }
    assert ByteOrderMark(Utf8) <= frm <==> |frm| >= 3 && frm[0] == 0xEF && frm[1] == 0xBB && frm[2] == 0xBF;
    var nchar16 := 0;
    ghost var out: seq<nat> := [];
    while frmNxt < |frm| && nchar16 < mx
      invariant frmNxt <= |frm| && nchar16 == |out| <= mx
      invariant Reached(whole, UTF8_TO_UTF16, frm, frmNxt, mx, out, maxcode)
      decreases |frm| - frmNxt
    {
      Turn(whole, UTF8_TO_UTF16, frm, frmNxt, mx, out, maxcode);
      Utf8To16Turn(frm[frmNxt..], mx - nchar16, maxcode);
      var c1: nat := frm[frmNxt];
      if c1 > maxcode { break; }
      if c1 < 0x80 {
        frmNxt := frmNxt + 1;
        out := out + [c1];
      } else if c1 < 0xC2 {
        break;
      } else if c1 < 0xE0 {
        if |frm| - frmNxt < 2 || !Tail(frm[frmNxt + 1]) { break; }
        var t := Code2(c1, frm[frmNxt + 1]);
        if t > maxcode { break; }
        frmNxt := frmNxt + 2;
        out := out + [t];
      } else if c1 < 0xF0 {
        if |frm| - frmNxt < 3 { break; }
        var c2: nat, c3: nat := frm[frmNxt + 1], frm[frmNxt + 2];
        if !Second3(c1, c2) { return CastToInt(frmNxt); }
        if !Tail(c3) { break; }
        if Code3(c1, c2, c3) > maxcode { break; }
        frmNxt := frmNxt + 3;
        out := out + [Code3(c1, c2, c3)];
      } else if c1 < 0xF5 {
        if |frm| - frmNxt >= 4 && Second4(c1, frm[frmNxt + 1]) {
          Range4(c1, frm[frmNxt + 1], frm[frmNxt + 2], frm[frmNxt + 3]);
        }
        if |frm| - frmNxt < 4 || mx - nchar16 < 2 { break; }
        var c2: nat, c3: nat, c4: nat := frm[frmNxt + 1], frm[frmNxt + 2], frm[frmNxt + 3];
        if !Second4(c1, c2) { return CastToInt(frmNxt); }
        if !Tail(c3) || !Tail(c4) { break; }
        if Code4(c1, c2, c3, c4) > maxcode { break; }
        nchar16 := nchar16 + 1;
        frmNxt := frmNxt + 4;
        out := out + [High(Code4(c1, c2, c3, c4)), Low(Code4(c1, c2, c3, c4))];
      } else {
        break;
      }
      nchar16 := nchar16 + 1;
    }
    Turn(whole, UTF8_TO_UTF16, frm, frmNxt, mx, out, maxcode);
    if frmNxt < |frm| && nchar16 == mx { NoRoom(UTF8_TO_UTF16, frm[frmNxt..], maxcode); }
    return CastToInt(frmNxt);
  }

  method Utf8ToUcs4Length(frm: seq<Byte>, mx: nat, maxcode: nat, header: bool) returns (n: int)
    ensures n == CastToInt(Call(UTF8_TO_UCS4, frm, mx, maxcode, header).used)
  {
    hide Convert, Reached, Call, StepOf, Code2, Code3, Code4, Second3, Second4, Tail;
    var frmNxt := 0;
    ghost var whole := Call(UTF8_TO_UCS4, frm, mx, maxcode, header);
    Begin(UTF8_TO_UCS4, frm, mx, maxcode, header);
    if header {
      if |frm| - frmNxt >= 3 && frm[0] == 0xEF && frm[1] == 0xBB && frm[2] == 0xBF { frmNxt := 3; }
    }
    assert ByteOrderMark(Utf8) <= frm <==> |frm| >= 3 && frm[0] == 0xEF && frm[1] == 0xBB && frm[2] == 0xBF;
    var nchar32 := 0;
    ghost var out: seq<nat> := [];
    while frmNxt < |frm| && nchar32 < mx
      invariant frmNxt <= |frm| && nchar32 == |out| <= mx
      invariant Reached(whole, UTF8_TO_UCS4, frm, frmNxt, mx, out, maxcode)
    {
      Turn(whole, UTF8_TO_UCS4, frm, frmNxt, mx, out, maxcode);
      Utf8To32Turn(frm[frmNxt..], mx - nchar32, maxcode);
      var c1: nat := frm[frmNxt];
      if c1 < 0x80 {
        if c1 > maxcode { break; }
        frmNxt := frmNxt + 1;
        out := out + [c1];
      } else if c1 < 0xC2 {
        break;
      } else if c1 < 0xE0 {
        if |frm| - frmNxt < 2 || !Tail(frm[frmNxt + 1]) { break; }
        if Code2(c1, frm[frmNxt + 1]) > maxcode { break; }
        out := out + [Code2(c1, frm[frmNxt + 1])];
        frmNxt := frmNxt + 2;
      } else if c1 < 0xF0 {
        if |frm| - frmNxt < 3 { break; }
        var c2: nat, c3: nat := frm[frmNxt + 1], frm[frmNxt + 2];
        if !Second3(c1, c2) { return CastToInt(frmNxt); }
        if !Tail(c3) { break; }
        if Code3(c1, c2, c3) > maxcode { break; }
        frmNxt := frmNxt + 3;
        out := out + [Code3(c1, c2, c3)];
      } else if c1 < 0xF5 {
        if |frm| - frmNxt < 4 { break; }
        var c2: nat, c3: nat, c4: nat := frm[frmNxt + 1], frm[frmNxt + 2], frm[frmNxt + 3];
        if !Second4(c1, c2) { return CastToInt(frmNxt); }
        if !Tail(c3) || !Tail(c4) { break; }
        if Code4(c1, c2, c3, c4) > maxcode { break; }
        frmNxt := frmNxt + 4;
        out := out + [Code4(c1, c2, c3, c4)];
      } else {
        break;
      }
      nchar32 := nchar32 + 1;
    }
    Turn(whole, UTF8_TO_UCS4, frm, frmNxt, mx, out, maxcode);
    if frmNxt < |frm| && nchar32 == mx { NoRoom(UTF8_TO_UCS4, frm[frmNxt..], maxcode); }
    return CastToInt(frmNxt);
  }

  method Utf16beToUcs4Length(frm: seq<Byte>, mx: nat, maxcode: nat, header: bool) returns (n: int)
    ensures n == CastToInt(Call(UTF16BE_TO_UCS4, frm, mx, maxcode, header).used)
  {
    hide Convert, Reached, Call, StepOf, Paired, PairCode;
    var frmNxt := 0;
    ghost var whole := Call(UTF16BE_TO_UCS4, frm, mx, maxcode, header);
    Begin(UTF16BE_TO_UCS4, frm, mx, maxcode, header);
    if header {
      if |frm| - frmNxt >= 2 && frm[0] == 0xFE && frm[1] == 0xFF { frmNxt := 2; }
    }
    assert ByteOrderMark(Utf16be) <= frm <==> |frm| >= 2 && frm[0] == 0xFE && frm[1] == 0xFF;
    var nchar32 := 0;
    ghost var out: seq<nat> := [];
    while frmNxt < |frm| - 1 && nchar32 < mx
      invariant frmNxt <= |frm| && nchar32 == |out| <= mx
      invariant Reached(whole, UTF16BE_TO_UCS4, frm, frmNxt, mx, out, maxcode)
    {
      Turn(whole, UTF16BE_TO_UCS4, frm, frmNxt, mx, out, maxcode);
      Utf16beTurn(frm[frmNxt..], mx - nchar32, maxcode);
      var c1 := frm[frmNxt] as nat * 256 + frm[frmNxt + 1];
      if c1 / 0x400 == 0x37 { break; }
      if c1 / 0x400 != 0x36 {
        if c1 > maxcode { break; }
        frmNxt := frmNxt + 2;
        out := out + [c1];
      } else {
        if |frm| - frmNxt < 4 { break; }
        var c2 := frm[frmNxt + 2] as nat * 256 + frm[frmNxt + 3];
        if c2 / 0x400 != 0x37 { break; }
        PairFields(c1, c2);
        var t := PairCode(c1, c2);
        if t > maxcode { break; }
        frmNxt := frmNxt + 4;
        out := out + [t];
      }
      nchar32 := nchar32 + 1;
    }
    Turn(whole, UTF16BE_TO_UCS4, frm, frmNxt, mx, out, maxcode);
    if frmNxt < |frm| { Utf16beTurn(frm[frmNxt..], mx - nchar32, maxcode); }
    return CastToInt(frmNxt);
  }
}
