/** What the converters guarantee over whole texts and over sequences of calls. */
module UnicodeLaws {
  import Arith
  import opened Unicode

  // The codecs that convert from one encoding to another.
  predicate Proper(codec: Codec) {
    codec in {UTF16_TO_UTF8, UTF8_TO_UTF16, UCS4_TO_UTF8, UTF8_TO_UCS4, UCS4_TO_UTF16BE, UTF16BE_TO_UCS4}
  }

  function Inverse(codec: Codec): Codec { Codec(codec.to, codec.from) }

  // ----- one character there and back

  lemma Digits3(c: nat)
    ensures c == c / 0x1000 * 0x1000 + c / 64 % 64 * 64 + c % 64
  {
    assert c / 0x1000 == c / 64 / 64;
  }

  lemma Digits4(c: nat)
    ensures c == c / 0x4_0000 * 0x4_0000 + c / 0x1000 % 64 * 0x1000 + c / 64 % 64 * 64 + c % 64
  {
    Digits3(c);
    assert c / 0x4_0000 == c / 0x1000 / 64;
  }

  lemma Join3(a: nat, b: nat, d: nat)
    requires b < 64 && d < 64
    ensures var c := a * 0x1000 + b * 64 + d; c / 0x1000 == a && c / 64 % 64 == b && c % 64 == d
  {
    assert (a * 0x1000 + b * 64 + d) / 64 == a * 64 + b;
  }

  lemma Join4(a: nat, b: nat, d: nat, e: nat)
    requires b < 64 && d < 64 && e < 64
    ensures var c := a * 0x4_0000 + b * 0x1000 + d * 64 + e;
      && c / 0x4_0000 == a && c / 0x1000 % 64 == b
      && c / 64 % 64 == d && c % 64 == e
  {
    var c := a * 0x4_0000 + b * 0x1000 + d * 64 + e;
    Join3(a * 64 + b, d, e);
    assert c == (a * 64 + b) * 0x1000 + d * 64 + e;
    assert c / 0x4_0000 == c / 0x1000 / 64;
  }

  lemma PairDigits(c: nat)
    requires 0x1_0000 <= c <= MAX_CODE
    ensures 0xD800 <= High(c) < 0xDC00 && Low(c) / 0x400 == 0x37 && Paired(High(c), Low(c)) == c
  {
    var plane, x := c / 0x1_0000, c / 0x400 % 64;
    assert 1 <= plane <= 16 && plane % 32 == plane;
    assert High(c) == 0xD800 + (plane - 1) * 64 + x;
    assert High(c) % 64 == x && High(c) / 64 == 0xD800 / 64 + (plane - 1);
    assert c == plane * 0x1_0000 + x * 0x400 + c % 0x400;
  }

  lemma PairJoin(high: nat, low: nat)
    requires 0xD800 <= high < 0xDC00 && low / 0x400 == 0x37
    ensures var c := Paired(high, low); 0x1_0000 <= c <= MAX_CODE && High(c) == high && Low(c) == low
  {
    var c, p, x, y := Paired(high, low), high / 64 % 16, high % 64, low % 0x400;
    assert high == 0xD800 + p * 64 + x;
    assert c == (p + 1) * 0x1_0000 + x * 0x400 + y;
    assert c / 0x400 == (p + 1) * 64 + x;
    assert c / 0x1_0000 == p + 1;
  }

  // The bytes of a three-byte character, as the decoder tests and joins them.
  lemma Bytes3(c: nat)
    requires 0x800 <= c < 0x1_0000 && !Surrogate(c)
    ensures var b1, b2, b3 := 0xE0 + c / 0x1000, 0x80 + c / 64 % 64, 0x80 + c % 64;
      0xE0 <= b1 < 0xF0 && Second3(b1, b2) && Tail(b3) && Code3(b1, b2, b3) == c
  {
    Digits3(c);
    assert c / 64 == c / 0x1000 * 64 + c / 64 % 64;
  }

  lemma Bytes4(c: nat)
    requires 0x1_0000 <= c <= MAX_CODE
    ensures var b1, b2, b3, b4 := 0xF0 + c / 0x4_0000 % 16, 0x80 + c / 0x1000 % 64, 0x80 + c / 64 % 64, 0x80 + c % 64;
      0xF0 <= b1 < 0xF5 && Second4(b1, b2) && Tail(b3) && Tail(b4) && Code4(b1, b2, b3, b4) == c
  {
    Digits4(c);
    assert c / 0x4_0000 <= 4 && c / 0x4_0000 % 16 == c / 0x4_0000;
    hide Tail, Code4, Second4;
    BytesOfDigits4(c / 0x4_0000, c / 0x1000 % 64, c / 64 % 64, c % 64);
  }

  lemma BytesOfDigits4(a: nat, b: nat, d: nat, e: nat)
    requires b < 64 && d < 64 && e < 64 && 0x1_0000 <= a * 0x4_0000 + b * 0x1000 + d * 64 + e <= MAX_CODE
    ensures a <= 4 && Second4(0xF0 + a, 0x80 + b) && Tail(0x80 + d) && Tail(0x80 + e)
    ensures Code4(0xF0 + a, 0x80 + b, 0x80 + d, 0x80 + e) == a * 0x4_0000 + b * 0x1000 + d * 64 + e
  {
  }

  lemma DecodeEncodeUtf8(c: nat, t: seq<nat>)
    requires Scalar(c)
    ensures DecodeUtf8(EncodeOne(Utf8, c) + t) == Char(|EncodeOne(Utf8, c)|, c)
  {
    hide Second3, Second4, Code3, Code4;
    if c >= 0x1_0000 {
      Bytes4(c);
    } else if c >= 0x800 {
      Bytes3(c);
    }
  }

  lemma Characters1(b: nat)
    requires b < 0x80
    ensures EncodeOne(Utf8, b) == [b]
  {
  }

  // What the tests of the decoder admit is a two-, three- or four-byte character.
  lemma Characters2(b1: nat, b2: nat)
    requires 0xC2 <= b1 < 0xE0 && Tail(b2)
    ensures var c := Code2(b1, b2); 0x80 <= c < 0x800 && EncodeOne(Utf8, c) == [b1, b2]
  {
    var a, b := b1 % 32, b2 % 64;
    assert b1 == 0xC0 + a && b2 == 0x80 + b;
    Join2(a, b);
  }

  lemma Join2(a: nat, b: nat)
    requires b < 64
    ensures (a * 64 + b) / 64 == a && (a * 64 + b) % 64 == b
  {
  }

  lemma Characters3(b1: nat, b2: nat, b3: nat)
    requires 0xE0 <= b1 < 0xF0 && Second3(b1, b2) && Tail(b3)
    ensures var c := Code3(b1, b2, b3); 0x800 <= c < 0x1_0000 && !Surrogate(c) && EncodeOne(Utf8, c) == [b1, b2, b3]
  {
    assert Tail(b2);
    Join3(b1 % 16, b2 % 64, b3 % 64);
  }

  lemma Range4(b1: nat, b2: nat, b3: nat, b4: nat)
    requires 0xF0 <= b1 < 0xF5 && Second4(b1, b2)
    ensures Tail(b2) && 0x1_0000 <= Code4(b1, b2, b3, b4) <= MAX_CODE
  {
  }

  lemma TailByte(b: nat)
    requires Tail(b)
    ensures b == 0x80 + b % 64
  {
  }

  lemma LeadByte(b: nat)
    requires 0xF0 <= b < 0xF8
    ensures b == 0xF0 + b % 8
  {
  }

  lemma Encoded4(a: nat, b: nat, d: nat, e: nat)
    requires a < 8 && b < 64 && d < 64 && e < 64
    ensures var c := a * 0x4_0000 + b * 0x1000 + d * 64 + e;
      c >= 0x1_0000 ==> EncodeOne(Utf8, c) == [0xF0 + a, 0x80 + b, 0x80 + d, 0x80 + e]
  {
    Join4(a, b, d, e);
  }

  lemma Characters4(b1: nat, b2: nat, b3: nat, b4: nat)
    requires 0xF0 <= b1 < 0xF5 && Second4(b1, b2) && Tail(b3) && Tail(b4)
    ensures var c := Code4(b1, b2, b3, b4); 0x1_0000 <= c <= MAX_CODE && EncodeOne(Utf8, c) == [b1, b2, b3, b4]
  {
    hide Second4, Tail, EncodeOne;
    Range4(b1, b2, b3, b4);
    LeadByte(b1);
    TailByte(b2);
    TailByte(b3);
    TailByte(b4);
    Encoded4(b1 % 8, b2 % 64, b3 % 64, b4 % 64);
  }

  lemma EncodeDecodeUtf8(s: seq<nat>)
    requires s != [] && DecodeUtf8(s).Char?
    ensures var d := DecodeUtf8(s); Scalar(d.code) && EncodeOne(Utf8, d.code) == s[..d.used]
  {
    hide Second3, Second4, Code2, Code3, Code4, Tail, EncodeOne;
    var used := DecodeUtf8(s).used;
    if used == 1 {
      Characters1(s[0]);
    } else if used == 2 {
      Characters2(s[0], s[1]);
    } else if used == 3 {
      Characters3(s[0], s[1], s[2]);
    } else {
      Characters4(s[0], s[1], s[2], s[3]);
    }
  }

  lemma DecodeEncode(f: Format, c: nat, t: seq<nat>)
    requires Scalar(c)
    ensures DecodeOne(f, EncodeOne(f, c) + t) == Char(|EncodeOne(f, c)|, c)
  {
    match f
    case Utf8 => DecodeEncodeUtf8(c, t);
    case Utf16 => if c >= 0x1_0000 { PairDigits(c); }
    case Utf16be => if c >= 0x1_0000 { PairDigits(c); }
    case Ucs4 =>
  }

  lemma EncodeDecodeUtf16be(s: seq<nat>)
    requires Units(Utf16be, s) && DecodeUtf16be(s).Char?
    ensures var d := DecodeUtf16be(s); Scalar(d.code) && EncodeOne(Utf16be, d.code) == s[..d.used]
  {
    hide Paired, High, Low;
    var c1 := s[0] * 256 + s[1];
    assert c1 / 256 == s[0] && c1 % 256 == s[1];
    if DecodeUtf16be(s).used == 4 {
      var c2 := s[2] * 256 + s[3];
      PairJoin(c1, c2);
      assert c2 / 256 == s[2] && c2 % 256 == s[3];
      assert s[..4] == [s[0], s[1], s[2], s[3]];
    } else {
      assert s[..2] == [s[0], s[1]];
    }
  }

  lemma EncodeDecode(f: Format, s: seq<nat>)
    requires s != [] && Units(f, s) && DecodeOne(f, s).Char? && (f == Ucs4 ==> s[0] <= MAX_CODE)
    ensures var d := DecodeOne(f, s); Scalar(d.code) && EncodeOne(f, d.code) == s[..d.used]
  {
    hide DecodeUtf8, DecodeUtf16be;
    match f
    case Utf8 => EncodeDecodeUtf8(s);
    case Utf16 => if DecodeOne(f, s).used == 2 { PairJoin(s[0], s[1]); }
    case Utf16be => EncodeDecodeUtf16be(s);
    case Ucs4 =>
  }

  // ----- converting in pieces

  // A call without header modes and with all the room it can use.
  function Whole(codec: Codec, s: seq<nat>, maxcode: nat): Outcome {
    Convert(codec, s, 4 * |s|, maxcode)
  }

  lemma StepWithRoom(codec: Codec, s: seq<nat>, room: nat, maxcode: nat)
    requires s != [] && room >= 4 * |s|
    ensures StepOf(codec, s, room, maxcode) == StepOf(codec, s, 4 * |s|, maxcode)
  {
    hide DecodeOne, EncodeOne;
  }

  lemma {:induction false} RoomIrrelevant(codec: Codec, s: seq<nat>, room: nat, maxcode: nat)
    requires room >= 4 * |s|
    ensures Convert(codec, s, room, maxcode) == Whole(codec, s, maxcode)
    decreases |s|
  {
    hide StepOf;
    if s == [] {
    } else {
      StepWithRoom(codec, s, room, maxcode);
      var step := StepOf(codec, s, room, maxcode);
      if step.Take? {
        RoomIrrelevant(codec, s[step.used..], room - |step.out|, maxcode);
        RoomIrrelevant(codec, s[step.used..], 4 * |s| - |step.out|, maxcode);
      }
    }
  }

  lemma DecodeStable(f: Format, s: seq<nat>, t: seq<nat>)
    requires s != [] && !DecodeOne(f, s).Short?
    ensures DecodeOne(f, s + t) == DecodeOne(f, s)
  {
    hide Second3, Second4, Code2, Code3, Code4, Tail, Paired;
  }

  // A step that is not held up does the same when more input follows and there is no lack of room.
  lemma StepStable(codec: Codec, s: seq<nat>, t: seq<nat>, room: nat, maxcode: nat)
    requires s != [] && StepOf(codec, s, room, maxcode) != Stop(Partial)
    ensures StepOf(codec, s + t, 4 * |s + t|, maxcode) == StepOf(codec, s, room, maxcode)
  {
    hide DecodeOne, EncodeOne;
    if DecodeOne(codec.from, s) != Short { DecodeStable(codec.from, s, t); }
  }

  lemma ConvertTake(codec: Codec, s: seq<nat>, room: nat, maxcode: nat)
    requires s != [] && StepOf(codec, s, room, maxcode).Take?
    ensures var step := StepOf(codec, s, room, maxcode);
      var rest := Convert(codec, s[step.used..], room - |step.out|, maxcode);
      Convert(codec, s, room, maxcode) == After(step.used, step.out, rest)
  {
  }

  // A call's outcome completed by one more call on what it did not read; an error stands.
  function Resumed(codec: Codec, s: seq<nat>, a: Outcome, maxcode: nat): Outcome
    requires a.used <= |s|
  {
    if a.result == Error then a else After(a.used, a.out, Whole(codec, s[a.used..], maxcode))
  }

  lemma ResumedAfter(codec: Codec, s: seq<nat>, n: nat, out: seq<nat>, a: Outcome, maxcode: nat)
    requires n + a.used <= |s|
    ensures Resumed(codec, s, After(n, out, a), maxcode) == After(n, out, Resumed(codec, s[n..], a, maxcode))
  {
    hide Whole;
    assert s[n + a.used..] == s[n..][a.used..];
    var end := Whole(codec, s[n + a.used..], maxcode).out;
    assert out + (a.out + end) == out + a.out + end;
  }

  /**
    * A call that saw only the front of the input, with any room, either failed where one call on everything fails, or
    * can be resumed where it stopped.
    */
  lemma {:induction false} Resume(codec: Codec, s: seq<nat>, t: seq<nat>, room: nat, maxcode: nat)
    ensures Whole(codec, s + t, maxcode) == Resumed(codec, s + t, Convert(codec, s, room, maxcode), maxcode)
    decreases |s|, 1
  {
    hide StepOf;
    if s == [] || StepOf(codec, s, room, maxcode) == Stop(Partial) {
      assert (s + t)[0..] == s + t;
      assert [] + Whole(codec, s + t, maxcode).out == Whole(codec, s + t, maxcode).out;
    } else {
      StepStable(codec, s, t, room, maxcode);
      if StepOf(codec, s, room, maxcode).Take? { ResumeStep(codec, s, t, room, maxcode); }
    }
  }

  lemma {:induction false} ResumeStep(codec: Codec, s: seq<nat>, t: seq<nat>, room: nat, maxcode: nat)
    requires s != [] && StepOf(codec, s, room, maxcode).Take?
    requires StepOf(codec, s + t, 4 * |s + t|, maxcode) == StepOf(codec, s, room, maxcode)
    ensures Whole(codec, s + t, maxcode) == Resumed(codec, s + t, Convert(codec, s, room, maxcode), maxcode)
    decreases |s|, 0
  {
    hide StepOf, After, Convert, Resumed;
    var step := StepOf(codec, s, room, maxcode);
    var rest := s[step.used..];
    assert (s + t)[step.used..] == rest + t;
    RoomIrrelevant(codec, rest + t, 4 * |s + t| - |step.out|, maxcode);
    ConvertTake(codec, s, room, maxcode);
    ConvertTake(codec, s + t, 4 * |s + t|, maxcode);
    Resume(codec, rest, t, room - |step.out|, maxcode);
    ResumedAfter(codec, s + t, step.used, step.out, Convert(codec, rest, room - |step.out|, maxcode), maxcode);
  }

  // How much of the input has arrived before a call, counted from where the last call stopped, and the room it gets.
  datatype Piece = Piece(arrived: nat, room: nat)

  // Calls for the given pieces, each resuming where the one before stopped, and a last call on what is left.
  function InPieces(codec: Codec, s: seq<nat>, pieces: seq<Piece>, maxcode: nat): Outcome
    decreases |pieces|
  {
    if pieces == [] then Whole(codec, s, maxcode)
    else
      var n := if pieces[0].arrived < |s| then pieces[0].arrived else |s|;
      var a := Convert(codec, s[..n], pieces[0].room, maxcode);
      if a.result == Error then a else After(a.used, a.out, InPieces(codec, s[a.used..], pieces[1..], maxcode))
  }

  /** However the input is split and the room is limited, the pieces give what one call gives. */
  lemma {:induction false} PiecesAgree(codec: Codec, s: seq<nat>, pieces: seq<Piece>, maxcode: nat)
    ensures InPieces(codec, s, pieces, maxcode) == Whole(codec, s, maxcode)
    decreases |pieces|
  {
    hide Convert;
    if pieces == [] {
    } else {
      var n := if pieces[0].arrived < |s| then pieces[0].arrived else |s|;
      assert s[..n] + s[n..] == s;
      Resume(codec, s[..n], s[n..], pieces[0].room, maxcode);
      var a := Convert(codec, s[..n], pieces[0].room, maxcode);
      if a.result != Error { PiecesAgree(codec, s[a.used..], pieces[1..], maxcode); }
    }
  }

  // ----- texts

  // The encoding of a text.
  function Text(f: Format, codes: seq<nat>): seq<nat> {
    if codes == [] then [] else EncodeOne(f, codes[0]) + Text(f, codes[1..])
  }

  ghost predicate Scalars(codes: seq<nat>) {
    forall i :: 0 <= i < |codes| ==> Scalar(codes[i])
  }

  // A unit sequence that encodes some text.
  ghost predicate WellFormed(f: Format, s: seq<nat>) {
    exists codes :: Scalars(codes) && Text(f, codes) == s
  }

  // Scalar values up to a largest one.
  ghost predicate ScalarsUpTo(codes: seq<nat>, m: nat) {
    forall i :: 0 <= i < |codes| ==> Scalar(codes[i]) && codes[i] <= m
  }

  ghost predicate WellFormedUpTo(f: Format, s: seq<nat>, m: nat) {
    exists codes :: ScalarsUpTo(codes, m) && Text(f, codes) == s
  }

  // The largest codes that a converter treats as such. The decoder from UTF-8 to UTF-16 compares the first byte of a
  // character with the largest code, which makes no difference for these only.
  predicate Honoured(codec: Codec, m: nat) {
    m <= MAX_CODE && (codec == UTF8_TO_UTF16 ==> m < 0x80 || m >= 0xC3)
  }

  lemma StepOfText(codec: Codec, c: nat, t: seq<nat>, room: nat, m: nat)
    requires Proper(codec) && Honoured(codec, m) && Scalar(c) && c <= m && room >= 4
    ensures StepOf(codec, EncodeOne(codec.from, c) + t, room, m) ==
      Take(|EncodeOne(codec.from, c)|, EncodeOne(codec.to, c))
  {
    DecodeEncode(codec.from, c, t);
    FirstUnitSmall(codec, c, t, m);
    hide DecodeOne, EncodeOne;
  }

  lemma FirstUnitSmall(codec: Codec, c: nat, t: seq<nat>, m: nat)
    requires Proper(codec) && Honoured(codec, m) && Scalar(c) && c <= m
    ensures codec in {UTF16_TO_UTF8, UTF8_TO_UTF16} ==> (EncodeOne(codec.from, c) + t)[0] <= m
  {
    if codec.from == Utf16 && c >= 0x1_0000 { PairDigits(c); }
  }

  /** A converter turns the encoding of any text up to its largest code into the other encoding of the same text. */
  lemma {:induction false} Transcodes(codec: Codec, codes: seq<nat>, m: nat := MAX_CODE)
    requires Proper(codec) && Honoured(codec, m) && ScalarsUpTo(codes, m)
    ensures Whole(codec, Text(codec.from, codes), m) == Outcome(Ok, |Text(codec.from, codes)|, Text(codec.to, codes))
    decreases |codes|
  {
    hide StepOf, EncodeOne;
    if codes == [] {
    } else {
      var head, tail := EncodeOne(codec.from, codes[0]), Text(codec.from, codes[1..]);
      StepOfText(codec, codes[0], tail, 4 * |head + tail|, m);
      assert (head + tail)[|head|..] == tail;
      RoomIrrelevant(codec, tail, 4 * |head + tail| - |EncodeOne(codec.to, codes[0])|, m);
      Transcodes(codec, codes[1..], m);
    }
  }

  lemma StepIsText(codec: Codec, s: seq<nat>, room: nat, m: nat)
    requires Proper(codec) && m <= MAX_CODE && s != [] && Units(codec.from, s) && StepOf(codec, s, room, m).Take?
    ensures var d := DecodeOne(codec.from, s);
      d.Char? && Scalar(d.code) && d.code <= m && EncodeOne(codec.from, d.code) == s[..d.used]
    ensures StepOf(codec, s, room, m).used == DecodeOne(codec.from, s).used
  {
    if codec.from == Ucs4 { assert s[0] <= MAX_CODE; }
    EncodeDecode(codec.from, s);
    hide DecodeOne, EncodeOne;
  }

  // What a converter accepts encodes a text up to its largest code.
  lemma {:induction false} AcceptsTexts(codec: Codec, s: seq<nat>, m: nat) returns (codes: seq<nat>)
    requires Proper(codec) && m <= MAX_CODE && Units(codec.from, s) && Whole(codec, s, m).result == Ok
    ensures ScalarsUpTo(codes, m) && Text(codec.from, codes) == s
    decreases |s|
  {
    hide StepOf, EncodeOne, DecodeOne;
    if s == [] {
      codes := [];
    } else {
      StepIsText(codec, s, 4 * |s|, m);
      var d := DecodeOne(codec.from, s);
      var out := StepOf(codec, s, 4 * |s|, m).out;
      RoomIrrelevant(codec, s[d.used..], 4 * |s| - |out|, m);
      var rest := AcceptsTexts(codec, s[d.used..], m);
      codes := [d.code] + rest;
      assert codes[1..] == rest && s[..d.used] + s[d.used..] == s;
    }
  }

  /** A converter accepts exactly the encodings of texts up to its largest code. */
  lemma AcceptsUpTo(codec: Codec, s: seq<nat>, m: nat)
    requires Proper(codec) && Units(codec.from, s) && Honoured(codec, m)
    ensures Whole(codec, s, m).result == Ok <==> WellFormedUpTo(codec.from, s, m)
  {
    if Whole(codec, s, m).result == Ok {
      var codes := AcceptsTexts(codec, s, m);
    } else if WellFormedUpTo(codec.from, s, m) {
      var codes :| ScalarsUpTo(codes, m) && Text(codec.from, codes) == s;
      Transcodes(codec, codes, m);
    }
  }

  lemma WellFormedLimit(f: Format, s: seq<nat>)
    ensures WellFormed(f, s) <==> WellFormedUpTo(f, s, MAX_CODE)
  {
    if WellFormed(f, s) {
      var codes :| Scalars(codes) && Text(f, codes) == s;
      assert ScalarsUpTo(codes, MAX_CODE);
    }
    if WellFormedUpTo(f, s, MAX_CODE) {
      var codes :| ScalarsUpTo(codes, MAX_CODE) && Text(f, codes) == s;
      assert Scalars(codes);
    }
  }

  /** With the default largest code these are all well-formed sequences. */
  lemma AcceptsExactly(codec: Codec, s: seq<nat>)
    requires Proper(codec) && Units(codec.from, s)
    ensures Whole(codec, s, MAX_CODE).result == Ok <==> WellFormed(codec.from, s)
  {
    AcceptsUpTo(codec, s, MAX_CODE);
    WellFormedLimit(codec.from, s);
  }

  /** For every other largest code, the decoder from UTF-8 to UTF-16 refuses a text that the one to UCS-4 accepts. */
  lemma LeadByteRefused(m: nat) returns (s: seq<nat>)
    requires 0x80 <= m < 0xC3
    ensures Units(Utf8, s) && WellFormedUpTo(Utf8, s, m)
    ensures Whole(UTF8_TO_UTF16, s, m).result == Error && Whole(UTF8_TO_UCS4, s, m).result == Ok
  {
    var c := if m < 0xC2 then 0x80 else 0xC0;
    s := EncodeOne(Utf8, c);
    assert [c][1..] == [] && Text(Utf8, []) == [] && Text(Utf8, [c]) == s + [] == s;
    assert ScalarsUpTo([c], m);
    AcceptsUpTo(UTF8_TO_UCS4, s, m);
  }

  /** The largest codes that the decoder from UTF-8 to UTF-16 honours on every input. */
  lemma HonouredExactly(m: nat)
    requires m <= MAX_CODE
    ensures (forall s :: Units(Utf8, s) ==> (Whole(UTF8_TO_UTF16, s, m).result == Ok <==> WellFormedUpTo(Utf8, s, m)))
      <==> m < 0x80 || m >= 0xC3
  {
    hide Whole, WellFormedUpTo;
    if 0x80 <= m < 0xC3 {
      var s := LeadByteRefused(m);
    } else {
      forall s | Units(Utf8, s)
        ensures Whole(UTF8_TO_UTF16, s, m).result == Ok <==> WellFormedUpTo(Utf8, s, m)
      {
        AcceptsUpTo(UTF8_TO_UTF16, s, m);
      }
    }
  }

  /** Each converter undoes its inverse on every well-formed sequence, and what it writes is well formed. */
  lemma RoundTrip(codec: Codec, s: seq<nat>)
    requires Proper(codec) && Units(codec.from, s) && WellFormed(codec.from, s)
    ensures var there := Whole(codec, s, MAX_CODE);
      && there.result == Ok && there.used == |s| && WellFormed(codec.to, there.out)
      && Whole(Inverse(codec), there.out, MAX_CODE) == Outcome(Ok, |there.out|, s)
  {
    var codes :| Scalars(codes) && Text(codec.from, codes) == s;
    Transcodes(codec, codes);
    Transcodes(Inverse(codec), codes);
  }

  // ----- where a call stops

  // The front of a character whose last units have not arrived, by the ranges of its units.
  predicate CutOff(f: Format, s: seq<nat>) {
    match f
    case Utf8 =>
      || (|s| == 1 && 0xC2 <= s[0] <= 0xDF)
      || (1 <= |s| <= 2 && 0xE0 <= s[0] <= 0xEF)
      || (1 <= |s| <= 3 && 0xF0 <= s[0] <= 0xF4)
    case Utf16 => |s| == 1 && HighHalf(s[0])
    case Utf16be => |s| == 1 || (2 <= |s| <= 3 && HighHalf(s[0] * 256 + s[1]))
    case Ucs4 => false
  }

  // What a converter takes for a character: of UCS-4, every unit that is no surrogate, also past the last plane.
  predicate Character(f: Format, c: nat) { if f == Ucs4 then !Surrogate(c) else Scalar(c) }

  // The encoding of character c stands at the front.
  ghost predicate StartsWith(f: Format, s: seq<nat>, c: nat) {
    Character(f, c) && EncodeOne(f, c) <= s
  }

  // Between UTF-8 and UTF-16, the first unit alone may be refused for being larger than the largest code.
  predicate FirstRefused(codec: Codec, s: seq<nat>, m: nat) {
    codec in {UTF16_TO_UTF8, UTF8_TO_UTF16} && s != [] && s[0] > m
  }

  // What makes a call ask for more: no room at all for a decoder, a character that is cut off, or one that does not
  // fit; an encoder from UCS-4 first looks whether the character is allowed.
  ghost predicate AsksForMore(codec: Codec, s: seq<nat>, room: nat, m: nat) {
    || (room == 0 && codec.to in {Utf16, Ucs4})
    || (!FirstRefused(codec, s, m)
        && (CutOff(codec.from, s)
            || exists c: nat ::
                 && StartsWith(codec.from, s, c) && |EncodeOne(codec.to, c)| > room
                 && (codec.from == Ucs4 ==> c <= m)))
  }

  // No allowed character starts here, unless its first unit is refused.
  ghost predicate NoneAllowed(codec: Codec, s: seq<nat>, m: nat) {
    FirstRefused(codec, s, m) || forall c: nat :: StartsWith(codec.from, s, c) ==> c > m
  }

  lemma ShortIsCutOff(f: Format, s: seq<nat>)
    requires s != [] && Units(f, s)
    ensures DecodeOne(f, s).Short? <==> CutOff(f, s)
  {
    hide Second3, Second4, Code2, Code3, Code4, Paired;
  }

  lemma CharIsFront(f: Format, s: seq<nat>)
    requires s != [] && Units(f, s)
    ensures forall c: nat :: StartsWith(f, s, c) ==> DecodeOne(f, s) == Char(|EncodeOne(f, c)|, c)
    ensures DecodeOne(f, s).Char? ==>
      var d := DecodeOne(f, s); StartsWith(f, s, d.code) && d.used == |EncodeOne(f, d.code)|
  {
    if f == Ucs4 {
      assert s == [s[0]] + s[1..];
    } else {
      hide DecodeOne, EncodeOne;
      forall c: nat | StartsWith(f, s, c)
        ensures DecodeOne(f, s) == Char(|EncodeOne(f, c)|, c)
      {
        var e := EncodeOne(f, c);
        assert e + s[|e|..] == s;
        DecodeEncode(f, c, s[|e|..]);
      }
      if DecodeOne(f, s).Char? { EncodeDecode(f, s); }
    }
  }

  // What one turn does.
  lemma StepStops(codec: Codec, s: seq<nat>, room: nat, m: nat)
    requires Proper(codec) && s != [] && Units(codec.from, s)
    ensures var step := StepOf(codec, s, room, m);
      && (step == Stop(Partial) <==> AsksForMore(codec, s, room, m))
      && (step == Stop(Error) ==> NoneAllowed(codec, s, m))
      && (step.Take? ==>
            exists c: nat :: StartsWith(codec.from, s, c) && c <= m
              && step == Take(|EncodeOne(codec.from, c)|, EncodeOne(codec.to, c)))
  {
    hide DecodeOne, EncodeOne, CutOff, StartsWith;
    ShortIsCutOff(codec.from, s);
    CharIsFront(codec.from, s);
    if codec.from == Ucs4 { Ucs4Decodes(s); }
  }

  lemma Ucs4Decodes(s: seq<nat>)
    requires s != []
    ensures DecodeOne(Ucs4, s) == if Surrogate(s[0]) then Bad else Char(1, s[0])
  {
  }

  ghost predicate Characters(f: Format, codes: seq<nat>, m: nat) {
    forall i :: 0 <= i < |codes| ==> Character(f, codes[i]) && codes[i] <= m
  }

  // A call that transcoded the given characters from the front of its input and stopped: at the end with ok; where it
  // needs more input or room with partial; and otherwise, where no allowed character starts, with error.
  ghost predicate Stopped(codec: Codec, s: seq<nat>, room: nat, m: nat, o: Outcome, codes: seq<nat>) {
    && o.used <= |s| && |o.out| <= room
    && Characters(codec.from, codes, m) && s[..o.used] == Text(codec.from, codes) && o.out == Text(codec.to, codes)
    && (o.result == Ok <==> s[o.used..] == [])
    && (o.result == Partial <==> s[o.used..] != [] && AsksForMore(codec, s[o.used..], room - |o.out|, m))
    && (o.result == Error ==> NoneAllowed(codec, s[o.used..], m))
  }

  lemma StoppedHere(codec: Codec, s: seq<nat>, room: nat, m: nat, result: Result)
    requires s == [] <==> result == Ok
    requires s != [] ==> (result == Partial <==> AsksForMore(codec, s, room, m))
    requires result == Error ==> NoneAllowed(codec, s, m)
    ensures Stopped(codec, s, room, m, Outcome(result, 0, []), [])
  {
    hide AsksForMore, NoneAllowed;
    assert s[0..] == s;
  }

  lemma StoppedBehind(codec: Codec, s: seq<nat>, room: nat, m: nat, c: nat, rest: Outcome, codes: seq<nat>)
    requires StartsWith(codec.from, s, c) && c <= m && |EncodeOne(codec.to, c)| <= room
    requires Stopped(codec, s[|EncodeOne(codec.from, c)|..], room - |EncodeOne(codec.to, c)|, m, rest, codes)
    ensures Stopped(codec, s, room, m, After(|EncodeOne(codec.from, c)|, EncodeOne(codec.to, c), rest), [c] + codes)
  {
    hide AsksForMore, NoneAllowed, EncodeOne, Character;
    var e := EncodeOne(codec.from, c);
    var tail := s[|e|..];
    assert ([c] + codes)[1..] == codes;
    assert s[..|e| + rest.used] == e + tail[..rest.used] && s[|e| + rest.used..] == tail[rest.used..];
  }

  /** Every call, with whatever input, room and largest code, stops in this way. */
  lemma {:induction false} CallStops(codec: Codec, s: seq<nat>, room: nat, m: nat) returns (codes: seq<nat>)
    requires Proper(codec) && Units(codec.from, s)
    ensures Stopped(codec, s, room, m, Convert(codec, s, room, m), codes)
    decreases |s|
  {
    hide StepOf, AsksForMore, NoneAllowed, EncodeOne, Stopped, StartsWith;
    codes := [];
    if s == [] {
      StoppedHere(codec, s, room, m, Ok);
    } else {
      StepStops(codec, s, room, m);
      var step := StepOf(codec, s, room, m);
      if step.Take? {
        var c: nat :| StartsWith(codec.from, s, c) && c <= m
          && step == Take(|EncodeOne(codec.from, c)|, EncodeOne(codec.to, c));
        var rest := CallStops(codec, s[step.used..], room - |step.out|, m);
        codes := [c] + rest;
        StoppedBehind(codec, s, room, m, c, Convert(codec, s[step.used..], room - |step.out|, m), rest);
      } else {
        StoppedHere(codec, s, room, m, step.result);
      }
    }
  }

  lemma {:induction false} TextRatio(f: Format, g: Format, codes: seq<nat>)
    ensures |Text(g, codes)| <= 4 * |Text(f, codes)|
  {
    if codes == [] {
    } else {
      TextRatio(f, g, codes[1..]);
    }
  }

  /**
    * With all the room it can use, a call stops with partial exactly before a character that is cut off by the end of
    * the input, unless its first unit is refused, and with error exactly where otherwise no allowed character starts.
    */
  lemma WholeStops(codec: Codec, s: seq<nat>, m: nat) returns (codes: seq<nat>)
    requires Proper(codec) && Units(codec.from, s)
    ensures var o := Whole(codec, s, m);
      var rest := s[o.used..];
      && Characters(codec.from, codes, m) && s[..o.used] == Text(codec.from, codes) && o.out == Text(codec.to, codes)
      && (o.result == Ok <==> rest == [])
      && (o.result == Partial <==> CutOff(codec.from, rest) && !FirstRefused(codec, rest, m))
      && (o.result == Error ==> NoneAllowed(codec, rest, m))
  {
    hide Convert, EncodeOne, CutOff, StartsWith;
    codes := CallStops(codec, s, 4 * |s|, m);
    TextRatio(codec.from, codec.to, codes);
    CutOffBeforeNothing(codec.from);
  }

  /**
    * With the default largest code: partial exactly before a cut-off character, error exactly where no scalar starts.
    */
  lemma RefusedInput(codec: Codec, s: seq<nat>) returns (codes: seq<nat>)
    requires Proper(codec) && Units(codec.from, s)
    ensures var o := Whole(codec, s, MAX_CODE);
      var rest := s[o.used..];
      && Scalars(codes) && s[..o.used] == Text(codec.from, codes) && o.out == Text(codec.to, codes)
      && (o.result == Ok <==> rest == [])
      && (o.result == Partial <==> CutOff(codec.from, rest))
      && (o.result == Error <==>
            && rest != [] && !CutOff(codec.from, rest)
            && forall c: nat :: Scalar(c) ==> !(EncodeOne(codec.from, c) <= rest))
  {
    hide Convert, EncodeOne, CutOff;
    codes := WholeStops(codec, s, MAX_CODE);
    var o := Whole(codec, s, MAX_CODE);
    var rest := s[o.used..];
    FirstUnitFits(codec, rest);
    CutOffBeforeNothing(codec.from);
    assert Scalars(codes);
    if o.result == Error {
      forall c: nat | Scalar(c)
        ensures !(EncodeOne(codec.from, c) <= rest)
      {
        assert StartsWith(codec.from, rest, c) <==> EncodeOne(codec.from, c) <= rest;
      }
    }
  }

  lemma FirstUnitFits(codec: Codec, s: seq<nat>)
    requires Units(codec.from, s)
    ensures !FirstRefused(codec, s, MAX_CODE)
  {
  }

  lemma CutOffBeforeNothing(f: Format)
    ensures !CutOff(f, [])
  {
  }

  // ----- header modes

  const MARK: nat := 0xFEFF

  lemma MarkIsText(f: Format)
    requires f in {Utf8, Utf16be}
    ensures EncodeOne(f, MARK) == ByteOrderMark(f)
  {
  }

  // A text starts with the units of the mark exactly if its first character is the mark.
  lemma MarkFirst(f: Format, codes: seq<nat>)
    requires f in {Utf8, Utf16be} && Scalars(codes)
    ensures ByteOrderMark(f) <= Text(f, codes) <==> codes != [] && codes[0] == MARK
  {
    MarkIsText(f);
    var s, mark := Text(f, codes), EncodeOne(f, MARK);
    if codes != [] {
      DecodeEncode(f, codes[0], Text(f, codes[1..]));
      if mark <= s {
        DecodeEncode(f, MARK, s[|mark|..]);
        assert mark + s[|mark|..] == s;
      }
    }
  }

  // A text without the mark in front.
  function Unmarked(codes: seq<nat>): seq<nat> {
    if codes != [] && codes[0] == MARK then codes[1..] else codes
  }

  /** Without room for the header nothing is read or written. */
  lemma HeaderWithoutRoom(codec: Codec, s: seq<nat>, room: nat, m: nat)
    requires codec.to in {Utf8, Utf16be} && room < if codec.to == Utf8 then 3 else 2
    ensures Call(codec, s, room, m, true) == Outcome(Partial, 0, [])
  {
  }

  /** With the header generated, the text gets the mark in front. */
  lemma GeneratesHeader(codec: Codec, codes: seq<nat>, room: nat)
    requires Proper(codec) && codec.to in {Utf8, Utf16be} && Scalars(codes) && room >= 4 * |Text(codec.from, codes)| + 3
    ensures Call(codec, Text(codec.from, codes), room, MAX_CODE, true)
      == Outcome(Ok, |Text(codec.from, codes)|, Text(codec.to, [MARK] + codes))
  {
    hide Convert, EncodeOne;
    MarkIsText(codec.to);
    RoomIrrelevant(codec, Text(codec.from, codes), room - |ByteOrderMark(codec.to)|, MAX_CODE);
    Transcodes(codec, codes);
    assert ([MARK] + codes)[1..] == codes;
  }

  /** With the header consumed, the text loses a mark in front, and only that. */
  lemma ConsumesHeader(codec: Codec, codes: seq<nat>, room: nat)
    requires Proper(codec) && codec.from in {Utf8, Utf16be} && Scalars(codes) && room >= 4 * |Text(codec.from, codes)|
    requires codec.to in {Utf16, Ucs4}
    ensures Call(codec, Text(codec.from, codes), room, MAX_CODE, true)
      == Outcome(Ok, |Text(codec.from, codes)|, Text(codec.to, Unmarked(codes)))
  {
    hide Convert, EncodeOne;
    var s, mark := Text(codec.from, codes), ByteOrderMark(codec.from);
    MarkFirst(codec.from, codes);
    Transcodes(codec, Unmarked(codes));
    RoomIrrelevant(codec, Text(codec.from, Unmarked(codes)), room, MAX_CODE);
    if mark <= s {
      MarkIsText(codec.from);
      assert s[|mark|..] == Text(codec.from, codes[1..]);
    }
  }

  /** Encoding with a generated header and decoding with the header consumed gives the text back. */
  lemma HeaderRoundTrip(codec: Codec, codes: seq<nat>, room: nat, back: nat)
    requires Proper(codec) && codec.to in {Utf8, Utf16be} && Scalars(codes) && room >= 4 * |Text(codec.from, codes)| + 3
    ensures var there := Call(codec, Text(codec.from, codes), room, MAX_CODE, true);
      && there.result == Ok && there.used == |Text(codec.from, codes)|
      && (back >= 4 * |there.out| ==>
            Call(Inverse(codec), there.out, back, MAX_CODE, true) == Outcome(Ok, |there.out|, Text(codec.from, codes)))
  {
    hide Call, Text;
    GeneratesHeader(codec, codes, room);
    if back >= 4 * |Text(codec.to, [MARK] + codes)| {
      ConsumesHeader(Inverse(codec), [MARK] + codes, back);
      assert Unmarked([MARK] + codes) == codes;
    }
  }

  // ----- independent descriptions of what is well formed

  // One character of the grammar in section 4 of RFC 3629.
  predicate GrammarTail(c: nat) { 0x80 <= c <= 0xBF }

  predicate GrammarChar(s: seq<nat>) {
    || (|s| == 1 && s[0] <= 0x7F)
    || (|s| == 2 && 0xC2 <= s[0] <= 0xDF && GrammarTail(s[1]))
    || (|s| == 3 && GrammarTail(s[2]) && (
          || (s[0] == 0xE0 && 0xA0 <= s[1] <= 0xBF)
          || (0xE1 <= s[0] <= 0xEC && GrammarTail(s[1]))
          || (s[0] == 0xED && 0x80 <= s[1] <= 0x9F)
          || (0xEE <= s[0] <= 0xEF && GrammarTail(s[1]))))
    || (|s| == 4 && GrammarTail(s[2]) && GrammarTail(s[3]) && (
          || (s[0] == 0xF0 && 0x90 <= s[1] <= 0xBF)
          || (0xF1 <= s[0] <= 0xF3 && GrammarTail(s[1]))
          || (s[0] == 0xF4 && 0x80 <= s[1] <= 0x8F)))
  }

  // The number that the bytes of such a character stand for, by section 3 of RFC 3629: what each has above its mark.
  function GrammarValue(s: seq<nat>): nat
    requires GrammarChar(s)
  {
    if |s| == 1 then s[0]
    else if |s| == 2 then (s[0] - 0xC0) * 64 + (s[1] - 0x80)
    else if |s| == 3 then ((s[0] - 0xE0) * 64 + (s[1] - 0x80)) * 64 + (s[2] - 0x80)
    else (((s[0] - 0xF0) * 64 + (s[1] - 0x80)) * 64 + (s[2] - 0x80)) * 64 + (s[3] - 0x80)
  }

  lemma GrammarOf2(c: nat)
    requires 0x80 <= c < 0x800
    ensures var s := EncodeOne(Utf8, c); GrammarChar(s) && GrammarValue(s) == c
  {
  }

  lemma GrammarOf3(c: nat)
    requires 0x800 <= c < 0x1_0000 && !Surrogate(c)
    ensures var s := EncodeOne(Utf8, c); GrammarChar(s) && GrammarValue(s) == c
  {
    Digits3(c);
    Bytes3(c);
  }

  lemma GrammarFrom4(b1: nat, b2: nat, b3: nat, b4: nat)
    requires 0xF0 <= b1 < 0xF5 && Second4(b1, b2) && Tail(b3) && Tail(b4)
    ensures var s := [b1, b2, b3, b4];
      GrammarChar(s) && GrammarValue(s) == (((b1 - 0xF0) * 64 + (b2 - 0x80)) * 64 + (b3 - 0x80)) * 64 + (b4 - 0x80)
  {
  }

  lemma GrammarOf4(c: nat)
    requires 0x1_0000 <= c <= MAX_CODE
    ensures var s := EncodeOne(Utf8, c); GrammarChar(s) && GrammarValue(s) == c
  {
    hide Second4, Tail, GrammarChar, GrammarValue, Code4;
    Digits4(c);
    Bytes4(c);
    assert c / 0x4_0000 % 16 == c / 0x4_0000;
    GrammarFrom4(0xF0 + c / 0x4_0000 % 16, 0x80 + c / 0x1000 % 64, 0x80 + c / 64 % 64, 0x80 + c % 64);
  }

  /** The UTF-8 encoding of a scalar value is the character of the grammar that stands for it. */
  lemma Utf8Layout(c: nat)
    requires Scalar(c)
    ensures var s := EncodeOne(Utf8, c); GrammarChar(s) && GrammarValue(s) == c
  {
    hide GrammarChar, GrammarValue;
    if c < 0x80 {
      GrammarOf1(c);
    } else if c < 0x800 {
      GrammarOf2(c);
    } else if c < 0x1_0000 {
      GrammarOf3(c);
    } else {
      GrammarOf4(c);
    }
  }

  lemma GrammarOf1(c: nat)
    requires c < 0x80
    ensures var s := EncodeOne(Utf8, c); GrammarChar(s) && GrammarValue(s) == c
  {
  }

  /**
    * The UTF-16 encoding is the code itself or, by section 2.1 of RFC 2781, a high half with the upper ten bits of
    * what it has above 0xFFFF and a low half with the lower ten.
    */
  lemma Utf16Layout(c: nat)
    requires Scalar(c)
    ensures var s := EncodeOne(Utf16, c);
      if c < 0x1_0000 then s == [c]
      else
        && |s| == 2 && HighHalf(s[0]) && LowHalf(s[1])
        && c == 0x1_0000 + (s[0] - 0xD800) * 0x400 + (s[1] - 0xDC00)
  {
    hide Paired, High, Low;
    if c >= 0x1_0000 {
      PairDigits(c);
      PairedValue(High(c), Low(c));
    }
  }

  lemma PairedValue(high: nat, low: nat)
    requires 0xD800 <= high < 0xDC00 && low / 0x400 == 0x37
    ensures Paired(high, low) == 0x1_0000 + (high - 0xD800) * 0x400 + (low - 0xDC00)
  {
    var p, x := high / 64 % 16, high % 64;
    assert high == 0xD800 + p * 64 + x && low == 0xDC00 + low % 0x400;
  }

  // Any number of such characters.
  ghost predicate GrammarOctets(s: seq<nat>)
    decreases |s|
  {
    s == [] || exists n | 1 <= n <= 4 && n <= |s| :: GrammarChar(s[..n]) && GrammarOctets(s[n..])
  }

  // The first character of the grammar and the decoder's first character are the same.
  lemma GrammarDecodes(s: seq<nat>, n: nat)
    requires s != [] && Units(Utf8, s) && 1 <= n <= 4 && n <= |s|
    ensures GrammarChar(s[..n]) <==> DecodeUtf8(s).Char? && DecodeUtf8(s).used == n
  {
    hide Code2, Code3, Code4;
  }

  // A sequence is accepted when its first step takes something and the rest is accepted.
  lemma StepDecides(codec: Codec, s: seq<nat>)
    requires s != []
    ensures var step := StepOf(codec, s, 4 * |s|, MAX_CODE);
      Whole(codec, s, MAX_CODE).result == Ok <==> step.Take? && Whole(codec, s[step.used..], MAX_CODE).result == Ok
  {
    hide StepOf;
    var step := StepOf(codec, s, 4 * |s|, MAX_CODE);
    if step.Take? { RoomIrrelevant(codec, s[step.used..], 4 * |s| - |step.out|, MAX_CODE); }
  }

  // With room and the default largest code, a decoder of UTF-8 takes what decodes.
  lemma DecoderStep(codec: Codec, s: seq<nat>)
    requires codec in {UTF8_TO_UCS4, UTF8_TO_UTF16} && s != [] && Units(Utf8, s)
    ensures var step := StepOf(codec, s, 4 * |s|, MAX_CODE);
      && (step.Take? <==> DecodeUtf8(s).Char?) && (step.Take? ==> step.used == DecodeUtf8(s).used)
  {
    hide DecodeUtf8, EncodeOne;
    if DecodeUtf8(s).Char? {
      var d := DecodeUtf8(s);
      EncodeDecodeUtf8(s);
      assert s[..d.used] + s[d.used..] == s;
      StepOfText(codec, d.code, s[d.used..], 4 * |s|, MAX_CODE);
    }
  }

  // The decoders of UTF-8 accept exactly the grammar.
  lemma {:induction false} AcceptsGrammar(codec: Codec, s: seq<nat>)
    requires codec in {UTF8_TO_UCS4, UTF8_TO_UTF16} && Units(Utf8, s)
    ensures Whole(codec, s, MAX_CODE).result == Ok <==> GrammarOctets(s)
    decreases |s|
  {
    hide StepOf, DecodeUtf8, GrammarChar;
    if s == [] {
    } else {
      DecoderStep(codec, s);
      StepDecides(codec, s);
      forall n | 1 <= n <= 4 && n <= |s|
        ensures GrammarChar(s[..n]) <==> DecodeUtf8(s).Char? && DecodeUtf8(s).used == n
      {
        GrammarDecodes(s, n);
      }
      var step := StepOf(codec, s, 4 * |s|, MAX_CODE);
      if step.Take? {
        var n := step.used;
        AcceptsGrammar(codec, s[n..]);
        assert GrammarOctets(s) ==> GrammarOctets(s[n..]);
      } else {
        assert !GrammarOctets(s);
      }
    }
  }

  /** Well-formed UTF-8 is the language of the grammar in section 4 of RFC 3629. */
  lemma WellFormedUtf8(s: seq<nat>)
    requires Units(Utf8, s)
    ensures WellFormed(Utf8, s) <==> GrammarOctets(s)
  {
    AcceptsGrammar(UTF8_TO_UCS4, s);
    AcceptsExactly(UTF8_TO_UCS4, s);
  }

  predicate HighHalf(c: nat) { 0xD800 <= c < 0xDC00 }

  predicate LowHalf(c: nat) { 0xDC00 <= c < 0xE000 }

  predicate PairedAt(s: seq<nat>, i: nat)
    requires i < |s|
  {
    && (HighHalf(s[i]) ==> i + 1 < |s| && LowHalf(s[i+1]))
    && (LowHalf(s[i]) ==> i > 0 && HighHalf(s[i-1]))
  }

  // Every high half of a surrogate pair stands before a low one, and every low half behind a high one.
  ghost predicate HalvesPaired(s: seq<nat>) {
    forall i :: 0 <= i < |s| ==> PairedAt(s, i)
  }

  // A whole character at the front does not matter to the rest.
  lemma HalvesBehind(s: seq<nat>, n: nat)
    requires 1 <= n <= |s| && !HighHalf(s[n-1]) && forall i :: 0 <= i < n ==> PairedAt(s, i)
    ensures HalvesPaired(s) <==> HalvesPaired(s[n..])
  {
    assert forall i :: n <= i < |s| ==> s[i] == s[n..][i - n];
    if HalvesPaired(s) {
      forall k | 0 <= k < |s| - n
        ensures PairedAt(s[n..], k)
      {
        assert PairedAt(s, n + k);
      }
    } else if HalvesPaired(s[n..]) {
      forall i | n <= i < |s|
        ensures PairedAt(s, i)
      {
        assert PairedAt(s[n..], i - n);
      }
    }
  }

  // The converter from UTF-16 takes the front exactly when it is no half of a pair, or a pair.
  lemma Utf16Step(s: seq<nat>)
    requires s != [] && Units(Utf16, s)
    ensures var step := StepOf(UTF16_TO_UTF8, s, 4 * |s|, MAX_CODE);
      && (step.Take? <==> !Surrogate(s[0]) || (|s| > 1 && HighHalf(s[0]) && LowHalf(s[1])))
      && (step.Take? ==> step.used == if Surrogate(s[0]) then 2 else 1)
  {
    hide High, Low;
    if |s| > 1 && HighHalf(s[0]) && LowHalf(s[1]) { PairJoin(s[0], s[1]); }
  }

  lemma {:induction false} AcceptsHalvesPaired(s: seq<nat>)
    requires Units(Utf16, s)
    ensures Whole(UTF16_TO_UTF8, s, MAX_CODE).result == Ok <==> HalvesPaired(s)
    decreases |s|
  {
    hide StepOf;
    if s == [] {
    } else {
      Utf16Step(s);
      StepDecides(UTF16_TO_UTF8, s);
      var step := StepOf(UTF16_TO_UTF8, s, 4 * |s|, MAX_CODE);
      if step.Take? {
        assert PairedAt(s, 0) && (step.used == 2 ==> PairedAt(s, 1));
        HalvesBehind(s, step.used);
        AcceptsHalvesPaired(s[step.used..]);
      } else {
        assert !PairedAt(s, 0);
      }
    }
  }

  /** Well-formed UTF-16 has its surrogates in pairs. */
  lemma WellFormedUtf16(s: seq<nat>)
    requires Units(Utf16, s)
    ensures WellFormed(Utf16, s) <==> HalvesPaired(s)
  {
    AcceptsHalvesPaired(s);
    AcceptsExactly(UTF16_TO_UTF8, s);
  }

  lemma {:induction false} Ucs4Text(codes: seq<nat>)
    ensures Text(Ucs4, codes) == codes
  {
    if codes == [] {
    } else {
      Ucs4Text(codes[1..]);
    }
  }

  /** Well-formed UCS-4 is a sequence of scalar values. */
  lemma WellFormedUcs4(s: seq<nat>)
    ensures WellFormed(Ucs4, s) <==> Scalars(s)
  {
    if WellFormed(Ucs4, s) {
      var codes :| Scalars(codes) && Text(Ucs4, codes) == s;
      Ucs4Text(codes);
    } else if Scalars(s) {
      Ucs4Text(s);
    }
  }

  // The words of a sequence, high byte first.
  function BigEndian(s: seq<nat>): seq<nat> {
    if s == [] then [] else [s[0] / 256, s[0] % 256] + BigEndian(s[1..])
  }

  lemma {:induction false} BigEndianConcat(a: seq<nat>, b: seq<nat>)
    ensures BigEndian(a + b) == BigEndian(a) + BigEndian(b)
  {
    if a == [] {
      assert a + b == b;
    } else {
      BigEndianConcat(a[1..], b);
      assert (a + b)[1..] == a[1..] + b;
      var front := [a[0] / 256, a[0] % 256];
      assert front + (BigEndian(a[1..]) + BigEndian(b)) == front + BigEndian(a[1..]) + BigEndian(b);
    }
  }

  /** The big-endian encoding of a text is its UTF-16 encoding, every word with its high byte first. */
  lemma {:induction false} BigEndianText(codes: seq<nat>)
    ensures Text(Utf16be, codes) == BigEndian(Text(Utf16, codes))
  {
    if codes == [] {
    } else {
      BigEndianText(codes[1..]);
      BigEndianConcat(EncodeOne(Utf16, codes[0]), Text(Utf16, codes[1..]));
      BigEndianOne(codes[0]);
    }
  }

  lemma BigEndianOne(c: nat)
    ensures EncodeOne(Utf16be, c) == BigEndian(EncodeOne(Utf16, c))
  {
    hide High, Low;
    if c >= 0x1_0000 {
      assert [High(c), Low(c)][1..] == [Low(c)];
      assert [Low(c)][1..] == [];
      assert BigEndian([Low(c)]) == [Low(c) / 256, Low(c) % 256];
    } else {
      assert [c][1..] == [];
    }
  }

  // ----- codes past the last plane, which an encoder from UCS-4 accepts when its largest code allows them

  lemma DigitsBelow(c: nat)
    ensures c % 0x40_0000 == c / 0x4_0000 % 16 * 0x4_0000 + c / 0x1000 % 64 * 0x1000 + c / 64 % 64 * 64 + c % 64
  {
    Digits4(c % 0x40_0000);
    Arith.Field(c, 16, 0x4_0000);
    Arith.Field(c, 0x400, 0x1000);
    Arith.Field(c / 0x1000, 16, 64);
    Arith.Field(c, 0x1_0000, 64);
    Arith.Field(c / 64, 0x400, 64);
  }

  /** In UTF-8 such a code loses all but its low 22 bits. */
  lemma LargeInUtf8Bits(c: nat)
    requires c >= 0x1_0000
    ensures var s := EncodeOne(Utf8, c);
      && |s| == 4 && 0xF0 <= s[0] <= 0xFF && Tail(s[1]) && Tail(s[2]) && Tail(s[3])
      && s[0] % 16 * 0x4_0000 + s[1] % 64 * 0x1000 + s[2] % 64 * 64 + s[3] % 64 == c % 0x40_0000
  {
    DigitsBelow(c);
  }

  /** In big-endian UTF-16 it loses all but its low 21 bits, and makes a pair exactly if these are a code of a plane. */
  lemma LargeInUtf16beBits(c: nat)
    requires c >= 0x1_0000
    ensures var s := EncodeOne(Utf16be, c);
      && |s| == 4 && LowHalf(s[2] * 256 + s[3])
      && (HighHalf(s[0] * 256 + s[1]) <==> 0x1_0000 <= c % 0x20_0000 <= MAX_CODE)
      && (0x1_0000 <= c % 0x20_0000 <= MAX_CODE ==> s == EncodeOne(Utf16be, c % 0x20_0000))
  {
    var d := c % 0x20_0000;
    LowBits21(c);
    assert High(d) == High(c) && Low(d) == Low(c);
    if d < 0x1_0000 {
      assert High(c) >= 0xFFC0;
    } else {
      assert High(c) == 0xD800 + (d / 0x1_0000 - 1) * 64 + c / 0x400 % 64;
    }
    hide Low, High;
  }

  lemma LowBits21(c: nat)
    ensures var d := c % 0x20_0000;
      && d / 0x1_0000 % 32 == c / 0x1_0000 % 32 && d / 0x1_0000 == c / 0x1_0000 % 32
      && d / 0x400 % 64 == c / 0x400 % 64 && d % 0x400 == c % 0x400
  {
    Arith.Field(c, 32, 0x1_0000);
    Arith.Field(c, 2048, 0x400);
    Arith.Field(c / 0x400, 32, 64);
  }
}
