/**
  * The converters between UTF-8, UTF-16 and UCS-4 as functions on sequences of code units: what one step of a
  * converter's loop does, what a call does, and the laws of calls. Units are naturals; masking and shifting are
  * written as remainder and division, and the bits a mask leaves are joined by addition.
  */
module Unicode {
  const MAX_CODE: nat := 0x10FFFF

  datatype Format = Utf8 | Utf16 | Utf16be | Ucs4

  // How many values a code unit has.
  function UnitLimit(f: Format): nat {
    match f
    case Utf8 => 0x100
    case Utf16 => 0x1_0000
    case Utf16be => 0x100
    case Ucs4 => 0x1_0000_0000
  }

  ghost predicate Units(f: Format, s: seq<nat>) {
    forall i :: 0 <= i < |s| ==> s[i] < UnitLimit(f)
  }

  predicate Surrogate(c: nat) { 0xD800 <= c < 0xE000 }

  // A Unicode scalar value.
  predicate Scalar(c: nat) { c <= MAX_CODE && !Surrogate(c) }

  // ----- one character

  // The first unit of a surrogate pair. Of a code past the last plane, five plane bits are kept, and if these are
  // zero, subtracting one from them borrows from all higher bits.
  function High(c: nat): nat {
    var plane := c / 0x1_0000 % 32;
    if plane == 0 then 0xFFC0 + c / 0x400 % 64 else 0xD800 + (plane - 1) * 64 + c / 0x400 % 64
  }

  function Low(c: nat): nat { 0xDC00 + c % 0x400 }

  // Section 3 of RFC 3629 and section 2.1 of RFC 2781, for all 32-bit values the encoders accept.
  function EncodeOne(f: Format, c: nat): (s: seq<nat>)
    ensures 1 <= |s| <= 4
  {
    match f
    case Utf8 =>
      if c < 0x80 then [c]
      else if c < 0x800 then [0xC0 + c / 64, 0x80 + c % 64]
      else if c < 0x1_0000 then [0xE0 + c / 0x1000, 0x80 + c / 64 % 64, 0x80 + c % 64]
      else [0xF0 + c / 0x4_0000 % 16, 0x80 + c / 0x1000 % 64, 0x80 + c / 64 % 64, 0x80 + c % 64]
    case Utf16 =>
      if c < 0x1_0000 then [c] else [High(c), Low(c)]
    case Utf16be =>
      if c < 0x1_0000 then [c / 256, c % 256] else [High(c) / 256, High(c) % 256, Low(c) / 256, Low(c) % 256]
    case Ucs4 => [c]
  }

  // What the front of a sequence holds: too few units to tell, no character, or a character.
  datatype Decoded = Short | Bad | Char(used: nat, code: nat)

  predicate Tail(c: nat) { c / 64 == 2 }

  function Paired(high: nat, low: nat): nat {
    (high / 64 % 16 + 1) * 0x1_0000 + high % 64 * 0x400 + low % 0x400
  }

  // The switch on the first byte of a three- or four-byte character: which values the second byte may have.
  predicate Second3(b1: nat, b2: nat) {
    if b1 == 0xE0 then b2 / 32 == 5 else if b1 == 0xED then b2 / 32 == 4 else Tail(b2)
  }

  predicate Second4(b1: nat, b2: nat) {
    if b1 == 0xF0 then 0x90 <= b2 <= 0xBF else if b1 == 0xF4 then b2 / 16 == 8 else Tail(b2)
  }

  // The payload bits of two, three and four bytes.
  function Code2(b1: nat, b2: nat): (c: nat)
    ensures c < 0x800
  {
    b1 % 32 * 64 + b2 % 64
  }

  function Code3(b1: nat, b2: nat, b3: nat): (c: nat)
    ensures c < 0x1_0000
  {
    b1 % 16 * 0x1000 + b2 % 64 * 64 + b3 % 64
  }

  function Code4(b1: nat, b2: nat, b3: nat, b4: nat): (c: nat)
    ensures c < 0x20_0000
  {
    b1 % 8 * 0x4_0000 + b2 % 64 * 0x1000 + b3 % 64 * 64 + b4 % 64
  }

  function DecodeUtf8(s: seq<nat>): (d: Decoded)
    requires s != []
    ensures d.Char? ==> 0 < d.used <= 4 && d.used <= |s|
  {
    var c1 := s[0];
    if c1 < 0x80 then Char(1, c1)
    else if c1 < 0xC2 then Bad
    else if c1 < 0xE0 then
      if |s| < 2 then Short
      else if !Tail(s[1]) then Bad
      else Char(2, Code2(c1, s[1]))
    else if c1 < 0xF0 then
      if |s| < 3 then Short
      else if !Second3(c1, s[1]) || !Tail(s[2]) then Bad
      else Char(3, Code3(c1, s[1], s[2]))
    else if c1 < 0xF5 then
      if |s| < 4 then Short
      else if !Second4(c1, s[1]) || !Tail(s[2]) || !Tail(s[3]) then Bad
      else Char(4, Code4(c1, s[1], s[2], s[3]))
    else Bad
  }

  function DecodeUtf16(s: seq<nat>): Decoded
    requires s != []
  {
    if !Surrogate(s[0]) then Char(1, s[0])
    else if s[0] >= 0xDC00 then Bad
    else if |s| < 2 then Short
    else if s[1] / 0x400 != 0x37 then Bad
    else Char(2, Paired(s[0], s[1]))
  }

  function DecodeUtf16be(s: seq<nat>): Decoded {
    if |s| < 2 then Short
    else
      var c1 := s[0] * 256 + s[1];
      if c1 / 0x400 == 0x37 then Bad
      else if c1 / 0x400 != 0x36 then Char(2, c1)
      else if |s| < 4 then Short
      else
        var c2 := s[2] * 256 + s[3];
        if c2 / 0x400 != 0x37 then Bad else Char(4, Paired(c1, c2))
  }

  function DecodeOne(f: Format, s: seq<nat>): (d: Decoded)
    requires s != []
    ensures d.Char? ==> 0 < d.used <= |s|
  {
    match f
    case Utf8 => DecodeUtf8(s)
    case Utf16 => DecodeUtf16(s)
    case Utf16be => DecodeUtf16be(s)
    case Ucs4 => if Surrogate(s[0]) then Bad else Char(1, s[0])
  }

  // ----- a call

  datatype Result = Ok | Partial | Error

  datatype Codec = Codec(from: Format, to: Format)

  const UTF16_TO_UTF8 := Codec(Utf16, Utf8)
  const UTF8_TO_UTF16 := Codec(Utf8, Utf16)
  const UCS4_TO_UTF8 := Codec(Ucs4, Utf8)
  const UTF8_TO_UCS4 := Codec(Utf8, Ucs4)
  const UCS4_TO_UTF16BE := Codec(Ucs4, Utf16be)
  const UTF16BE_TO_UCS4 := Codec(Utf16be, Ucs4)

  datatype Step = Stop(result: Result) | Take(used: nat, out: seq<nat>)

  /**
    * One turn of a converter's loop on the remaining input, with room units left. The encoders check the room only
    * for the character they write; the decoders do nothing without room. The order of the checks against the largest
    * code differs: on the first unit alone, before the room, or after it.
    */
  function StepOf(codec: Codec, s: seq<nat>, room: nat, maxcode: nat): (r: Step)
    requires s != []
    ensures r != Stop(Ok)
    ensures r.Take? ==> 0 < r.used <= |s| && |r.out| <= room && |r.out| <= 4
  {
    if room == 0 && codec.to in {Utf16, Ucs4} then Stop(Partial)
    else if s[0] > maxcode && codec in {UTF16_TO_UTF8, UTF8_TO_UTF16} then Stop(Error)
    else
      match DecodeOne(codec.from, s)
      case Short => Stop(Partial)
      case Bad => Stop(Error)
      case Char(used, code) =>
        if code > maxcode && codec.from == Ucs4 then Stop(Error)
        else if |EncodeOne(codec.to, code)| > room then Stop(Partial)
        else if code > maxcode then Stop(Error)
        else Take(used, EncodeOne(codec.to, code))
  }

  datatype Outcome = Outcome(result: Result, used: nat, out: seq<nat>)

  // What happens after used units were read and out was written.
  function After(used: nat, out: seq<nat>, rest: Outcome): Outcome {
    Outcome(rest.result, used + rest.used, out + rest.out)
  }

  // A call without header modes: the result, how many units were read and what was written.
  function Convert(codec: Codec, s: seq<nat>, room: nat, maxcode: nat): (o: Outcome)
    ensures o.used <= |s| && |o.out| <= room
    decreases |s|
  {
    if s == [] then Outcome(Ok, 0, [])
    else
      match StepOf(codec, s, room, maxcode)
      case Stop(result) => Outcome(result, 0, [])
      case Take(used, out) => After(used, out, Convert(codec, s[used..], room - |out|, maxcode))
  }

  function ByteOrderMark(f: Format): seq<nat> {
    if f == Utf8 then [0xEF, 0xBB, 0xBF] else [0xFE, 0xFF]
  }

  // A call: with its header mode an encoder first writes a byte order mark and a decoder first skips one.
  function Call(codec: Codec, s: seq<nat>, room: nat, maxcode: nat, header: bool): (o: Outcome)
    ensures o.used <= |s| && |o.out| <= room
  {
    if !header then Convert(codec, s, room, maxcode)
    else if codec.to in {Utf8, Utf16be} then
      var mark := ByteOrderMark(codec.to);
      if room < |mark| then Outcome(Partial, 0, []) else After(0, mark, Convert(codec, s, room - |mark|, maxcode))
    else
      var mark := ByteOrderMark(codec.from);
      if mark <= s then After(|mark|, [], Convert(codec, s[|mark|..], room, maxcode))
      else Convert(codec, s, room, maxcode)
  }
}
