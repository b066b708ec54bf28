/**
  * ftl::name: up to thirteen characters packed into 64 bits, twelve of five bits and a last one of four. Words are
  * naturals below 2^64; shifting and masking are written as multiplication, division and remainder.
  */
module Names {
  import opened Arith
  import opened MixedRadix
  import opened Options

  function Radix(): (r: seq<nat>)
    ensures |r| == 13 && forall i :: 0 <= i < 13 ==> r[i] == if i < 12 then 32 else 16
  {
    [32, 32, 32, 32, 32, 32, 32, 32, 32, 32, 32, 32, 16]
  }

  const CAP: nat := 0x1_0000_0000_0000_0000

  // ----- characters

  // The entry of charmap for a digit.
  function Symbol(d: nat): char
    requires d < 32
  {
    if d == 0 then '.' else if d <= 5 then '1' + (d - 1) as char else 'a' + (d - 6) as char
  }

  // char_to_value, None where it aborts.
  function CharValue(c: char): Option<nat> {
    if c == '.' then Some(0)
    else if '1' <= c <= '5' then Some((c - '1') as nat + 1)
    else if 'a' <= c <= 'z' then Some((c - 'a') as nat + 6)
    else None
  }

  // charmap
  const CHARMAP: string := ".12345abcdefghijklmnopqrstuvwxyz"

  /** The alphabet is charmap, and a character's value is its place there. */
  lemma Alphabet(c: char, d: nat)
    ensures |CHARMAP| == 32
    ensures d < 32 ==> Symbol(d) == CHARMAP[d]
    ensures CharValue(c) == Some(d) <==> d < 32 && CHARMAP[d] == c
  {
  }

  lemma SymbolRoundTrip(d: nat)
    requires d < 32
    ensures CharValue(Symbol(d)) == Some(d) && (Symbol(d) == '.' <==> d == 0)
  {
  }

  lemma CharValueRoundTrip(c: char)
    requires CharValue(c).Some?
    ensures CharValue(c).value < 32 && Symbol(CharValue(c).value) == c
  {
  }

  lemma SymbolOrder(a: nat, b: nat)
    requires a < 32 && b < 32
    ensures a < b <==> Symbol(a) < Symbol(b)
  {
  }

  // ----- the digits of a name and its text

  function Digits(value: nat): seq<nat> { Unrank(Radix(), value) }

  ghost predicate IsDigits(d: seq<nat>) { IsIndex(Radix(), d) }

  // The number of digits up to the last one that is not zero.
  function Significant(d: seq<nat>): (n: nat)
    ensures n <= |d|
    ensures n > 0 ==> d[n-1] != 0
    ensures forall i :: n <= i < |d| ==> d[i] == 0
  {
    if d == [] then 0 else if d[|d|-1] != 0 then |d| else Significant(d[..|d|-1])
  }

  function Chars(d: seq<nat>): (s: string)
    requires forall i :: 0 <= i < |d| ==> d[i] < 32
    ensures |s| == |d| && forall i :: 0 <= i < |d| ==> s[i] == Symbol(d[i])
  {
    seq(|d|, i requires 0 <= i < |d| => Symbol(d[i]))
  }

  lemma DigitsAreIndex(value: nat)
    requires value < CAP
    ensures IsDigits(Digits(value)) && Rank(Radix(), Digits(value)) == value
  {
    RadixProduct();
    UnrankIsIndex(Radix(), value);
  }

  // The string of a name: its characters without trailing dots.
  ghost function Text(value: nat): (s: string)
    requires value < CAP
    ensures |s| <= 13
  {
    DigitsAreIndex(value);
    Chars(Digits(value)[..Significant(Digits(value))])
  }

  // ----- weights

  // How many digit vectors there are behind position i.
  function Weight(i: nat): nat
    requires i <= 13
  {
    Product(Radix()[i..])
  }

  lemma WeightLast()
    ensures Weight(12) == 16
  {
    assert Radix()[12..] == [16];
    assert Product([16]) == 16 by { assert [16][..0] == []; }
  }

  lemma {:induction false} WeightIsPow2(i: nat)
    requires i <= 12
    ensures Weight(i) == Pow2(64 - 5 * i)
    decreases 12 - i
  {
    hide Weight, Pow2, Radix;
    if i == 12 {
      WeightLast();
      Pow2Small();
    } else {
      WeightIsPow2(i + 1);
      WeightStep(i);
      Pow2Times32(64 - 5 * (i + 1));
      assert 64 - 5 * (i + 1) + 5 == 64 - 5 * i;
    }
  }

  lemma WeightStep(i: nat)
    requires i < 13
    ensures Weight(i) == Radix()[i] * Weight(i + 1)
  {
    ProductSplit(Radix()[i..], 1);
    assert Radix()[i..][..1] == [Radix()[i]] && Radix()[i..][1..] == Radix()[i+1..];
    assert [Radix()[i]][..0] == [];
  }

  lemma Pow2Times32(n: nat)
    ensures Pow2(n + 5) == 32 * Pow2(n)
  {
    assert Pow2(n + 5) == 2 * Pow2(n + 4) == 4 * Pow2(n + 3);
    assert Pow2(n + 3) == 2 * Pow2(n + 2) == 4 * Pow2(n + 1);
  }

  lemma {:induction false} Pow2Add(a: nat, b: nat)
    ensures Pow2(a + b) == Pow2(a) * Pow2(b)
  {
    if a == 0 {
    } else {
      Pow2Add(a - 1, b);
      Associate(2, Pow2(a - 1), Pow2(b));
    }
  }

  lemma Pow2Cap()
    ensures Pow2(64) == CAP && Pow2(59) == CAP / 32 && Pow2(60) == CAP / 16 && Pow2(4) == 16
  {
    hide Pow2;
    Pow2Small();
    Pow2Times32(4);
    Pow2Times32(9);
    Pow2Times32(14);
    Pow2Times32(19);
    Pow2Times32(24);
    Pow2Times32(29);
    Pow2Times32(34);
    Pow2Times32(39);
    Pow2Times32(44);
    Pow2Times32(49);
    Pow2Times32(54);
    Pow2Times32(59);
  }

  lemma Pow2Small()
    ensures Pow2(4) == 16 && Pow2(60) == 2 * Pow2(59)
  {
    assert Pow2(4) == 2 * Pow2(3) == 4 * Pow2(2) == 8 * Pow2(1);
  }

  lemma RadixProduct()
    ensures Product(Radix()) == CAP
  {
    WeightIsPow2(0);
    Pow2Cap();
    assert Radix()[0..] == Radix();
  }

  // ----- shifting a name left, one character at a time

  // The value of the digits from position i on.
  function Rest(d: seq<nat>, i: nat): nat
    requires |d| == 13 && i <= 13
  {
    Rank(Radix()[i..], d[i..])
  }

  lemma FrontDigit(d: seq<nat>, i: nat)
    requires IsDigits(d) && i < 13
    ensures Rest(d, i) == d[i] * Weight(i + 1) + Rest(d, i + 1)
    ensures Rest(d, i + 1) < Weight(i + 1)
  {
    hide Rank, Product, Radix;
    assert |d| == 13;
    var radix := Radix();
    RankSplit(radix[i..], d[i..], 1);
    assert d[i..][..1] == [d[i]] && d[i..][1..] == d[i+1..];
    assert radix[i..][..1] == [radix[i]] && radix[i..][1..] == radix[i+1..];
    RankOne(radix[i], d[i]);
    RankIsNumbering(radix[i+1..], d[i+1..]);
  }

  lemma RankOne(n: nat, x: nat)
    ensures Rank([n], [x]) == x
  {
    assert [n][..0] == [] && [x][..0] == [];
  }

  lemma ZeroSum(a: nat, w: nat, r: nat)
    requires r < w
    ensures a * w + r == 0 <==> a == 0 && r == 0
  {
    ScaleBounds(w, a);
  }

  lemma RestPastEnd(d: seq<nat>)
    requires |d| == 13
    ensures Rest(d, 13) == 0
  {
  }

  lemma {:induction false} RestZero(d: seq<nat>, i: nat)
    requires IsDigits(d) && i <= 13
    ensures Rest(d, i) == 0 <==> forall j :: i <= j < 13 ==> d[j] == 0
    decreases 13 - i
  {
    hide Rest, Weight, Radix;
    if i == 13 {
      RestPastEnd(d);
    } else {
      RestZero(d, i + 1);
      FrontDigit(d, i);
      ZeroSum(d[i], Weight(i + 1), Rest(d, i + 1));
    }
  }

  // The word is its first i characters, weighted, and the rest.
  lemma SplitAt(d: seq<nat>, i: nat)
    requires IsDigits(d) && i <= 12
    ensures Rank(Radix(), d) == Rank(Radix()[..i], d[..i]) * Pow2(64 - 5 * i) + Rest(d, i)
    ensures Rest(d, i) < Pow2(64 - 5 * i)
  {
    RankIsNumbering(Radix()[i..], d[i..]);
    hide Rank, Pow2, Product, Radix;
    WeightIsPow2(i);
    RankSplit(Radix(), d, i);
  }

  // What is left of the word after i characters have been shifted out at the top.
  function Shifted(d: seq<nat>, i: nat): nat
    requires |d| == 13 && i <= 13
  {
    if i == 13 then 0 else Rest(d, i) * Pow2(5 * i)
  }

  lemma ShiftedSplit(d: seq<nat>, i: nat)
    requires IsDigits(d) && i < 12
    ensures Shifted(d, i) == d[i] * Pow2(59) + Rest(d, i + 1) * Pow2(5 * i)
    ensures Rest(d, i + 1) * Pow2(5 * i) < Pow2(59)
  {
    hide Pow2, Rest, Weight;
    FrontDigit(d, i);
    WeightIsPow2(i + 1);
    Pow2Add(64 - 5 * (i + 1), 5 * i);
    Distribute(d[i] * Weight(i + 1), Rest(d, i + 1), Pow2(5 * i));
    Associate(d[i], Weight(i + 1), Pow2(5 * i));
    Below(Rest(d, i + 1), Weight(i + 1), Pow2(5 * i));
  }

  // The character at the top of the shifted word, and the next shift.
  lemma ShiftStep(d: seq<nat>, i: nat)
    requires IsDigits(d) && i < 12
    ensures Shifted(d, i) / Pow2(59) == d[i] && Shifted(d, i) < CAP
    ensures Shifted(d, i) * 32 % CAP == Shifted(d, i + 1)
  {
    hide Pow2, Rest;
    var low := Rest(d, i + 1) * Pow2(5 * i);
    ShiftedSplit(d, i);
    Pow2Cap();
    DivModUnique(Shifted(d, i), Pow2(59), d[i], low);
    DivModUnique(Shifted(d, i) * 32, CAP, d[i], low * 32);
    Pow2Times32(5 * i);
    Associate(Rest(d, i + 1), Pow2(5 * i), 32);
  }

  lemma Below(a: nat, b: nat, p: nat)
    requires a < b && p > 0
    ensures a * p < b * p
  {
    RankCarries(a, b, p, 0, 0);
  }

  lemma LastShift(d: seq<nat>)
    requires IsDigits(d)
    ensures Shifted(d, 12) == d[12] * Pow2(60) && Shifted(d, 12) * 32 % CAP == Shifted(d, 13)
      && Shifted(d, 12) / Pow2(60) == d[12]
    ensures Shifted(d, 12) < CAP
  {
    FrontDigit(d, 12);
    assert d[13..] == [] && Radix()[13..] == [];
    Pow2Cap();
    DivModUnique(Shifted(d, 12), Pow2(60), d[12], 0);
    DivModUnique(Shifted(d, 12) * 32, CAP, 2 * d[12], 0);
  }

  lemma ShiftedZero(d: seq<nat>, i: nat)
    requires IsDigits(d) && i <= 12
    ensures Shifted(d, i) == 0 <==> forall j :: i <= j < 13 ==> d[j] == 0
  {
    RestZero(d, i);
    ScaleBounds(Pow2(5 * i), Rest(d, i));
  }

  // ----- printing

  lemma SignificantAt(d: seq<nat>, i: nat)
    requires i <= |d|
    ensures (forall j :: i <= j < |d| ==> d[j] == 0) <==> Significant(d) <= i
  {
  }

  // The index into charmap: the top five bits of the word, of which the last character uses four.
  function TopIndex(v: nat, i: nat): nat {
    v / (CAP / 32) * (CAP / 32) / (if i == 12 then CAP / 16 else CAP / 32)
  }

  lemma TopIndexPlain(v: nat, i: nat)
    ensures TopIndex(v, i) == v / (if i == 12 then CAP / 16 else CAP / 32)
  {
    RoundedDown(v, CAP / 32);
  }

  lemma RoundedDown(v: nat, c: nat)
    requires c > 0
    ensures v / c * c / c == v / c && v / c * c / (2 * c) == v / (2 * c)
  {
    var q := v / c;
    DivModEquation(v, c);
    DivModUnique(q * c, c, q, 0);
    var h, b := q / 2, q % 2;
    assert q * c == 2 * c * h + b * c by { assert q == h * 2 + b; Distribute(h * 2, b, c); Associate(h, 2, c); }
    MulMonotone(b, 1, c);
    DivModUnique(q * c, 2 * c, h, b * c);
    DivModUnique(v, 2 * c, h, b * c + v % c);
  }

  lemma NextChar(d: seq<nat>, i: nat)
    requires IsDigits(d) && i < 13
    ensures TopIndex(Shifted(d, i), i) == d[i] < 32
    ensures Shifted(d, i) * 32 % CAP == Shifted(d, i + 1)
  {
    hide Pow2, Shifted, TopIndex;
    TopIndexPlain(Shifted(d, i), i);
    Pow2Cap();
    if i < 12 { ShiftStep(d, i); } else { LastShift(d); }
  }

  /** Writes the text of the name at begin, unless fewer than thirteen characters of room are left. */
  method WriteAsString(value: nat, buffer: array<char>, begin: nat, end: nat) returns (pos: nat)
    requires value < CAP && begin <= end <= buffer.Length
    modifies buffer
    ensures begin + 13 > end ==> pos == begin && buffer[..] == old(buffer[..])
    ensures begin + 13 <= end ==> begin <= pos <= end && buffer[begin..pos] == Text(value)
    ensures forall j :: 0 <= j < buffer.Length && !(begin <= j < pos) ==> buffer[j] == old(buffer[j])
  {
    hide Pow2, Rank, Unrank, Shifted, TopIndex, Symbol;
    if begin + 13 > end { return begin; }
    DigitsAreIndex(value);
    ghost var d := Digits(value);
    ShiftedStart(value);
    pos := begin;
    var v := value;
    for i := 0 to 13
      invariant v == Shifted(d, i) && pos == begin + i && i <= Significant(d)
      invariant forall j :: 0 <= j < i ==> buffer[begin + j] == Symbol(d[j])
      invariant forall j :: 0 <= j < buffer.Length && !(begin <= j < pos) ==> buffer[j] == old(buffer[j])
    {
      ShiftedZero(d, i);
      SignificantAt(d, i);
      if v == 0 {
        assert buffer[begin..pos] == Text(value);
        return;
      }
      NextChar(d, i);
      var indx := TopIndex(v, i);
      buffer[pos] := Symbol(indx);
      pos := pos + 1;
      v := v * 32 % CAP;
    }
    assert buffer[begin..pos] == Text(value);
  }

  lemma ShiftedStart(value: nat)
    requires value < CAP
    ensures Shifted(Digits(value), 0) == value
  {
    DigitsAreIndex(value);
    assert Radix()[0..] == Radix() && Digits(value)[0..] == Digits(value);
  }

  /** length() is the length of the text. */
  method Length(value: nat) returns (len: nat)
    requires value < CAP
    ensures len == |Text(value)|
  {
    hide Pow2, Rank, Unrank, Shifted;
    DigitsAreIndex(value);
    ghost var d := Digits(value);
    ShiftedStart(value);
    ShiftedZero(d, 0);
    Pow2Cap();
    if value == 0 { return 0; }
    var l := 0;
    var v := value;
    for i := 0 to 13
      invariant v == Shifted(d, i)
      invariant forall j :: l < j < i ==> d[j] == 0
      invariant l < 13 && (l > 0 ==> l < i && d[l] != 0)
    {
      if i < 12 { ShiftStep(d, i); } else { LastShift(d); }
      if v / (CAP / 32) > 0 { l := i; }
      v := v * 32 % CAP;
    }
    SignificantAt(d, l + 1);
    return l + 1;
  }

  // ----- parsing

  // What the string constructor accepts: at most thirteen characters of the alphabet, the thirteenth at most 'j'.
  predicate ValidName(s: string) {
    && |s| <= 13
    && (forall i :: 0 <= i < |s| ==> CharValue(s[i]).Some?)
    && (|s| == 13 ==> CharValue(s[12]).value <= 15)
  }

  // The digits of a valid string, padded with dots.
  function Code(s: string): (d: seq<nat>)
    requires ValidName(s)
    ensures |d| == 13
  {
    seq(13, i requires 0 <= i < 13 => if i < |s| then CharValue(s[i]).value else 0)
  }

  function Encode(s: string): nat
    requires ValidName(s)
  {
    Rank(Radix(), Code(s))
  }

  lemma CodeIsDigits(s: string)
    requires ValidName(s)
    ensures IsDigits(Code(s)) && Encode(s) < CAP && Digits(Encode(s)) == Code(s)
  {
    forall i | 0 <= i < |s|
      ensures CharValue(s[i]).value < 32
    {
      CharValueRoundTrip(s[i]);
    }
    RankIsNumbering(Radix(), Code(s));
    RadixProduct();
  }

  lemma PrefixGrows(d: seq<nat>, i: nat)
    requires |d| == 13 && i < 12
    ensures Rank(Radix()[..i+1], d[..i+1]) == Rank(Radix()[..i], d[..i]) * 32 + d[i]
  {
    assert Radix()[..i+1][..i] == Radix()[..i] && d[..i+1][..i] == d[..i];
  }

  lemma PrefixFits(d: seq<nat>, i: nat)
    requires IsDigits(d) && i <= 12
    ensures Rank(Radix()[..i], d[..i]) < CAP
  {
    hide Rank, Product;
    RankIsNumbering(Radix()[..i], d[..i]);
    ProductSplit(Radix(), i);
    RadixProduct();
    WeightIsPow2(i);
    MulMonotone(1, Weight(i), Product(Radix()[..i]));
  }

  lemma PrefixShifted(d: seq<nat>, n: nat)
    requires IsDigits(d) && n <= 12 && forall i :: n <= i < 12 ==> d[i] == 0
    requires n < 12 ==> d[12] == 0
    ensures Rank(Radix()[..n], d[..n]) * Pow2(4 + 5 * (12 - n)) + d[12] == Rank(Radix(), d) < CAP
  {
    hide Rank, Pow2, Product, Radix;
    SplitAt(d, n);
    RankIsNumbering(Radix(), d);
    RadixProduct();
    if n == 12 { LastRest(d); } else { RestZero(d, n); }
  }

  // The word that the first n characters and the thirteenth make.
  lemma Assembled(s: string, n: nat)
    requires ValidName(s) && n == if |s| < 12 then |s| else 12
    ensures Rank(Radix()[..n], Code(s)[..n]) * Pow2(4 + 5 * (12 - n)) % CAP + Code(s)[12] == Encode(s)
  {
    hide Rank, Pow2, Radix;
    CodeIsDigits(s);
    PrefixShifted(Code(s), n);
  }

  lemma LastRest(d: seq<nat>)
    requires IsDigits(d)
    ensures Rest(d, 12) == d[12]
  {
    FrontDigit(d, 12);
    assert d[13..] == [] && Radix()[13..] == [];
  }

  /** The string constructor: None exactly where it aborts, and otherwise the packed characters. Setting bits that are
      still zero is addition. */
  method FromString(str: string) returns (r: Option<nat>)
    ensures r.Some? <==> ValidName(str)
    ensures r.Some? ==> r.value == Encode(str)
  {
    hide Pow2, Rank, Product, CharValue, Radix;
    if |str| > 13 { return None; }
    if |str| == 0 {
      EmptyName(str);
      return Some(0);
    }
    var n := if |str| < 12 then |str| else 12;
    RankEmpty();
    ghost var d := if ValidName(str) then Code(str) else [];
    if ValidName(str) { CodeIsDigits(str); }
    var value := 0;
    for i := 0 to n
      invariant forall j :: 0 <= j < i ==> CharValue(str[j]).Some?
      invariant ValidName(str) ==> value == Rank(Radix()[..i], d[..i])
    {
      var c := CharValue(str[i]);
      if c.None? { return None; }
      if ValidName(str) {
        PrefixGrows(d, i);
        PrefixFits(d, i + 1);
      }
      value := value * 32 % CAP + c.value;
    }
    var thirteenth := 0;
    if |str| == 13 {
      var c := CharValue(str[12]);
      if c.None? { return None; }
      thirteenth := c.value;
      if thirteenth > 0x0F { return None; }
    }
    Assembled(str, n);
    return Some(value * Pow2(4 + 5 * (12 - n)) % CAP + thirteenth);
  }

  lemma RankEmpty()
    ensures Rank([], []) == 0
  {
  }

  lemma EmptyName(s: string)
    requires s == ""
    ensures ValidName(s) && Encode(s) == 0
  {
    RestZero(Code(s), 0);
    assert Radix()[0..] == Radix() && Code(s)[0..] == Code(s);
  }

  // The string without its trailing dots.
  function StripDots(s: string): string {
    if s != [] && s[|s|-1] == '.' then StripDots(s[..|s|-1]) else s
  }

  /** Constructing a name from its own text gives the name back. */
  lemma EncodeText(value: nat)
    requires value < CAP
    ensures ValidName(Text(value)) && Encode(Text(value)) == value
  {
    DigitsAreIndex(value);
    var d, s := Digits(value), Text(value);
    forall i | 0 <= i < |s|
      ensures CharValue(s[i]) == Some(d[i])
    {
      SymbolRoundTrip(d[i]);
    }
    assert Code(s) == d;
  }

  /** The text of a name made from a valid string is that string without trailing dots. */
  lemma TextEncode(s: string)
    requires ValidName(s)
    ensures Encode(s) < CAP && Text(Encode(s)) == StripDots(s)
  {
    CodeIsDigits(s);
    forall i | 0 <= i < |s|
      ensures CharValue(s[i]).value < 32 && Symbol(Code(s)[i]) == s[i]
    {
      CharValueRoundTrip(s[i]);
    }
    StripIsSignificant(s, |s|);
    assert s[..|s|] == s;
  }

  lemma {:induction false} StripIsSignificant(s: string, n: nat)
    requires ValidName(s) && n <= |s| && Significant(Code(s)) <= n
    ensures Significant(Code(s)) <= |s| && StripDots(s[..n]) == s[..Significant(Code(s))]
  {
    hide Significant;
    if n == 0 {
      assert Significant(Code(s)) == 0 && s[..n] == [];
    } else {
      var k := Significant(Code(s));
      CodeOf(s, n - 1);
      if s[n-1] == '.' {
        SignificantAt(Code(s), n - 1);
        assert s[..n][..n-1] == s[..n-1];
        StripIsSignificant(s, n - 1);
      } else {
        SignificantAt(Code(s), n - 1);
        assert k == n && s[..n] == s[..k];
      }
    }
  }

  lemma CodeOf(s: string, i: nat)
    requires ValidName(s) && i < |s|
    ensures Code(s)[i] < 32 && Symbol(Code(s)[i]) == s[i] && (Code(s)[i] == 0 <==> s[i] == '.')
  {
    CharValueRoundTrip(s[i]);
    SymbolRoundTrip(Code(s)[i]);
  }

  // ----- the suffix

  // The string behind its last dot, or the whole string when it has none.
  function AfterLastDot(s: string): string {
    if s == [] || s[|s|-1] == '.' then [] else AfterLastDot(s[..|s|-1]) + [s[|s|-1]]
  }

  // One more than the position of the last zero digit, 0 if there is none.
  function AfterLastZero(d: seq<nat>): (k: nat)
    ensures k <= |d| && (k > 0 ==> d[k-1] == 0)
    ensures forall i :: k <= i < |d| ==> d[i] != 0
  {
    if d == [] then 0 else if d[|d|-1] == 0 then |d| else AfterLastZero(d[..|d|-1])
  }

  // remaining_bits for a dot whose text continues at position k; 0 stands for no dot.
  function Bits(k: nat): nat
    requires k <= 12
  {
    if k == 0 then 0 else 64 - 5 * k
  }

  // How many characters suffix() drops.
  function Dropped(d: seq<nat>): (k: nat)
    ensures k <= |d| && (k < |d| || k == 0)
  {
    AfterLastZero(d[..Significant(d)])
  }

  // The word with its first k characters dropped and the rest moved to the front.
  function Moved(d: seq<nat>, k: nat): (r: seq<nat>)
    requires k <= |d|
    ensures |r| == |d|
  {
    d[k..] + seq(k, _ => 0)
  }

  lemma DigitBounds(d: seq<nat>)
    requires IsDigits(d)
    ensures |d| == 13 && d[12] < 16 && forall i :: 0 <= i < 12 ==> d[i] < 32
  {
  }

  lemma Pow2Double(n: nat)
    requires n > 0
    ensures Pow2(n) == 2 * Pow2(n - 1)
  {
  }

  lemma DigitByShift(d: seq<nat>, i: nat)
    requires |d| == 13 && IsDigits(d) && i < 12
    ensures Rank(Radix(), d) / Pow2(59 - 5 * i) % 32 == d[i]
  {
    hide *;
    DigitBounds(d);
    var w, front := Pow2(59 - 5 * i), Rank(Radix()[..i+1], d[..i+1]);
    SplitBehind(d, i, w);
    PrefixGrows(d, i);
    ExtractDigit(Rank(Radix(), d), w, front, Rank(Radix()[..i], d[..i]), d[i], Rest(d, i + 1));
  }

  lemma SplitBehind(d: seq<nat>, i: nat, w: nat)
    requires IsDigits(d) && i < 12 && w == Pow2(59 - 5 * i)
    ensures Rank(Radix(), d) == Rank(Radix()[..i+1], d[..i+1]) * w + Rest(d, i + 1) && Rest(d, i + 1) < w
  {
    hide *;
    assert 64 - 5 * (i + 1) == 59 - 5 * i;
    SplitAt(d, i + 1);
  }

  lemma ExtractDigit(n: nat, w: nat, front: nat, q: nat, x: nat, r: nat)
    requires w > 0 && n == front * w + r && front == q * 32 + x && x < 32 && r < w
    ensures n / w % 32 == x
  {
    DivModUnique(n, w, front, r);
    DivModUnique(front, 32, q, x);
  }

  lemma CharsSnoc(y: seq<nat>, c: nat)
    requires c < 32 && forall i :: 0 <= i < |y| ==> y[i] < 32
    ensures Chars(y + [c]) == Chars(y) + [Symbol(c)]
  {
  }

  lemma AfterLastDotSnoc(s: string, c: char)
    ensures AfterLastDot(s + [c]) == if c == '.' then [] else AfterLastDot(s) + [c]
  {
    assert (s + [c])[..|s|] == s;
  }

  lemma AfterLastZeroSnoc(y: seq<nat>, x: nat)
    ensures AfterLastZero(y + [x]) == if x == 0 then |y| + 1 else AfterLastZero(y)
  {
    assert (y + [x])[..|y|] == y;
  }

  lemma NothingAfterNothing()
    ensures AfterLastDot(Chars([])) == [] == Chars([]) && AfterLastZero([]) == 0
  {
  }

  lemma {:induction false} AfterLastDotOfChars(x: seq<nat>)
    requires forall i :: 0 <= i < |x| ==> x[i] < 32
    ensures AfterLastDot(Chars(x)) == Chars(x[AfterLastZero(x)..])
  {
    hide Symbol, Chars, AfterLastDot, AfterLastZero;
    if x == [] {
      NothingAfterNothing();
    } else {
      var y, c := x[..|x|-1], x[|x|-1];
      var k := AfterLastZero(y);
      assert x == y + [c];
      SymbolRoundTrip(c);
      CharsSnoc(y, c);
      AfterLastDotSnoc(Chars(y), Symbol(c));
      AfterLastZeroSnoc(y, c);
      if c == 0 {
        assert x[|x|..] == [];
        NothingAfterNothing();
      } else {
        AfterLastDotOfChars(y);
        CharsSnoc(y[k..], c);
        assert x[k..] == y[k..] + [c];
      }
    }
  }

  lemma MovedNothing(d: seq<nat>)
    ensures Moved(d, 0) == d
  {
  }

  lemma SignificantIs(d: seq<nat>, n: nat)
    requires n <= |d| && (n > 0 ==> d[n-1] != 0) && forall i :: n <= i < |d| ==> d[i] == 0
    ensures Significant(d) == n
  {
  }

  lemma MovedDigits(d: seq<nat>, k: nat)
    requires k <= |d|
    ensures forall i :: 0 <= i < |d| ==> Moved(d, k)[i] == if i + k < |d| then d[i+k] else 0
  {
  }

  lemma MovedSignificant(d: seq<nat>)
    requires |d| == 13
    ensures var m := Moved(d, Dropped(d)); m[..Significant(m)] == d[..Significant(d)][Dropped(d)..]
  {
    hide AfterLastZero, Significant, Moved;
    var n, k := Significant(d), Dropped(d);
    var m := Moved(d, k);
    MovedDigits(d, k);
    SignificantIs(m, n - k);
    assert forall i :: 0 <= i < n - k ==> m[i] == d[i+k];
  }

  lemma MovedText(d: seq<nat>)
    requires |d| == 13 && forall i :: 0 <= i < 13 ==> d[i] < 32
    ensures forall i :: 0 <= i < 13 ==> Moved(d, Dropped(d))[i] < 32
    ensures Chars(Moved(d, Dropped(d))[..Significant(Moved(d, Dropped(d)))]) == AfterLastDot(Chars(d[..Significant(d)]))
  {
    hide Symbol, Significant, AfterLastZero, AfterLastDot, Chars;
    MovedSignificant(d);
    AfterLastDotOfChars(d[..Significant(d)]);
  }

  lemma RestLast(d: seq<nat>, k: nat)
    requires IsDigits(d) && 1 <= k <= 12
    ensures Rest(d, k) == Rank(Radix()[..12-k], d[k..12]) * 16 + d[12]
  {
    hide Rank;
    RankSnoc(Radix()[k..], d[k..]);
    assert Radix()[k..][..12-k] == Radix()[..12-k] && d[k..][..12-k] == d[k..12];
  }

  lemma RestIsRemainder(d: seq<nat>, k: nat)
    requires |d| == 13 && IsDigits(d) && 1 <= k <= 12
    ensures Rank(Radix(), d) % Pow2(64 - 5 * k) == Rest(d, k)
  {
    hide *;
    SplitAt(d, k);
    RemainderOf(Rank(Radix(), d), Rank(Radix()[..k], d[..k]), Pow2(64 - 5 * k), Rest(d, k));
  }

  lemma RemainderOf(n: nat, q: nat, w: nat, r: nat)
    requires n == q * w + r && r < w
    ensures n % w == r
  {
    DivModUnique(n, w, q, r);
  }

  lemma MovedIsDigits(d: seq<nat>, k: nat)
    requires IsDigits(d) && 1 <= k <= 12
    ensures IsDigits(Moved(d, k))
  {
  }

  lemma MovedFront(d: seq<nat>, k: nat)
    requires |d| == 13 && 1 <= k <= 12
    ensures Rank(Radix()[..13-k], Moved(d, k)[..13-k]) == Rank(Radix()[..12-k], d[k..12]) * 32 + d[12]
  {
    var m := Moved(d, k);
    assert m[..12-k] == d[k..12] && m[12-k] == d[12];
    PrefixGrows(m, 12 - k);
  }

  lemma MovedBack(d: seq<nat>, k: nat)
    requires IsDigits(d) && 1 <= k <= 12
    ensures Rank(Radix()[13-k..], Moved(d, k)[13-k..]) == 0 && Product(Radix()[13-k..]) == Pow2(5 * k - 1)
  {
    hide Rank, Pow2, Product, Radix;
    MovedIsDigits(d, k);
    RestZero(Moved(d, k), 13 - k);
    WeightIsPow2(13 - k);
  }

  lemma MovedRank(d: seq<nat>, k: nat)
    requires |d| == 13 && IsDigits(d) && 1 <= k <= 12
    ensures Rank(Radix(), Moved(d, k)) == (Rank(Radix()[..12-k], d[k..12]) * 32 + d[12]) * Pow2(5 * k - 1)
  {
    hide *;
    RankSplit(Radix(), Moved(d, k), 13 - k);
    MovedFront(d, k);
    MovedBack(d, k);
  }

  lemma SuffixArithmetic(n: nat, u: nat, e: nat, p: nat, p2: nat, word: nat)
    requires e < 16 && n == u * 16 + e && p2 == 2 * p && word == (u * 32 + e) * p
    ensures n / 16 * 16 * p2 + e * p == word
  {
    DivModUnique(n, 16, u, e);
    Distribute(u * 32, e, p);
    Associate(u, 32, p);
    Associate(u, 16, p2);
  }

  // The word that suffix() builds is the one whose characters are moved to the front.
  lemma SuffixValue(d: seq<nat>, k: nat)
    requires |d| == 13 && IsDigits(d) && 1 <= k <= 12
    ensures Rank(Radix(), d) % Pow2(64 - 5 * k) / 16 * 16 * Pow2(5 * k) + d[12] * Pow2(5 * k - 1)
         == Rank(Radix(), Moved(d, k))
  {
    hide *;
    DigitBounds(d);
    Pow2Double(5 * k);
    RestLast(d, k);
    RestIsRemainder(d, k);
    MovedRank(d, k);
    SuffixArithmetic(Rank(Radix(), d) % Pow2(64 - 5 * k), Rank(Radix()[..12-k], d[k..12]), d[12], Pow2(5 * k - 1),
      Pow2(5 * k), Rank(Radix(), Moved(d, k)));
  }

  lemma MovedIsWord(d: seq<nat>, k: nat)
    requires IsDigits(d) && 1 <= k <= 12
    ensures Rank(Radix(), Moved(d, k)) < CAP && Digits(Rank(Radix(), Moved(d, k))) == Moved(d, k)
  {
    MovedIsDigits(d, k);
    hide Rank, Pow2, Product, Radix, Moved;
    RankIsNumbering(Radix(), Moved(d, k));
    RadixProduct();
  }

  lemma LastDigit(d: seq<nat>)
    requires IsDigits(d)
    ensures Rank(Radix(), d) % 16 == d[12]
  {
    DivModUnique(Rank(Radix(), d), 16, Rank(Radix()[..12], d[..12]), d[12]);
  }

  // What suffix()'s loop knows after the first i characters: the last dot so far, and the last one that a character
  // other than a dot follows.
  ghost predicate Scanned(d: seq<nat>, i: nat, tmp: nat, remaining: nat) {
    && i <= |d| == 13
    && AfterLastZero(d[..i]) <= 12 && tmp == Bits(AfterLastZero(d[..i]))
    && Dropped(d[..i]) <= 12 && remaining == Bits(Dropped(d[..i]))
  }

  lemma ScanStart(d: seq<nat>)
    requires |d| == 13
    ensures Scanned(d, 0, 0, 0)
  {
    assert d[..0] == [];
  }

  lemma ScanStep(d: seq<nat>, i: nat, tmp: nat, remaining: nat)
    requires Scanned(d, i, tmp, remaining) && i < 12
    ensures Scanned(d, i + 1, if d[i] == 0 then 59 - 5 * i else tmp, if d[i] == 0 then remaining else tmp)
  {
    var e := d[..i+1];
    assert e[..i] == d[..i];
    assert d[i] == 0 ==> AfterLastZero(e) == i + 1;
    assert d[i] == 0 ==> e[..Significant(e)] == d[..i][..Significant(d[..i])];
    assert d[i] != 0 ==> e[..Significant(e)] == e;
  }

  lemma ScanLast(d: seq<nat>, tmp: nat, remaining: nat)
    requires Scanned(d, 12, tmp, remaining)
    ensures Dropped(d) <= 12 && Bits(Dropped(d)) == if d[12] == 0 then remaining else tmp
  {
    assert d[..13] == d;
    assert d[12] == 0 ==> d[..Significant(d)] == d[..12][..Significant(d[..12])];
  }

  /** suffix() is the name of the text behind the last dot. Bits that cannot overlap are joined by addition. */
  method Suffix(value: nat) returns (r: nat)
    requires value < CAP
    ensures r < CAP && Text(r) == AfterLastDot(Text(value))
  {
    hide Rank, Unrank, Product, Pow2, Significant, Symbol, Scanned, Dropped, AfterLastDot, Radix, Moved, Chars;
    MovedNothing(Digits(value));
    DigitsAreIndex(value);
    ghost var d := Digits(value);
    var remaining, tmp := 0, 0;
    var bits := 59;
    ghost var i := 0;
    ScanStart(d);
    while bits >= 4
      invariant 0 <= i <= 12 && bits == 59 - 5 * i && Scanned(d, i, tmp, remaining)
    {
      DigitByShift(d, i);
      ScanStep(d, i, tmp, remaining);
      var c := value / Pow2(bits) % 32;
      if c == 0 { tmp := bits; } else { remaining := tmp; }
      bits := bits - 5;
      i := i + 1;
    }
    LastDigit(d);
    ScanLast(d, tmp, remaining);
    var thirteenth := value % 16;
    if thirteenth != 0 { remaining := tmp; }
    MovedText(d);
    if remaining == 0 {
      return value;
    }
    var shift := 64 - remaining;
    SuffixValue(d, Dropped(d));
    MovedIsWord(d, Dropped(d));
    r := value % Pow2(remaining) / 16 * 16 * Pow2(shift) + thirteenth * Pow2(shift - 1);
  }

  // ----- order

  // Strings that agree before position i, where a ends or has the smaller character.
  predicate LessAt(a: string, b: string, i: nat) {
    i <= |a| && i < |b| && (forall k :: 0 <= k < i ==> a[k] == b[k]) && (i == |a| || a[i] < b[i])
  }

  // Lexicographic order of strings by character code, a proper prefix first.
  ghost predicate AsciiLess(a: string, b: string) {
    exists i :: LessAt(a, b, i)
  }

  lemma TextLess(d: seq<nat>, e: seq<nat>, a: string, b: string, i: nat)
    requires |d| == |e| == 13 && i < 13 && d[i] < e[i] && forall k :: 0 <= k < i ==> d[k] == e[k]
    requires forall k :: 0 <= k < 13 ==> d[k] < 32 && e[k] < 32
    requires a == Chars(d[..Significant(d)]) && b == Chars(e[..Significant(e)])
    ensures AsciiLess(a, b)
  {
    SymbolOrder(d[i], e[i]);
    assert i < |b|;
    assert LessAt(a, b, if i < |a| then i else |a|);
  }

  lemma DigitsLess(v: nat, w: nat)
    requires v < CAP && w < CAP && v < w
    ensures AsciiLess(Text(v), Text(w))
  {
    hide Rank, Unrank, Significant;
    DigitsAreIndex(v);
    DigitsAreIndex(w);
    var d, e := Digits(v), Digits(w);
    RankIsRowMajor(Radix(), d, e);
    var i :| 0 <= i < 13 && d[..i] == e[..i] && d[i] < e[i];
    forall k | 0 <= k < i
      ensures d[k] == e[k]
    {
      assert d[..i][k] == e[..i][k];
    }
    TextLess(d, e, Text(v), Text(w), i);
  }

  lemma AsciiAsymmetric(a: string, b: string)
    requires AsciiLess(a, b)
    ensures !AsciiLess(b, a) && a != b
  {
    var i :| LessAt(a, b, i);
    assert forall j :: LessAt(b, a, j) ==> i <= j && j <= i;
  }

  /** Names compare as their texts do. */
  lemma OrderAgrees(v: nat, w: nat)
    requires v < CAP && w < CAP
    ensures v < w <==> AsciiLess(Text(v), Text(w))
  {
    if v < w {
      DigitsLess(v, w);
    } else if AsciiLess(Text(v), Text(w)) {
      AsciiAsymmetric(Text(v), Text(w));
      if w < v { DigitsLess(w, v); }
    }
  }
}
