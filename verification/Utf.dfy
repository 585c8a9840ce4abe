/**
  * UTF-8, UTF-16 and code points: what the conversions between narrow and wide strings mean.
  * UTF-8 is as in sections 3 and 4 of RFC 3629, UTF-16 as in sections 2.1 and 2.2 of RFC 2781.
  */
module Utf {
  import opened Common

  /** A wide character, as the unsigned 32-bit value it is converted to. */
  type Unit = bv32

  const REPLACEMENT: bv32 := 0xFFFD

  predicate IsHighSurrogate(c: bv32) {
    0xD800 <= c <= 0xDBFF
  }

  predicate IsLowSurrogate(c: bv32) {
    0xDC00 <= c <= 0xDFFF
  }

  predicate IsSurrogate(c: bv32) {
    0xD800 <= c <= 0xDFFF
  }

  /** A Unicode scalar value: what a character can be. */
  predicate IsScalar(c: bv32) {
    c <= 0x10FFFF && !IsSurrogate(c)
  }

  predicate AllScalar(cs: seq<bv32>) {
    forall i :: 0 <= i < |cs| ==> IsScalar(cs[i])
  }

  // ----- UTF-8: bytes of one character -----

  function Lead2(c: bv32): Byte { (0xC0 | ((c >> 6) & 0x1F)) as Byte }
  function Lead3(c: bv32): Byte { (0xE0 | ((c >> 12) & 0x0F)) as Byte }
  function Lead4(c: bv32): Byte { (0xF0 | ((c >> 18) & 0x07)) as Byte }
  function Tail0(c: bv32): Byte { (0x80 | (c & 0x3F)) as Byte }
  function Tail1(c: bv32): Byte { (0x80 | ((c >> 6) & 0x3F)) as Byte }
  function Tail2(c: bv32): Byte { (0x80 | ((c >> 12) & 0x3F)) as Byte }

  /** The bit distribution of section 3 of RFC 3629. */
  function Encode(c: bv32): (s: seq<Byte>)
    requires c <= 0x10FFFF
    ensures 1 <= |s| <= 4
  {
    if c <= 0x7F then [c as Byte]
    else if c <= 0x7FF then [Lead2(c), Tail0(c)]
    else if c <= 0xFFFF then [Lead3(c), Tail1(c), Tail0(c)]
    else [Lead4(c), Tail2(c), Tail1(c), Tail0(c)]
  }

  function EncodeAll(cs: seq<bv32>): seq<Byte>
    requires AllScalar(cs)
  {
    if cs == [] then [] else Encode(cs[0]) + EncodeAll(cs[1..])
  }

  lemma {:induction false} EncodeAppend(cs: seq<bv32>, c: bv32)
    requires AllScalar(cs) && IsScalar(c)
    ensures AllScalar(cs + [c]) && EncodeAll(cs + [c]) == EncodeAll(cs) + Encode(c)
  {
    hide Encode;
    if cs == [] {
      assert cs + [c] == [c] && [c][1..] == [];
    } else {
      assert (cs + [c])[1..] == cs[1..] + [c];
      EncodeAppend(cs[1..], c);
    }
  }

  // ----- UTF-8: which byte strings are well-formed -----

  predicate IsTail(b: Byte) {
    0x80 <= b <= 0xBF
  }

  /** The grammar of section 4 of RFC 3629: the length of the well-formed character `s` starts with, or 0. */
  function CharLength(s: seq<Byte>): (n: nat)
    ensures n <= |s| && n <= 4
  {
    if s == [] then 0
    else if s[0] <= 0x7F then 1
    else if |s| < 2 then 0
    else if 0xC2 <= s[0] <= 0xDF && IsTail(s[1]) then 2
    else if |s| < 3 then 0
    else if (|| (s[0] == 0xE0 && 0xA0 <= s[1] <= 0xBF) || (0xE1 <= s[0] <= 0xEC && IsTail(s[1]))
             || (s[0] == 0xED && 0x80 <= s[1] <= 0x9F) || (0xEE <= s[0] <= 0xEF && IsTail(s[1])))
            && IsTail(s[2]) then 3
    else if |s| < 4 then 0
    else if (|| (s[0] == 0xF0 && 0x90 <= s[1] <= 0xBF) || (0xF1 <= s[0] <= 0xF3 && IsTail(s[1]))
             || (s[0] == 0xF4 && 0x80 <= s[1] <= 0x8F))
            && IsTail(s[2]) && IsTail(s[3]) then 4
    else 0
  }

  predicate ValidUtf8(s: seq<Byte>)
    decreases |s|
  {
    s == [] || (CharLength(s) > 0 && ValidUtf8(s[CharLength(s)..]))
  }

  // ----- UTF-8: decoding as the code does -----

  datatype Decoded = Decoded(codepoint: bv32, next: nat)

  /** The size a leading byte announces, 0 for bytes that cannot lead. */
  function SequenceSize(lead: Byte): nat {
    var k := lead >> 3;
    if k < 16 then 1 else if k < 24 then 0 else if k < 28 then 2 else if k < 30 then 3 else if k == 30 then 4 else 0
  }

  function LeadMask(size: nat): Byte {
    if size == 2 then 0x1F else if size == 3 then 0x0F else if size == 4 then 0x07 else 0
  }

  /** The least code point that needs `size` bytes. */
  function MinValue(size: nat): bv32 {
    if size == 2 then 0x80 else if size == 3 then 0x800 else if size == 4 then 0x1_0000 else 0
  }

  predicate IsInvalidContinuation(b: Byte) {
    b & 0xC0 != 0x80
  }

  /** The code point of a complete sequence; overlong, out of range and surrogate ones are replaced. */
  function Checked(codepoint: bv32, size: nat): bv32 {
    if codepoint < MinValue(size) || codepoint > 0x10FFFF || IsSurrogate(codepoint) then REPLACEMENT else codepoint
  }

  /** Appending the six bits of a continuation byte. */
  function Pushed(codepoint: bv32, b: Byte): bv32 {
    (codepoint << 6) + (b & 0x3F) as bv32
  }

  /** The bits a leading byte contributes. */
  function LeadBits(lead: Byte, size: nat): bv32 {
    (lead & LeadMask(size)) as bv32
  }

  /** Decoding from the continuation byte `index` on. */
  function DecodeTail(s: seq<Byte>, pos: nat, index: nat, size: nat, codepoint: bv32): (d: Decoded)
    requires pos <= |s|
    ensures pos <= d.next <= |s|
    decreases |s| - pos
  {
    if pos < |s| && index < size then
      if IsInvalidContinuation(s[pos]) then Decoded(REPLACEMENT, pos)
      else DecodeTail(s, pos + 1, index + 1, size, Pushed(codepoint, s[pos]))
    else if index != size then Decoded(REPLACEMENT, pos)
    else Decoded(Checked(codepoint, size), pos)
  }

  /** One step of widen: at least one byte is consumed. */
  function DecodeOne(s: seq<Byte>): (d: Decoded)
    requires s != []
    ensures 1 <= d.next <= |s|
  {
    var lead := s[0];
    if lead <= 0x7F then Decoded(lead as bv32, 1)
    else if |s| == 1 then Decoded(REPLACEMENT, 1)
    else
      var size := SequenceSize(lead);
      DecodeTail(s, 1, 1, size, LeadBits(lead, size))
  }

  function DecodeAll(s: seq<Byte>): seq<bv32>
    decreases |s|
  {
    if s == [] then [] else [DecodeOne(s).codepoint] + DecodeAll(s[DecodeOne(s).next..])
  }

  lemma {:induction false} TailIsScalar(s: seq<Byte>, pos: nat, index: nat, size: nat, codepoint: bv32)
    requires pos <= |s|
    ensures IsScalar(DecodeTail(s, pos, index, size, codepoint).codepoint)
    decreases |s| - pos
  {
    if pos < |s| && index < size && !IsInvalidContinuation(s[pos]) {
      TailIsScalar(s, pos + 1, index + 1, size, Pushed(codepoint, s[pos]));
    }
  }

  lemma DecodedIsScalar(s: seq<Byte>)
    requires s != []
    ensures IsScalar(DecodeOne(s).codepoint)
  {
    if s[0] > 0x7F && |s| > 1 {
      var size := SequenceSize(s[0]);
      TailIsScalar(s, 1, 1, size, LeadBits(s[0], size));
    }
  }

  lemma {:induction false} DecodedAreScalar(s: seq<Byte>)
    ensures AllScalar(DecodeAll(s))
    decreases |s|
  {
    hide DecodeOne;
    if s != [] {
      DecodedIsScalar(s);
      DecodedAreScalar(s[DecodeOne(s).next..]);
    }
  }

  // ----- the bit arithmetic of one character -----

  lemma Bits2(c: bv32)
    requires 0x80 <= c <= 0x7FF
    ensures var a := Lead2(c); var b := Tail0(c);
            && 0xC2 <= a <= 0xDF && SequenceSize(a) == 2
            && IsTail(b) && !IsInvalidContinuation(b)
            && Pushed(LeadBits(a, 2), b) == c
  {
  }

  lemma Bits3Value(c: bv32)
    requires c <= 0xFFFF
    ensures Pushed(Pushed(LeadBits(Lead3(c), 3), Tail1(c)), Tail0(c)) == c
  {
    assert LeadBits(Lead3(c), 3) == c >> 12;
    Bits4Tail1(c);
    Bits4Tail0(c);
  }

  lemma Bits3Shape(c: bv32)
    requires 0x800 <= c <= 0xFFFF
    ensures var a := Lead3(c); var b := Tail1(c);
            && 0xE0 <= a <= 0xEF && SequenceSize(a) == 3
            && (a == 0xE0 ==> b >= 0xA0)
            && (!IsSurrogate(c) && a == 0xED ==> b <= 0x9F)
  {
  }

  lemma Bits3(c: bv32)
    requires 0x800 <= c <= 0xFFFF
    ensures var a := Lead3(c); var b := Tail1(c); var d := Tail0(c);
            && 0xE0 <= a <= 0xEF && SequenceSize(a) == 3
            && IsTail(b) && !IsInvalidContinuation(b) && IsTail(d) && !IsInvalidContinuation(d)
            && Pushed(Pushed(LeadBits(a, 3), b), d) == c
            && (a == 0xE0 ==> b >= 0xA0)
            && (!IsSurrogate(c) && a == 0xED ==> b <= 0x9F)
  {
    hide Lead3, Tail0, Tail1, Pushed, LeadBits, SequenceSize, IsTail, IsInvalidContinuation, IsSurrogate;
    TailShapes(c);
    Bits3Value(c);
    Bits3Shape(c);
  }

  lemma Bits4Lead(c: bv32)
    requires c <= 0x10FFFF
    ensures LeadBits(Lead4(c), 4) == c >> 18
  {
  }

  lemma Bits4Tail2(c: bv32)
    ensures Pushed(c >> 18, Tail2(c)) == c >> 12
  {
  }

  lemma Bits4Tail1(c: bv32)
    ensures Pushed(c >> 12, Tail1(c)) == c >> 6
  {
  }

  lemma Bits4Tail0(c: bv32)
    ensures Pushed(c >> 6, Tail0(c)) == c
  {
  }

  lemma Bits4Shape(c: bv32)
    requires 0x1_0000 <= c <= 0x10FFFF
    ensures var a := Lead4(c); var b := Tail2(c);
            && 0xF0 <= a <= 0xF4 && SequenceSize(a) == 4
            && (a == 0xF0 ==> b >= 0x90) && (a == 0xF4 ==> b <= 0x8F)
  {
  }

  lemma TailShapes(c: bv32)
    ensures IsTail(Tail0(c)) && !IsInvalidContinuation(Tail0(c))
    ensures IsTail(Tail1(c)) && !IsInvalidContinuation(Tail1(c))
    ensures IsTail(Tail2(c)) && !IsInvalidContinuation(Tail2(c))
  {
  }

  function Value2(a: Byte, b: Byte): bv32 { Pushed(LeadBits(a, 2), b) }
  function Value3(a: Byte, b: Byte, d: Byte): bv32 { Pushed(Pushed(LeadBits(a, 3), b), d) }
  function Value4(a: Byte, b: Byte, d: Byte, e: Byte): bv32 { Pushed(Pushed(Pushed(LeadBits(a, 4), b), d), e) }

  lemma Bits4Value(c: bv32)
    requires 0x1_0000 <= c <= 0x10FFFF
    ensures Value4(Lead4(c), Tail2(c), Tail1(c), Tail0(c)) == c
  {
    hide Lead4, Tail0, Tail1, Tail2, Pushed, LeadBits;
    Bits4Lead(c);
    Bits4Tail2(c);
    Bits4Tail1(c);
    Bits4Tail0(c);
  }

  lemma TailIsContinuation(b: Byte)
    ensures IsTail(b) <==> !IsInvalidContinuation(b)
  {
  }

  lemma Rebuild2(a: Byte, b: Byte)
    requires 0xC2 <= a <= 0xDF && IsTail(b)
    ensures var c := Value2(a, b); 0x80 <= c <= 0x7FF && Lead2(c) == a && Tail0(c) == b
    ensures SequenceSize(a) == 2
  {
  }

  lemma Rebuild3(a: Byte, b: Byte, d: Byte)
    requires 0xE0 <= a <= 0xEF && IsTail(b) && IsTail(d)
    requires (a == 0xE0 ==> b >= 0xA0) && (a == 0xED ==> b <= 0x9F)
    ensures var c := Value3(a, b, d);
            0x800 <= c <= 0xFFFF && !IsSurrogate(c) && Lead3(c) == a && Tail1(c) == b && Tail0(c) == d
    ensures SequenceSize(a) == 3
  {
  }

  lemma Rebuild4Bytes(a: Byte, b: Byte, d: Byte, e: Byte)
    requires 0xF0 <= a <= 0xF4 && IsTail(b) && IsTail(d) && IsTail(e)
    ensures var c := Value4(a, b, d, e);
            Lead4(c) == a && Tail2(c) == b && Tail1(c) == d && Tail0(c) == e
  {
  }

  lemma Rebuild4Range(a: Byte, b: Byte, d: Byte, e: Byte)
    requires 0xF0 <= a <= 0xF4 && IsTail(b) && IsTail(d) && IsTail(e)
    requires (a == 0xF0 ==> b >= 0x90) && (a == 0xF4 ==> b <= 0x8F)
    ensures 0x1_0000 <= Value4(a, b, d, e) <= 0x10FFFF
    ensures SequenceSize(a) == 4
  {
  }

  // ----- what a decoded value says about its bytes -----

  lemma SizeRanges(a: Byte)
    ensures SequenceSize(a) == 2 <==> 0xC0 <= a <= 0xDF
    ensures SequenceSize(a) == 3 <==> 0xE0 <= a <= 0xEF
    ensures SequenceSize(a) == 4 <==> 0xF0 <= a <= 0xF7
    ensures SequenceSize(a) == 1 <==> a <= 0x7F
    ensures SequenceSize(a) in {0, 1, 2, 3, 4}
  {
  }

  lemma NotOverlong2(a: Byte, b: Byte)
    requires 0xC0 <= a <= 0xDF && Value2(a, b) >= 0x80
    ensures a >= 0xC2
  {
  }

  lemma NotOverlong3(a: Byte, b: Byte, d: Byte)
    requires 0xE0 <= a <= 0xEF && IsTail(b) && Value3(a, b, d) >= 0x800 && !IsSurrogate(Value3(a, b, d))
    ensures (a == 0xE0 ==> b >= 0xA0) && (a == 0xED ==> b <= 0x9F)
  {
  }

  lemma NotOverlong4(a: Byte, b: Byte, d: Byte, e: Byte)
    requires 0xF0 <= a <= 0xF7 && IsTail(b) && 0x1_0000 <= Value4(a, b, d, e) <= 0x10FFFF
    ensures a <= 0xF4 && (a == 0xF0 ==> b >= 0x90) && (a == 0xF4 ==> b <= 0x8F)
  {
  }
}
