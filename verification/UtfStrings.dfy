/** The conversions between narrow and wide strings, on whole strings. */
module UtfStrings {
  import opened Common
  import opened Utf

  // ----- one UTF-8 character -----

  lemma EncodedAt(c: bv32, rest: seq<Byte>)
    requires c <= 0x10FFFF
    ensures var s := Encode(c) + rest;
            && |s| >= |Encode(c)|
            && (forall i :: 0 <= i < |Encode(c)| ==> s[i] == Encode(c)[i])
            && s[|Encode(c)|..] == rest && s[..|Encode(c)|] == Encode(c)
  {
    hide Encode;
  }

  /** Every encoded character is exactly one character of the grammar. */
  lemma EncodedIsValid(c: bv32, rest: seq<Byte>)
    requires IsScalar(c)
    ensures CharLength(Encode(c) + rest) == |Encode(c)|
  {
    hide Lead2, Lead3, Lead4, Tail0, Tail1, Tail2;
    EncodedAt(c, rest);
    if c <= 0x7F {
      AsciiByte(c);
    } else if c <= 0x7FF {
      Bits2(c);
    } else if c <= 0xFFFF {
      Bits3(c);
    } else {
      Bits4Shape(c);
      TailShapes(c);
    }
  }

  lemma AsciiByte(c: bv32)
    requires c <= 0x7F
    ensures c as Byte <= 0x7F && (c as Byte) as bv32 == c
  {
  }

  lemma CheckedScalar(c: bv32, size: nat)
    requires IsScalar(c) && c >= MinValue(size)
    ensures Checked(c, size) == c
  {
  }

  lemma TailStep(s: seq<Byte>, pos: nat, index: nat, size: nat, codepoint: bv32)
    requires pos < |s| && index < size && !IsInvalidContinuation(s[pos])
    ensures DecodeTail(s, pos, index, size, codepoint) ==
            DecodeTail(s, pos + 1, index + 1, size, Pushed(codepoint, s[pos]))
  {
    hide Pushed, IsInvalidContinuation, Checked;
  }

  lemma TailEnd(s: seq<Byte>, pos: nat, size: nat, codepoint: bv32)
    requires pos <= |s| && IsScalar(codepoint) && codepoint >= MinValue(size)
    ensures DecodeTail(s, pos, size, size, codepoint) == Decoded(codepoint, pos)
  {
    CheckedScalar(codepoint, size);
    hide Checked, IsScalar, MinValue;
  }

  lemma LongStart(s: seq<Byte>, size: nat)
    requires |s| > 1 && s[0] > 0x7F && SequenceSize(s[0]) == size
    ensures DecodeOne(s) == DecodeTail(s, 1, 1, size, LeadBits(s[0], size))
  {
    hide SequenceSize, LeadBits, DecodeTail;
  }

  lemma DecodeTwo(s: seq<Byte>, c: bv32)
    requires 0x80 <= c <= 0x7FF && IsScalar(c) && |s| >= 2 && s[0] == Lead2(c) && s[1] == Tail0(c)
    ensures DecodeOne(s) == Decoded(c, 2)
  {
    hide Lead2, Tail0, Pushed, LeadBits, IsInvalidContinuation, SequenceSize, IsScalar, DecodeOne, DecodeTail;
    Bits2(c);
    LongStart(s, 2);
    TailStep(s, 1, 1, 2, LeadBits(s[0], 2));
    TailEnd(s, 2, 2, c);
  }

  lemma DecodeThree(s: seq<Byte>, c: bv32)
    requires 0x800 <= c <= 0xFFFF && IsScalar(c)
    requires |s| >= 3 && s[0] == Lead3(c) && s[1] == Tail1(c) && s[2] == Tail0(c)
    ensures DecodeOne(s) == Decoded(c, 3)
  {
    hide Lead3, Tail0, Tail1, Pushed, LeadBits, IsInvalidContinuation, SequenceSize, IsScalar, DecodeOne, DecodeTail;
    Bits3(c);
    LongStart(s, 3);
    TailStep(s, 1, 1, 3, LeadBits(s[0], 3));
    TailStep(s, 2, 2, 3, Pushed(LeadBits(s[0], 3), s[1]));
    TailEnd(s, 3, 3, c);
  }

  lemma DecodeFour(s: seq<Byte>, c: bv32)
    requires 0x1_0000 <= c <= 0x10FFFF && IsScalar(c)
    requires |s| >= 4 && s[0] == Lead4(c) && s[1] == Tail2(c) && s[2] == Tail1(c) && s[3] == Tail0(c)
    ensures DecodeOne(s) == Decoded(c, 4)
  {
    hide Lead4, Tail0, Tail1, Tail2, Pushed, LeadBits, IsInvalidContinuation, SequenceSize, IsScalar;
    hide DecodeOne, DecodeTail;
    Bits4Shape(c);
    Bits4Value(c);
    TailShapes(c);
    LongStart(s, 4);
    TailStep(s, 1, 1, 4, LeadBits(s[0], 4));
    TailStep(s, 2, 2, 4, Pushed(LeadBits(s[0], 4), s[1]));
    TailStep(s, 3, 3, 4, Pushed(Pushed(LeadBits(s[0], 4), s[1]), s[2]));
    TailEnd(s, 4, 4, c);
  }

  /** The code decodes what it encoded. */
  lemma DecodeEncoded(c: bv32, rest: seq<Byte>)
    requires IsScalar(c)
    ensures DecodeOne(Encode(c) + rest) == Decoded(c, |Encode(c)|)
  {
    hide Lead2, Lead3, Lead4, Tail0, Tail1, Tail2, DecodeTail, SequenceSize, LeadBits;
    var s := Encode(c) + rest;
    EncodedAt(c, rest);
    if c <= 0x7F {
      AsciiByte(c);
    } else if c <= 0x7FF {
      DecodeTwo(s, c);
    } else if c <= 0xFFFF {
      DecodeThree(s, c);
    } else {
      DecodeFour(s, c);
    }
  }

  /** A character of the grammar is the encoding of a scalar value. */
  lemma ValidIsEncoded(s: seq<Byte>)
    returns (c: bv32)
    requires CharLength(s) > 0
    ensures IsScalar(c) && Encode(c) == s[..CharLength(s)]
  {
    hide Lead2, Lead3, Lead4, Tail0, Tail1, Tail2, SequenceSize;
    var n := CharLength(s);
    if n == 1 {
      c := s[0] as bv32;
      SmallByte(s[0]);
    } else if n == 2 {
      c := Value2(s[0], s[1]);
      Rebuild2(s[0], s[1]);
    } else if n == 3 {
      c := Value3(s[0], s[1], s[2]);
      Rebuild3(s[0], s[1], s[2]);
    } else {
      c := Value4(s[0], s[1], s[2], s[3]);
      Rebuild4Bytes(s[0], s[1], s[2], s[3]);
      Rebuild4Range(s[0], s[1], s[2], s[3]);
    }
  }

  lemma SmallByte(b: Byte)
    requires b <= 0x7F
    ensures b as bv32 <= 0x7F && (b as bv32) as Byte == b
  {
  }

  // ----- whole UTF-8 strings -----

  lemma {:induction false} EncodedAreValid(cs: seq<bv32>)
    requires AllScalar(cs)
    ensures ValidUtf8(EncodeAll(cs))
  {
    hide Encode, CharLength;
    if cs != [] {
      EncodedIsValid(cs[0], EncodeAll(cs[1..]));
      EncodedAt(cs[0], EncodeAll(cs[1..]));
      EncodedAreValid(cs[1..]);
    }
  }

  /** Decoding the UTF-8 form of scalar values gives them back. */
  lemma {:induction false} DecodeEncodedAll(cs: seq<bv32>)
    requires AllScalar(cs)
    ensures DecodeAll(EncodeAll(cs)) == cs
  {
    hide Encode, DecodeOne;
    if cs != [] {
      DecodeEncoded(cs[0], EncodeAll(cs[1..]));
      EncodedAt(cs[0], EncodeAll(cs[1..]));
      DecodeEncodedAll(cs[1..]);
    }
  }

  /** A byte string is well-formed exactly when encoding its decoded characters gives it back. */
  lemma {:induction false} ValidIffReencodes(s: seq<Byte>)
    ensures AllScalar(DecodeAll(s))
    ensures ValidUtf8(s) <==> EncodeAll(DecodeAll(s)) == s
    decreases |s|
  {
    hide Encode, DecodeOne, CharLength;
    DecodedAreScalar(s);
    if ValidUtf8(s) && s != [] {
      var c := ValidIsEncoded(s);
      var rest := s[CharLength(s)..];
      assert s == s[..CharLength(s)] + rest;
      DecodeEncoded(c, rest);
      ValidIffReencodes(rest);
    }
    if EncodeAll(DecodeAll(s)) == s {
      EncodedAreValid(DecodeAll(s));
    }
  }

  // ----- errors leave a mark -----

  lemma CheckedKeeps(codepoint: bv32, size: nat)
    requires Checked(codepoint, size) != REPLACEMENT
    ensures MinValue(size) <= codepoint <= 0x10FFFF && !IsSurrogate(codepoint)
  {
  }

  /** A sequence that is decoded to something is complete and made of continuation bytes. */
  lemma {:induction false} TailComplete(s: seq<Byte>, pos: nat, index: nat, size: nat, codepoint: bv32)
    requires pos <= |s| && DecodeTail(s, pos, index, size, codepoint).codepoint != REPLACEMENT
    ensures index <= size && pos + (size - index) <= |s|
    ensures DecodeTail(s, pos, index, size, codepoint).next == pos + (size - index)
    ensures forall i :: pos <= i < pos + (size - index) ==> IsTail(s[i])
    ensures index == size ==> Checked(codepoint, size) != REPLACEMENT
    decreases |s| - pos
  {
    hide Checked, Pushed, IsTail, IsInvalidContinuation;
    if pos < |s| && index < size {
      TailIsContinuation(s[pos]);
      TailComplete(s, pos + 1, index + 1, size, Pushed(codepoint, s[pos]));
    }
  }

  lemma DecodedTwo(s: seq<Byte>)
    requires |s| > 1 && SequenceSize(s[0]) == 2 && DecodeOne(s).codepoint != REPLACEMENT
    ensures DecodeOne(s).next == CharLength(s) == 2
  {
    hide DecodeTail, SequenceSize, LeadBits, Pushed, Checked, IsTail, IsInvalidContinuation;
    SizeRanges(s[0]);
    LongStart(s, 2);
    TailComplete(s, 1, 1, 2, LeadBits(s[0], 2));
    TailIsContinuation(s[1]);
    TailStep(s, 1, 1, 2, LeadBits(s[0], 2));
    TailComplete(s, 2, 2, 2, Value2(s[0], s[1]));
    CheckedKeeps(Value2(s[0], s[1]), 2);
    NotOverlong2(s[0], s[1]);
  }

  lemma DecodedThree(s: seq<Byte>)
    requires |s| > 1 && SequenceSize(s[0]) == 3 && DecodeOne(s).codepoint != REPLACEMENT
    ensures DecodeOne(s).next == CharLength(s) == 3
  {
    hide DecodeTail, SequenceSize, LeadBits, Pushed, Checked, IsInvalidContinuation, IsSurrogate;
    SizeRanges(s[0]);
    LongStart(s, 3);
    TailComplete(s, 1, 1, 3, LeadBits(s[0], 3));
    TailIsContinuation(s[1]);
    TailIsContinuation(s[2]);
    TailStep(s, 1, 1, 3, LeadBits(s[0], 3));
    TailStep(s, 2, 2, 3, Pushed(LeadBits(s[0], 3), s[1]));
    TailComplete(s, 3, 3, 3, Value3(s[0], s[1], s[2]));
    CheckedKeeps(Value3(s[0], s[1], s[2]), 3);
    NotOverlong3(s[0], s[1], s[2]);
  }

  lemma DecodedFour(s: seq<Byte>)
    requires |s| > 1 && SequenceSize(s[0]) == 4 && DecodeOne(s).codepoint != REPLACEMENT
    ensures DecodeOne(s).next == CharLength(s) == 4
  {
    hide DecodeTail, SequenceSize, LeadBits, Pushed, Checked, IsInvalidContinuation, IsSurrogate;
    SizeRanges(s[0]);
    LongStart(s, 4);
    TailComplete(s, 1, 1, 4, LeadBits(s[0], 4));
    TailIsContinuation(s[1]);
    TailIsContinuation(s[2]);
    TailIsContinuation(s[3]);
    TailStep(s, 1, 1, 4, LeadBits(s[0], 4));
    TailStep(s, 2, 2, 4, Pushed(LeadBits(s[0], 4), s[1]));
    TailStep(s, 3, 3, 4, Pushed(Pushed(LeadBits(s[0], 4), s[1]), s[2]));
    TailComplete(s, 4, 4, 4, Value4(s[0], s[1], s[2], s[3]));
    CheckedKeeps(Value4(s[0], s[1], s[2], s[3]), 4);
    NotOverlong4(s[0], s[1], s[2], s[3]);
  }

  /** What the code decodes to anything but U+FFFD is exactly one well-formed character. */
  lemma DecodedIsWellFormed(s: seq<Byte>)
    requires s != [] && DecodeOne(s).codepoint != REPLACEMENT
    ensures DecodeOne(s).next == CharLength(s) > 0
  {
    hide DecodeTail, SequenceSize, LeadBits, CharLength;
    if s[0] <= 0x7F {
      ShortCharacter(s);
    } else if |s| > 1 {
      SizeRanges(s[0]);
      match SequenceSize(s[0]) {
        case 2 => DecodedTwo(s);
        case 3 => DecodedThree(s);
        case 4 => DecodedFour(s);
        case _ => TailComplete(s, 1, 1, SequenceSize(s[0]), LeadBits(s[0], SequenceSize(s[0])));
      }
    }
  }

  lemma ShortCharacter(s: seq<Byte>)
    requires s != [] && s[0] <= 0x7F
    ensures CharLength(s) == 1
  {
  }

  /** No malformed input passes silently: it leaves at least one replacement character. */
  lemma {:induction false} ErrorsLeaveReplacements(s: seq<Byte>)
    ensures ValidUtf8(s) || REPLACEMENT in DecodeAll(s)
    decreases |s|
  {
    hide DecodeOne, CharLength;
    if s != [] && DecodeOne(s).codepoint != REPLACEMENT {
      DecodedIsWellFormed(s);
      ErrorsLeaveReplacements(s[DecodeOne(s).next..]);
    }
  }

  // ----- recovery from errors -----

  /** A byte that cannot continue a character ends a broken one before it. */
  lemma {:induction false} TailStops(a: seq<Byte>, b: seq<Byte>, pos: nat, index: nat, size: nat, codepoint: bv32)
    requires pos <= |a| && (b == [] || !IsTail(b[0]))
    ensures DecodeTail(a + b, pos, index, size, codepoint) == DecodeTail(a, pos, index, size, codepoint)
    decreases |a| - pos
  {
    hide Checked, Pushed, IsTail, IsInvalidContinuation;
    if b != [] {
      TailIsContinuation(b[0]);
    }
    if pos < |a| {
      assert (a + b)[pos] == a[pos];
      TailStops(a, b, pos + 1, index + 1, size, Pushed(codepoint, a[pos]));
    } else {
      assert b == [] ==> a + b == a;
      assert b != [] ==> (a + b)[pos] == b[0];
    }
  }

  lemma DecodeStops(a: seq<Byte>, b: seq<Byte>)
    requires a != [] && (b == [] || !IsTail(b[0]))
    ensures DecodeOne(a + b) == DecodeOne(a)
  {
    hide DecodeTail, SequenceSize, LeadBits, IsTail;
    var size := SequenceSize(a[0]);
    assert (a + b)[0] == a[0];
    TailStops(a, b, 1, 1, size, LeadBits(a[0], size));
    SizeRanges(a[0]);
    LoneLead(a, size, LeadBits(a[0], size));
    assert b == [] ==> a + b == a;
  }

  lemma LoneLead(a: seq<Byte>, size: nat, codepoint: bv32)
    ensures |a| == 1 && size != 1 ==> DecodeTail(a, 1, 1, size, codepoint) == Decoded(REPLACEMENT, 1)
  {
  }

  /**
    * Decoding starts afresh at every byte that cannot continue a character, whatever comes before it: an error
    * never swallows the character that follows.
    */
  lemma {:induction false} DecodingSplits(a: seq<Byte>, b: seq<Byte>)
    requires b == [] || !IsTail(b[0])
    ensures DecodeAll(a + b) == DecodeAll(a) + DecodeAll(b)
    decreases |a|
  {
    hide DecodeOne, IsTail;
    if a == [] {
      assert a + b == b;
      assert DecodeAll(a) + DecodeAll(b) == DecodeAll(b);
    } else {
      DecodeStops(a, b);
      var d := DecodeOne(a);
      assert (a + b)[d.next..] == a[d.next..] + b;
      DecodingSplits(a[d.next..], b);
      assert [d.codepoint] + DecodeAll(a[d.next..]) + DecodeAll(b) ==
             [d.codepoint] + (DecodeAll(a[d.next..]) + DecodeAll(b));
    }
  }

  /** The bytes one step consumes: the first, and continuation bytes up to the size the first one announces. */
  ghost predicate Consumes(s: seq<Byte>, announced: nat, n: nat) {
    && 1 <= n <= |s| && n <= Max(1, announced)
    && (forall i :: 1 <= i < n ==> IsTail(s[i]))
    && (n < |s| && n < announced ==> !IsTail(s[n]))
  }

  lemma {:induction false} TailConsumes(s: seq<Byte>, pos: nat, size: nat, codepoint: bv32)
    requires 1 <= pos <= |s| && pos <= Max(1, size) && forall i :: 1 <= i < pos ==> IsTail(s[i])
    ensures Consumes(s, size, DecodeTail(s, pos, pos, size, codepoint).next)
    decreases |s| - pos
  {
    hide Checked, Pushed, IsTail, IsInvalidContinuation;
    if pos < |s| && pos < size {
      TailIsContinuation(s[pos]);
      if IsTail(s[pos]) {
        TailConsumes(s, pos + 1, size, Pushed(codepoint, s[pos]));
      }
    }
  }

  /**
    * What one step makes of any bytes: how many it consumes, and U+FFFD unless they are a character of the
    * grammar.
    */
  lemma DecodeConsumes(s: seq<Byte>)
    requires s != []
    ensures var announced := if 0xC0 <= s[0] <= 0xDF then 2 else if 0xE0 <= s[0] <= 0xEF then 3
                             else if 0xF0 <= s[0] <= 0xF7 then 4 else 1;
            Consumes(s, announced, DecodeOne(s).next)
    ensures DecodeOne(s).codepoint == REPLACEMENT || DecodeOne(s).next == CharLength(s)
    ensures CharLength(s) == 0 ==> DecodeOne(s).codepoint == REPLACEMENT
  {
    hide DecodeTail, SequenceSize, LeadBits, CharLength, Consumes;
    if DecodeOne(s).codepoint != REPLACEMENT {
      DecodedIsWellFormed(s);
    }
    SizeRanges(s[0]);
    var size := SequenceSize(s[0]);
    if s[0] <= 0x7F || |s| == 1 {
      OneByte(s);
    } else {
      TailConsumes(s, 1, size, LeadBits(s[0], size));
      NothingAnnounced(s, DecodeOne(s).next);
    }
  }

  lemma OneByte(s: seq<Byte>)
    ensures s != [] && (s[0] <= 0x7F || |s| == 1) ==>
              Consumes(s, 1, 1) && (|s| == 1 ==> Consumes(s, 2, 1) && Consumes(s, 3, 1) && Consumes(s, 4, 1))
  {
  }

  lemma NothingAnnounced(s: seq<Byte>, n: nat)
    ensures Consumes(s, 0, n) ==> Consumes(s, 1, n)
  {
  }

  // ----- runs of the replacement character -----

  predicate NoDoubleReplacement(cs: seq<bv32>) {
    forall i :: 0 < i < |cs| ==> !(cs[i - 1] == REPLACEMENT && cs[i] == REPLACEMENT)
  }

  /** Appending, except that a replacement character is not repeated. */
  function Appended(cs: seq<bv32>, c: bv32): seq<bv32> {
    if c == REPLACEMENT && cs != [] && cs[|cs| - 1] == REPLACEMENT then cs else cs + [c]
  }

  function Collapsed(cs: seq<bv32>): (r: seq<bv32>) {
    if cs == [] then [] else Appended(Collapsed(cs[..|cs| - 1]), cs[|cs| - 1])
  }

  lemma {:induction false} CollapsedIsNormal(cs: seq<bv32>)
    ensures NoDoubleReplacement(Collapsed(cs))
    ensures AllScalar(cs) ==> AllScalar(Collapsed(cs))
    ensures NoDoubleReplacement(cs) <==> Collapsed(cs) == cs
    ensures cs != [] ==> Collapsed(cs) != [] && Collapsed(cs)[|Collapsed(cs)| - 1] == cs[|cs| - 1]
  {
    if cs != [] {
      CollapsedIsNormal(cs[..|cs| - 1]);
      CollapsedShorter(cs[..|cs| - 1]);
    }
  }

  /** Of a run of replacement characters the first one stays, and everything else stays. */
  lemma CollapsedKeeps(cs: seq<bv32>, c: bv32)
    ensures Collapsed(cs + [c]) ==
            Collapsed(cs) + (if cs != [] && cs[|cs| - 1] == REPLACEMENT && c == REPLACEMENT then [] else [c])
  {
    CollapsedUnfold(cs, c);
    hide Collapsed, NoDoubleReplacement;
    CollapsedIsNormal(cs);
    assert Collapsed(cs) + [] == Collapsed(cs);
  }

  lemma CollapsedUnfold(cs: seq<bv32>, c: bv32)
    ensures Collapsed(cs + [c]) == Appended(Collapsed(cs), c)
    ensures Collapsed([]) == []
  {
    hide Appended;
    assert (cs + [c])[..|cs|] == cs;
  }

  lemma {:induction false} CollapsedShorter(cs: seq<bv32>)
    ensures |Collapsed(cs)| <= |cs|
  {
    if cs != [] {
      CollapsedShorter(cs[..|cs| - 1]);
    }
  }

  // ----- UTF-16 -----

  /** What a character beyond the basic plane is split into: its upper and lower ten bits. */
  function Beyond(c: bv32): bv32 { c - 0x1_0000 }
  function UpperPart(x: bv32): bv32 { x >> 10 }
  function LowerPart(x: bv32): bv32 { x & 0x3FF }
  function Joined(upper: bv32, lower: bv32): bv32 { (upper << 10) + lower }

  function Lifted(x: bv32): bv32 { x + 0x1_0000 }
  function HighUnit(upper: bv32): Unit { upper + 0xD800 }
  function LowUnit(lower: bv32): Unit { lower + 0xDC00 }

  function High(c: bv32): Unit { HighUnit(UpperPart(Beyond(c))) }
  function Low(c: bv32): Unit { LowUnit(LowerPart(Beyond(c))) }

  /** Section 2.1 of RFC 2781. */
  function Utf16(c: bv32): (w: seq<Unit>)
    ensures 1 <= |w| <= 2
  {
    if c <= 0xFFFF then [c] else [High(c), Low(c)]
  }

  function Utf16All(cs: seq<bv32>): seq<Unit> {
    if cs == [] then [] else Utf16(cs[0]) + Utf16All(cs[1..])
  }

  lemma {:induction false} Utf16Append(cs: seq<bv32>, c: bv32)
    ensures Utf16All(cs + [c]) == Utf16All(cs) + Utf16(c)
  {
    hide Utf16;
    if cs == [] {
      assert cs + [c] == [c] && [c][1..] == [];
    } else {
      assert (cs + [c])[1..] == cs[1..] + [c];
      Utf16Append(cs[1..], c);
    }
  }

  /** Well-formed UTF-16: 16-bit units in which surrogates come only as a high one followed by a low one. */
  predicate ValidUtf16(w: seq<Unit>) {
    w == [] ||
    (if IsHighSurrogate(w[0]) then |w| > 1 && IsLowSurrogate(w[1]) && ValidUtf16(w[2..])
     else w[0] <= 0xFFFF && !IsSurrogate(w[0]) && ValidUtf16(w[1..]))
  }

  /** Section 2.2 of RFC 2781, with the constants folded into one. */
  function PairValue(high: Unit, low: Unit): bv32 {
    (high << 10) + low - 0x35FDC00
  }

  /** Decoding one code point of a wide string that may mix UTF-16 and UTF-32 units. */
  function DecodeWideOne(w: seq<Unit>): (d: Decoded)
    requires w != []
    ensures 1 <= d.next <= |w|
  {
    if !IsSurrogate(w[0]) then Decoded(w[0], 1)
    else if IsHighSurrogate(w[0]) && |w| > 1 && IsLowSurrogate(w[1]) then
      Decoded(PairValue(w[0], w[1]), 2)
    else Decoded(REPLACEMENT, 1)
  }

  function DecodeWide(w: seq<Unit>): seq<bv32>
    decreases |w|
  {
    if w == [] then [] else [DecodeWideOne(w).codepoint] + DecodeWide(w[DecodeWideOne(w).next..])
  }

  /** A surrogate that is not part of a pair is one U+FFFD, and the unit after it is left alone. */
  lemma LoneSurrogate(w: seq<Unit>)
    requires w != [] && IsSurrogate(w[0])
    requires !(IsHighSurrogate(w[0]) && |w| > 1 && IsLowSurrogate(w[1]))
    ensures DecodeWide(w) == [REPLACEMENT] + DecodeWide(w[1..])
  {
  }

  /** Any other unit is a code point of its own, whatever its value. */
  lemma OwnCodePoint(w: seq<Unit>)
    requires w != [] && !IsSurrogate(w[0])
    ensures DecodeWide(w) == [w[0]] + DecodeWide(w[1..])
  {
  }

  lemma WideStops(a: seq<Unit>, b: seq<Unit>)
    requires a != [] && (b != [] ==> !(IsHighSurrogate(a[|a| - 1]) && IsLowSurrogate(b[0])))
    ensures DecodeWideOne(a + b) == DecodeWideOne(a)
  {
    hide PairValue, IsSurrogate, IsHighSurrogate, IsLowSurrogate;
    assert (a + b)[0] == a[0] && (|a| > 1 ==> (a + b)[1] == a[1]) && (|a| == 1 && b != [] ==> (a + b)[1] == b[0]);
  }

  /** Decoding a wide string starts afresh everywhere but inside a pair. */
  lemma {:induction false} WideSplits(a: seq<Unit>, b: seq<Unit>)
    requires a != [] && b != [] ==> !(IsHighSurrogate(a[|a| - 1]) && IsLowSurrogate(b[0]))
    ensures DecodeWide(a + b) == DecodeWide(a) + DecodeWide(b)
    decreases |a|
  {
    hide DecodeWideOne, IsHighSurrogate, IsLowSurrogate;
    if a == [] {
      assert a + b == b;
      assert DecodeWide(a) + DecodeWide(b) == DecodeWide(b);
    } else {
      var d := DecodeWideOne(a);
      WideStops(a, b);
      assert (a + b)[d.next..] == a[d.next..] + b;
      WideSplits(a[d.next..], b);
      assert [d.codepoint] + DecodeWide(a[d.next..]) + DecodeWide(b) ==
             [d.codepoint] + (DecodeWide(a[d.next..]) + DecodeWide(b));
    }
  }

  lemma JoinedParts(x: bv32)
    ensures Joined(UpperPart(x), LowerPart(x)) == x && LowerPart(x) <= 0x3FF
    ensures x <= 0xF_FFFF ==> UpperPart(x) <= 0x3FF
  {
  }

  lemma PartsOfJoined(a: bv32, b: bv32)
    requires a <= 0x3FF && b <= 0x3FF
    ensures UpperPart(Joined(a, b)) == a && LowerPart(Joined(a, b)) == b && Joined(a, b) <= 0xF_FFFF
  {
  }

  lemma PairOfParts(a: bv32, b: bv32)
    requires a <= 0x3FF && b <= 0x3FF
    ensures IsHighSurrogate(HighUnit(a)) && IsLowSurrogate(LowUnit(b))
    ensures PairValue(HighUnit(a), LowUnit(b)) == Lifted(Joined(a, b))
  {
  }

  lemma PartsOfPair(h: Unit, l: Unit)
    requires IsHighSurrogate(h) && IsLowSurrogate(l)
    ensures exists a: bv32, b: bv32 :: a <= 0x3FF && b <= 0x3FF && h == HighUnit(a) && l == LowUnit(b)
  {
    assert h - 0xD800 <= 0x3FF && l - 0xDC00 <= 0x3FF;
    assert h == HighUnit(h - 0xD800) && l == LowUnit(l - 0xDC00);
  }

  lemma AboveBasicPlane(c: bv32)
    requires 0x1_0000 <= c <= 0x10FFFF
    ensures Beyond(c) <= 0xF_FFFF && Lifted(Beyond(c)) == c
  {
  }

  lemma LiftedRange(x: bv32)
    requires x <= 0xF_FFFF
    ensures 0x1_0000 <= Lifted(x) <= 0x10FFFF && Beyond(Lifted(x)) == x
  {
  }

  lemma SurrogatePair(c: bv32)
    requires 0x1_0000 <= c <= 0x10FFFF
    ensures IsHighSurrogate(High(c)) && IsLowSurrogate(Low(c))
    ensures PairValue(High(c), Low(c)) == c
  {
    hide PairValue, IsHighSurrogate, IsLowSurrogate, UpperPart, LowerPart, Joined, Beyond, Lifted, HighUnit, LowUnit;
    AboveBasicPlane(c);
    JoinedParts(Beyond(c));
    PairOfParts(UpperPart(Beyond(c)), LowerPart(Beyond(c)));
  }

  lemma PairIsCharacter(h: Unit, l: Unit)
    requires IsHighSurrogate(h) && IsLowSurrogate(l)
    ensures var c := PairValue(h, l);
            0x1_0000 <= c <= 0x10FFFF && High(c) == h && Low(c) == l
  {
    hide PairValue, IsHighSurrogate, IsLowSurrogate, UpperPart, LowerPart, Joined, Beyond, Lifted, HighUnit, LowUnit;
    PartsOfPair(h, l);
    var a: bv32, b: bv32 :| a <= 0x3FF && b <= 0x3FF && h == HighUnit(a) && l == LowUnit(b);
    PairOfParts(a, b);
    PartsOfJoined(a, b);
    LiftedRange(Joined(a, b));
  }

  lemma PairIsScalar(h: Unit, l: Unit)
    requires 0x1_0000 <= PairValue(h, l) <= 0x10FFFF
    ensures IsScalar(PairValue(h, l))
  {
    hide PairValue;
  }

  lemma SurrogateKinds(c: bv32)
    ensures IsSurrogate(c) <==> IsHighSurrogate(c) || IsLowSurrogate(c)
    ensures !(IsHighSurrogate(c) && IsLowSurrogate(c))
  {
  }

  lemma DecodePair(w: seq<Unit>)
    requires |w| > 1 && IsHighSurrogate(w[0]) && IsLowSurrogate(w[1])
    ensures DecodeWideOne(w) == Decoded(PairValue(w[0], w[1]), 2)
    ensures ValidUtf16(w) <==> ValidUtf16(w[2..])
  {
    SurrogateKinds(w[0]);
    hide PairValue, IsSurrogate, IsHighSurrogate, IsLowSurrogate;
  }

  lemma DecodeSingle(w: seq<Unit>)
    requires w != [] && !IsSurrogate(w[0]) && w[0] <= 0xFFFF
    ensures DecodeWideOne(w) == Decoded(w[0], 1)
    ensures ValidUtf16(w) <==> ValidUtf16(w[1..])
  {
    SurrogateKinds(w[0]);
    hide PairValue, IsSurrogate, IsHighSurrogate, IsLowSurrogate;
  }

  lemma DecodeUtf16(c: bv32, rest: seq<Unit>)
    requires IsScalar(c)
    ensures DecodeWideOne(Utf16(c) + rest) == Decoded(c, |Utf16(c)|)
    ensures (Utf16(c) + rest)[|Utf16(c)|..] == rest
    ensures ValidUtf16(Utf16(c) + rest) <==> ValidUtf16(rest)
  {
    hide High, Low, PairValue, IsSurrogate, IsHighSurrogate, IsLowSurrogate, DecodeWideOne, ValidUtf16;
    var w := Utf16(c) + rest;
    if c > 0xFFFF {
      SurrogatePair(c);
      assert w[0] == High(c) && w[1] == Low(c) && w[2..] == rest;
      DecodePair(w);
    } else {
      assert w[0] == c && w[1..] == rest;
      DecodeSingle(w);
    }
  }

  lemma {:induction false} DecodeUtf16All(cs: seq<bv32>)
    requires AllScalar(cs)
    ensures DecodeWide(Utf16All(cs)) == cs && ValidUtf16(Utf16All(cs))
  {
    hide Utf16, DecodeWideOne;
    if cs != [] {
      DecodeUtf16(cs[0], Utf16All(cs[1..]));
      DecodeUtf16All(cs[1..]);
    }
  }

  /** A wide string is well-formed UTF-16 exactly when its code points are scalar and it is their UTF-16 form. */
  lemma {:induction false} ValidIffReencodes16(w: seq<Unit>)
    ensures ValidUtf16(w) <==> AllScalar(DecodeWide(w)) && Utf16All(DecodeWide(w)) == w
    decreases |w|
  {
    hide High, Low, PairValue, IsSurrogate, IsHighSurrogate, IsLowSurrogate, DecodeWideOne;
    if ValidUtf16(w) && w != [] {
      if IsHighSurrogate(w[0]) {
        PairIsCharacter(w[0], w[1]);
        PairIsScalar(w[0], w[1]);
        DecodePair(w);
        ValidIffReencodes16(w[2..]);
        assert w == [w[0], w[1]] + w[2..];
      } else {
        DecodeSingle(w);
        ValidIffReencodes16(w[1..]);
        assert w == [w[0]] + w[1..];
      }
    }
    if AllScalar(DecodeWide(w)) && Utf16All(DecodeWide(w)) == w {
      DecodeUtf16All(DecodeWide(w));
    }
  }
}
