/** The string conversions: the loops of the code, what they compute, and how they undo each other. */
module NarrowWiden {
  import opened Common
  import opened Utf
  import opened UtfStrings

  // ----- what the conversions compute -----

  /** Values beyond the Unicode range become replacement characters. */
  function Sanitized(cs: seq<bv32>): seq<bv32> {
    if cs == [] then [] else [if cs[0] > 0x10FFFF then REPLACEMENT else cs[0]] + Sanitized(cs[1..])
  }

  lemma WideNotSurrogate(w: seq<Unit>)
    requires w != []
    ensures !IsSurrogate(DecodeWideOne(w).codepoint)
  {
    if IsHighSurrogate(w[0]) && |w| > 1 && IsLowSurrogate(w[1]) {
      PairIsCharacter(w[0], w[1]);
    }
  }

  lemma {:induction false} WideAllScalar(w: seq<Unit>)
    ensures AllScalar(Sanitized(DecodeWide(w)))
    decreases |w|
  {
    hide DecodeWideOne;
    if w != [] {
      WideNotSurrogate(w);
      WideAllScalar(w[DecodeWideOne(w).next..]);
      assert DecodeWide(w)[1..] == DecodeWide(w[DecodeWideOne(w).next..]);
    }
  }

  /** The UTF-8 string narrow produces. */
  function NarrowOf(w: seq<Unit>): seq<Byte> {
    WideAllScalar(w);
    CollapsedIsNormal(Sanitized(DecodeWide(w)));
    EncodeAll(Collapsed(Sanitized(DecodeWide(w))))
  }

  /** The wide string widen produces. */
  function WidenOf(s: seq<Byte>): seq<Unit> {
    Utf16All(DecodeAll(s))
  }

  // ----- the loops -----

  predicate EndsWithReplacement(s: seq<Byte>) {
    |s| >= 3 && s[|s| - 3] == 0xEF && s[|s| - 2] == 0xBF && s[|s| - 1] == 0xBD
  }

  lemma ReplacementBytes(c: bv32)
    requires 0x800 <= c <= 0xFFFF
    ensures Lead3(c) == 0xEF && Tail1(c) == 0xBF && Tail0(c) == 0xBD <==> c == REPLACEMENT
  {
  }

  lemma LowBytes(c: bv32)
    ensures c <= 0x7F ==> c as Byte != 0xBD
    ensures 0x80 <= c <= 0x7FF ==> Lead2(c) != 0xBF
    ensures Tail2(c) != 0xEF
  {
  }

  /** UTF-8 is self-synchronising: a string ends in EF BF BD exactly when its last character is U+FFFD. */
  lemma EndsInReplacementCharacter(cs: seq<bv32>)
    requires AllScalar(cs)
    ensures EndsWithReplacement(EncodeAll(cs)) <==> cs != [] && cs[|cs| - 1] == REPLACEMENT
  {
    hide Encode, EndsWithReplacement;
    if cs == [] {
      NothingEnds();
    } else {
      var before, c := cs[..|cs| - 1], cs[|cs| - 1];
      assert cs == before + [c];
      EncodeAppend(before, c);
      LastCharacterDecides(EncodeAll(before), c);
    }
  }

  lemma NothingEnds()
    ensures !EndsWithReplacement(EncodeAll([]))
  {
  }

  /** Only the last character can provide the last three bytes EF BF BD. */
  lemma LastCharacterDecides(s: seq<Byte>, c: bv32)
    requires IsScalar(c)
    ensures EndsWithReplacement(s + Encode(c)) <==> c == REPLACEMENT
  {
    hide Lead2, Lead3, Lead4, Tail0, Tail1, Tail2, IsScalar;
    LowBytes(c);
    if 0x800 <= c <= 0xFFFF {
      ReplacementBytes(c);
    }
  }

  lemma AppendedEncodes(cs: seq<bv32>, c: bv32)
    requires AllScalar(cs) && IsScalar(c)
    ensures AllScalar(Appended(cs, c))
    ensures EncodeAll(Appended(cs, c)) ==
            if c == REPLACEMENT && EndsWithReplacement(EncodeAll(cs)) then EncodeAll(cs) else EncodeAll(cs) + Encode(c)
  {
    hide Encode, EndsWithReplacement;
    EndsInReplacementCharacter(cs);
    EncodeAppend(cs, c);
  }

  lemma RepairedIsScalar(codepoint: bv32)
    requires !IsSurrogate(codepoint)
    ensures IsScalar(if codepoint > 0x10FFFF then REPLACEMENT else codepoint)
  {
  }

  /** Appends one code point; `cs` are the characters written so far. */
  method ToUtf8(codepoint: bv32, result: seq<Byte>, ghost cs: seq<bv32>) returns (r: seq<Byte>)
    requires !IsSurrogate(codepoint) && AllScalar(cs) && result == EncodeAll(cs)
    ensures var c := if codepoint > 0x10FFFF then REPLACEMENT else codepoint;
            AllScalar(Appended(cs, c)) && r == EncodeAll(Appended(cs, c))
  {
    hide Lead2, Lead3, Lead4, Tail0, Tail1, Tail2, EndsWithReplacement, IsScalar, IsSurrogate, EncodeAll, Appended;
    RepairedIsScalar(codepoint);
    AppendedEncodes(cs, if codepoint > 0x10FFFF then REPLACEMENT else codepoint);
    EncodedReplacement();
    if codepoint <= 0x7F {
      r := result + [codepoint as Byte];
    } else if codepoint <= 0x7FF {
      r := result + [Lead2(codepoint), Tail0(codepoint)];
    } else if codepoint <= 0xFFFF {
      if codepoint == REPLACEMENT && EndsWithReplacement(result) {
        return result;
      }
      r := result + [Lead3(codepoint), Tail1(codepoint), Tail0(codepoint)];
    } else if codepoint <= 0x10FFFF {
      r := result + [Lead4(codepoint), Tail2(codepoint), Tail1(codepoint), Tail0(codepoint)];
    } else if !EndsWithReplacement(result) {
      r := result + [0xEF, 0xBF, 0xBD];
    } else {
      r := result;
    }
  }

  lemma EncodedReplacement()
    ensures Encode(REPLACEMENT) == [0xEF, 0xBF, 0xBD]
  {
    ReplacementBytes(REPLACEMENT);
  }

  /** Decodes the code point at `index` and says which unit was the last one used. */
  method DecodeWideCodepoint(w: seq<Unit>, index: nat) returns (codepoint: bv32, last: nat)
    requires index < |w|
    ensures codepoint == DecodeWideOne(w[index..]).codepoint
    ensures last + 1 == index + DecodeWideOne(w[index..]).next
  {
    last := index;
    var currentChar := w[index];
    if !IsSurrogate(currentChar) {
      return currentChar, last;
    }
    if IsHighSurrogate(currentChar) && index + 1 < |w| {
      var nextChar := w[index + 1];
      if IsLowSurrogate(nextChar) {
        return (currentChar << 10) + nextChar - 0x35FDC00, index + 1;
      }
    }
    return REPLACEMENT, last;
  }

  method Narrow(w: seq<Unit>) returns (result: seq<Byte>)
    ensures result == NarrowOf(w)
  {
    hide Sanitized, DecodeWideOne, EncodeAll, DecodeWide, Collapsed, Appended, IsSurrogate, IsScalar, AllScalar;
    result := [];
    WideAllScalar(w);
    ghost var all := Sanitized(DecodeWide(w));
    ghost var done: seq<bv32> := [];
    var index := 0;
    NothingYet();
    assert w[0..] == w;
    while index < |w|
      invariant index <= |w|
      invariant all == done + Sanitized(DecodeWide(w[index..]))
      invariant AllScalar(Collapsed(done)) && result == EncodeAll(Collapsed(done))
    {
      var codepoint, last := DecodeWideCodepoint(w, index);
      WideNotSurrogate(w[index..]);
      result := ToUtf8(codepoint, result, Collapsed(done));
      ghost var c := if codepoint > 0x10FFFF then REPLACEMENT else codepoint;
      WideStep(w, index);
      CollapsedUnfold(done, c);
      done := done + [c];
      index := last + 1;
    }
    assert w[index..] == [];
    assert done == all;
  }

  lemma WideStep(w: seq<Unit>, index: nat)
    requires index < |w|
    ensures var d := DecodeWideOne(w[index..]);
            && index + d.next <= |w|
            && Sanitized(DecodeWide(w[index..])) ==
               [if d.codepoint > 0x10FFFF then REPLACEMENT else d.codepoint]
               + Sanitized(DecodeWide(w[index + d.next..]))
  {
    hide DecodeWideOne;
    var d := DecodeWideOne(w[index..]);
    assert w[index..][d.next..] == w[index + d.next..];
    assert DecodeWide(w[index..]) == [d.codepoint] + DecodeWide(w[index + d.next..]);
    assert DecodeWide(w[index..])[1..] == DecodeWide(w[index + d.next..]);
  }

  lemma NothingYet()
    ensures Collapsed([]) == [] && EncodeAll([]) == [] && AllScalar([]) && Sanitized(DecodeWide([])) == []
  {
  }

  /** Decodes the UTF-8 character at `it`, replacing what is malformed; at least one byte is consumed. */
  method DecodeCodepoint(s: seq<Byte>, it: nat) returns (codepoint: bv32, next: nat)
    requires it < |s|
    ensures codepoint == DecodeOne(s[it..]).codepoint
    ensures it < next <= |s| && next == it + DecodeOne(s[it..]).next
  {
    hide LeadBits, Pushed, SequenceSize, IsInvalidContinuation;
    var leadingByte := s[it];
    next := it + 1;
    if leadingByte <= 0x7F {
      return leadingByte as bv32, next;
    }
    if next == |s| {
      return REPLACEMENT, next;
    }
    var sequenceSize := SequenceSize(leadingByte);
    var value := LeadBits(leadingByte, sequenceSize);
    var index := 1;
    ghost var t := s[it..];
    while next < |s| && index < sequenceSize
      invariant it < next <= |s|
      invariant DecodeOne(t) == DecodeTail(t, next - it, index, sequenceSize, value)
      decreases |s| - next
    {
      var continuationByte := s[next];
      assert continuationByte == t[next - it];
      if IsInvalidContinuation(continuationByte) {
        return REPLACEMENT, next;
      }
      value := Pushed(value, continuationByte);
      next := next + 1;
      index := index + 1;
    }
    if index != sequenceSize {
      return REPLACEMENT, next;
    }
    return Checked(value, sequenceSize), next;
  }

  method ToUtf16(codepoint: bv32, result: seq<Unit>, ghost cs: seq<bv32>) returns (r: seq<Unit>)
    requires result == Utf16All(cs)
    ensures r == Utf16All(cs + [codepoint])
  {
    hide Beyond, UpperPart, LowerPart, HighUnit, LowUnit;
    Utf16Append(cs, codepoint);
    if codepoint <= 0xFFFF {
      r := result + [codepoint];
    } else {
      var offset := Beyond(codepoint);
      r := result + [HighUnit(UpperPart(offset))] + [LowUnit(LowerPart(offset))];
    }
  }

  method Widen(s: seq<Byte>) returns (result: seq<Unit>)
    ensures result == WidenOf(s)
  {
    hide DecodeOne, Utf16All;
    result := [];
    ghost var done: seq<bv32> := [];
    var it := 0;
    assert s[0..] == s;
    NothingWide();
    while it < |s|
      invariant it <= |s|
      invariant DecodeAll(s) == done + DecodeAll(s[it..])
      invariant result == Utf16All(done)
    {
      var codepoint, next := DecodeCodepoint(s, it);
      result := ToUtf16(codepoint, result, done);
      assert s[it..][next - it..] == s[next..];
      assert DecodeAll(s) == done + [codepoint] + DecodeAll(s[next..]);
      done := done + [codepoint];
      it := next;
    }
    assert DecodeAll(s[it..]) == [];
    assert done == DecodeAll(s);
  }

  lemma NothingWide()
    ensures Utf16All([]) == []
  {
  }

  // ----- recovery from errors -----

  lemma {:induction false} Utf16Concat(a: seq<bv32>, b: seq<bv32>)
    ensures Utf16All(a + b) == Utf16All(a) + Utf16All(b)
  {
    hide Utf16;
    if a == [] {
      assert a + b == b;
      assert Utf16All(a) + Utf16All(b) == Utf16All(b);
    } else {
      assert (a + b)[0] == a[0] && (a + b)[1..] == a[1..] + b;
      Utf16Concat(a[1..], b);
      assert Utf16(a[0]) + Utf16All(a[1..]) + Utf16All(b) == Utf16(a[0]) + (Utf16All(a[1..]) + Utf16All(b));
    }
  }

  /** Widening starts afresh at every byte that is no continuation byte, however broken the text before it is. */
  lemma WidenSplits(a: seq<Byte>, b: seq<Byte>)
    requires b == [] || !IsTail(b[0])
    ensures WidenOf(a + b) == WidenOf(a) + WidenOf(b)
  {
    hide DecodeAll, Utf16All, IsTail;
    DecodingSplits(a, b);
    Utf16Concat(DecodeAll(a), DecodeAll(b));
  }

  lemma FirstByteLeads(s: seq<Byte>)
    requires ValidUtf8(s) && s != []
    ensures !IsTail(s[0])
  {
  }

  /** Whatever comes before it, well-formed text is widened to its characters: nothing of it is lost. */
  lemma WidenKeepsText(a: seq<Byte>, cs: seq<bv32>)
    requires AllScalar(cs)
    ensures WidenOf(a + EncodeAll(cs)) == WidenOf(a) + Utf16All(cs)
  {
    hide DecodeAll, Utf16All, EncodeAll, ValidUtf8, IsTail;
    EncodedAreValid(cs);
    if EncodeAll(cs) != [] {
      FirstByteLeads(EncodeAll(cs));
    }
    WidenSplits(a, EncodeAll(cs));
    DecodeEncodedAll(cs);
  }

  /** For one: the Latin-1 bytes of an accented letter and an A keep the A. */
  lemma LetterAfterError()
    ensures WidenOf([0xC3, 0x41]) == [REPLACEMENT, 0x41]
  {
    assert [0x41 as bv32][1..] == [];
    assert Utf16All([]) == [];
    assert Utf16All([0x41]) == [0x41] && Utf16All([REPLACEMENT, 0x41]) == [REPLACEMENT, 0x41] by {
      assert [REPLACEMENT, 0x41][1..] == [0x41];
    }
    var s: seq<Byte> := [0xC3, 0x41];
    assert DecodeOne(s) == Decoded(REPLACEMENT, 1);
    assert s[1..] == [0x41] && s[1..][1..] == [];
    assert DecodeAll(s[1..]) == [0x41];
  }

  /** What narrow makes of one unit: the character, or U+FFFD where there is none. */
  lemma NarrowOfUnit(c: Unit)
    ensures NarrowOf([c]) == if IsScalar(c) then Encode(c) else [0xEF, 0xBF, 0xBD]
  {
    hide Encode, DecodeWide, Sanitized, Collapsed, EncodeAll;
    EncodedReplacement();
    var d := if IsSurrogate(c) then REPLACEMENT else c;
    var e := if d > 0x10FFFF then REPLACEMENT else d;
    if IsSurrogate(c) {
      LoneSurrogate([c]);
    } else {
      OwnCodePoint([c]);
    }
    Singletons(d, e);
    assert [c][1..] == [];
    assert DecodeWide([c]) == [d];
  }

  lemma Singletons(d: bv32, e: bv32)
    ensures DecodeWide([]) == []
    ensures Sanitized([d]) == [if d > 0x10FFFF then REPLACEMENT else d]
    ensures Collapsed([e]) == [e] && (IsScalar(e) ==> EncodeAll([e]) == Encode(e))
  {
    hide Encode;
    assert [d][1..] == [] && [e][..0] == [] && [e][1..] == [];
    assert e <= 0x10FFFF ==> Encode(e) + [] == Encode(e);
  }

  // ----- normal forms and round trips -----

  lemma {:induction false} SanitizedScalars(cs: seq<bv32>)
    requires AllScalar(cs)
    ensures Sanitized(cs) == cs
  {
    if cs != [] {
      assert IsScalar(cs[0]);
      SanitizedScalars(cs[1..]);
    }
  }

  /** Whatever the input, narrow yields well-formed UTF-8 without two replacement characters in a row. */
  lemma NarrowIsNormal(w: seq<Unit>)
    ensures ValidUtf8(NarrowOf(w)) && NoDoubleReplacement(DecodeAll(NarrowOf(w)))
  {
    hide Sanitized, DecodeWide, EncodeAll, DecodeAll, ValidUtf8, Collapsed;
    WideAllScalar(w);
    var cs := Sanitized(DecodeWide(w));
    CollapsedIsNormal(cs);
    EncodedAreValid(Collapsed(cs));
    DecodeEncodedAll(Collapsed(cs));
  }

  /** Whatever the input, widen yields well-formed UTF-16. */
  lemma WidenIsValid(s: seq<Byte>)
    ensures ValidUtf16(WidenOf(s))
  {
    DecodedAreScalar(s);
    DecodeUtf16All(DecodeAll(s));
  }

  /** Widening and narrowing again only repairs: the characters decoded, without repeated replacements. */
  lemma NarrowOfWiden(s: seq<Byte>)
    ensures AllScalar(Collapsed(DecodeAll(s)))
    ensures NarrowOf(WidenOf(s)) == EncodeAll(Collapsed(DecodeAll(s)))
  {
    hide Sanitized, DecodeWide, EncodeAll, DecodeAll, Collapsed;
    DecodedAreScalar(s);
    CollapsedIsNormal(DecodeAll(s));
    DecodeUtf16All(DecodeAll(s));
    SanitizedScalars(DecodeAll(s));
  }

  /** A byte string survives the round trip exactly when it is well-formed and repeats no replacement character. */
  lemma NarrowWidenRoundTrip(s: seq<Byte>)
    ensures NarrowOf(WidenOf(s)) == s <==> ValidUtf8(s) && NoDoubleReplacement(DecodeAll(s))
  {
    hide Sanitized, DecodeWide, EncodeAll, DecodeAll, ValidUtf8, Collapsed, NarrowOf, WidenOf;
    NarrowOfWiden(s);
    ValidIffReencodes(s);
    CollapsedIsNormal(DecodeAll(s));
    if NarrowOf(WidenOf(s)) == s {
      NarrowIsNormal(WidenOf(s));
    }
  }

  /** A string whose wide form shows no replacement character has lost nothing. */
  lemma CleanWideningLosesNothing(s: seq<Byte>)
    requires REPLACEMENT !in DecodeAll(s)
    ensures NarrowOf(WidenOf(s)) == s
  {
    hide DecodeAll, ValidUtf8, NarrowOf, WidenOf;
    ErrorsLeaveReplacements(s);
    NarrowWidenRoundTrip(s);
    var cs := DecodeAll(s);
    forall i | 0 <= i < |cs| ensures cs[i] != REPLACEMENT {
      assert cs[i] in cs;
    }
  }

  /** One pass through narrow reaches a normal form that later round trips keep. */
  lemma NarrowIsStable(w: seq<Unit>)
    ensures NarrowOf(WidenOf(NarrowOf(w))) == NarrowOf(w)
  {
    hide NarrowOf, WidenOf;
    NarrowIsNormal(w);
    NarrowWidenRoundTrip(NarrowOf(w));
  }

  /** A wide string survives the opposite trip exactly when it is well-formed UTF-16 and repeats no replacement. */
  lemma WidenNarrowRoundTrip(w: seq<Unit>)
    ensures WidenOf(NarrowOf(w)) == w <==> ValidUtf16(w) && NoDoubleReplacement(DecodeWide(w))
  {
    hide Sanitized, DecodeWide, EncodeAll, DecodeAll, ValidUtf16, Collapsed, Utf16All;
    WideAllScalar(w);
    var cs := Sanitized(DecodeWide(w));
    CollapsedIsNormal(cs);
    DecodeEncodedAll(Collapsed(cs));
    assert WidenOf(NarrowOf(w)) == Utf16All(Collapsed(cs));
    ValidIffReencodes16(w);
    DecodeUtf16All(Collapsed(cs));
    if ValidUtf16(w) {
      SanitizedScalars(DecodeWide(w));
    }
  }
}
