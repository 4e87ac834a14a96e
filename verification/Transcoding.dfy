/**
  The UTF-8 and UTF-16 conversions between C++ and Java strings. They are total: malformed input is
  replaced, code unit by code unit, by U+FFFD. The bits are modelled as bits.
 */
module Transcoding {

  type Utf8 = seq<bv8>
  type Utf16 = seq<bv16>

  /** The number of code units consumed and the code point they stand for. */
  datatype OffsetPt = Invalid | Valid(offset: nat, pt: bv32)

  const REPLACEMENT: bv32 := 0xFFFD
  const LIMIT: bv32 := 0x110000

  /** Reading one past the end of a string gives its terminator. */
  function Byte(s: Utf8, i: nat): bv32
    requires i <= |s|
  {
    if i == |s| then 0 else s[i] as bv32
  }

  function Unit(s: Utf16, i: nat): bv32
    requires i <= |s|
  {
    if i == |s| then 0 else s[i] as bv32
  }

  predicate IsTail(b: bv32) {
    b & 0xC0 == 0x80
  }

  function Low8(x: bv32): bv8 {
    (x & 0xFF) as bv8
  }

  function Low16(x: bv32): bv16 {
    (x & 0xFFFF) as bv16
  }

  function Join2(b0: bv32, b1: bv32): bv32 {
    ((b0 & 0x1F) << 6) | (b1 & 0x3F)
  }

  function Join3(b0: bv32, b1: bv32, b2: bv32): bv32 {
    ((b0 & 0x0F) << 12) | ((b1 & 0x3F) << 6) | (b2 & 0x3F)
  }

  function Join4(b0: bv32, b1: bv32, b2: bv32, b3: bv32): bv32 {
    ((b0 & 0x0F) << 18) | ((b1 & 0x3F) << 12) | ((b2 & 0x3F) << 6) | (b3 & 0x3F)
  }

  function Utf8DecodeCheck(s: Utf8, i: nat): (d: OffsetPt)
    requires i < |s|
    ensures d.Valid? ==> 0 < d.offset && i + d.offset <= |s|
  {
    var b0 := Byte(s, i);
    if b0 < 0x80 then
      Valid(1, b0)
    else if b0 < 0xC0 then
      Invalid
    else if b0 < 0xE0 then
      var b1 := Byte(s, i + 1);
      if !IsTail(b1) then Invalid
      else
        var pt := Join2(b0, b1);
        if pt < 0x80 then Invalid else Valid(2, pt)
    else if b0 < 0xF0 then
      var b1 := Byte(s, i + 1);
      if !IsTail(b1) then Invalid
      else
        var b2 := Byte(s, i + 2);
        if !IsTail(b2) then Invalid
        else
          var pt := Join3(b0, b1, b2);
          if pt < 0x800 then Invalid else Valid(3, pt)
    else if b0 < 0xF8 then
      var b1 := Byte(s, i + 1);
      if !IsTail(b1) then Invalid
      else
        var b2 := Byte(s, i + 2);
        if !IsTail(b2) then Invalid
        else
          var b3 := Byte(s, i + 3);
          if !IsTail(b3) then Invalid
          else
            var pt := Join4(b0, b1, b2, b3);
            if pt < 0x10000 || pt >= LIMIT then Invalid else Valid(4, pt)
    else
      Invalid
  }

  function Utf8Encode(pt: bv32): (e: Utf8)
    ensures 1 <= |e| <= 4
  {
    if pt < 0x80 then
      [Low8(pt)]
    else if pt < 0x800 then
      [Low8((pt >> 6) | 0xC0), Low8((pt & 0x3F) | 0x80)]
    else if pt < 0x10000 then
      [Low8((pt >> 12) | 0xE0), Low8(((pt >> 6) & 0x3F) | 0x80), Low8((pt & 0x3F) | 0x80)]
    else if pt < LIMIT then
      [Low8((pt >> 18) | 0xF0), Low8(((pt >> 12) & 0x3F) | 0x80),
       Low8(((pt >> 6) & 0x3F) | 0x80), Low8((pt & 0x3F) | 0x80)]
    else
      [0xEF, 0xBF, 0xBD]
  }

  predicate IsHighSurrogate(c: bv32) {
    0xD800 <= c < 0xDC00
  }

  predicate IsLowSurrogate(c: bv32) {
    0xDC00 <= c < 0xE000
  }

  function JoinPair(hi: bv32, lo: bv32): bv32 {
    (((hi - 0xD800) << 10) | (lo - 0xDC00)) + 0x10000
  }

  function Utf16DecodeCheck(s: Utf16, i: nat): (d: OffsetPt)
    requires i < |s|
    ensures d.Valid? ==> 0 < d.offset && i + d.offset <= |s|
  {
    var c := Unit(s, i);
    if IsHighSurrogate(c) && IsLowSurrogate(Unit(s, i + 1)) then
      Valid(2, JoinPair(c, Unit(s, i + 1)))
    else if IsHighSurrogate(c) || IsLowSurrogate(c) then
      Invalid
    else
      Valid(1, c)
  }

  function Utf16Encode(pt: bv32): (e: Utf16)
    ensures 1 <= |e| <= 2
  {
    if pt < 0x10000 then
      [Low16(pt)]
    else if pt < LIMIT then
      [Low16(((pt - 0x10000) >> 10) + 0xD800), Low16((pt & 0x3FF) + 0xDC00)]
    else
      [0xFFFD]
  }

  // ---------- the bytes of a code point ----------

  ghost predicate Form2(b0: bv8, b1: bv8, pt: bv32) {
    0xC0 <= b0 < 0xE0 && IsTail(b1 as bv32) && pt == Join2(b0 as bv32, b1 as bv32) && 0x80 <= pt
  }

  ghost predicate Form3(b0: bv8, b1: bv8, b2: bv8, pt: bv32) {
    && 0xE0 <= b0 < 0xF0 && IsTail(b1 as bv32) && IsTail(b2 as bv32)
    && pt == Join3(b0 as bv32, b1 as bv32, b2 as bv32) && 0x800 <= pt
  }

  ghost predicate Form4(b0: bv8, b1: bv8, b2: bv8, b3: bv8, pt: bv32) {
    && 0xF0 <= b0 < 0xF8 && IsTail(b1 as bv32) && IsTail(b2 as bv32) && IsTail(b3 as bv32)
    && pt == Join4(b0 as bv32, b1 as bv32, b2 as bv32, b3 as bv32) && 0x10000 <= pt < LIMIT
  }

  /** `n` bytes at `i` spell `pt` in the layout of section 3 of RFC 3629, and none shorter would do. */
  ghost predicate Spells(s: Utf8, i: nat, n: nat, pt: bv32)
  {
    && i + n <= |s|
    && match n
       case 1 => s[i] < 0x80 && pt == s[i] as bv32
       case 2 => Form2(s[i], s[i + 1], pt)
       case 3 => Form3(s[i], s[i + 1], s[i + 2], pt)
       case 4 => Form4(s[i], s[i + 1], s[i + 2], s[i + 3], pt)
       case _ => false
  }

  lemma DecodeSpells(s: Utf8, i: nat)
    requires i < |s|
    ensures Utf8DecodeCheck(s, i).Valid? ==> Spells(s, i, Utf8DecodeCheck(s, i).offset, Utf8DecodeCheck(s, i).pt)
  {
  }

  lemma SpellsDecode(s: Utf8, i: nat, n: nat, pt: bv32)
    requires i < |s| && Spells(s, i, n, pt)
    ensures Utf8DecodeCheck(s, i) == Valid(n, pt)
  {
  }

  lemma SplitForm2(b0: bv8, b1: bv8, pt: bv32)
    requires Form2(b0, b1, pt)
    ensures b0 == Low8((pt >> 6) | 0xC0) && b1 == Low8((pt & 0x3F) | 0x80)
  {
  }

  lemma JoinForm2(b0: bv8, b1: bv8, pt: bv32)
    requires 0x80 <= pt < 0x800 && b0 == Low8((pt >> 6) | 0xC0) && b1 == Low8((pt & 0x3F) | 0x80)
    ensures Form2(b0, b1, pt)
  {
  }

  lemma SplitForm3(b0: bv8, b1: bv8, b2: bv8, pt: bv32)
    requires Form3(b0, b1, b2, pt)
    ensures b0 == Low8((pt >> 12) | 0xE0) && b1 == Low8(((pt >> 6) & 0x3F) | 0x80) && b2 == Low8((pt & 0x3F) | 0x80)
  {
  }

  lemma Rejoin3(pt: bv32)
    requires 0x800 <= pt < 0x10000
    ensures var b0, b1, b2 := Low8((pt >> 12) | 0xE0), Low8(((pt >> 6) & 0x3F) | 0x80), Low8((pt & 0x3F) | 0x80);
            && 0xE0 <= b0 < 0xF0 && IsTail(b1 as bv32) && IsTail(b2 as bv32)
            && Join3(b0 as bv32, b1 as bv32, b2 as bv32) == pt
  {
  }

  lemma JoinForm3(b0: bv8, b1: bv8, b2: bv8, pt: bv32)
    requires 0x800 <= pt < 0x10000 && b0 == Low8((pt >> 12) | 0xE0)
    requires b1 == Low8(((pt >> 6) & 0x3F) | 0x80) && b2 == Low8((pt & 0x3F) | 0x80)
    ensures Form3(b0, b1, b2, pt)
  {
    Rejoin3(pt);
  }

  lemma SplitForm4(b0: bv8, b1: bv8, b2: bv8, b3: bv8, pt: bv32)
    requires Form4(b0, b1, b2, b3, pt)
    ensures b0 == Low8((pt >> 18) | 0xF0) && b1 == Low8(((pt >> 12) & 0x3F) | 0x80)
    ensures b2 == Low8(((pt >> 6) & 0x3F) | 0x80) && b3 == Low8((pt & 0x3F) | 0x80)
  {
  }

  lemma Rejoin4(pt: bv32)
    requires 0x10000 <= pt < LIMIT
    ensures var b0, b1 := Low8((pt >> 18) | 0xF0), Low8(((pt >> 12) & 0x3F) | 0x80);
            var b2, b3 := Low8(((pt >> 6) & 0x3F) | 0x80), Low8((pt & 0x3F) | 0x80);
            && 0xF0 <= b0 < 0xF8 && IsTail(b1 as bv32) && IsTail(b2 as bv32) && IsTail(b3 as bv32)
            && Join4(b0 as bv32, b1 as bv32, b2 as bv32, b3 as bv32) == pt
  {
  }

  lemma JoinForm4(b0: bv8, b1: bv8, b2: bv8, b3: bv8, pt: bv32)
    requires 0x10000 <= pt < LIMIT && b0 == Low8((pt >> 18) | 0xF0) && b1 == Low8(((pt >> 12) & 0x3F) | 0x80)
    requires b2 == Low8(((pt >> 6) & 0x3F) | 0x80) && b3 == Low8((pt & 0x3F) | 0x80)
    ensures Form4(b0, b1, b2, b3, pt)
  {
    Rejoin4(pt);
  }

  lemma Layout1(s: Utf8, i: nat, pt: bv32)
    requires i + 1 <= |s| && pt < 0x80
    ensures Utf8Encode(pt) == s[i..i + 1] <==> s[i] == Low8(pt)
  {
    assert s[i..i + 1] == [s[i]];
  }

  lemma Layout2(s: Utf8, i: nat, pt: bv32)
    requires i + 2 <= |s| && 0x80 <= pt < 0x800
    ensures Utf8Encode(pt) == s[i..i + 2] <==> s[i] == Low8((pt >> 6) | 0xC0) && s[i + 1] == Low8((pt & 0x3F) | 0x80)
  {
    assert s[i..i + 2] == [s[i], s[i + 1]];
  }

  lemma Layout3(s: Utf8, i: nat, pt: bv32)
    requires i + 3 <= |s| && 0x800 <= pt < 0x10000
    ensures Utf8Encode(pt) == s[i..i + 3] <==>
            && s[i] == Low8((pt >> 12) | 0xE0)
            && s[i + 1] == Low8(((pt >> 6) & 0x3F) | 0x80)
            && s[i + 2] == Low8((pt & 0x3F) | 0x80)
  {
    assert s[i..i + 3] == [s[i], s[i + 1], s[i + 2]];
  }

  lemma Layout4(s: Utf8, i: nat, pt: bv32)
    requires i + 4 <= |s| && 0x10000 <= pt < LIMIT
    ensures Utf8Encode(pt) == s[i..i + 4] <==>
            && s[i] == Low8((pt >> 18) | 0xF0)
            && s[i + 1] == Low8(((pt >> 12) & 0x3F) | 0x80)
            && s[i + 2] == Low8(((pt >> 6) & 0x3F) | 0x80)
            && s[i + 3] == Low8((pt & 0x3F) | 0x80)
  {
    assert s[i..i + 4] == [s[i], s[i + 1], s[i + 2], s[i + 3]];
  }

  lemma SpellsIffEncoded2(s: Utf8, i: nat, pt: bv32)
    requires i + 2 <= |s| && 0x80 <= pt < 0x800
    ensures Spells(s, i, 2, pt) <==> Utf8Encode(pt) == s[i..i + 2]
  {
    Layout2(s, i, pt);
    if Form2(s[i], s[i + 1], pt) {
      SplitForm2(s[i], s[i + 1], pt);
    } else if Utf8Encode(pt) == s[i..i + 2] {
      JoinForm2(s[i], s[i + 1], pt);
    }
  }

  lemma SpellsIffEncoded3(s: Utf8, i: nat, pt: bv32)
    requires i + 3 <= |s| && 0x800 <= pt < 0x10000
    ensures Spells(s, i, 3, pt) <==> Utf8Encode(pt) == s[i..i + 3]
  {
    Layout3(s, i, pt);
    if Form3(s[i], s[i + 1], s[i + 2], pt) {
      SplitForm3(s[i], s[i + 1], s[i + 2], pt);
    } else if Utf8Encode(pt) == s[i..i + 3] {
      JoinForm3(s[i], s[i + 1], s[i + 2], pt);
    }
  }

  lemma SpellsIffEncoded4(s: Utf8, i: nat, pt: bv32)
    requires i + 4 <= |s| && 0x10000 <= pt < LIMIT
    ensures Spells(s, i, 4, pt) <==> Utf8Encode(pt) == s[i..i + 4]
  {
    Layout4(s, i, pt);
    if Form4(s[i], s[i + 1], s[i + 2], s[i + 3], pt) {
      SplitForm4(s[i], s[i + 1], s[i + 2], s[i + 3], pt);
    } else if Utf8Encode(pt) == s[i..i + 4] {
      JoinForm4(s[i], s[i + 1], s[i + 2], s[i + 3], pt);
    }
  }

  lemma SpellsRange(s: Utf8, i: nat, n: nat, pt: bv32)
    requires Spells(s, i, n, pt)
    ensures 0 < n && i + n <= |s| && pt < LIMIT && n == |Utf8Encode(pt)|
  {
  }

  /** A code point below the limit is spelled exactly by its encoding. */
  lemma SpellsIffEncoded(s: Utf8, i: nat, n: nat, pt: bv32)
    requires i + n <= |s|
    ensures Spells(s, i, n, pt) <==> pt < LIMIT && Utf8Encode(pt) == s[i..i + n]
  {
    if Spells(s, i, n, pt) {
      SpellsRange(s, i, n, pt);
    }
    if pt < LIMIT && n == |Utf8Encode(pt)| {
      match n
      case 1 => Layout1(s, i, pt);
      case 2 => SpellsIffEncoded2(s, i, pt);
      case 3 => SpellsIffEncoded3(s, i, pt);
      case _ => SpellsIffEncoded4(s, i, pt);
    }
  }

  /** Decoding at `i` succeeds exactly on an encoding of a code point below the limit, surrogates included. */
  lemma DecodeIffEncoded8(s: Utf8, i: nat, n: nat, pt: bv32)
    requires i < |s| && i + n <= |s|
    ensures Utf8DecodeCheck(s, i) == Valid(n, pt) <==> pt < LIMIT && Utf8Encode(pt) == s[i..i + n]
  {
    SpellsIffEncoded(s, i, n, pt);
    DecodeSpells(s, i);
    if Spells(s, i, n, pt) {
      SpellsDecode(s, i, n, pt);
    }
  }

  // ---------- UTF-16 units of a code point ----------

  predicate IsSurrogate(c: bv32) {
    IsHighSurrogate(c) || IsLowSurrogate(c)
  }

  /** A Unicode scalar value: what well-formed text consists of. */
  predicate IsScalar(pt: bv32) {
    pt < LIMIT && !IsSurrogate(pt)
  }

  lemma SplitPair(hi: bv16, lo: bv16, pt: bv32)
    requires IsHighSurrogate(hi as bv32) && IsLowSurrogate(lo as bv32) && pt == JoinPair(hi as bv32, lo as bv32)
    ensures 0x10000 <= pt < LIMIT && Low16(((pt - 0x10000) >> 10) + 0xD800) == hi && Low16((pt & 0x3FF) + 0xDC00) == lo
  {
  }

  lemma RejoinPair(pt: bv32)
    requires 0x10000 <= pt < LIMIT
    ensures var hi, lo := Low16(((pt - 0x10000) >> 10) + 0xD800), Low16((pt & 0x3FF) + 0xDC00);
            && IsHighSurrogate(hi as bv32) && IsLowSurrogate(lo as bv32)
            && JoinPair(hi as bv32, lo as bv32) == pt
  {
  }

  ghost predicate IsPairOf(hi: bv16, lo: bv16, pt: bv32) {
    IsHighSurrogate(hi as bv32) && IsLowSurrogate(lo as bv32) && pt == JoinPair(hi as bv32, lo as bv32)
  }

  /** `n` units at `i` spell the scalar value `pt` by the rules of section 2 of RFC 2781. */
  ghost predicate SpellsUnits(s: Utf16, i: nat, n: nat, pt: bv32)
  {
    && i + n <= |s|
    && match n
       case 1 => !IsSurrogate(s[i] as bv32) && pt == s[i] as bv32
       case 2 => IsPairOf(s[i], s[i + 1], pt)
       case _ => false
  }

  lemma DecodeSpellsUnits(s: Utf16, i: nat)
    requires i < |s| && Utf16DecodeCheck(s, i).Valid?
    ensures SpellsUnits(s, i, Utf16DecodeCheck(s, i).offset, Utf16DecodeCheck(s, i).pt)
  {
  }

  lemma SpellsUnitsDecode(s: Utf16, i: nat, n: nat, pt: bv32)
    requires i < |s| && SpellsUnits(s, i, n, pt)
    ensures Utf16DecodeCheck(s, i) == Valid(n, pt)
  {
  }

  lemma Layout16Pair(s: Utf16, i: nat, pt: bv32)
    requires i + 1 < |s| && 0x10000 <= pt < LIMIT
    ensures Utf16Encode(pt) == s[i..i + 2] <==>
            && s[i] == Low16(((pt - 0x10000) >> 10) + 0xD800)
            && s[i + 1] == Low16((pt & 0x3FF) + 0xDC00)
  {
    assert s[i..i + 2] == [s[i], s[i + 1]];
  }

  lemma SpelledUnitIsEncoded(s: Utf16, i: nat, pt: bv32)
    requires SpellsUnits(s, i, 1, pt)
    ensures pt < 0x10000 && !IsSurrogate(pt) && Utf16Encode(pt) == s[i..i + 1]
  {
    assert s[i..i + 1] == [s[i]];
  }

  lemma PairIsEncoded(s: Utf16, i: nat, hi: bv16, lo: bv16, pt: bv32)
    requires i + 1 < |s| && hi == s[i] && lo == s[i + 1] && IsPairOf(hi, lo, pt)
    ensures 0x10000 <= pt < LIMIT && Utf16Encode(pt) == s[i..i + 2]
  {
    SplitPair(hi, lo, pt);
    Layout16Pair(s, i, pt);
  }

  lemma SpelledPairIsEncoded(s: Utf16, i: nat, pt: bv32)
    requires SpellsUnits(s, i, 2, pt)
    ensures 0x10000 <= pt < LIMIT && Utf16Encode(pt) == s[i..i + 2]
  {
    PairIsEncoded(s, i, s[i], s[i + 1], pt);
  }

  lemma EncodedUnitIsSpelled(s: Utf16, i: nat, pt: bv32)
    requires i < |s| && IsScalar(pt) && pt < 0x10000 && Utf16Encode(pt) == s[i..i + 1]
    ensures SpellsUnits(s, i, 1, pt)
  {
    assert s[i..i + 1] == [s[i]];
  }

  lemma EncodedPairIsSpelled(s: Utf16, i: nat, pt: bv32)
    requires i + 1 < |s| && 0x10000 <= pt < LIMIT && Utf16Encode(pt) == s[i..i + 2]
    ensures SpellsUnits(s, i, 2, pt)
  {
    RejoinPair(pt);
    Layout16Pair(s, i, pt);
  }

  /** Decoding at `i` succeeds exactly on an encoding of a scalar value. */
  lemma DecodeIffEncoded16(s: Utf16, i: nat, n: nat, pt: bv32)
    requires i < |s| && i + n <= |s|
    ensures Utf16DecodeCheck(s, i) == Valid(n, pt) <==> IsScalar(pt) && Utf16Encode(pt) == s[i..i + n]
  {
    if Utf16DecodeCheck(s, i) == Valid(n, pt) {
      DecodeSpellsUnits(s, i);
      if n == 1 {
        SpelledUnitIsEncoded(s, i, pt);
      } else {
        SpelledPairIsEncoded(s, i, pt);
      }
    } else if IsScalar(pt) && Utf16Encode(pt) == s[i..i + n] {
      if pt < 0x10000 {
        EncodedUnitIsSpelled(s, i, pt);
      } else {
        EncodedPairIsSpelled(s, i, pt);
      }
      SpellsUnitsDecode(s, i, n, pt);
    }
  }

  // ---------- the conversions ----------

  /** Decoding never stops: what cannot be decoded is skipped unit by unit and read as U+FFFD. */
  function Utf8Decode(s: Utf8, i: nat): (d: (bv32, nat))
    requires i < |s|
    ensures i < d.1 <= |s| && (Utf8DecodeCheck(s, i).Invalid? ==> d == (0xFFFD, i + 1))
  {
    match Utf8DecodeCheck(s, i)
    case Invalid => (REPLACEMENT, i + 1)
    case Valid(offset, pt) => (pt, i + offset)
  }

  function Utf16Decode(s: Utf16, i: nat): (d: (bv32, nat))
    requires i < |s|
    ensures i < d.1 <= |s| && (Utf16DecodeCheck(s, i).Invalid? ==> d == (0xFFFD, i + 1))
  {
    match Utf16DecodeCheck(s, i)
    case Invalid => (REPLACEMENT, i + 1)
    case Valid(offset, pt) => (pt, i + offset)
  }

  /** The UTF-16 for what follows position `i` of `s`. */
  function ToUtf16(s: Utf8, i: nat): Utf16
    requires i <= |s|
    decreases |s| - i
  {
    if i == |s| then [] else Utf16Encode(Utf8Decode(s, i).0) + ToUtf16(s, Utf8Decode(s, i).1)
  }

  /** The UTF-8 for what follows position `i` of `s`. */
  function ToUtf8(s: Utf16, i: nat): Utf8
    requires i <= |s|
    decreases |s| - i
  {
    if i == |s| then [] else Utf8Encode(Utf16Decode(s, i).0) + ToUtf8(s, Utf16Decode(s, i).1)
  }

  /** The loop of jniStringFromUTF8. */
  method StringFromUtf8(str: Utf8) returns (utf16: Utf16)
    ensures utf16 == ToUtf16(str, 0)
  {
    utf16 := [];
    var i := 0;
    while i < |str|
      invariant 0 <= i <= |str|
      invariant utf16 + ToUtf16(str, i) == ToUtf16(str, 0)
    {
      var (pt, next) := Utf8Decode(str, i);
      assert ToUtf16(str, i) == Utf16Encode(pt) + ToUtf16(str, next);
      utf16 := utf16 + Utf16Encode(pt);
      i := next;
    }
  }

  /** The loop of jniUTF8FromString. */
  method Utf8FromString(str: Utf16) returns (out: Utf8)
    ensures out == ToUtf8(str, 0)
  {
    out := [];
    var i := 0;
    while i < |str|
      invariant 0 <= i <= |str|
      invariant out + ToUtf8(str, i) == ToUtf8(str, 0)
    {
      var (pt, next) := Utf16Decode(str, i);
      assert ToUtf8(str, i) == Utf8Encode(pt) + ToUtf8(str, next);
      out := out + Utf8Encode(pt);
      i := next;
    }
  }

  // ---------- well-formed text ----------

  predicate Between(b: bv8, lo: bv8, hi: bv8) {
    lo <= b <= hi
  }

  predicate Char2(b0: bv8, b1: bv8) {
    Between(b0, 0xC2, 0xDF) && Between(b1, 0x80, 0xBF)
  }

  predicate Char3(b0: bv8, b1: bv8, b2: bv8) {
    && Between(b2, 0x80, 0xBF)
    && (|| (b0 == 0xE0 && Between(b1, 0xA0, 0xBF))
        || (Between(b0, 0xE1, 0xEC) && Between(b1, 0x80, 0xBF))
        || (b0 == 0xED && Between(b1, 0x80, 0x9F))
        || (Between(b0, 0xEE, 0xEF) && Between(b1, 0x80, 0xBF)))
  }

  predicate Char4(b0: bv8, b1: bv8, b2: bv8, b3: bv8) {
    && Between(b2, 0x80, 0xBF) && Between(b3, 0x80, 0xBF)
    && (|| (b0 == 0xF0 && Between(b1, 0x90, 0xBF))
        || (Between(b0, 0xF1, 0xF3) && Between(b1, 0x80, 0xBF))
        || (b0 == 0xF4 && Between(b1, 0x80, 0x8F)))
  }

  /** UTF8-char of section 4 of RFC 3629, at position `i` and `n` bytes long. */
  predicate IsUtf8Char(s: Utf8, i: nat, n: nat)
  {
    && i + n <= |s|
    && match n
       case 1 => Between(s[i], 0x00, 0x7F)
       case 2 => Char2(s[i], s[i + 1])
       case 3 => Char3(s[i], s[i + 1], s[i + 2])
       case 4 => Char4(s[i], s[i + 1], s[i + 2], s[i + 3])
       case _ => false
  }

  /** UTF8-octets: what follows `i` is a sequence of UTF8-chars. */
  ghost predicate WellFormed8(s: Utf8, i: nat)
    requires i <= |s|
    decreases |s| - i
  {
    i == |s| || exists n :: 1 <= n <= 4 && IsUtf8Char(s, i, n) && WellFormed8(s, i + n)
  }

  /** Section 2 of RFC 2781: surrogates come in pairs, a high one followed by a low one. */
  ghost predicate WellFormed16(s: Utf16, i: nat)
    requires i <= |s|
    decreases |s| - i
  {
    || i == |s|
    || (!IsSurrogate(s[i] as bv32) && WellFormed16(s, i + 1))
    || (i + 2 <= |s| && IsHighSurrogate(s[i] as bv32) && IsLowSurrogate(s[i + 1] as bv32) && WellFormed16(s, i + 2))
  }

  lemma Grammar3(b0: bv8, b1: bv8, b2: bv8, pt: bv32)
    requires pt == Join3(b0 as bv32, b1 as bv32, b2 as bv32)
    ensures Char3(b0, b1, b2) <==> Form3(b0, b1, b2, pt) && IsScalar(pt)
  {
  }

  lemma Grammar4(b0: bv8, b1: bv8, b2: bv8, b3: bv8, pt: bv32)
    requires pt == Join4(b0 as bv32, b1 as bv32, b2 as bv32, b3 as bv32)
    ensures Char4(b0, b1, b2, b3) <==> Form4(b0, b1, b2, b3, pt) && IsScalar(pt)
  {
  }

  lemma Char2IffScalar(s: Utf8, i: nat)
    requires i + 2 <= |s|
    ensures var pt := Join2(s[i] as bv32, s[i + 1] as bv32);
            IsUtf8Char(s, i, 2) <==> Spells(s, i, 2, pt) && IsScalar(pt)
  {
  }

  lemma Char3IffScalar(s: Utf8, i: nat)
    requires i + 3 <= |s|
    ensures var pt := Join3(s[i] as bv32, s[i + 1] as bv32, s[i + 2] as bv32);
            IsUtf8Char(s, i, 3) <==> Spells(s, i, 3, pt) && IsScalar(pt)
  {
    Grammar3(s[i], s[i + 1], s[i + 2], Join3(s[i] as bv32, s[i + 1] as bv32, s[i + 2] as bv32));
  }

  lemma Char4IffScalar(s: Utf8, i: nat)
    requires i + 4 <= |s|
    ensures var pt := Join4(s[i] as bv32, s[i + 1] as bv32, s[i + 2] as bv32, s[i + 3] as bv32);
            IsUtf8Char(s, i, 4) <==> Spells(s, i, 4, pt) && IsScalar(pt)
  {
    var pt := Join4(s[i] as bv32, s[i + 1] as bv32, s[i + 2] as bv32, s[i + 3] as bv32);
    Grammar4(s[i], s[i + 1], s[i + 2], s[i + 3], pt);
  }

  lemma Char1IffScalar(s: Utf8, i: nat)
    requires i < |s|
    ensures IsUtf8Char(s, i, 1) <==> Spells(s, i, 1, s[i] as bv32) && IsScalar(s[i] as bv32)
  {
  }

  lemma SpellsIsJoin(s: Utf8, i: nat, n: nat, pt: bv32)
    requires Spells(s, i, n, pt)
    ensures pt == JoinAt(s, i, n)
  {
  }

  /** The code point that `n` bytes at `i` would spell. */
  ghost function JoinAt(s: Utf8, i: nat, n: nat): bv32
    requires i + n <= |s|
  {
    match n
    case 1 => s[i] as bv32
    case 2 => Join2(s[i] as bv32, s[i + 1] as bv32)
    case 3 => Join3(s[i] as bv32, s[i + 1] as bv32, s[i + 2] as bv32)
    case 4 => Join4(s[i] as bv32, s[i + 1] as bv32, s[i + 2] as bv32, s[i + 3] as bv32)
    case _ => 0
  }

  /** The grammar of RFC 3629 spells out the scalar values. */
  lemma CharIffSpellsScalar(s: Utf8, i: nat, n: nat)
    requires i + n <= |s|
    ensures IsUtf8Char(s, i, n) <==> Spells(s, i, n, JoinAt(s, i, n)) && IsScalar(JoinAt(s, i, n))
  {
    match n
    case 1 => Char1IffScalar(s, i);
    case 2 => Char2IffScalar(s, i);
    case 3 => Char3IffScalar(s, i);
    case 4 => Char4IffScalar(s, i);
    case _ =>
  }

  // ---------- text as scalar values ----------

  /** A list of scalar values. */
  ghost predicate Scalars(pts: seq<bv32>) {
    forall k :: 0 <= k < |pts| ==> IsScalar(pts[k])
  }

  function Encode8(pts: seq<bv32>): Utf8 {
    if pts == [] then [] else Utf8Encode(pts[0]) + Encode8(pts[1..])
  }

  function Encode16(pts: seq<bv32>): Utf16 {
    if pts == [] then [] else Utf16Encode(pts[0]) + Encode16(pts[1..])
  }

  lemma SplitFront<T>(s: seq<T>, i: nat, e: seq<T>, rest: seq<T>)
    requires i <= |s| && s[i..] == e + rest
    ensures i + |e| <= |s| && s[i..i + |e|] == e && s[i + |e|..] == rest
  {
  }

  lemma ConvertFront8(s: Utf8, i: nat, n: nat, pt: bv32)
    requires IsScalar(pt) && i < i + n <= |s| && s[i..i + n] == Utf8Encode(pt)
    ensures ToUtf16(s, i) == Utf16Encode(pt) + ToUtf16(s, i + n)
  {
    hide Utf8Encode, Utf16Encode, Utf8DecodeCheck, IsSurrogate;
    DecodeIffEncoded8(s, i, n, pt);
  }

  lemma ConvertFront16(u: Utf16, i: nat, n: nat, pt: bv32)
    requires IsScalar(pt) && i < i + n <= |u| && u[i..i + n] == Utf16Encode(pt)
    ensures ToUtf8(u, i) == Utf8Encode(pt) + ToUtf8(u, i + n)
  {
    hide Utf8Encode, Utf16Encode, Utf16DecodeCheck, IsSurrogate;
    DecodeIffEncoded16(u, i, n, pt);
  }

  lemma {:induction false} ConvertEncoded8(s: Utf8, i: nat, pts: seq<bv32>)
    requires Scalars(pts) && i <= |s| && s[i..] == Encode8(pts)
    ensures ToUtf16(s, i) == Encode16(pts)
    decreases |pts|
  {
    hide Utf8Encode, Utf16Encode, IsScalar, Utf8Decode;
    if pts != [] {
      var e := Utf8Encode(pts[0]);
      SplitFront(s, i, e, Encode8(pts[1..]));
      ConvertFront8(s, i, |e|, pts[0]);
      ConvertEncoded8(s, i + |e|, pts[1..]);
    }
  }

  lemma {:induction false} ConvertEncoded16(u: Utf16, i: nat, pts: seq<bv32>)
    requires Scalars(pts) && i <= |u| && u[i..] == Encode16(pts)
    ensures ToUtf8(u, i) == Encode8(pts)
    decreases |pts|
  {
    hide Utf8Encode, Utf16Encode, IsScalar, Utf16Decode;
    if pts != [] {
      var e := Utf16Encode(pts[0]);
      SplitFront(u, i, e, Encode16(pts[1..]));
      ConvertFront16(u, i, |e|, pts[0]);
      ConvertEncoded16(u, i + |e|, pts[1..]);
    }
  }

  // ---------- well-formed text is encoded text ----------

  lemma CharIsEncoded(s: Utf8, i: nat, n: nat) returns (pt: bv32)
    requires 1 <= n && i + n <= |s| && IsUtf8Char(s, i, n)
    ensures IsScalar(pt) && s[i..] == Utf8Encode(pt) + s[i + n..]
  {
    pt := JoinAt(s, i, n);
    CharIffSpellsScalar(s, i, n);
    SpellsIffEncoded(s, i, n, pt);
    assert s[i..] == s[i..i + n] + s[i + n..];
  }

  lemma EncodedIsChar(s: Utf8, i: nat, n: nat, pt: bv32)
    requires IsScalar(pt) && i + n <= |s| && s[i..i + n] == Utf8Encode(pt)
    ensures IsUtf8Char(s, i, n)
  {
    SpellsIffEncoded(s, i, n, pt);
    SpellsIsJoin(s, i, n, pt);
    CharIffSpellsScalar(s, i, n);
  }

  lemma {:induction false} WellFormed8IsEncoded(s: Utf8, i: nat) returns (pts: seq<bv32>)
    requires i <= |s| && WellFormed8(s, i)
    ensures Scalars(pts) && s[i..] == Encode8(pts)
    decreases |s| - i
  {
    hide Utf8Encode, IsScalar;
    if i == |s| {
      pts := [];
    } else {
      var n :| 1 <= n <= 4 && IsUtf8Char(s, i, n) && WellFormed8(s, i + n);
      var pt := CharIsEncoded(s, i, n);
      var rest := WellFormed8IsEncoded(s, i + n);
      pts := [pt] + rest;
      assert pts[1..] == rest;
    }
  }

  lemma {:induction false} EncodedIsWellFormed8(s: Utf8, i: nat, pts: seq<bv32>)
    requires Scalars(pts) && i <= |s| && s[i..] == Encode8(pts)
    ensures WellFormed8(s, i)
    decreases |pts|
  {
    hide Utf8Encode, IsScalar, IsUtf8Char;
    if pts != [] {
      var e := Utf8Encode(pts[0]);
      SplitFront(s, i, e, Encode8(pts[1..]));
      EncodedIsChar(s, i, |e|, pts[0]);
      EncodedIsWellFormed8(s, i + |e|, pts[1..]);
    }
  }

  lemma UnitsAreEncoded(s: Utf16, i: nat, n: nat) returns (pt: bv32)
    requires i < |s| && i + n <= |s|
    requires if n == 2 then IsHighSurrogate(s[i] as bv32) && IsLowSurrogate(s[i + 1] as bv32)
             else n == 1 && !IsSurrogate(s[i] as bv32)
    ensures IsScalar(pt) && s[i..] == Utf16Encode(pt) + s[i + n..]
  {
    pt := if n == 2 then JoinPair(s[i] as bv32, s[i + 1] as bv32) else s[i] as bv32;
    SpellsUnitsDecode(s, i, n, pt);
    DecodeIffEncoded16(s, i, n, pt);
    assert s[i..] == s[i..i + n] + s[i + n..];
  }

  lemma {:induction false} WellFormed16IsEncoded(s: Utf16, i: nat) returns (pts: seq<bv32>)
    requires i <= |s| && WellFormed16(s, i)
    ensures Scalars(pts) && s[i..] == Encode16(pts)
    decreases |s| - i
  {
    if i == |s| {
      pts := [];
    } else {
      var n := if IsSurrogate(s[i] as bv32) then 2 else 1;
      var pt := UnitsAreEncoded(s, i, n);
      var rest := WellFormed16IsEncoded(s, i + n);
      pts := [pt] + rest;
      assert pts[1..] == rest;
    }
  }

  lemma EncodedUnitsAreSpelled(u: Utf16, i: nat, n: nat, pt: bv32)
    requires IsScalar(pt) && i + n <= |u| && u[i..i + n] == Utf16Encode(pt)
    ensures SpellsUnits(u, i, n, pt)
  {
    DecodeIffEncoded16(u, i, n, pt);
    DecodeSpellsUnits(u, i);
  }

  lemma {:induction false} EncodedIsWellFormed16(u: Utf16, i: nat, pts: seq<bv32>)
    requires Scalars(pts) && i <= |u| && u[i..] == Encode16(pts)
    ensures WellFormed16(u, i)
    decreases |pts|
  {
    hide Utf8Encode, Utf16Encode, IsScalar;
    if pts != [] {
      var e := Utf16Encode(pts[0]);
      SplitFront(u, i, e, Encode16(pts[1..]));
      EncodedUnitsAreSpelled(u, i, |e|, pts[0]);
      EncodedIsWellFormed16(u, i + |e|, pts[1..]);
    }
  }

  // ---------- whatever is decoded, scalar values come out ----------

  lemma Utf16DecodeIsScalar(s: Utf16, i: nat)
    requires i < |s|
    ensures IsScalar(Utf16Decode(s, i).0)
  {
  }

  lemma {:induction false} OutputIsEncoded8(s: Utf16, i: nat) returns (pts: seq<bv32>)
    requires i <= |s|
    ensures Scalars(pts) && ToUtf8(s, i) == Encode8(pts)
    decreases |s| - i
  {
    if i == |s| {
      pts := [];
    } else {
      Utf16DecodeIsScalar(s, i);
      var (pt, next) := Utf16Decode(s, i);
      var rest := OutputIsEncoded8(s, next);
      pts := [pt] + rest;
      assert pts[1..] == rest;
    }
  }

  // ---------- main results ----------

  /** On well-formed UTF-8 nothing is lost, and the UTF-16 in between is well formed. */
  lemma RoundTrip8(s: Utf8)
    requires WellFormed8(s, 0)
    ensures ToUtf8(ToUtf16(s, 0), 0) == s && WellFormed16(ToUtf16(s, 0), 0)
  {
    var pts := WellFormed8IsEncoded(s, 0);
    assert s[0..] == s;
    ConvertEncoded8(s, 0, pts);
    var u := ToUtf16(s, 0);
    assert u[0..] == u;
    ConvertEncoded16(u, 0, pts);
    EncodedIsWellFormed16(u, 0, pts);
  }

  /** On well-formed UTF-16 nothing is lost, and the UTF-8 in between is well formed. */
  lemma RoundTrip16(u: Utf16)
    requires WellFormed16(u, 0)
    ensures ToUtf16(ToUtf8(u, 0), 0) == u && WellFormed8(ToUtf8(u, 0), 0)
  {
    var pts := WellFormed16IsEncoded(u, 0);
    assert u[0..] == u;
    ConvertEncoded16(u, 0, pts);
    var s := ToUtf8(u, 0);
    assert s[0..] == s;
    ConvertEncoded8(s, 0, pts);
    EncodedIsWellFormed8(s, 0, pts);
  }

  /** Whatever the UTF-16 input, the UTF-8 output is well formed. */
  lemma OutputIsWellFormed8(u: Utf16)
    ensures WellFormed8(ToUtf8(u, 0), 0)
  {
    var pts := OutputIsEncoded8(u, 0);
    var s := ToUtf8(u, 0);
    assert s[0..] == s;
    EncodedIsWellFormed8(s, 0, pts);
  }

  /** A trip through a Java string. */
  function Repair8(s: Utf8): Utf8 {
    ToUtf8(ToUtf16(s, 0), 0)
  }

  /** A trip through a C++ string. */
  function Repair16(u: Utf16): Utf16 {
    ToUtf16(ToUtf8(u, 0), 0)
  }

  /** Every trip yields well-formed UTF-8, changes exactly the byte strings that are not, and changes them once. */
  lemma Repair8Correct(s: Utf8)
    ensures WellFormed8(Repair8(s), 0)
    ensures Repair8(s) == s <==> WellFormed8(s, 0)
    ensures Repair8(Repair8(s)) == Repair8(s)
  {
    OutputIsWellFormed8(ToUtf16(s, 0));
    RoundTrip8(Repair8(s));
    if WellFormed8(s, 0) {
      RoundTrip8(s);
    }
  }

  /** The same for UTF-16. */
  lemma Repair16Correct(u: Utf16)
    ensures WellFormed16(Repair16(u), 0)
    ensures Repair16(u) == u <==> WellFormed16(u, 0)
    ensures Repair16(Repair16(u)) == Repair16(u)
  {
    OutputIsWellFormed8(u);
    RoundTrip8(ToUtf8(u, 0));
    RoundTrip16(Repair16(u));
    if WellFormed16(u, 0) {
      RoundTrip16(u);
    }
  }

  // ---------- when the UTF-16 handed over is well formed ----------

  /** A high surrogate in three bytes, which decoding lets pass. */
  predicate HighAt(s: Utf8, i: nat) {
    i + 3 <= |s| && s[i] == 0xED && Between(s[i + 1], 0xA0, 0xAF) && Between(s[i + 2], 0x80, 0xBF)
  }

  predicate LowAt(s: Utf8, i: nat) {
    i + 3 <= |s| && s[i] == 0xED && Between(s[i + 1], 0xB0, 0xBF) && Between(s[i + 2], 0x80, 0xBF)
  }

  /** Where the cursor comes, surrogates in three bytes come in pairs of a high and a low one. */
  ghost predicate SurrogatesPaired(s: Utf8, i: nat)
    requires i <= |s|
    decreases |s| - i
  {
    || i == |s|
    || if HighAt(s, i) then LowAt(s, i + 3) && SurrogatesPaired(s, i + 6)
       else !LowAt(s, i) && SurrogatesPaired(s, Utf8Decode(s, i).1)
  }

  lemma HighForm(b0: bv8, b1: bv8, b2: bv8, pt: bv32)
    requires 0xE0 <= b0 < 0xF0 && IsTail(b1 as bv32) && IsTail(b2 as bv32)
    requires pt == Join3(b0 as bv32, b1 as bv32, b2 as bv32)
    ensures IsHighSurrogate(pt) <==> b0 == 0xED && Between(b1, 0xA0, 0xAF) && Between(b2, 0x80, 0xBF)
    ensures IsLowSurrogate(pt) <==> b0 == 0xED && Between(b1, 0xB0, 0xBF) && Between(b2, 0x80, 0xBF)
  {
  }

  lemma SurrogateForm(b0: bv8, b1: bv8, b2: bv8)
    requires b0 == 0xED && Between(b1, 0xA0, 0xBF) && Between(b2, 0x80, 0xBF)
    ensures Form3(b0, b1, b2, Join3(b0 as bv32, b1 as bv32, b2 as bv32))
  {
  }

  lemma NotThreeBytes(s: Utf8, i: nat, n: nat, pt: bv32)
    requires Spells(s, i, n, pt) && n != 3
    ensures !IsSurrogate(pt) && s[i] != 0xED
  {
  }

  /** Surrogates are decoded exactly from their three bytes. */
  lemma SurrogateDecoded(s: Utf8, i: nat)
    requires i < |s|
    ensures HighAt(s, i) <==> IsHighSurrogate(Utf8Decode(s, i).0)
    ensures LowAt(s, i) <==> IsLowSurrogate(Utf8Decode(s, i).0)
    ensures HighAt(s, i) || LowAt(s, i) ==> Utf8Decode(s, i).1 == i + 3
    ensures Utf8Decode(s, i).0 < LIMIT
  {
    hide Utf8DecodeCheck, Join3;
    if HighAt(s, i) || LowAt(s, i) {
      var pt := Join3(s[i] as bv32, s[i + 1] as bv32, s[i + 2] as bv32);
      SurrogateForm(s[i], s[i + 1], s[i + 2]);
      SpellsDecode(s, i, 3, pt);
      HighForm(s[i], s[i + 1], s[i + 2], pt);
    } else if Utf8DecodeCheck(s, i).Valid? {
      var n, pt := Utf8DecodeCheck(s, i).offset, Utf8DecodeCheck(s, i).pt;
      DecodeSpells(s, i);
      SpellsRange(s, i, n, pt);
      if n == 3 {
        HighForm(s[i], s[i + 1], s[i + 2], pt);
      } else {
        NotThreeBytes(s, i, n, pt);
      }
    }
  }

  lemma {:induction false} WellFormed16Suffix(e: Utf16, u: Utf16, k: nat)
    requires k <= |u|
    ensures WellFormed16(e + u, |e| + k) <==> WellFormed16(u, k)
    decreases |u| - k
  {
    if k < |u| {
      WellFormed16Suffix(e, u, k + 1);
      if k + 2 <= |u| {
        WellFormed16Suffix(e, u, k + 2);
      }
    }
  }

  lemma EncodedUnits(pt: bv32)
    requires pt < LIMIT
    ensures pt < 0x10000 ==> Utf16Encode(pt) == [Low16(pt)] && Low16(pt) as bv32 == pt
    ensures pt >= 0x10000 ==>
              && |Utf16Encode(pt)| == 2 && IsHighSurrogate(Utf16Encode(pt)[0] as bv32)
              && IsLowSurrogate(Utf16Encode(pt)[1] as bv32) && !IsSurrogate(pt)
  {
    if pt >= 0x10000 {
      RejoinPair(pt);
    }
  }

  lemma SurrogateKinds(c: bv32)
    ensures IsSurrogate(c) <==> IsHighSurrogate(c) || IsLowSurrogate(c)
    ensures !(IsHighSurrogate(c) && IsLowSurrogate(c))
  {
  }

  lemma WellFormed16Unit(c: bv16, u: Utf16)
    ensures WellFormed16([c] + u, 0) <==>
            if IsHighSurrogate(c as bv32) then u != [] && IsLowSurrogate(u[0] as bv32) && WellFormed16(u, 1)
            else !IsLowSurrogate(c as bv32) && WellFormed16(u, 0)
  {
    hide IsHighSurrogate, IsLowSurrogate, IsSurrogate;
    SurrogateKinds(c as bv32);
    WellFormed16Suffix([c], u, 0);
    if u != [] {
      WellFormed16Suffix([c], u, 1);
    }
  }

  lemma WellFormed16Pair(e: Utf16, u: Utf16)
    requires |e| == 2 && IsHighSurrogate(e[0] as bv32) && IsLowSurrogate(e[1] as bv32)
    ensures WellFormed16(e + u, 0) <==> WellFormed16(u, 0)
  {
    hide IsHighSurrogate, IsLowSurrogate, IsSurrogate;
    SurrogateKinds(e[0] as bv32);
    WellFormed16Suffix(e, u, 0);
  }

  /** What a code point in front does to well-formedness. */
  lemma WellFormed16Front(pt: bv32, u: Utf16)
    requires pt < LIMIT
    ensures WellFormed16(Utf16Encode(pt) + u, 0) <==>
            if IsHighSurrogate(pt) then u != [] && IsLowSurrogate(u[0] as bv32) && WellFormed16(u, 1)
            else !IsLowSurrogate(pt) && WellFormed16(u, 0)
  {
    hide Utf16Encode, WellFormed16, IsHighSurrogate, IsLowSurrogate, IsSurrogate;
    EncodedUnits(pt);
    SurrogateKinds(pt);
    if pt < 0x10000 {
      WellFormed16Unit(Low16(pt), u);
    } else {
      WellFormed16Pair(Utf16Encode(pt), u);
    }
  }

  /** Low surrogates come first exactly when one was decoded. */
  lemma FirstUnit(s: Utf8, i: nat)
    requires i <= |s|
    ensures ToUtf16(s, i) != [] && IsLowSurrogate(ToUtf16(s, i)[0] as bv32) <==> LowAt(s, i)
    ensures LowAt(s, i) ==> (WellFormed16(ToUtf16(s, i), 1) <==> WellFormed16(ToUtf16(s, i + 3), 0))
  {
    hide Utf16Encode, Utf8Decode, LowAt;
    if i < |s| {
      SurrogateDecoded(s, i);
      EncodedUnits(Utf8Decode(s, i).0);
      var e := Utf16Encode(Utf8Decode(s, i).0);
      var rest := ToUtf16(s, Utf8Decode(s, i).1);
      assert ToUtf16(s, i) == e + rest;
      WellFormed16Suffix(e, rest, 0);
    } else {
      assert !LowAt(s, i) by { NothingAtEnd(s); }
    }
  }

  lemma NothingAtEnd(s: Utf8)
    ensures !LowAt(s, |s|) && !HighAt(s, |s|)
  {
  }

  lemma {:induction false} WellFormed16IffPaired(s: Utf8, i: nat)
    requires i <= |s|
    ensures WellFormed16(ToUtf16(s, i), 0) <==> SurrogatesPaired(s, i)
    decreases |s| - i
  {
    hide Utf16Encode, Utf8Decode, HighAt, LowAt;
    if i < |s| {
      SurrogateDecoded(s, i);
      var (pt, next) := Utf8Decode(s, i);
      WellFormed16Front(pt, ToUtf16(s, next));
      FirstUnit(s, next);
      if HighAt(s, i) {
        if LowAt(s, next) {
          assert i + 6 <= |s| by { LowFits(s, next); }
          WellFormed16IffPaired(s, i + 6);
        }
      } else {
        WellFormed16IffPaired(s, next);
      }
    }
  }

  lemma LowFits(s: Utf8, i: nat)
    requires LowAt(s, i)
    ensures i + 3 <= |s|
  {
  }

  /**
    A high surrogate in three bytes at `k` is followed by a low one, and a low one there follows a high
    one, not before `i`.
   */
  predicate PairedAt(s: Utf8, i: nat, k: nat) {
    (HighAt(s, k) ==> LowAt(s, k + 3)) && (LowAt(s, k) ==> k >= i + 3 && HighAt(s, k - 3))
  }

  /** Anywhere from `i` on, high and low surrogates in three bytes come in pairs. */
  ghost predicate PairedFrom(s: Utf8, i: nat) {
    forall k :: i <= k ==> PairedAt(s, i, k)
  }

  lemma TailIsNoLead(b: bv8)
    requires IsTail(b as bv32)
    ensures b != 0xED
  {
  }

  /** The cursor never skips the first byte of a surrogate. */
  lemma LeadsAreVisited(s: Utf8, i: nat, k: nat)
    requires i < |s| && i < k < Utf8Decode(s, i).1
    ensures s[k] != 0xED
  {
    DecodeSpells(s, i);
    TailIsNoLead(s[k]);
  }

  lemma SurrogateLead(s: Utf8, k: nat)
    ensures HighAt(s, k) || LowAt(s, k) ==> k + 3 <= |s| && s[k] == 0xED
    ensures HighAt(s, k) || LowAt(s, k) ==> s[k + 1] != 0xED && s[k + 2] != 0xED
    ensures !(HighAt(s, k) && LowAt(s, k))
  {
  }

  lemma PairedSkips(s: Utf8, i: nat, j: nat)
    requires i < j <= |s| && !LowAt(s, i) && forall k :: i < k < j ==> s[k] != 0xED
    requires !HighAt(s, i)
    ensures PairedFrom(s, i) <==> PairedFrom(s, j)
  {
    hide HighAt, LowAt;
    forall k: nat ensures HighAt(s, k) || LowAt(s, k) ==> k < |s| && s[k] == 0xED {
      SurrogateLead(s, k);
    }
    forall k: nat | j <= k ensures PairedAt(s, i, k) <==> PairedAt(s, j, k) {
    }
    if PairedFrom(s, j) {
      forall k: nat | i <= k ensures PairedAt(s, i, k) {
        assert k >= j ==> PairedAt(s, j, k);
      }
    }
    if PairedFrom(s, i) {
      forall k: nat | j <= k ensures PairedAt(s, j, k) {
        assert PairedAt(s, i, k);
      }
    }
  }

  lemma PairedPair(s: Utf8, i: nat)
    requires HighAt(s, i) && LowAt(s, i + 3)
    ensures PairedFrom(s, i) <==> PairedFrom(s, i + 6)
  {
    hide HighAt, LowAt;
    SurrogateLead(s, i);
    SurrogateLead(s, i + 3);
    forall k: nat ensures HighAt(s, k) || LowAt(s, k) ==> k < |s| && s[k] == 0xED {
      SurrogateLead(s, k);
    }
    var j := i + 6;
    if PairedFrom(s, j) {
      forall k: nat | i <= k ensures PairedAt(s, i, k) {
        assert k >= j ==> PairedAt(s, j, k);
      }
    }
    if PairedFrom(s, i) {
      forall k: nat | j <= k ensures PairedAt(s, j, k) {
        assert PairedAt(s, i, k);
      }
    }
  }

  /** Following the cursor makes no difference. */
  lemma {:induction false} PairedAnywhere(s: Utf8, i: nat)
    requires i <= |s|
    ensures SurrogatesPaired(s, i) <==> PairedFrom(s, i)
    decreases |s| - i
  {
    hide HighAt, LowAt, Utf8Decode;
    if i == |s| {
      forall k: nat | i <= k ensures PairedAt(s, i, k) {
        SurrogateLead(s, k);
      }
    } else if HighAt(s, i) {
      if LowAt(s, i + 3) {
        LowFits(s, i + 3);
        PairedPair(s, i);
        PairedAnywhere(s, i + 6);
      } else {
        assert !PairedAt(s, i, i);
      }
    } else if LowAt(s, i) {
      assert !PairedAt(s, i, i);
    } else {
      var next := Utf8Decode(s, i).1;
      forall k | i < k < next ensures s[k] != 0xED {
        LeadsAreVisited(s, i, k);
      }
      PairedSkips(s, i, next);
      PairedAnywhere(s, next);
    }
  }

  /**
    The UTF-16 is well formed exactly when every high surrogate in three bytes is followed by a low one
    and every low one follows a high one.
   */
  lemma OutputIsWellFormed16Iff(s: Utf8)
    ensures WellFormed16(ToUtf16(s, 0), 0) <==> forall k: nat :: PairedAt(s, 0, k)
  {
    hide PairedAt;
    WellFormed16IffPaired(s, 0);
    PairedAnywhere(s, 0);
    assert PairedFrom(s, 0) <==> forall k: nat :: PairedAt(s, 0, k);
  }

  // ---------- code points by the weights of their units ----------

  ghost predicate Tail(b: bv8) {
    0x80 <= b < 0xC0
  }

  /** What a byte adds to a code point when the first byte of its kind is `from`. */
  ghost function Weighs(b: bv8, from: bv8, weight: bv32): bv32 {
    (b as bv32 - from as bv32) * weight
  }

  /** Section 3 of RFC 3629 in arithmetic: what bytes of this number stand for. */
  ghost function Value2(b0: bv8, b1: bv8): bv32 {
    Weighs(b0, 0xC0, 0x40) + Weighs(b1, 0x80, 1)
  }

  ghost function Value3(b0: bv8, b1: bv8, b2: bv8): bv32 {
    Weighs(b0, 0xE0, 0x1000) + Weighs(b1, 0x80, 0x40) + Weighs(b2, 0x80, 1)
  }

  ghost function Value4(b0: bv8, b1: bv8, b2: bv8, b3: bv8): bv32 {
    Weighs(b0, 0xF0, 0x40000) + Weighs(b1, 0x80, 0x1000) + Weighs(b2, 0x80, 0x40) + Weighs(b3, 0x80, 1)
  }

  lemma FormByWeights2(b0: bv8, b1: bv8, pt: bv32)
    requires Form2(b0, b1, pt)
    ensures 0xC0 <= b0 < 0xE0 && Tail(b1) && pt == Value2(b0, b1) && 0x80 <= pt
  {
  }

  lemma FormByWeights3(b0: bv8, b1: bv8, b2: bv8, pt: bv32)
    requires Form3(b0, b1, b2, pt)
    ensures 0xE0 <= b0 < 0xF0 && Tail(b1) && Tail(b2) && pt == Value3(b0, b1, b2) && 0x800 <= pt
  {
  }

  lemma Weights4(b0: bv8, b1: bv8, b2: bv8, b3: bv8)
    requires 0xF0 <= b0 < 0xF8 && Tail(b1) && Tail(b2) && Tail(b3)
    ensures Join4(b0 as bv32, b1 as bv32, b2 as bv32, b3 as bv32) == Value4(b0, b1, b2, b3)
  {
  }

  lemma TailIs(b: bv8)
    ensures IsTail(b as bv32) <==> Tail(b)
  {
  }

  lemma FormByWeights4(b0: bv8, b1: bv8, b2: bv8, b3: bv8, pt: bv32)
    requires Form4(b0, b1, b2, b3, pt)
    ensures 0xF0 <= b0 < 0xF8 && Tail(b1) && Tail(b2) && Tail(b3)
    ensures pt == Value4(b0, b1, b2, b3) && 0x10000 <= pt < 0x110000
  {
    hide IsTail, Tail, Join4, Value4;
    TailIs(b1);
    TailIs(b2);
    TailIs(b3);
    Weights4(b0, b1, b2, b3);
  }

  /** Bytes are decoded, and code points encoded, by the weights that RFC 3629 gives to the bytes. */
  lemma DecodedByWeights8(s: Utf8, i: nat, n: nat, pt: bv32)
    requires i < |s| && Utf8DecodeCheck(s, i) == Valid(n, pt)
    ensures match n
            case 1 => s[i] < 0x80 && pt == s[i] as bv32
            case 2 => 0xC0 <= s[i] < 0xE0 && pt == Value2(s[i], s[i + 1]) && 0x80 <= pt
            case 3 => 0xE0 <= s[i] < 0xF0 && pt == Value3(s[i], s[i + 1], s[i + 2]) && 0x800 <= pt
            case _ =>
              && n == 4 && 0xF0 <= s[i] < 0xF8 && pt == Value4(s[i], s[i + 1], s[i + 2], s[i + 3])
              && 0x10000 <= pt < 0x110000
    ensures forall k :: i < k < i + n ==> Tail(s[k])
  {
    hide Utf8DecodeCheck, Form2, Form3, Form4, Tail, Value2, Value3, Value4;
    DecodeSpells(s, i);
    match n
    case 2 => FormByWeights2(s[i], s[i + 1], pt);
    case 3 => FormByWeights3(s[i], s[i + 1], s[i + 2], pt);
    case 4 => FormByWeights4(s[i], s[i + 1], s[i + 2], s[i + 3], pt);
    case _ =>
  }

  lemma SurrogateRanges(c: bv16)
    ensures IsHighSurrogate(c as bv32) <==> 0xD800 <= c < 0xDC00
    ensures IsLowSurrogate(c as bv32) <==> 0xDC00 <= c < 0xE000
  {
  }

  predicate InSurrogates(c: bv16) {
    0xD800 <= c < 0xE000
  }

  lemma OrdinaryUnit(c: bv16)
    ensures IsSurrogate(c as bv32) <==> InSurrogates(c)
  {
  }

  /** Section 2.1 of RFC 2781 in arithmetic: what a pair of surrogates stands for. */
  ghost predicate PairWeighs(hi: bv16, lo: bv16, pt: bv32) {
    && 0xD800 <= hi < 0xDC00 && 0xDC00 <= lo < 0xE000
    && pt == (hi as bv32 - 0xD800) * 0x400 + (lo as bv32 - 0xDC00) + 0x10000
  }

  lemma PairByWeights(hi: bv16, lo: bv16, pt: bv32)
    requires IsPairOf(hi, lo, pt)
    ensures PairWeighs(hi, lo, pt)
  {
  }

  /** Units are decoded by the weights that RFC 2781 gives to them. */
  lemma DecodedByWeights16(s: Utf16, i: nat, n: nat, pt: bv32)
    requires i < |s| && Utf16DecodeCheck(s, i) == Valid(n, pt)
    ensures match n
            case 1 => !InSurrogates(s[i]) && pt == s[i] as bv32
            case _ => n == 2 && i + 1 < |s| && PairWeighs(s[i], s[i + 1], pt)
  {
    hide Utf16DecodeCheck, IsPairOf, IsSurrogate, PairWeighs, InSurrogates;
    DecodeSpellsUnits(s, i);
    if n == 1 {
      OrdinaryUnit(s[i]);
    } else {
      PairByWeights(s[i], s[i + 1], pt);
    }
  }

  /** The units that stand for `pt`; a lone surrogate, which decoding UTF-8 lets pass, stands for itself. */
  ghost predicate Stands16(e: Utf16, pt: bv32) {
    match |e|
    case 1 => pt == e[0] as bv32
    case 2 => IsPairOf(e[0], e[1], pt)
    case _ => false
  }

  lemma EncodedStands16(pt: bv32)
    requires pt < LIMIT
    ensures Stands16(Utf16Encode(pt), pt)
  {
    hide Low16, JoinPair;
    EncodedUnits(pt);
    if pt >= 0x10000 {
      RejoinPair(pt);
    }
  }

  // ---------- what malformed text is turned into ----------

  lemma DecodeFurther16(u: Utf16, w: Utf16, i: nat)
    requires i < |w|
    ensures Utf16DecodeCheck(u + w, |u| + i) ==
            Utf16DecodeCheck(w, i)
  {
    assert Unit(u + w, |u| + i) == Unit(w, i) && Unit(u + w, |u| + i + 1) == Unit(w, i + 1);
  }

  lemma {:induction false} ConvertFurther16(u: Utf16, w: Utf16, i: nat)
    requires i <= |w|
    ensures ToUtf8(u + w, |u| + i) == ToUtf8(w, i)
    decreases |w| - i
  {
    hide Utf16DecodeCheck, Utf8Encode;
    if i < |w| {
      DecodeFurther16(u, w, i);
      ConvertFurther16(u, w, Utf16Decode(w, i).1);
    }
  }

  /** A surrogate pair is cut in two between `u` and `w`. */
  predicate CutsPair(u: Utf16, w: Utf16) {
    u != [] && w != [] && 0xD800 <= u[|u| - 1] < 0xDC00 && 0xDC00 <= w[0] < 0xE000
  }

  lemma EndIsNotLow()
    ensures !IsLowSurrogate(0)
  {
  }

  /** Only a low surrogate after a high one is looked at. */
  lemma DecodeSame16(s: Utf16, t: Utf16, i: nat)
    requires i < |s| && i < |t| && Unit(s, i) == Unit(t, i)
    requires || Unit(s, i + 1) == Unit(t, i + 1) || !IsHighSurrogate(Unit(s, i))
             || (!IsLowSurrogate(Unit(s, i + 1)) && !IsLowSurrogate(Unit(t, i + 1)))
    ensures Utf16DecodeCheck(s, i) == Utf16DecodeCheck(t, i)
  {
    hide Unit, IsHighSurrogate, IsLowSurrogate, JoinPair;
  }

  lemma SameUnit(s: Utf16, i: nat, t: Utf16, j: nat)
    requires i <= |s| && j <= |t| && (i < |s| <==> j < |t|) && (i < |s| ==> s[i] == t[j])
    ensures Unit(s, i) == Unit(t, j)
  {
  }

  lemma FirstNotLow(w: Utf16)
    requires w == [] || !(0xDC00 <= w[0] < 0xE000)
    ensures !IsLowSurrogate(Unit(w, 0))
  {
    if w == [] {
      EndIsNotLow();
    } else {
      SurrogateRanges(w[0]);
    }
  }

  lemma NotHigh(u: Utf16, i: nat)
    requires i < |u| && !(0xD800 <= u[i] < 0xDC00)
    ensures !IsHighSurrogate(Unit(u, i))
  {
    SurrogateRanges(u[i]);
  }

  lemma DecodeBefore16(u: Utf16, w: Utf16, i: nat)
    requires i < |u| && !CutsPair(u, w)
    ensures Utf16Decode(u + w, i) == Utf16Decode(u, i)
  {
    hide Utf16DecodeCheck, IsHighSurrogate, IsLowSurrogate, Unit;
    SameUnit(u + w, i, u, i);
    if i + 1 < |u| {
      SameUnit(u + w, i + 1, u, i + 1);
    } else {
      SameUnit(u + w, i + 1, w, 0);
      SameUnit(u, i + 1, [], 0);
      FirstNotLow([]);
      if 0xD800 <= u[i] < 0xDC00 {
        FirstNotLow(w);
      } else {
        NotHigh(u, i);
      }
    }
    DecodeSame16(u + w, u, i);
  }

  lemma {:induction false} ConvertBefore16(u: Utf16, w: Utf16, i: nat)
    requires i <= |u| && !CutsPair(u, w)
    ensures ToUtf8(u + w, i) == ToUtf8(u, i) + ToUtf8(w, 0)
    decreases |u| - i
  {
    hide Utf16Decode, Utf8Encode, CutsPair;
    if i < |u| {
      DecodeBefore16(u, w, i);
      ConvertBefore16(u, w, Utf16Decode(u, i).1);
    } else {
      ConvertFurther16(u, w, 0);
    }
  }

  lemma ConvertPair(hi: bv16, lo: bv16)
    requires 0xD800 <= hi < 0xDC00 && 0xDC00 <= lo < 0xE000
    ensures |ToUtf8([hi, lo], 0)| == 4
  {
    hide JoinPair, IsHighSurrogate, IsLowSurrogate, Low16, Low8, Utf8Encode, Utf16DecodeCheck;
    var u, pt := [hi, lo], JoinPair(hi as bv32, lo as bv32);
    SurrogateRanges(hi);
    SurrogateRanges(lo);
    SplitPair(hi, lo, pt);
    SpellsUnitsDecode(u, 0, 2, pt);
    LongCode(pt);
    assert ToUtf8(u, 2) == [];
  }

  lemma LongCode(pt: bv32)
    requires 0x10000 <= pt < LIMIT
    ensures |Utf8Encode(pt)| == 4
  {
  }

  /** A surrogate on its own becomes the three bytes of U+FFFD. */
  lemma ConvertLone(c: bv16)
    requires 0xD800 <= c < 0xE000
    ensures ToUtf8([c], 0) == [0xEF, 0xBF, 0xBD]
  {
    SurrogateRanges(c);
  }

  /** Two strings are converted one by one as their concatenation is, exactly if no pair is cut in two. */
  lemma ConvertsPiecewise(u: Utf16, w: Utf16)
    ensures ToUtf8(u + w, 0) == ToUtf8(u, 0) + ToUtf8(w, 0) <==> !CutsPair(u, w)
  {
    hide ToUtf8;
    if !CutsPair(u, w) {
      ConvertBefore16(u, w, 0);
    } else {
      var n := |u| - 1;
      var (hi, lo) := (u[n], w[0]);
      ConvertBefore16(u[..n], [hi], 0);
      ConvertBefore16([lo], w[1..], 0);
      ConvertBefore16([hi, lo], w[1..], 0);
      ConvertBefore16(u[..n], [hi, lo] + w[1..], 0);
      assert u == u[..n] + [hi] && w == [lo] + w[1..] && u + w == u[..n] + ([hi, lo] + w[1..]);
      ConvertPair(hi, lo);
      ConvertLone(hi);
      ConvertLone(lo);
    }
  }

  /** A surrogate without a partner on either side becomes EF BF BD; what is around it is converted as on its own. */
  lemma LoneSurrogateIsReplaced(u: Utf16, c: bv16, v: Utf16)
    requires 0xD800 <= c < 0xE000 && !CutsPair(u, [c]) && !CutsPair([c], v)
    ensures ToUtf8(u + [c] + v, 0) == ToUtf8(u, 0) + [0xEF, 0xBF, 0xBD] + ToUtf8(v, 0)
  {
    hide ToUtf8;
    assert u + [c] + v == u + ([c] + v);
    ConvertBefore16([c], v, 0);
    ConvertBefore16(u, [c] + v, 0);
    ConvertLone(c);
  }

  lemma SpellsFurther(s: Utf8, i: nat, n: nat, pt: bv32)
    requires i <= |s|
    ensures Spells(s, i, n, pt) <==> Spells(s[i..], 0, n, pt)
  {
    hide Form2, Form3, Form4;
  }

  lemma DecodeFurther8(s: Utf8, i: nat)
    requires i < |s|
    ensures Utf8DecodeCheck(s, i) == Utf8DecodeCheck(s[i..], 0)
  {
    hide Utf8DecodeCheck, Spells;
    var d, e := Utf8DecodeCheck(s, i), Utf8DecodeCheck(s[i..], 0);
    if d.Valid? {
      DecodeSpells(s, i);
      SpellsFurther(s, i, d.offset, d.pt);
      SpellsDecode(s[i..], 0, d.offset, d.pt);
    } else if e.Valid? {
      DecodeSpells(s[i..], 0);
      SpellsFurther(s, i, e.offset, e.pt);
      SpellsDecode(s, i, e.offset, e.pt);
    }
  }

  lemma {:induction false} ConvertFurther8(s: Utf8, i: nat, j: nat)
    requires i <= j <= |s|
    ensures ToUtf16(s, j) == ToUtf16(s[i..], j - i)
    decreases |s| - j
  {
    hide Utf8DecodeCheck, Utf16Encode;
    if j < |s| {
      DecodeFurther8(s, j);
      DecodeFurther8(s[i..], j - i);
      assert s[i..][j - i..] == s[j..];
      ConvertFurther8(s, i, Utf8Decode(s, j).1);
    }
  }

  /** Bytes in front that stand for a code point become the units that stand for it. */
  lemma CharacterIsConverted(s: Utf8, n: nat, pt: bv32)
    requires Spells(s, 0, n, pt)
    ensures exists e :: Stands16(e, pt) && ToUtf16(s, 0) == e + ToUtf16(s[n..], 0)
  {
    hide Utf8DecodeCheck, Utf16Encode, Utf8Encode, Spells, Stands16;
    SpellsRange(s, 0, n, pt);
    SpellsDecode(s, 0, n, pt);
    EncodedStands16(pt);
    ConvertFurther8(s, n, n);
    assert ToUtf16(s, 0) == Utf16Encode(pt) + ToUtf16(s[n..], 0);
  }

  /** A byte in front of which nothing stands becomes one U+FFFD, and what follows is converted as on its own. */
  lemma MalformedByteIsReplaced(s: Utf8)
    requires s != [] && forall n, pt :: !Spells(s, 0, n, pt)
    ensures ToUtf16(s, 0) == [0xFFFD] + ToUtf16(s[1..], 0)
  {
    hide Utf8DecodeCheck, Spells;
    var d := Utf8DecodeCheck(s, 0);
    DecodeSpells(s, 0);
    ConvertFurther8(s, 1, 1);
  }
}
