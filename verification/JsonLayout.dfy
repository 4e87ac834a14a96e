/**
  What Json::dump prints, character by character: scalars, how arrays and objects are put together,
  which characters of a string are escaped and how, and null in the place of what is not finite.
 */
module JsonLayout {
  import opened JsonValue
  import opened Wrappers
  import opened JsonGrammar
  import opened JsonParse
  import opened JsonOrder
  import opened JsonDump
  import opened JsonSpelling

  // ---------- strings ----------

  /** U+2028 or U+2029, in UTF-8. */
  ghost predicate SeparatorAt(v: Bytes, i: nat) {
    i + 3 <= |v| && (v[i..i + 3] == [0xE2, 0x80, 0xA8] || v[i..i + 3] == [0xE2, 0x80, 0xA9])
  }

  /** How a character other than these is printed. */
  ghost function CharText(b: byte): Bytes {
    var ch := b as char;
    if ch == '"' then Ascii("\\\"")
    else if ch == '\\' then Ascii("\\\\")
    else if b == 0x08 then Ascii("\\b")
    else if b == 0x0C then Ascii("\\f")
    else if ch == '\n' then Ascii("\\n")
    else if ch == '\r' then Ascii("\\r")
    else if ch == '\t' then Ascii("\\t")
    else if b < 0x20 then Ascii("\\u00") + Ascii(["0123456789abcdef"[b / 16], "0123456789abcdef"[b % 16]])
    else [b]
  }

  /** What is printed for what follows position `i`, without the quotes. */
  ghost function Escaped(v: Bytes, i: nat): Bytes {
    ItemsText(if i <= |v| then Escape(v, i) else [])
  }

  lemma ControlIsPrinted(b: byte)
    requires b < 0x20
    ensures ItemText(Hex(0x30, 0x30, HexDigit(b / 16), HexDigit(b % 16))) ==
            Ascii("\\u00") + Ascii(["0123456789abcdef"[b / 16], "0123456789abcdef"[b % 16]])
  {
    assert "0123456789abcdef"[b / 16] as int == HexDigit(b / 16);
    assert "0123456789abcdef"[b % 16] as int == HexDigit(b % 16);
  }

  lemma NoSeparator(v: Bytes, i: nat)
    ensures SeparatorAt(v, i) <==> IsSeparatorAt(v, i)
  {
    assert i + 3 <= |v| ==> v[i..i + 3] == [v[i], v[i + 1], v[i + 2]];
  }

  lemma CharIsPrinted(v: Bytes, i: nat)
    requires i < |v| && !SeparatorAt(v, i)
    ensures WidthAt(v, i) == 1 && ItemText(ItemAt(v, i)) == CharText(v[i])
  {
    hide HexDigit, SeparatorAt, IsSeparatorAt;
    var b := v[i];
    assert (b as char) as int == b;
    NoSeparator(v, i);
    if b < 0x20 {
      ControlIsPrinted(b);
    }
  }

  lemma SeparatorIsPrinted(v: Bytes, i: nat)
    requires SeparatorAt(v, i)
    ensures WidthAt(v, i) == 3
    ensures ItemText(ItemAt(v, i)) == Ascii(if v[i + 2] == 0xA8 then "\\u2028" else "\\u2029")
  {
    assert v[i..i + 3] == [v[i], v[i + 1], v[i + 2]];
  }

  /** A string is printed character by character; the two separators are not printed as they are. */
  lemma PrintsCharacters(v: Bytes, i: nat)
    requires i <= |v|
    ensures Escaped(v, i) ==
            if i == |v| then []
            else if SeparatorAt(v, i) then Ascii(if v[i + 2] == 0xA8 then "\\u2028" else "\\u2029") + Escaped(v, i + 3)
            else CharText(v[i]) + Escaped(v, i + 1)
  {
    hide ItemAt, ItemText, CharText, Ascii;
    if i < |v| {
      ItemsTextCons(ItemAt(v, i), Escape(v, i + WidthAt(v, i)));
      if SeparatorAt(v, i) {
        SeparatorIsPrinted(v, i);
      } else {
        CharIsPrinted(v, i);
      }
    }
  }

  /** Control characters and the two separators do not occur in what is printed. */
  ghost predicate Harmless(t: Bytes) {
    forall k: nat :: k < |t| ==> t[k] >= 0x20 && !SeparatorAt(t, k)
  }

  ghost predicate IsPlainAscii(t: Bytes) {
    forall k :: 0 <= k < |t| ==> 0x20 <= t[k] < 0x80
  }

  lemma ChunkIsPrinted(v: Bytes, i: nat) returns (chunk: Bytes, j: nat)
    requires i < |v|
    ensures i < j <= |v| && chunk != [] && Escaped(v, i) == chunk + Escaped(v, j)
    ensures IsPlainAscii(chunk) || (!SeparatorAt(v, i) && j == i + 1 && chunk == [v[i]] && v[i] >= 0x20)
  {
    hide Escaped, Ascii, CharText, IsPlainAscii;
    PrintsCharacters(v, i);
    if SeparatorAt(v, i) {
      j := i + 3;
      SeparatorsArePlain();
      chunk := Ascii(if v[i + 2] == 0xA8 then "\\u2028" else "\\u2029");
    } else {
      j := i + 1;
      chunk := CharText(v[i]);
      EscapesArePlain(v[i]);
    }
  }

  lemma SeparatorsArePlain()
    ensures IsPlainAscii(Ascii("\\u2028")) && IsPlainAscii(Ascii("\\u2029"))
    ensures Ascii("\\u2028") != [] && Ascii("\\u2029") != []
  {
  }

  lemma ControlIsPlain(b: byte)
    requires b < 0x20
    ensures IsPlainAscii(Ascii("\\u00") + Ascii(["0123456789abcdef"[b / 16], "0123456789abcdef"[b % 16]]))
  {
    var hi, lo := "0123456789abcdef"[b / 16], "0123456789abcdef"[b % 16];
    assert hi as int == HexDigit(b / 16) && lo as int == HexDigit(b % 16);
  }

  lemma EscapesArePlain(b: byte)
    ensures CharText(b) != []
    ensures IsPlainAscii(CharText(b)) || (CharText(b) == [b] && b >= 0x20)
  {
    if b < 0x20 {
      ControlIsPlain(b);
    }
  }

  /** A byte beyond ASCII is printed as it is. */
  lemma HighByteIsRaw(v: Bytes, i: nat)
    requires i <= |v| && Escaped(v, i) != [] && Escaped(v, i)[0] >= 0x80
    ensures i < |v| && !SeparatorAt(v, i) && Escaped(v, i) == [v[i]] + Escaped(v, i + 1)
  {
    hide CharText, Ascii, SeparatorAt;
    PrintsCharacters(v, i);
    if i < |v| {
      var chunk, j := ChunkIsPrinted(v, i);
      assert Escaped(v, i)[0] == chunk[0];
    }
  }

  lemma SeparatorSuffix(t: Bytes, n: nat, k: nat)
    requires n <= |t|
    ensures SeparatorAt(t, n + k) <==> SeparatorAt(t[n..], k)
  {
    if n + k + 3 <= |t| {
      assert t[n..][k..k + 3] == t[n + k..n + k + 3];
    }
  }

  lemma SeparatorFirst(t: Bytes)
    ensures SeparatorAt(t, 0) ==> t[0] == 0xE2
  {
    if SeparatorAt(t, 0) {
      assert t[0] == t[0..3][0];
    }
  }

  lemma HarmlessFront(t: Bytes)
    requires t != [] && Harmless(t[1..]) && t[0] >= 0x20 && !SeparatorAt(t, 0)
    ensures Harmless(t)
  {
    hide SeparatorAt;
    forall k: nat | k < |t| ensures t[k] >= 0x20 && !SeparatorAt(t, k) {
      if k > 0 {
        var j := k - 1;
        assert t[k] == t[1..][j] && !SeparatorAt(t[1..], j);
        SeparatorSuffix(t, 1, j);
      }
    }
  }

  lemma {:induction false} HarmlessPrefix(p: Bytes, t: Bytes)
    requires IsPlainAscii(p) && Harmless(t)
    ensures Harmless(p + t)
    decreases |p|
  {
    if p == [] {
      assert p + t == t;
    } else {
      HarmlessPrefix(p[1..], t);
      assert (p + t)[1..] == p[1..] + t;
      SeparatorFirst(p + t);
      HarmlessFront(p + t);
    }
  }

  /** Three bytes in front that are printed as they are were next to each other. */
  lemma RawIsNoSeparator(v: Bytes, i: nat)
    requires i < |v| && !SeparatorAt(v, i) && Escaped(v, i) == [v[i]] + Escaped(v, i + 1)
    ensures !SeparatorAt(Escaped(v, i), 0)
  {
    hide Escaped;
    var t := Escaped(v, i);
    if SeparatorAt(t, 0) {
      assert t[0..3] == [t[0], t[1], t[2]];
      assert t[1] == Escaped(v, i + 1)[0];
      HighByteIsRaw(v, i + 1);
      assert t[2] == Escaped(v, i + 2)[0];
      HighByteIsRaw(v, i + 2);
      assert false;
    }
  }

  /** Whatever the string, no control character and no separator is left in what is printed. */
  lemma {:induction false} PrintsNothingHarmful(v: Bytes, i: nat)
    requires i <= |v|
    ensures Harmless(Escaped(v, i))
    decreases |v| - i
  {
    hide Escaped, CharText, SeparatorAt, IsPlainAscii;
    if i == |v| {
      PrintsCharacters(v, i);
    } else {
      var chunk, j := ChunkIsPrinted(v, i);
      PrintsNothingHarmful(v, j);
      if IsPlainAscii(chunk) {
        HarmlessPrefix(chunk, Escaped(v, j));
      } else {
        RawIsNoSeparator(v, i);
        assert Escaped(v, i)[1..] == Escaped(v, j);
        HarmlessFront(Escaped(v, i));
      }
    }
  }

  // ---------- scalars ----------

  /** Words for null and the truth values; null for what is not finite. */
  lemma PrintsWords(c: Library, v: Json)
    requires v.Null? || v.Bool? || (v.Dbl? && !v.d.Finite?)
    ensures Dumped(c, v) == Ascii(if v == Bool(true) then "true" else if v == Bool(false) then "false" else "null")
  {
    WordText(NullTree);
    WordText(TrueTree);
    WordText(FalseTree);
  }

  /** An int is printed as its decimal digits, after a minus sign if it is negative. */
  lemma PrintsInts(c: Library, i: int) returns (p: NumberParts)
    ensures PartsOk(p) && p.fraction == [] && p.exponent == [] && Dumped(c, Int(i)) == PartsText(p)
    ensures (p.sign != [] <==> i < 0) && Worth(p.whole) == if i < 0 then -i else i
  {
    DecimalIsExact(i);
    NumberIsParts(Decimal(i));
    p := PartsOf(Decimal(i));
    PartsAreText(p);
    WorthIsValue(p.whole);
    assert p.sign == SignText(i < 0);
  }

  lemma PrintsStrings(c: Library, v: Bytes)
    ensures Dumped(c, Str(v)) == Ascii("\"") + Escaped(v, 0) + Ascii("\"")
  {
    assert Ascii("\"") == [QUOTE];
  }

  // ---------- arrays and objects ----------

  /** Texts with a separator between them. */
  function Join(texts: seq<Bytes>, separator: Bytes): Bytes {
    if texts == [] then []
    else if |texts| == 1 then texts[0]
    else texts[0] + separator + Join(texts[1..], separator)
  }

  function DumpedItems(c: Library, items: seq<Json>): seq<Bytes> {
    seq(|items|, k requires 0 <= k < |items| => Dumped(c, items[k]))
  }

  /** A key, a colon, a space and the value. */
  function DumpedField(c: Library, f: Field): Bytes {
    Dumped(c, Str(f.key)) + Ascii(": ") + Dumped(c, f.value)
  }

  function DumpedFields(c: Library, fields: Fields): seq<Bytes> {
    seq(|fields|, k requires 0 <= k < |fields| => DumpedField(c, fields[k]))
  }

  lemma {:induction false} ItemsArePrinted(c: Library, items: seq<Json>, before: Bytes)
    requires items != []
    ensures ElementsText(PrintedItems(c, items, before)) ==
            before + Join(DumpedItems(c, items), Ascii(", ")) + Ascii("]")
    decreases |items|
  {
    hide Printed, Text;
    assert Ascii(", ") == [0x2C, SPACE] && Ascii("]") == [0x5D];
    var texts := DumpedItems(c, items);
    if |items| > 1 {
      ItemsArePrinted(c, items[1..], [SPACE]);
      assert texts[1..] == DumpedItems(c, items[1..]);
    }
  }

  lemma MemberText(m: Members)
    requires m.w1 == [] && m.w2 == [SPACE] && m.w3 == []
    ensures MembersText(m) ==
            m.w0 + ([QUOTE] + (ItemsText(m.name) + [QUOTE]) + [0x3A, SPACE] + Text(m.tree)) +
            if m.Member? then [0x2C] + MembersText(m.rest) else [0x7D]
  {
    hide ItemsText, Text;
  }

  lemma JoinSteps(texts: seq<Bytes>, separator: Bytes)
    requires texts != []
    ensures Join(texts, separator) ==
            if |texts| == 1 then texts[0] else texts[0] + (separator + Join(texts[1..], separator))
  {
  }

  /** One round over the members, in the derivation and in the list of texts. */
  lemma FieldsSplit(c: Library, fields: Fields, before: Bytes)
    requires fields != []
    ensures var m := PrintedFields(c, fields, before);
            && MembersText(m) == before + DumpedField(c, fields[0]) +
               (if m.Member? then [0x2C] + MembersText(m.rest) else [0x7D])
            && (m.Member? <==> |fields| > 1) && (m.Member? ==> m.rest == PrintedFields(c, fields[1..], [SPACE]))
    ensures var texts := DumpedFields(c, fields);
            && texts[0] == DumpedField(c, fields[0])
            && |texts| == |fields| && texts[1..] == DumpedFields(c, fields[1..])
  {
    hide Text, Escape, ItemsText, MembersText, Printed, Join, Ascii, DumpedField;
    KeyIsPrinted(c, fields[0]);
    MemberText(PrintedFields(c, fields, before));
  }

  lemma Regroup(before: Bytes, head: Bytes, more: Bytes, end: Bytes)
    ensures before + head + ([0x2C] + ([SPACE] + more + end)) == before + (head + ([0x2C, SPACE] + more)) + end
  {
  }

  lemma {:induction false} FieldsArePrinted(c: Library, fields: Fields, before: Bytes)
    requires fields != []
    ensures MembersText(PrintedFields(c, fields, before)) ==
            before + Join(DumpedFields(c, fields), Ascii(", ")) + Ascii("}")
    decreases |fields|
  {
    hide *;
    FieldsSplit(c, fields, before);
    FieldSigns();
    JoinSteps(DumpedFields(c, fields), Ascii(", "));
    if |fields| > 1 {
      FieldsArePrinted(c, fields[1..], [SPACE]);
      Regroup(before, DumpedField(c, fields[0]), Join(DumpedFields(c, fields[1..]), Ascii(", ")), Ascii("}"));
    }
  }

  lemma FieldSigns()
    ensures Ascii(", ") == [0x2C, SPACE] && Ascii("}") == [0x7D]
  {
  }

  lemma KeyIsPrinted(c: Library, f: Field)
    ensures DumpedField(c, f) == [QUOTE] + (ItemsText(Escape(f.key, 0)) + [QUOTE]) + [0x3A, SPACE] + Dumped(c, f.value)
  {
    assert Ascii(": ") == [0x3A, SPACE];
  }

  /** Elements and members in order, with a comma and a space between them. */
  lemma PrintsContainers(c: Library, v: Json)
    ensures v.Arr? ==> Dumped(c, v) == Ascii("[") + Join(DumpedItems(c, v.items), Ascii(", ")) + Ascii("]")
    ensures v.Obj? ==> Dumped(c, v) == Ascii("{") + Join(DumpedFields(c, v.fields), Ascii(", ")) + Ascii("}")
  {
    hide Join, DumpedItems, DumpedFields;
    assert Ascii("[") == [0x5B] && Ascii("]") == [0x5D] && Ascii("{") == [0x7B] && Ascii("}") == [0x7D];
    match v
    case Arr(items) =>
      if items != [] {
        ItemsArePrinted(c, items, []);
      } else {
        NothingJoined(c);
      }
    case Obj(fields) =>
      if fields != [] {
        FieldsArePrinted(c, fields, []);
      } else {
        NothingJoined(c);
      }
    case _ =>
  }

  lemma NothingJoined(c: Library)
    ensures Join(DumpedItems(c, []), Ascii(", ")) == [] && Join(DumpedFields(c, []), Ascii(", ")) == []
  {
  }

  // ---------- what becomes of numbers ----------

  /** The value with null for infinities and NaN. */
  function Nulled(v: Json): Json
    decreases v, 0
  {
    match v
    case Dbl(d) => if d.Finite? then v else Null
    case Arr(items) => Arr(NulledItems(items))
    case Obj(fields) => Obj(NulledFields(fields))
    case _ => v
  }

  function NulledItems(items: seq<Json>): (r: seq<Json>)
    ensures |r| == |items|
    decreases items, 0
  {
    if items == [] then [] else [Nulled(items[0])] + NulledItems(items[1..])
  }

  function NulledFields(fields: Fields): (r: Fields)
    ensures |r| == |fields|
    decreases fields, 0
  {
    if fields == [] then [] else [Field(fields[0].key, Nulled(fields[0].value))] + NulledFields(fields[1..])
  }

  /** It is printed alike, and all that is left is finite. */
  lemma {:induction false} NulledPrints(c: Library, v: Json)
    ensures Printed(c, Nulled(v)) == Printed(c, v) && AllFinite(Nulled(v))
    ensures Representable(c, v) ==> Representable(c, Nulled(v))
    ensures Nulled(v) == v <==> AllFinite(v)
    decreases v, 0
  {
    match v
    case Arr(items) =>
      NulledItemsPrint(c, items, []);
    case Obj(fields) =>
      NulledFieldsPrint(c, fields, []);
    case _ =>
  }

  lemma {:induction false} NulledItemsPrint(c: Library, items: seq<Json>, before: Bytes)
    ensures items != [] ==> PrintedItems(c, NulledItems(items), before) == PrintedItems(c, items, before)
    ensures forall k :: 0 <= k < |items| ==> NulledItems(items)[k] == Nulled(items[k])
    ensures forall k :: 0 <= k < |items| ==> AllFinite(Nulled(items[k]))
    ensures forall k :: 0 <= k < |items| ==> (Representable(c, items[k]) ==> Representable(c, Nulled(items[k])))
    ensures forall k :: 0 <= k < |items| ==> (Nulled(items[k]) == items[k] <==> AllFinite(items[k]))
    decreases items, 0
  {
    hide Nulled, AllFinite, Representable, Printed;
    if items != [] {
      NulledPrints(c, items[0]);
      NulledItemsPrint(c, items[1..], [SPACE]);
      assert NulledItems(items)[1..] == NulledItems(items[1..]);
      assert forall k :: 0 < k < |items| ==> items[k] == items[1..][k - 1];
    }
  }

  lemma {:induction false} NulledFieldsPrint(c: Library, fields: Fields, before: Bytes)
    ensures fields != [] ==> PrintedFields(c, NulledFields(fields), before) == PrintedFields(c, fields, before)
    ensures forall k :: 0 <= k < |fields| ==>
              NulledFields(fields)[k] == Field(fields[k].key, Nulled(fields[k].value))
    ensures forall k :: 0 <= k < |fields| ==> AllFinite(Nulled(fields[k].value))
    ensures forall k :: 0 <= k < |fields| ==>
              (Representable(c, fields[k].value) ==> Representable(c, Nulled(fields[k].value)))
    ensures forall k :: 0 <= k < |fields| ==>
              (Nulled(fields[k].value) == fields[k].value <==> AllFinite(fields[k].value))
    decreases fields, 0
  {
    hide Nulled, AllFinite, Representable, Printed;
    if fields != [] {
      NulledPrints(c, fields[0].value);
      NulledFieldsPrint(c, fields[1..], [SPACE]);
      assert NulledFields(fields)[1..] == NulledFields(fields[1..]);
      assert forall k :: 0 < k < |fields| ==> fields[k] == fields[1..][k - 1];
    }
  }

  /** Parsing what was printed gives the value back with null for what is not finite, up to nesting 200. */
  lemma RoundTripNulls(c: Library, v: Json)
    requires Exact(c) && Representable(c, v)
    ensures var r := Parse(c, STANDARD, Dumped(c, v));
            if Nesting(v) <= 200 then r.Ok? && Eq(Nulled(v), r.value) else r == Err(TooDeep)
  {
    hide Exact, Representable, Nulled, AllFinite, Parse, Eq, Printed, Text, Nesting, Height;
    NulledPrints(c, v);
    PrintedIsDerivation(c, v);
    PrintedIsDerivation(c, Nulled(v));
    RoundTrip(c, v);
    RoundTrip(c, Nulled(v));
  }

  lemma {:induction false} DigitsLength(n: nat, k: nat)
    requires k > 0
    ensures |Digits(n)| <= k <==> n < Pow10(k)
    decreases k
  {
    if n >= 10 {
      if k > 1 {
        DigitsLength(n / 10, k - 1);
      }
    } else {
      PowIsLarge(k);
    }
  }

  lemma {:induction false} PowIsLarge(k: nat)
    requires k > 0
    ensures Pow10(k) >= 10
  {
    if k > 1 {
      PowIsLarge(k - 1);
    }
  }

  lemma EightAndNine()
    ensures Pow10(8) == 1_0000_0000 && Pow10(9) == 10_0000_0000
  {
    assert Pow10(4) == 1_0000;
    assert Pow10(8) == 1_0000_0000;
  }

  /** An int is an int again if it takes at most nine characters, and else the double of the same value. */
  lemma RoundTripInts(c: Library, i: int)
    requires Exact(c) && IsInt32(i)
    ensures Parse(c, STANDARD, Dumped(c, Int(i))) ==
            Ok(if -1_0000_0000 < i < 10_0000_0000 then Int(i) else Dbl(Finite(i as real)), |Dumped(c, Int(i))|)
  {
    hide Parse, Exact;
    var t := NumberTree(Decimal(i));
    DecimalIsExact(i);
    DigitsLength(if i < 0 then -i else i, if i < 0 then 8 else 9);
    EightAndNine();
    assert IsTextOf(Dumped(c, Int(i)), [], t, []);
    FlatParses(c, Dumped(c, Int(i)), [], t, []);
    assert c.strtod(NumberText(Decimal(i))) == Finite(i as real) by { ReadsInts(c, i); }
  }

  lemma ReadsInts(c: Library, i: int)
    requires Exact(c) && IsInt32(i)
    ensures c.strtod(NumberText(Decimal(i))) == Finite(i as real)
  {
    hide NumberText;
    DecimalIsExact(i);
  }
}
