/** json11's dump overloads, which append to a string, proved to print what JsonDump.dfy says. */
module JsonPrinter {
  import opened JsonValue
  import opened JsonGrammar
  import opened JsonDump

  /** What is still to be printed of an array from an element on, the closing bracket included. */
  ghost function ArrayRest(c: Library, values: seq<Json>, i: nat): Bytes
    requires i <= |values|
  {
    if i == |values| then [0x5D]
    else if i == 0 then ElementsText(PrintedItems(c, values, []))
    else [0x2C] + ElementsText(PrintedItems(c, values[i..], [SPACE]))
  }

  /** What is still to be printed of an object from a member on, the closing brace included. */
  ghost function ObjectRest(c: Library, values: Fields, i: nat): Bytes
    requires i <= |values|
  {
    if i == |values| then [0x7D]
    else if i == 0 then MembersText(PrintedFields(c, values, []))
    else [0x2C] + MembersText(PrintedFields(c, values[i..], [SPACE]))
  }

  const COMMA_SPACE: Bytes := [0x2C, SPACE]
  const COLON_SPACE: Bytes := [0x3A, SPACE]

  function Separator(first: bool): Bytes {
    if first then [] else COMMA_SPACE
  }

  lemma ArrayRestStep(c: Library, values: seq<Json>, i: nat)
    requires i < |values|
    ensures ArrayRest(c, values, i) == Separator(i == 0) + (Dumped(c, values[i]) + ArrayRest(c, values, i + 1))
  {
    hide Text, Printed;
    var rest := values[i..];
    var before: Bytes := if i == 0 then [] else [SPACE];
    var e := PrintedItems(c, rest, before);
    assert values[0..] == values;
    assert rest[1..] == values[i + 1..];
    assert e.after + ArrayRest(c, values, i + 1) == ArrayRest(c, values, i + 1);
    assert ElementsText(e) == before + (Dumped(c, values[i]) + ArrayRest(c, values, i + 1));
    assert [0x2C] + (before + (Dumped(c, values[i]) + ArrayRest(c, values, i + 1)))
        == [0x2C] + before + (Dumped(c, values[i]) + ArrayRest(c, values, i + 1));
  }

  lemma ObjectRestStep(c: Library, values: Fields, i: nat)
    requires i < |values|
    ensures ObjectRest(c, values, i) == Separator(i == 0) + (Dumped(c, Str(values[i].key))
                                        + (COLON_SPACE + (Dumped(c, values[i].value) + ObjectRest(c, values, i + 1))))
  {
    hide ItemsText, Escape, MembersText, Text, Printed;
    var rest := values[i..];
    var before: Bytes := if i == 0 then [] else [SPACE];
    assert values[0..] == values;
    assert rest[1..] == values[i + 1..];
    var m := PrintedFields(c, rest, before);
    var name, value, after := ItemsText(m.name) + [QUOTE], Dumped(c, values[i].value), ObjectRest(c, values, i + 1);
    MemberPrinted(m, name, value, after);
    StringPrinted(c, values[i].key);
    hide Dumped, ObjectRest, PrintedFields;
    var tail := COLON_SPACE + (value + after);
    Append([QUOTE], name, tail);
    Append([0x2C], before, ([QUOTE] + name) + tail);
  }

  lemma StringPrinted(c: Library, value: Bytes)
    ensures Dumped(c, Str(value)) == [QUOTE] + (ItemsText(Escape(value, 0)) + [QUOTE])
  {
  }

  lemma MemberPrinted(m: Members, name: Bytes, value: Bytes, rest: Bytes)
    requires m.w1 == [] && m.w2 == [SPACE] && m.w3 == [] && name == ItemsText(m.name) + [QUOTE] && value == Text(m.tree)
    requires rest == if m.Member? then [0x2C] + MembersText(m.rest) else [0x7D]
    ensures MembersText(m) == m.w0 + ([QUOTE] + (name + (COLON_SPACE + (value + rest))))
  {
    hide ItemsText, Text, MembersText;
    assert m.w3 + rest == rest;
    assert [0x3A] + ([SPACE] + (value + rest)) == COLON_SPACE + (value + rest);
    assert m.w1 + (COLON_SPACE + (value + rest)) == COLON_SPACE + (value + rest);
    MembersTextStep(m);
  }

  lemma MembersTextStep(m: Members)
    ensures MembersText(m) == m.w0 + ([QUOTE] + MembersTail(m))
  {
  }

  lemma Append(a: Bytes, b: Bytes, c: Bytes)
    ensures a + (b + c) == (a + b) + c
  {
  }

  lemma StringStarts(start: Bytes, value: Bytes, c: Library)
    ensures start + Dumped(c, Str(value)) == (start + [QUOTE]) + (ItemsText(Escape(value, 0)) + [QUOTE])
  {
  }

  lemma NothingLeft(value: Bytes)
    ensures ItemsText(Escape(value, |value|)) == []
  {
  }

  lemma ArrayStarts(start: Bytes, values: seq<Json>, c: Library)
    ensures start + Dumped(c, Arr(values)) == (start + [0x5B]) + ArrayRest(c, values, 0)
  {
  }

  lemma NoMoreValues(c: Library, values: seq<Json>)
    ensures ArrayRest(c, values, |values|) == [0x5D]
  {
  }

  lemma NoMoreFields(c: Library, values: Fields)
    ensures ObjectRest(c, values, |values|) == [0x7D]
  {
  }

  lemma ObjectStarts(start: Bytes, values: Fields, c: Library)
    ensures start + Dumped(c, Obj(values)) == (start + [0x7B]) + ObjectRest(c, values, 0)
  {
  }

  lemma EscapeStep(before: Bytes, value: Bytes, i: nat)
    requires i < |value|
    ensures before + (ItemsText(Escape(value, i)) + [QUOTE]) ==
            (before + ItemText(ItemAt(value, i))) + (ItemsText(Escape(value, i + WidthAt(value, i))) + [QUOTE])
  {
  }

  /** The string that is printed to. */
  class Output {
    var text: Bytes

    constructor ()
      ensures text == []
    {
      text := [];
    }

    method Write(b: Bytes)
      modifies this
      ensures text == old(text) + b
    {
      text := text + b;
    }

    method DumpDouble(value: Double, library: Library)
      modifies this
      ensures text == old(text) + Dumped(library, Dbl(value))
    {
      if value.Finite? {
        Write(NumberText(library.format(value.r)));
      } else {
        Write(NULL_TEXT);
      }
    }

    method DumpInt(value: int, ghost library: Library)
      modifies this
      ensures text == old(text) + Dumped(library, Int(value))
    {
      Write(NumberText(Decimal(value)));
    }

    method DumpBool(value: bool, ghost library: Library)
      modifies this
      ensures text == old(text) + Dumped(library, Bool(value))
    {
      Write(if value then TRUE_TEXT else FALSE_TEXT);
    }

    method DumpString(value: Bytes, ghost library: Library)
      modifies this
      ensures text == old(text) + Dumped(library, Str(value))
    {
      hide ItemsText, Escape;
      ghost var start := text;
      StringStarts(start, value, library);
      Write([QUOTE]);
      var i := 0;
      while i < |value|
        invariant 0 <= i <= |value|
        invariant text + (ItemsText(Escape(value, i)) + [QUOTE]) == start + Dumped(library, Str(value))
        decreases |value| - i
      {
        ghost var before := text;
        var ch := value[i];
        ghost var x := ItemText(ItemAt(value, i));
        EscapeStep(before, value, i);
        if ch == BACKSLASH {
          Write([BACKSLASH, BACKSLASH]);
        } else if ch == QUOTE {
          Write([BACKSLASH, QUOTE]);
        } else if ch == 0x08 {
          Write([BACKSLASH, 0x62]);
        } else if ch == 0x0C {
          Write([BACKSLASH, 0x66]);
        } else if ch == 0x0A {
          Write([BACKSLASH, 0x6E]);
        } else if ch == 0x0D {
          Write([BACKSLASH, 0x72]);
        } else if ch == 0x09 {
          Write([BACKSLASH, 0x74]);
        } else if ch <= 0x1F {
          Write([BACKSLASH, 0x75, 0x30, 0x30, HexDigit(ch / 16), HexDigit(ch % 16)]);
        } else if ch == 0xE2 && Char(value, i + 1) == 0x80 && Char(value, i + 2) == 0xA8 {
          Write([BACKSLASH, 0x75, 0x32, 0x30, 0x32, 0x38]);
          i := i + 2;
        } else if ch == 0xE2 && Char(value, i + 1) == 0x80 && Char(value, i + 2) == 0xA9 {
          Write([BACKSLASH, 0x75, 0x32, 0x30, 0x32, 0x39]);
          i := i + 2;
        } else {
          Write([ch]);
        }
        i := i + 1;
        assert text == before + x;
      }
      NothingLeft(value);
      Write([QUOTE]);
    }

    method DumpArray(values: seq<Json>, library: Library)
      modifies this
      ensures text == old(text) + Dumped(library, Arr(values))
      decreases values, 0
    {
      hide Dumped, ArrayRest;
      ghost var start := text;
      ArrayStarts(start, values, library);
      var first := true;
      Write([0x5B]);
      for i := 0 to |values|
        invariant first <==> i == 0
        invariant text + ArrayRest(library, values, i) == start + Dumped(library, Arr(values))
      {
        ArrayRestStep(library, values, i);
        Append(text, Separator(first), Dumped(library, values[i]) + ArrayRest(library, values, i + 1));
        if !first {
          Write(COMMA_SPACE);
        }
        Append(text, Dumped(library, values[i]), ArrayRest(library, values, i + 1));
        Dump(values[i], library);
        first := false;
      }
      NoMoreValues(library, values);
      Write([0x5D]);
    }

    method DumpObject(values: Fields, library: Library)
      modifies this
      ensures text == old(text) + Dumped(library, Obj(values))
      decreases values, 0
    {
      hide Dumped, ObjectRest;
      ghost var start := text;
      ObjectStarts(start, values, library);
      var first := true;
      Write([0x7B]);
      for i := 0 to |values|
        invariant first <==> i == 0
        invariant text + ObjectRest(library, values, i) == start + Dumped(library, Obj(values))
      {
        ObjectRestStep(library, values, i);
        ghost var key, value, rest :=
          Dumped(library, Str(values[i].key)), Dumped(library, values[i].value), ObjectRest(library, values, i + 1);
        Append(text, Separator(first), key + (COLON_SPACE + (value + rest)));
        if !first {
          Write(COMMA_SPACE);
        }
        Append(text, key, COLON_SPACE + (value + rest));
        DumpString(values[i].key, library);
        Append(text, COLON_SPACE, value + rest);
        Write(COLON_SPACE);
        Append(text, value, rest);
        Dump(values[i].value, library);
        first := false;
      }
      NoMoreFields(library, values);
      Write([0x7D]);
    }

    method Dump(value: Json, library: Library)
      modifies this
      ensures text == old(text) + Dumped(library, value)
      decreases value, 1
    {
      match value {
        case Null => Write(NULL_TEXT);
        case Int(i) => DumpInt(i, library);
        case Dbl(d) => DumpDouble(d, library);
        case Bool(b) => DumpBool(b, library);
        case Str(s) => DumpString(s, library);
        case Arr(items) => DumpArray(items, library);
        case Obj(fields) => DumpObject(fields, library);
      }
    }
  }
}
