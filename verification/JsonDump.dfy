/**
  json11's printer. What it prints for a value is the text of a derivation in the grammar, and parsing
  that text gives an equal value exactly when no number is infinite or NaN and the nesting is within
  the parser's limit.
 */
module JsonDump {
  import opened JsonValue
  import opened Wrappers
  import opened JsonGrammar
  import opened JsonParse
  import opened JsonComplete
  import opened JsonSound
  import opened JsonOrder

  // ---------- strings ----------

  function HexDigit(n: nat): byte
    requires n < 16
  {
    if n < 10 then 0x30 + n else 0x57 + n
  }

  /** The three bytes of U+2028 or U+2029. */
  predicate IsSeparatorAt(v: Bytes, i: nat) {
    i + 3 <= |v| && v[i] == 0xE2 && v[i + 1] == 0x80 && (v[i + 2] == 0xA8 || v[i + 2] == 0xA9)
  }

  /** How the character at a position is printed. */
  function ItemAt(v: Bytes, i: nat): (x: Item)
    requires i < |v|
    ensures ItemOk(x)
  {
    var ch := v[i];
    if ch == BACKSLASH || ch == QUOTE then Short(ch)
    else if ch == 0x08 then Short(0x62)
    else if ch == 0x0C then Short(0x66)
    else if ch == 0x0A then Short(0x6E)
    else if ch == 0x0D then Short(0x72)
    else if ch == 0x09 then Short(0x74)
    else if ch <= 0x1F then Hex(0x30, 0x30, HexDigit(ch / 16), HexDigit(ch % 16))
    else if IsSeparatorAt(v, i) then Hex(0x32, 0x30, 0x32, if v[i + 2] == 0xA8 then 0x38 else 0x39)
    else Raw(ch)
  }

  function WidthAt(v: Bytes, i: nat): (n: nat)
    requires i < |v|
    ensures 1 <= n && i + n <= |v|
  {
    if IsSeparatorAt(v, i) then 3 else 1
  }

  function Escape(v: Bytes, i: nat): (xs: seq<Item>)
    requires i <= |v|
    ensures ItemsOk(xs)
    decreases |v| - i
  {
    if i == |v| then [] else [ItemAt(v, i)] + Escape(v, i + WidthAt(v, i))
  }

  lemma HexDigitValue(n: nat)
    requires n < 16
    ensures IsHexDigit(HexDigit(n)) && HexValue(HexDigit(n)) == n
  {
  }

  /** Only control characters and the two separators become escaped units, which are no surrogates. */
  lemma ItemAtUnit(v: Bytes, i: nat)
    requires i < |v|
    ensures var u, n := UnitOf(ItemAt(v, i)), WidthAt(v, i);
            if u.Plain? then n == 1 && u.b == v[i] else u.u < 0x3000 && EncodeUtf8(u.u) == v[i..i + n]
  {
    var ch := v[i];
    if ch <= 0x1F {
      HexDigitValue(ch / 16);
      HexDigitValue(ch % 16);
      assert EncodeUtf8(ch) == v[i..i + 1];
    } else if IsSeparatorAt(v, i) {
      assert v[i..i + 3] == [v[i], v[i + 1], v[i + 2]];
    }
  }

  lemma ItemAtDecodes(v: Bytes, i: nat, us: seq<Unit>)
    requires i < |v| && UnitsOk(us)
    ensures UnitsOk([UnitOf(ItemAt(v, i))] + us)
    ensures Decode([UnitOf(ItemAt(v, i))] + us) == v[i..i + WidthAt(v, i)] + Decode(us)
  {
    hide ItemAt, WidthAt, UnitOf, EncodeUtf8;
    var u := UnitOf(ItemAt(v, i));
    ItemAtUnit(v, i);
    assert ([u] + us)[1..] == us;
  }

  /** Escaping loses nothing. */
  lemma {:induction false} EscapeDecodes(v: Bytes, i: nat)
    requires i <= |v|
    ensures UnitsOk(UnitsOf(Escape(v, i))) && Decode(UnitsOf(Escape(v, i))) == v[i..]
    decreases |v| - i
  {
    if i < |v| {
      var j := i + WidthAt(v, i);
      EscapeDecodes(v, j);
      ItemAtDecodes(v, i, UnitsOf(Escape(v, j)));
      assert Escape(v, i)[1..] == Escape(v, j);
      assert v[i..] == v[i..j] + v[j..];
    }
  }

  // ---------- numbers ----------

  /** The decimal digits of a number. */
  function Digits(n: nat): (d: Bytes)
    ensures d != [] && AllDigits(d)
  {
    if n < 10 then [0x30 + n] else Digits(n / 10) + [0x30 + n % 10]
  }

  lemma {:induction false} DigitsAreDecimal(n: nat)
    ensures DigitsValue(Digits(n)) == n && (Digits(n)[0] == 0x30 ==> n == 0)
  {
    if n < 10 {
      assert DigitsValue([]) == 0;
      assert Digits(n)[..0] == [];
    } else {
      DigitsAreDecimal(n / 10);
      assert Digits(n)[..|Digits(n)| - 1] == Digits(n / 10);
    }
  }

  /** What snprintf prints for an int. */
  function Decimal(n: int): Number {
    Number(n < 0, Digits(if n < 0 then -n else n), None, None)
  }

  predicate IsPlain(n: Number) {
    n.fraction.None? && n.exponent.None?
  }

  function IntegerOf(n: Number): int {
    if n.negative then -DigitsValue(n.digits) else DigitsValue(n.digits)
  }

  lemma DecimalIsExact(n: int)
    ensures NumberOk(Decimal(n)) && IsPlain(Decimal(n)) && IntegerOf(Decimal(n)) == n
  {
    DigitsAreDecimal(if n < 0 then -n else n);
  }

  /** Every integer up to this size is a double. */
  const EXACT := 0x20_0000_0000_0000

  /**
    What the printer and parser rely on: strtod is exact on integers that are doubles, and what is
    printed for a double is a number that strtod reads back.
   */
  ghost predicate Exact(c: Library) {
    && (forall n: Number :: NumberOk(n) && IsPlain(n) && -EXACT <= IntegerOf(n) <= EXACT ==>
          c.strtod(NumberText(n)) == Finite(IntegerOf(n) as real))
    && (forall r: real :: c.isDouble(r) ==> NumberOk(c.format(r)) && c.strtod(NumberText(c.format(r))) == Finite(r))
  }

  // A library of this kind, whose doubles are the integers and the halves between them.

  function Magnitude(r: real): (a: real)
    ensures a >= 0.0
  {
    if r < 0.0 then -r else r
  }

  predicate IsHalves(r: real) {
    var a := Magnitude(r);
    a == a.Floor as real || a == a.Floor as real + 0.5
  }

  const HALF: Bytes := [0x35]

  function HalvesLiteral(r: real): Number {
    var a := Magnitude(r);
    Number(r < 0.0, Digits(a.Floor), if a == a.Floor as real then None else Some(HALF), None)
  }

  function HalvesValue(n: Number): real {
    var a := DigitsValue(n.digits) as real + if n.fraction == Some(HALF) then 0.5 else 0.0;
    if n.negative then -a else a
  }

  lemma HalvesLiteralReads(r: real)
    requires IsHalves(r)
    ensures NumberOk(HalvesLiteral(r)) && HalvesValue(HalvesLiteral(r)) == r
  {
    DigitsAreDecimal(Magnitude(r).Floor);
  }

  function ReadHalves(t: Bytes): Double {
    match LexNumber(t, 0) case Err(_) => NaN case Ok(n, _) => Finite(HalvesValue(n))
  }

  lemma HalvesAreRead(n: Number)
    requires NumberOk(n)
    ensures ReadHalves(NumberText(n)) == Finite(HalvesValue(n))
    ensures IsPlain(n) ==> HalvesValue(n) == IntegerOf(n) as real
  {
    hide LexNumber, NumberText;
    ReadsNumber(NumberText(n), 0, n);
  }

  /** What is assumed can be met, with doubles that are no integers. */
  lemma ExactIsPossible() returns (c: Library)
    ensures Exact(c)
    ensures c.isDouble(-0.5) && c.strtod([0x2D, 0x30, 0x2E, 0x35]) == Finite(-0.5)
  {
    hide NumberOk, NumberText, HalvesValue, ReadHalves, IntegerOf, HalvesLiteral;
    c := Library(ReadHalves, HalvesLiteral, IsHalves);
    forall n: Number | NumberOk(n)
      ensures c.strtod(NumberText(n)) == Finite(HalvesValue(n))
      ensures IsPlain(n) ==> HalvesValue(n) == IntegerOf(n) as real
    {
      HalvesAreRead(n);
    }
    forall r: real | c.isDouble(r) ensures NumberOk(c.format(r)) && HalvesValue(c.format(r)) == r {
      HalvesLiteralReads(r);
    }
    MinusHalf();
  }

  lemma MinusHalf()
    ensures IsHalves(-0.5) && ReadHalves([0x2D, 0x30, 0x2E, 0x35]) == Finite(-0.5)
  {
    hide LexNumber;
    assert Magnitude(-0.5) == 0.5 && (0.5).Floor == 0;
    assert Digits(0) == [0x30];
    assert NumberText(HalvesLiteral(-0.5)) == [0x2D, 0x30, 0x2E, 0x35];
    HalvesLiteralReads(-0.5);
    HalvesAreRead(HalvesLiteral(-0.5));
  }

  /** The numbers of the tree are ints and doubles. */
  ghost predicate Representable(c: Library, v: Json) {
    match v
    case Int(i) => IsInt32(i)
    case Dbl(d) => d.Finite? ==> c.isDouble(d.r)
    case Arr(items) => forall k :: 0 <= k < |items| ==> Representable(c, items[k])
    case Obj(fields) => Sorted(fields) && forall k :: 0 <= k < |fields| ==> Representable(c, fields[k].value)
    case _ => true
  }

  predicate AllFinite(v: Json) {
    match v
    case Dbl(d) => d.Finite?
    case Arr(items) => forall k :: 0 <= k < |items| ==> AllFinite(items[k])
    case Obj(fields) => forall k :: 0 <= k < |fields| ==> AllFinite(fields[k].value)
    case _ => true
  }

  lemma NumberPrints(c: Library, n: Number, v: Json)
    requires Exact(c) && NumberOk(n) && (v.Int? || v.Dbl?) && JsonOrder.Number(v).Finite?
    requires c.strtod(NumberText(n)) == JsonOrder.Number(v)
    ensures Eq(v, NumberValue(c, n))
  {
    if IsPlain(n) && |NumberText(n)| <= INT_DIGITS {
      ShortIsSmall(n);
    }
  }

  lemma {:induction false} DigitsBound(d: Bytes)
    requires AllDigits(d) && |d| <= INT_DIGITS
    ensures 0 <= DigitsValue(d) < Pow10(|d|)
  {
    if d != [] {
      DigitsBound(d[..|d| - 1]);
    }
  }

  lemma ShortIsSmall(n: Number)
    requires NumberOk(n) && IsPlain(n) && |NumberText(n)| <= INT_DIGITS
    ensures -EXACT <= IntegerOf(n) <= EXACT && IsInt32(IntegerOf(n))
  {
    DigitsBound(n.digits);
    assert Pow10(9) == 10 * Pow10(8) && Pow10(8) == 10 * Pow10(7) && Pow10(7) == 10 * Pow10(6)
        && Pow10(6) == 10 * Pow10(5) && Pow10(5) == 10 * Pow10(4) && Pow10(4) == 10 * Pow10(3)
        && Pow10(3) == 10 * Pow10(2) && Pow10(2) == 10 * Pow10(1) && Pow10(1) == 10;
  }

  // ---------- values ----------

  /** The derivation whose text is printed. */
  function Printed(c: Library, v: Json): Tree
    decreases v, 0
  {
    match v
    case Null => NullTree
    case Int(i) => NumberTree(Decimal(i))
    case Dbl(d) => if d.Finite? then NumberTree(c.format(d.r)) else NullTree
    case Bool(b) => if b then TrueTree else FalseTree
    case Str(s) => StringTree(Escape(s, 0))
    case Arr(items) => if items == [] then EmptyArray([]) else ArrayTree(PrintedItems(c, items, []))
    case Obj(fields) => if fields == [] then EmptyObject([]) else ObjectTree(PrintedFields(c, fields, []))
  }

  function PrintedItems(c: Library, items: seq<Json>, before: Bytes): Elements
    requires items != []
    decreases items, 0
  {
    if |items| == 1 then LastElement(before, Printed(c, items[0]), [])
    else Element(before, Printed(c, items[0]), [], PrintedItems(c, items[1..], [SPACE]))
  }

  function PrintedFields(c: Library, fields: Fields, before: Bytes): Members
    requires fields != []
    decreases fields, 0
  {
    var name, tree := Escape(fields[0].key, 0), Printed(c, fields[0].value);
    if |fields| == 1 then LastMember(before, name, [], [SPACE], tree, [])
    else Member(before, name, [], [SPACE], tree, [], PrintedFields(c, fields[1..], [SPACE]))
  }

  /** What Json::dump appends. */
  function Dumped(c: Library, v: Json): Bytes {
    Text(Printed(c, v))
  }

  /** Scalars and empty containers are not nested. */
  function Nesting(v: Json): nat
    decreases v, 0
  {
    match v
    case Arr(items) => if items == [] then 0 else 1 + NestingOfItems(items)
    case Obj(fields) => if fields == [] then 0 else 1 + NestingOfFields(fields)
    case _ => 0
  }

  function NestingOfItems(items: seq<Json>): nat
    decreases items, 0
  {
    if items == [] then 0 else
    var rest := NestingOfItems(items[1..]);
    if rest > Nesting(items[0]) then rest else Nesting(items[0])
  }

  function NestingOfFields(fields: Fields): nat
    decreases fields, 0
  {
    if fields == [] then 0 else
    var rest := NestingOfFields(fields[1..]);
    if rest > Nesting(fields[0].value) then rest else Nesting(fields[0].value)
  }

  /** What is printed is a derivation, as high as the value is nested, of an equal value if all numbers are finite. */
  lemma {:induction false} PrintedIsDerivation(c: Library, v: Json)
    requires Exact(c) && Representable(c, v)
    ensures TreeOk(Printed(c, v)) && Height(Printed(c, v)) == Nesting(v)
    ensures Eq(v, Value(c, Printed(c, v))) <==> AllFinite(v)
    decreases v, 0
  {
    match v
    case Arr(items) =>
      if items != [] {
        hide Exact, Escape;
        PrintedItemsAreDerivation(c, items, []);
      }
    case Obj(fields) =>
      if fields != [] {
        hide Exact, Escape;
        PrintedFieldsAreDerivation(c, fields, [], []);
      }
    case _ => PrintedScalar(c, v);
  }

  lemma PrintedScalar(c: Library, v: Json)
    requires Exact(c) && Representable(c, v) && !v.Arr? && !v.Obj?
    ensures TreeOk(Printed(c, v)) && Height(Printed(c, v)) == Nesting(v) == 0
    ensures Eq(v, Value(c, Printed(c, v))) <==> AllFinite(v)
  {
    match v
    case Int(i) =>
      DecimalIsExact(i);
      NumberPrints(c, Decimal(i), v);
    case Dbl(d) =>
      if d.Finite? {
        NumberPrints(c, c.format(d.r), v);
      }
    case Str(s) => EscapeDecodes(s, 0);
    case _ =>
  }

  lemma {:induction false} PrintedItemsAreDerivation(c: Library, items: seq<Json>, before: Bytes)
    requires Exact(c) && items != [] && forall k :: 0 <= k < |items| ==> Representable(c, items[k])
    requires AllWhitespace(before)
    ensures var e := PrintedItems(c, items, before);
            && ElementsOk(e) && ElementsHeight(e) == NestingOfItems(items)
            && (EqItems(items, ElementsValue(c, e)) <==> forall k :: 0 <= k < |items| ==> AllFinite(items[k]))
    decreases items, 0
  {
    hide Exact, Representable, AllFinite, Printed, TreeOk, Height, Value, Eq, Nesting;
    PrintedIsDerivation(c, items[0]);
    var e := PrintedItems(c, items, before);
    if |items| == 1 {
      assert EqItems(items[1..], ElementsValue(c, e)[1..]);
    } else {
      PrintedItemsAreDerivation(c, items[1..], [SPACE]);
      assert ElementsValue(c, e)[1..] == ElementsValue(c, e.rest);
      assert (forall k :: 0 <= k < |items| ==> AllFinite(items[k])) <==>
             AllFinite(items[0]) && forall k :: 0 <= k < |items[1..]| ==> AllFinite(items[1..][k]) by {
        assert forall k :: 0 < k < |items| ==> items[k] == items[1..][k - 1];
      }
    }
  }

  lemma {:induction false} PrintedFieldsAreDerivation(c: Library, fields: Fields, before: Bytes, data: Fields)
    requires Exact(c) && fields != [] && forall k :: 0 <= k < |fields| ==> Representable(c, fields[k].value)
    requires AllWhitespace(before) && Sorted(data + fields)
    ensures var m := PrintedFields(c, fields, before); MembersOk(m) && MembersHeight(m) == NestingOfFields(fields)
    ensures var r := MembersValue(c, PrintedFields(c, fields, before), data);
            && |r| == |data| + |fields| && r[..|data|] == data
            && (EqFields(fields, r[|data|..]) <==> forall k :: 0 <= k < |fields| ==> AllFinite(fields[k].value))
    decreases fields, 0
  {
    hide Exact, Representable, AllFinite, Printed, Escape, TreeOk, Height, Value, StringValue, Eq, Nesting, Put, Sorted;
    var m := PrintedFields(c, fields, before);
    PrintedIsDerivation(c, fields[0].value);
    var key, v := fields[0].key, Value(c, m.tree);
    EscapeGivesValue(key);
    PutNext(data, fields, v);
    var data' := data + [Field(key, v)];
    assert Put(data, key, v) == data';
    if |fields| == 1 {
      assert data'[|data|..] == [Field(key, v)];
      assert EqFields(fields[1..], [Field(key, v)][1..]);
    } else {
      PrintedFieldsAreDerivation(c, fields[1..], [SPACE], data');
      var r := MembersValue(c, m, data);
      assert r[..|data|] == r[..|data'|][..|data|] == data;
      assert r[|data|] == r[..|data'|][|data|] == Field(key, v);
      assert r[|data|..][1..] == r[|data'|..];
      FiniteSplits(fields);
    }
  }

  lemma FiniteSplits(fields: Fields)
    requires fields != []
    ensures (forall k :: 0 <= k < |fields| ==> AllFinite(fields[k].value)) <==>
            AllFinite(fields[0].value) && forall k :: 0 <= k < |fields[1..]| ==> AllFinite(fields[1..][k].value)
  {
    hide AllFinite;
    assert forall k :: 0 < k < |fields| ==> fields[k] == fields[1..][k - 1];
  }

  lemma EscapeGivesValue(key: Bytes)
    ensures StringValue(Escape(key, 0)) == key
  {
    EscapeDecodes(key, 0);
  }

  /** Fields in key order arrive at the end of the map. */
  lemma PutNext(data: Fields, fields: Fields, v: Json)
    requires fields != [] && Sorted(data + fields)
    ensures Put(data, fields[0].key, v) == data + [Field(fields[0].key, v)]
    ensures Sorted(data + [Field(fields[0].key, v)] + fields[1..])
  {
    var all, next := data + fields, data + [Field(fields[0].key, v)] + fields[1..];
    assert |next| == |all| && forall k :: 0 <= k < |all| ==> next[k].key == all[k].key;
    assert data + [Field(fields[0].key, v)] == next[..|data| + 1];
    PutLast(data, fields[0].key, v);
  }

  // ---------- the round trip ----------

  /**
    What is printed for a value is parsed again unless the value is nested too deeply, and the result
    is equal to the value unless a number is infinite or NaN.
   */
  lemma RoundTrip(c: Library, v: Json)
    requires Exact(c) && Representable(c, v)
    ensures var r := Parse(c, STANDARD, Dumped(c, v));
            && (r.Ok? <==> Nesting(v) <= 200) && (r.Err? ==> r == Err(TooDeep))
            && (r.Ok? && Eq(v, r.value) <==> Nesting(v) <= 200 && AllFinite(v))
  {
    hide Exact, Parse, Text, TreeOk, Height, Value, Eq, Nesting, AllFinite;
    PrintedIsDerivation(c, v);
    var t := Printed(c, v);
    assert Dumped(c, v) == [] + Text(t) + [];
    ParsesTexts(c, Dumped(c, v), [], t, []);
  }
}
