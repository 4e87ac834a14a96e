/**
  The grammar of RFC 8259, sections 2 to 7, on bytes and without a check of UTF-8 validity. A tree
  here is a derivation: it has a text, a value and a nesting height.
 */
module JsonGrammar {
  import opened JsonValue
  import opened Wrappers

  predicate IsWhitespace(b: byte) {
    b == 0x20 || b == 0x09 || b == 0x0A || b == 0x0D
  }

  predicate IsDigit(b: byte) {
    0x30 <= b <= 0x39
  }

  predicate IsHexDigit(b: byte) {
    IsDigit(b) || 0x41 <= b <= 0x46 || 0x61 <= b <= 0x66
  }

  predicate AllWhitespace(w: Bytes) {
    forall k :: 0 <= k < |w| ==> IsWhitespace(w[k])
  }

  predicate AllDigits(d: Bytes) {
    forall k :: 0 <= k < |d| ==> IsDigit(d[k])
  }

  // ---------- section 7: strings ----------

  const QUOTE: byte := 0x22
  const BACKSLASH: byte := 0x5C

  /** An unescaped byte, a two-character escape, or an escape by four hexadecimal digits. */
  datatype Item = Raw(b: byte) | Short(letter: byte) | Hex(h0: byte, h1: byte, h2: byte, h3: byte)

  /** What a letter after a backslash stands for. */
  function Unescaped(letter: byte): Option<byte> {
    if letter == 0x62 then Some(0x08)
    else if letter == 0x66 then Some(0x0C)
    else if letter == 0x6E then Some(0x0A)
    else if letter == 0x72 then Some(0x0D)
    else if letter == 0x74 then Some(0x09)
    else if letter == QUOTE || letter == BACKSLASH || letter == 0x2F then Some(letter)
    else None
  }

  predicate ItemOk(x: Item) {
    match x
    case Raw(b) => 0x20 <= b && b != QUOTE && b != BACKSLASH
    case Short(letter) => Unescaped(letter).Some?
    case Hex(h0, h1, h2, h3) => IsHexDigit(h0) && IsHexDigit(h1) && IsHexDigit(h2) && IsHexDigit(h3)
  }

  predicate ItemsOk(xs: seq<Item>) {
    forall k :: 0 <= k < |xs| ==> ItemOk(xs[k])
  }

  function ItemText(x: Item): Bytes {
    match x
    case Raw(b) => [b]
    case Short(letter) => [BACKSLASH, letter]
    case Hex(h0, h1, h2, h3) => [BACKSLASH, 0x75, h0, h1, h2, h3]
  }

  function ItemsText(xs: seq<Item>): Bytes {
    if xs == [] then [] else ItemText(xs[0]) + ItemsText(xs[1..])
  }

  function HexValue(h: byte): (n: nat)
    ensures IsHexDigit(h) ==> n < 16
  {
    if IsDigit(h) then h - 0x30 else if 0x41 <= h <= 0x46 then h - 0x37 else if 0x61 <= h <= 0x66 then h - 0x57 else 0
  }

  /** A string as bytes and escaped 16-bit units. */
  datatype Unit = Plain(b: byte) | Escaped(u: nat)

  function UnitOf(x: Item): Unit {
    match x
    case Raw(b) => Plain(b)
    case Short(letter) => Plain(if Unescaped(letter).Some? then Unescaped(letter).value else letter)
    case Hex(h0, h1, h2, h3) => Escaped(((HexValue(h0) * 16 + HexValue(h1)) * 16 + HexValue(h2)) * 16 + HexValue(h3))
  }

  function UnitsOf(xs: seq<Item>): seq<Unit> {
    if xs == [] then [] else [UnitOf(xs[0])] + UnitsOf(xs[1..])
  }

  predicate IsHigh(u: int) {
    0xD800 <= u <= 0xDBFF
  }

  predicate IsLow(u: int) {
    0xDC00 <= u <= 0xDFFF
  }

  function Combine(hi: nat, lo: nat): nat
    requires IsHigh(hi) && IsLow(lo)
  {
    (hi - 0xD800) * 0x400 + (lo - 0xDC00) + 0x10000
  }

  /** Encoding of a code point, surrogates included; a negative one stands for none. */
  function EncodeUtf8(pt: int): Bytes
    requires pt < 0x110000
  {
    if pt < 0 then []
    else if pt < 0x80 then [pt]
    else if pt < 0x800 then [0xC0 + pt / 0x40, 0x80 + pt % 0x40]
    else if pt < 0x10000 then [0xE0 + pt / 0x1000, 0x80 + pt / 0x40 % 0x40, 0x80 + pt % 0x40]
    else [0xF0 + pt / 0x40000, 0x80 + pt / 0x1000 % 0x40, 0x80 + pt / 0x40 % 0x40, 0x80 + pt % 0x40]
  }

  predicate UnitsOk(us: seq<Unit>) {
    forall k :: 0 <= k < |us| && us[k].Escaped? ==> us[k].u < 0x10000
  }

  /**
    Left to right, an escaped high surrogate directly followed by an escaped low one is one character;
    any other unit stands for itself.
   */
  function Decode(us: seq<Unit>): Bytes
    requires UnitsOk(us)
  {
    if us == [] then []
    else if us[0].Plain? then [us[0].b] + Decode(us[1..])
    else if IsHigh(us[0].u) && |us| >= 2 && us[1].Escaped? && IsLow(us[1].u) then
      EncodeUtf8(Combine(us[0].u, us[1].u)) + Decode(us[2..])
    else
      EncodeUtf8(us[0].u) + Decode(us[1..])
  }

  lemma {:induction false} ItemsGiveUnits(xs: seq<Item>)
    requires ItemsOk(xs)
    ensures UnitsOk(UnitsOf(xs)) && |UnitsOf(xs)| == |xs|
  {
    if xs != [] {
      ItemsGiveUnits(xs[1..]);
    }
  }

  /** The bytes a string literal's items stand for. */
  function StringValue(xs: seq<Item>): Bytes
    requires ItemsOk(xs)
  {
    ItemsGiveUnits(xs);
    Decode(UnitsOf(xs))
  }

  // ---------- section 6: numbers ----------

  datatype Exponent = Exponent(mark: byte, sign: Option<byte>, digits: Bytes)

  datatype Number = Number(negative: bool, digits: Bytes, fraction: Option<Bytes>, exponent: Option<Exponent>)

  predicate IsMark(b: byte) {
    b == 0x65 || b == 0x45
  }

  predicate IsSign(b: byte) {
    b == 0x2B || b == 0x2D
  }

  predicate NumberOk(n: Number) {
    && n.digits != [] && AllDigits(n.digits) && (n.digits[0] == 0x30 ==> |n.digits| == 1)
    && (n.fraction.Some? ==> n.fraction.value != [] && AllDigits(n.fraction.value))
    && (n.exponent.Some? ==>
          && IsMark(n.exponent.value.mark)
          && (n.exponent.value.sign.Some? ==> IsSign(n.exponent.value.sign.value))
          && n.exponent.value.digits != [] && AllDigits(n.exponent.value.digits))
  }

  function SignText(negative: bool): Bytes {
    if negative then [0x2D] else []
  }

  function FractionText(f: Option<Bytes>): Bytes {
    match f case None => [] case Some(d) => [0x2E] + d
  }

  function ExponentText(e: Option<Exponent>): Bytes {
    match e
    case None => []
    case Some(x) => [x.mark] + (ExponentSign(x.sign) + x.digits)
  }

  function ExponentSign(sign: Option<byte>): Bytes {
    match sign case None => [] case Some(b) => [b]
  }

  function NumberText(n: Number): Bytes {
    SignText(n.negative) + (n.digits + (FractionText(n.fraction) + ExponentText(n.exponent)))
  }

  function DigitsValue(d: Bytes): int {
    if d == [] then 0 else 10 * DigitsValue(d[..|d| - 1]) + (d[|d| - 1] as int - 0x30)
  }

  /**
    The conversions of the C library that are not modelled: strtod, and the literal that snprintf prints
    for a finite double with "%.17g". `isDouble` says which reals are doubles.
   */
  datatype Library = Library(strtod: Bytes -> Double, format: real -> Number, isDouble: real -> bool)

  /** numeric_limits<int>::digits10 */
  const INT_DIGITS := 9

  /** A plain integer of few characters becomes an int, anything else a double. */
  function NumberValue(c: Library, n: Number): Json {
    if n.fraction.None? && n.exponent.None? && |NumberText(n)| <= INT_DIGITS then
      Int(if n.negative then -DigitsValue(n.digits) else DigitsValue(n.digits))
    else
      Dbl(c.strtod(NumberText(n)))
  }

  // ---------- sections 2 to 5: values, objects, arrays ----------

  datatype Tree =
    | NullTree
    | TrueTree
    | FalseTree
    | NumberTree(number: Number)
    | StringTree(items: seq<Item>)
    | EmptyArray(ws: Bytes)
    | ArrayTree(elements: Elements)
    | EmptyObject(ws: Bytes)
    | ObjectTree(members: Members)

  /** A value with the whitespace before and after it, and what follows the comma. */
  datatype Elements =
    | LastElement(before: Bytes, tree: Tree, after: Bytes)
    | Element(before: Bytes, tree: Tree, after: Bytes, rest: Elements)

  /** A name and a value with the whitespace around them, and what follows the comma. */
  datatype Members =
    | LastMember(w0: Bytes, name: seq<Item>, w1: Bytes, w2: Bytes, tree: Tree, w3: Bytes)
    | Member(w0: Bytes, name: seq<Item>, w1: Bytes, w2: Bytes, tree: Tree, w3: Bytes, rest: Members)

  ghost predicate TreeOk(t: Tree) {
    match t
    case NumberTree(n) => NumberOk(n)
    case StringTree(xs) => ItemsOk(xs)
    case EmptyArray(w) => AllWhitespace(w)
    case ArrayTree(e) => ElementsOk(e)
    case EmptyObject(w) => AllWhitespace(w)
    case ObjectTree(m) => MembersOk(m)
    case _ => true
  }

  ghost predicate ElementsOk(e: Elements) {
    && AllWhitespace(e.before) && TreeOk(e.tree) && AllWhitespace(e.after)
    && (e.Element? ==> ElementsOk(e.rest))
  }

  ghost predicate MembersOk(m: Members) {
    && AllWhitespace(m.w0) && ItemsOk(m.name) && AllWhitespace(m.w1)
    && AllWhitespace(m.w2) && TreeOk(m.tree) && AllWhitespace(m.w3)
    && (m.Member? ==> MembersOk(m.rest))
  }

  const NULL_TEXT: Bytes := [0x6E, 0x75, 0x6C, 0x6C]
  const TRUE_TEXT: Bytes := [0x74, 0x72, 0x75, 0x65]
  const FALSE_TEXT: Bytes := [0x66, 0x61, 0x6C, 0x73, 0x65]

  function StringText(xs: seq<Item>): Bytes {
    [QUOTE] + (ItemsText(xs) + [QUOTE])
  }

  function Text(t: Tree): Bytes
    decreases t, 0
  {
    match t
    case NullTree => NULL_TEXT
    case TrueTree => TRUE_TEXT
    case FalseTree => FALSE_TEXT
    case NumberTree(n) => NumberText(n)
    case StringTree(xs) => StringText(xs)
    case EmptyArray(w) => [0x5B] + (w + [0x5D])
    case ArrayTree(e) => [0x5B] + ElementsText(e)
    case EmptyObject(w) => [0x7B] + (w + [0x7D])
    case ObjectTree(m) => [0x7B] + MembersText(m)
  }

  /** The elements and the closing bracket. */
  function ElementsText(e: Elements): Bytes
    decreases e, 1
  {
    e.before + ElementsTail(e)
  }

  /** From the first value on. */
  function ElementsTail(e: Elements): Bytes
    decreases e, 0
  {
    Text(e.tree) + (e.after + if e.Element? then [0x2C] + ElementsText(e.rest) else [0x5D])
  }

  /** The members and the closing brace. */
  function MembersText(m: Members): Bytes
    decreases m, 1
  {
    m.w0 + ([QUOTE] + MembersTail(m))
  }

  /** From the first name on: string, colon, value. */
  function MembersTail(m: Members): Bytes
    decreases m, 0
  {
    (ItemsText(m.name) + [QUOTE]) + (m.w1 + ([0x3A] + (m.w2 + (Text(m.tree) + (m.w3
      + if m.Member? then [0x2C] + MembersText(m.rest) else [0x7D])))))
  }

  function Value(c: Library, t: Tree): Json
    requires TreeOk(t)
  {
    match t
    case NullTree => Null
    case TrueTree => Bool(true)
    case FalseTree => Bool(false)
    case NumberTree(n) => NumberValue(c, n)
    case StringTree(xs) => Str(StringValue(xs))
    case EmptyArray(_) => Arr([])
    case ArrayTree(e) => Arr(ElementsValue(c, e))
    case EmptyObject(_) => Obj([])
    case ObjectTree(m) => Obj(MembersValue(c, m, []))
  }

  function ElementsValue(c: Library, e: Elements): seq<Json>
    requires ElementsOk(e)
  {
    [Value(c, e.tree)] + if e.Element? then ElementsValue(c, e.rest) else []
  }

  /** Members are put into the map one after the other, so that the last of equal names wins. */
  function MembersValue(c: Library, m: Members, data: Fields): Fields
    requires MembersOk(m)
  {
    var data' := Put(data, StringValue(m.name), Value(c, m.tree));
    if m.Member? then MembersValue(c, m.rest, data') else data'
  }

  /** Scalars and empty containers have height 0. */
  function Height(t: Tree): nat {
    match t
    case ArrayTree(e) => 1 + ElementsHeight(e)
    case ObjectTree(m) => 1 + MembersHeight(m)
    case _ => 0
  }

  function ElementsHeight(e: Elements): nat {
    var h := Height(e.tree);
    if e.Element? && ElementsHeight(e.rest) > h then ElementsHeight(e.rest) else h
  }

  function MembersHeight(m: Members): nat {
    var h := Height(m.tree);
    if m.Member? && MembersHeight(m.rest) > h then MembersHeight(m.rest) else h
  }

  /** JSON-text = ws value ws */
  ghost predicate IsTextOf(s: Bytes, before: Bytes, t: Tree, after: Bytes) {
    AllWhitespace(before) && TreeOk(t) && AllWhitespace(after) && s == before + Text(t) + after
  }

  // ---------- the last of equal names wins ----------

  /** The value of the last member with this name. */
  function LastNamed(c: Library, m: Members, k: Bytes): Option<Json>
    requires MembersOk(m)
  {
    var own := if StringValue(m.name) == k then Some(Value(c, m.tree)) else None;
    if m.Member? && LastNamed(c, m.rest, k).Some? then LastNamed(c, m.rest, k) else own
  }

  lemma {:induction false} LastDuplicateWins(c: Library, m: Members, data: Fields, k: Bytes)
    requires MembersOk(m) && Sorted(data)
    ensures Sorted(MembersValue(c, m, data))
    ensures Lookup(MembersValue(c, m, data), k) ==
            if LastNamed(c, m, k).Some? then LastNamed(c, m, k) else Lookup(data, k)
    decreases m
  {
    var name, v := StringValue(m.name), Value(c, m.tree);
    PutSorted(data, name, v);
    PutLookup(data, name, v, k);
    if m.Member? {
      LastDuplicateWins(c, m.rest, Put(data, name, v), k);
    }
  }
}
