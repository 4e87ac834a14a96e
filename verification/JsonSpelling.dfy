/**
  What the scalars of a JSON text mean, character by character: which bytes a string literal stands
  for, and which texts are numbers, true, false and null. Nothing here goes through the derivations
  of JsonGrammar.dfy; characters are written as characters.
 */
module JsonSpelling {
  import opened JsonValue
  import opened Wrappers
  import opened JsonGrammar
  import opened JsonParse
  import opened JsonSound

  // ---------- what is written ----------

  /** What a string is written as: bytes, and code points given by their number. */
  datatype Piece = Byte(b: byte) | Point(pt: nat)

  /** One digit of a number written with base 16. */
  ghost predicate HexDigitOf(h: byte, d: nat) {
    d < 16 && (h as char == "0123456789abcdef"[d] || h as char == "0123456789ABCDEF"[d])
  }

  /** A backslash, the letter u and four digits. */
  ghost predicate UnitText(t: Bytes, u: nat) {
    && |t| == 6 && t[0] as char == '\\' && t[1] as char == 'u'
    && exists d0: nat, d1: nat, d2: nat, d3: nat ::
      && HexDigitOf(t[2], d0) && HexDigitOf(t[3], d1) && HexDigitOf(t[4], d2) && HexDigitOf(t[5], d3)
      && u == d0 * 4096 + d1 * 256 + d2 * 16 + d3
  }

  /** Section 7 of RFC 8259: the letter after a backslash, and what it stands for. */
  ghost predicate ShortFor(letter: byte, b: byte) {
    var ch := letter as char;
    || (ch == '"' && b == 0x22) || (ch == '\\' && b == 0x5C) || (ch == '/' && b == 0x2F)
    || (ch == 'b' && b == 0x08) || (ch == 'f' && b == 0x0C) || (ch == 'n' && b == 0x0A)
    || (ch == 'r' && b == 0x0D) || (ch == 't' && b == 0x09)
  }

  ghost predicate PieceText(t: Bytes, p: Piece) {
    match p
    case Byte(b) =>
      || (t == [b] && b >= 0x20 && b as char != '"' && b as char != '\\')
      || (|t| == 2 && t[0] as char == '\\' && ShortFor(t[1], b))
    case Point(pt) =>
      || UnitText(t, pt)
      || (&& |t| == 12 && 0x10000 <= pt < 0x110000
          && UnitText(t[..6], 0xD800 + (pt - 0x10000) / 0x400) && UnitText(t[6..], 0xDC00 + (pt - 0x10000) % 0x400))
  }

  /** The text between the quotes, and what it writes. */
  ghost predicate Written(t: Bytes, ps: seq<Piece>) {
    if ps == [] then t == []
    else exists n :: 0 < n <= |t| && PieceText(t[..n], ps[0]) && Written(t[n..], ps[1..])
  }

  ghost predicate Surrogate(p: Piece, from: nat) {
    p.Point? && from <= p.pt < from + 0x400
  }

  /** A high and a low surrogate next to each other are written for the character they stand for together. */
  ghost predicate NoPair(ps: seq<Piece>) {
    forall k :: 0 < k < |ps| && Surrogate(ps[k - 1], 0xD800) ==> !Surrogate(ps[k], 0xDC00)
  }

  // ---------- what it stands for ----------

  ghost predicate In(b: byte, lo: byte, hi: byte) {
    lo <= b <= hi
  }

  /** What a byte adds to a code point when the first byte of its kind is `from`. */
  ghost function Weighs(b: byte, from: int, weight: int): int {
    (b as int - from) * weight
  }

  ghost predicate TwoBytes(b0: byte, b1: byte, pt: nat) {
    && In(b0, 0xC2, 0xDF) && In(b1, 0x80, 0xBF)
    && pt == Weighs(b0, 0xC0, 64) + Weighs(b1, 0x80, 1)
  }

  ghost predicate ThreeBytes(b0: byte, b1: byte, b2: byte, pt: nat) {
    && ((b0 == 0xE0 && In(b1, 0xA0, 0xBF)) || (In(b0, 0xE1, 0xEF) && In(b1, 0x80, 0xBF))) && In(b2, 0x80, 0xBF)
    && pt == Weighs(b0, 0xE0, 4096) + Weighs(b1, 0x80, 64) + Weighs(b2, 0x80, 1)
  }

  ghost predicate FourBytes(b0: byte, b1: byte, b2: byte, b3: byte, pt: nat) {
    && (|| (b0 == 0xF0 && In(b1, 0x90, 0xBF)) || (In(b0, 0xF1, 0xF3) && In(b1, 0x80, 0xBF))
        || (b0 == 0xF4 && In(b1, 0x80, 0x8F)))
    && In(b2, 0x80, 0xBF) && In(b3, 0x80, 0xBF)
    && pt == Weighs(b0, 0xF0, 262144) + Weighs(b1, 0x80, 4096) + Weighs(b2, 0x80, 64) + Weighs(b3, 0x80, 1)
  }

  /**
    The bytes of a code point: the characters of section 4 of RFC 3629, by the weights of section 3, and
    for a surrogate the three bytes of the same pattern.
   */
  ghost predicate PointBytes(v: Bytes, pt: nat) {
    match |v|
    case 1 => v[0] <= 0x7F && pt == v[0]
    case 2 => TwoBytes(v[0], v[1], pt)
    case 3 => ThreeBytes(v[0], v[1], v[2], pt)
    case 4 => FourBytes(v[0], v[1], v[2], v[3], pt)
    case _ => false
  }

  ghost predicate PieceBytes(v: Bytes, p: Piece) {
    match p
    case Byte(b) => v == [b]
    case Point(pt) => PointBytes(v, pt)
  }

  ghost predicate BytesOf(v: Bytes, ps: seq<Piece>) {
    if ps == [] then v == []
    else exists n :: 0 < n <= |v| && PieceBytes(v[..n], ps[0]) && BytesOf(v[n..], ps[1..])
  }

  // ---------- bytes of a code point ----------

  lemma TwoBytesEncoded(b0: byte, b1: byte, pt: nat)
    ensures TwoBytes(b0, b1, pt) <==> 0x80 <= pt < 0x800 && b0 == 0xC0 + pt / 0x40 && b1 == 0x80 + pt % 0x40
  {
  }

  lemma ThreeBytesEncoded(b0: byte, b1: byte, b2: byte, pt: nat)
    ensures ThreeBytes(b0, b1, b2, pt) <==>
            && 0x800 <= pt < 0x10000
            && b0 == 0xE0 + pt / 0x1000 && b1 == 0x80 + pt / 0x40 % 0x40 && b2 == 0x80 + pt % 0x40
  {
  }

  lemma FourBytesEncoded(b0: byte, b1: byte, b2: byte, b3: byte, pt: nat)
    ensures FourBytes(b0, b1, b2, b3, pt) <==>
            && 0x10000 <= pt < 0x110000
            && b0 == 0xF0 + pt / 0x40000 && b1 == 0x80 + pt / 0x1000 % 0x40
            && b2 == 0x80 + pt / 0x40 % 0x40 && b3 == 0x80 + pt % 0x40
  {
    var x := pt / 0x40;
    var y := x / 0x40;
    assert y == pt / 0x1000 && y / 0x40 == pt / 0x40000;
    if FourBytes(b0, b1, b2, b3, pt) {
      assert x == Weighs(b0, 0xF0, 4096) + Weighs(b1, 0x80, 64) + Weighs(b2, 0x80, 1);
      assert y == Weighs(b0, 0xF0, 64) + Weighs(b1, 0x80, 1);
    }
  }

  lemma PointIsEncoded(v: Bytes, pt: nat)
    requires pt < 0x110000
    ensures PointBytes(v, pt) <==> v == EncodeUtf8(pt)
  {
    hide TwoBytes, ThreeBytes, FourBytes;
    match |v|
    case 2 => TwoBytesEncoded(v[0], v[1], pt);
    case 3 => ThreeBytesEncoded(v[0], v[1], v[2], pt);
    case 4 => FourBytesEncoded(v[0], v[1], v[2], v[3], pt);
    case _ =>
  }

  /** The bytes of a piece, as the parser encodes it. */
  function Encoded(p: Piece): Bytes
    requires p.Point? ==> p.pt < 0x110000
  {
    match p
    case Byte(b) => [b]
    case Point(pt) => EncodeUtf8(pt)
  }

  predicate InRange(ps: seq<Piece>) {
    forall k :: 0 <= k < |ps| && ps[k].Point? ==> ps[k].pt < 0x110000
  }

  function AllEncoded(ps: seq<Piece>): Bytes
    requires InRange(ps)
  {
    if ps == [] then [] else Encoded(ps[0]) + AllEncoded(ps[1..])
  }

  lemma {:induction false} BytesAreEncoded(v: Bytes, ps: seq<Piece>)
    requires InRange(ps)
    ensures BytesOf(v, ps) <==> v == AllEncoded(ps)
    decreases |ps|
  {
    hide EncodeUtf8, PointBytes;
    if ps != [] {
      var e := Encoded(ps[0]);
      assert e != [] by { EncodedIsSome(ps[0]); }
      forall n | 0 < n <= |v|
        ensures PieceBytes(v[..n], ps[0]) && BytesOf(v[n..], ps[1..]) <==> v[..n] == e && v[n..] == AllEncoded(ps[1..])
      {
        BytesAreEncoded(v[n..], ps[1..]);
        if ps[0].Point? {
          PointIsEncoded(v[..n], ps[0].pt);
        }
      }
      if v == AllEncoded(ps) {
        assert v[..|e|] == e && v[|e|..] == AllEncoded(ps[1..]);
      }
    }
  }

  lemma EncodedIsSome(p: Piece)
    requires p.Point? ==> p.pt < 0x110000
    ensures Encoded(p) != []
  {
  }

  // ---------- items ----------

  lemma HexDigits(h: byte, d: nat)
    ensures HexDigitOf(h, d) <==> IsHexDigit(h) && HexValue(h) == d
  {
    if d < 16 {
      assert "0123456789abcdef"[d] as int == if d < 10 then 0x30 + d else 0x57 + d;
      assert "0123456789ABCDEF"[d] as int == if d < 10 then 0x30 + d else 0x37 + d;
    }
  }

  lemma UnitIsHex(t: Bytes, u: nat)
    requires |t| == 6
    ensures UnitText(t, u) <==>
            var x := Hex(t[2], t[3], t[4], t[5]); ItemOk(x) && t == ItemText(x) && UnitOf(x) == Escaped(u)
  {
    hide HexDigitOf, IsHexDigit, HexValue;
    assert (t[0] as char) as int == t[0] && (t[1] as char) as int == t[1];
    forall k, d: nat | 2 <= k < 6 ensures HexDigitOf(t[k], d) <==> IsHexDigit(t[k]) && HexValue(t[k]) == d {
      HexDigits(t[k], d);
    }
    var d0, d1, d2, d3 := HexValue(t[2]), HexValue(t[3]), HexValue(t[4]), HexValue(t[5]);
    if ItemOk(Hex(t[2], t[3], t[4], t[5])) {
      assert HexDigitOf(t[2], d0) && HexDigitOf(t[3], d1) && HexDigitOf(t[4], d2) && HexDigitOf(t[5], d3);
    }
  }

  lemma ShortIsUnescaped(letter: byte, b: byte)
    ensures ShortFor(letter, b) <==> Unescaped(letter) == Some(b)
  {
    assert (letter as char) as int == letter;
  }

  // ---------- decoding item by item ----------

  predicate EscapesLow(xs: seq<Item>) {
    xs != [] && UnitOf(xs[0]).Escaped? && 0xDC00 <= UnitOf(xs[0]).u < 0xE000
  }

  lemma DecodeByte(x: Item, xs: seq<Item>, b: byte)
    requires ItemOk(x) && ItemsOk(xs) && UnitOf(x) == Plain(b)
    ensures ItemsOk([x] + xs) && StringValue([x] + xs) == [b] + StringValue(xs)
  {
    ItemsGiveUnits(xs);
    assert ([x] + xs)[1..] == xs && ([UnitOf(x)] + UnitsOf(xs))[1..] == UnitsOf(xs);
  }

  lemma DecodeUnit(x: Item, xs: seq<Item>, u: nat)
    requires ItemOk(x) && ItemsOk(xs) && UnitOf(x) == Escaped(u) && u < 0x10000
    requires !(0xD800 <= u < 0xDC00 && EscapesLow(xs))
    ensures ItemsOk([x] + xs) && StringValue([x] + xs) == EncodeUtf8(u) + StringValue(xs)
  {
    hide EncodeUtf8, UnitOf;
    ItemsGiveUnits(xs);
    assert ([x] + xs)[1..] == xs && ([UnitOf(x)] + UnitsOf(xs))[1..] == UnitsOf(xs);
  }

  lemma DecodePair(x: Item, y: Item, xs: seq<Item>, hi: nat, lo: nat)
    requires ItemOk(x) && ItemOk(y) && ItemsOk(xs) && UnitOf(x) == Escaped(hi) && UnitOf(y) == Escaped(lo)
    requires IsHigh(hi) && IsLow(lo)
    ensures ItemsOk([x, y] + xs) && StringValue([x, y] + xs) == EncodeUtf8(Combine(hi, lo)) + StringValue(xs)
  {
    hide EncodeUtf8, UnitOf;
    ItemsGiveUnits(xs);
    assert ([x, y] + xs)[1..] == [y] + xs && ([y] + xs)[1..] == xs;
    assert ([UnitOf(x), UnitOf(y)] + UnitsOf(xs))[2..] == UnitsOf(xs);
    assert UnitsOf([x, y] + xs) == [UnitOf(x), UnitOf(y)] + UnitsOf(xs);
  }

  // ---------- what is written is read ----------

  /** The item that a piece of one item is. */
  lemma OneItem(t: Bytes, p: Piece) returns (x: Item)
    requires PieceText(t, p) && |t| < 12
    ensures ItemOk(x) && ItemText(x) == t
    ensures UnitOf(x) == match p case Byte(b) => Plain(b) case Point(pt) => Escaped(pt)
    ensures p.Point? ==> p.pt < 0x10000
  {
    if p.Point? {
      UnitIsHex(t, p.pt);
      x := Hex(t[2], t[3], t[4], t[5]);
      assert |ItemText(x)| == 6;
    } else if |t| == 1 {
      x := Raw(p.b);
      assert (p.b as char) as int == p.b;
    } else {
      ShortIsUnescaped(t[1], p.b);
      x := Short(t[1]);
      assert (t[0] as char) as int == t[0];
    }
  }

  lemma TwoItems(t: Bytes, pt: nat) returns (x: Item, y: Item)
    requires PieceText(t, Point(pt)) && |t| == 12
    ensures ItemOk(x) && ItemOk(y) && ItemText(x) + ItemText(y) == t && 0x10000 <= pt < 0x110000
    ensures UnitOf(x) == Escaped(0xD800 + (pt - 0x10000) / 0x400)
    ensures UnitOf(y) == Escaped(0xDC00 + (pt - 0x10000) % 0x400)
  {
    hide ItemText, UnitOf, ItemOk;
    UnitIsHex(t[..6], 0xD800 + (pt - 0x10000) / 0x400);
    UnitIsHex(t[6..], 0xDC00 + (pt - 0x10000) % 0x400);
    x := Hex(t[..6][2], t[..6][3], t[..6][4], t[..6][5]);
    y := Hex(t[6..][2], t[6..][3], t[6..][4], t[6..][5]);
    assert t[..6] + t[6..] == t;
  }

  lemma ItemsTextCons(x: Item, xs: seq<Item>)
    ensures ItemsText([x] + xs) == ItemText(x) + ItemsText(xs)
  {
    assert ([x] + xs)[1..] == xs;
  }

  lemma {:induction false} WrittenIsRead(t: Bytes, ps: seq<Piece>) returns (xs: seq<Item>)
    requires Written(t, ps) && NoPair(ps)
    ensures ItemsOk(xs) && ItemsText(xs) == t && InRange(ps) && StringValue(xs) == AllEncoded(ps)
    ensures EscapesLow(xs) ==> ps != [] && Surrogate(ps[0], 0xDC00)
    decreases |ps|
  {
    hide PieceText, ItemText, UnitOf, EncodeUtf8, ItemOk, StringValue;
    if ps == [] {
      xs := [];
      assert StringValue([]) == [] by { NothingRead(); }
    } else {
      var n :| 0 < n <= |t| && PieceText(t[..n], ps[0]) && Written(t[n..], ps[1..]);
      var more := WrittenIsRead(t[n..], ps[1..]);
      var pieces := [ps[0]] + ps[1..];
      assert t == t[..n] + t[n..] && ps == pieces;
      xs := PieceRead(t[..n], ps[0], more, ps[1..]);
    }
  }

  lemma NothingRead()
    ensures StringValue([]) == []
  {
  }

  lemma PieceRead(t: Bytes, p: Piece, more: seq<Item>, ps: seq<Piece>) returns (xs: seq<Item>)
    requires PieceText(t, p) && ItemsOk(more) && InRange(ps) && StringValue(more) == AllEncoded(ps)
    requires NoPair([p] + ps) && (EscapesLow(more) ==> ps != [] && Surrogate(ps[0], 0xDC00))
    ensures ItemsOk(xs) && ItemsText(xs) == t + ItemsText(more)
    ensures InRange([p] + ps) && StringValue(xs) == AllEncoded([p] + ps)
    ensures EscapesLow(xs) ==> Surrogate(p, 0xDC00)
  {
    hide PieceText, ItemText, EncodeUtf8, StringValue, ItemsText;
    assert ([p] + ps)[0] == p && ([p] + ps)[1..] == ps;
    if |t| == 12 {
      assert p.Point? by { OnlyPointsAreLong(t, p); }
      var x, y := TwoItems(t, p.pt);
      xs := [x] + ([y] + more);
      ItemsTextCons(y, more);
      ItemsTextCons(x, [y] + more);
      var hi, lo := 0xD800 + (p.pt - 0x10000) / 0x400, 0xDC00 + (p.pt - 0x10000) % 0x400;
      assert Combine(hi, lo) == p.pt;
      assert xs == [x, y] + more;
      DecodePair(x, y, more, hi, lo);
    } else {
      assert |t| < 12 by { OnlyPointsAreLong(t, p); }
      var x := OneItem(t, p);
      xs := [x] + more;
      ItemsTextCons(x, more);
      match p
      case Byte(b) => DecodeByte(x, more, b);
      case Point(pt) => DecodeUnit(x, more, pt);
    }
  }

  lemma OnlyPointsAreLong(t: Bytes, p: Piece)
    requires PieceText(t, p)
    ensures |t| <= 12 && (|t| == 12 ==> p.Point?)
  {
  }

  // ---------- what is read was written ----------

  lemma ItemIsPiece(x: Item)
    requires ItemOk(x)
    ensures UnitOf(x).Plain? ==> PieceText(ItemText(x), Byte(UnitOf(x).b))
    ensures UnitOf(x).Escaped? ==> UnitText(ItemText(x), UnitOf(x).u) && UnitOf(x).u < 0x10000
  {
    match x
    case Raw(b) => assert (b as char) as int == b;
    case Short(letter) =>
      ShortIsUnescaped(letter, Unescaped(letter).value);
      assert ItemText(x) == [0x5C, letter];
    case Hex(h0, h1, h2, h3) =>
      UnitIsHex(ItemText(x), UnitOf(x).u);
  }

  lemma PairIsPiece(x: Item, y: Item)
    requires ItemOk(x) && ItemOk(y) && UnitOf(x).Escaped? && UnitOf(y).Escaped?
    requires IsHigh(UnitOf(x).u) && IsLow(UnitOf(y).u)
    ensures PieceText(ItemText(x) + ItemText(y), Point(Combine(UnitOf(x).u, UnitOf(y).u)))
    ensures 0x10000 <= Combine(UnitOf(x).u, UnitOf(y).u) < 0x110000
  {
    hide UnitText, ItemOk, UnitOf;
    ItemIsPiece(x);
    ItemIsPiece(y);
    assert |ItemText(x)| == |ItemText(y)| == 6 by { UnitsAreSix(ItemText(x), UnitOf(x).u, ItemText(y), UnitOf(y).u); }
    var t := ItemText(x) + ItemText(y);
    assert t[..6] == ItemText(x) && t[6..] == ItemText(y);
  }

  lemma UnitsAreSix(t: Bytes, u: nat, t': Bytes, u': nat)
    requires UnitText(t, u) && UnitText(t', u')
    ensures |t| == |t'| == 6
  {
  }

  /** A piece in front of what has been written. */
  lemma WrittenCons(t: Bytes, p: Piece, t': Bytes, ps: seq<Piece>)
    requires t != [] && PieceText(t, p) && Written(t', ps) && NoPair(ps)
    requires ps != [] && Surrogate(p, 0xD800) ==> !Surrogate(ps[0], 0xDC00)
    ensures Written(t + t', [p] + ps) && NoPair([p] + ps)
  {
    hide PieceText;
    var n := |t|;
    assert (t + t')[..n] == t && (t + t')[n..] == t' && ([p] + ps)[1..] == ps;
    forall k | 0 < k < |[p] + ps| && Surrogate(([p] + ps)[k - 1], 0xD800) ensures !Surrogate(([p] + ps)[k], 0xDC00) {
      if k > 1 {
        var j := k - 1;
        assert Surrogate(ps[j - 1], 0xD800);
      }
    }
  }

  lemma {:induction false} ReadIsWritten(xs: seq<Item>) returns (ps: seq<Piece>)
    requires ItemsOk(xs)
    ensures Written(ItemsText(xs), ps) && NoPair(ps) && InRange(ps) && StringValue(xs) == AllEncoded(ps)
    ensures ps != [] && Surrogate(ps[0], 0xDC00) ==> EscapesLow(xs)
    decreases |xs|, 1
  {
    hide PieceText, UnitText, ItemText, UnitOf, EncodeUtf8, StringValue, ItemOk;
    if xs == [] {
      ps := [];
      NothingRead();
    } else {
      ps := FirstWritten(xs, xs[0], xs[1..]);
    }
  }

  lemma {:induction false} FirstWritten(xs: seq<Item>, x: Item, more: seq<Item>) returns (ps: seq<Piece>)
    requires ItemsOk(xs) && xs == [x] + more
    ensures Written(ItemsText(xs), ps) && NoPair(ps) && InRange(ps) && StringValue(xs) == AllEncoded(ps)
    ensures ps != [] && Surrogate(ps[0], 0xDC00) ==> EscapesLow(xs)
    decreases |xs|, 0
  {
    hide PieceText, UnitText, ItemText, UnitOf, EncodeUtf8, StringValue, ItemOk, Written, ItemsText, NoPair;
    assert x == xs[0] && forall k :: 0 <= k < |more| ==> more[k] == xs[k + 1];
    ItemsTextCons(x, more);
    ItemIsPiece(x);
    if UnitOf(x).Escaped? && IsHigh(UnitOf(x).u) && EscapesLow(more) {
      var y := more[0];
      var rest := ReadIsWritten(more[1..]);
      var p := Point(Combine(UnitOf(x).u, UnitOf(y).u));
      assert more == [y] + more[1..] && xs == [x, y] + more[1..];
      ItemsTextCons(y, more[1..]);
      PairIsPiece(x, y);
      DecodePair(x, y, more[1..], UnitOf(x).u, UnitOf(y).u);
      ps := Prepended(ItemText(x) + ItemText(y), p, ItemsText(more[1..]), rest);
      assert ItemsText(xs) == ItemText(x) + ItemText(y) + ItemsText(more[1..]);
    } else {
      var rest := ReadIsWritten(more);
      var p := if UnitOf(x).Plain? then Byte(UnitOf(x).b) else Point(UnitOf(x).u);
      assert PieceText(ItemText(x), p) by { UnitIsPiece(ItemText(x), p); }
      if p.Byte? {
        DecodeByte(x, more, p.b);
      } else {
        DecodeUnit(x, more, p.pt);
      }
      ps := Prepended(ItemText(x), p, ItemsText(more), rest);
    }
  }

  lemma UnitIsPiece(t: Bytes, p: Piece)
    requires if p.Byte? then PieceText(t, p) else UnitText(t, p.pt)
    ensures PieceText(t, p)
  {
  }

  lemma Prepended(t: Bytes, p: Piece, t': Bytes, ps: seq<Piece>) returns (qs: seq<Piece>)
    requires PieceText(t, p) && Written(t', ps) && NoPair(ps) && InRange(ps) && (p.Point? ==> p.pt < 0x110000)
    requires ps != [] && Surrogate(p, 0xD800) ==> !Surrogate(ps[0], 0xDC00)
    ensures qs == [p] + ps && Written(t + t', qs) && NoPair(qs) && InRange(qs)
    ensures AllEncoded(qs) == Encoded(p) + AllEncoded(ps)
  {
    hide EncodeUtf8, Written, NoPair;
    qs := [p] + ps;
    assert qs[0] == p && qs[1..] == ps;
    WrittenCons(t, p, t', ps);
  }

  // ---------- string literals ----------

  ghost predicate Blank(w: Bytes) {
    forall k :: 0 <= k < |w| ==> w[k] as char in " \t\n\r"
  }

  lemma BlankIsWhitespace(w: Bytes)
    ensures Blank(w) <==> AllWhitespace(w)
  {
    forall k | 0 <= k < |w| ensures w[k] as char in " \t\n\r" <==> IsWhitespace(w[k]) {
      assert (w[k] as char) as int == w[k];
    }
  }

  /** The bytes of a text in ASCII. */
  function Ascii(t: string): Bytes {
    seq(|t|, i requires 0 <= i < |t| => if t[i] < 128 as char then t[i] as int else 0)
  }

  /** `s` is a string literal between blanks, and what is written in it is `v`. */
  ghost predicate IsStringOf(s: Bytes, before: Bytes, t: Bytes, ps: seq<Piece>, after: Bytes, v: Bytes) {
    && Blank(before) && Blank(after) && s == before + ([0x22] + (t + [0x22])) + after
    && Written(t, ps) && NoPair(ps) && BytesOf(v, ps)
  }

  lemma OnlyStringsAreStrings(c: Library, t: Tree)
    requires TreeOk(t) && Value(c, t).Str?
    ensures t.StringTree?
  {
    hide StringValue;
  }

  lemma StringWasWritten(c: Library, s: Bytes, before: Bytes, xs: seq<Item>, after: Bytes)
    requires IsTextOf(s, before, StringTree(xs), after)
    ensures ItemsOk(xs)
    ensures exists t, ps :: IsStringOf(s, before, t, ps, after, StringValue(xs))
  {
    hide Written, BytesOf, NoPair, StringValue, ItemsText, AllEncoded, Blank, AllWhitespace, ItemsOk;
    BlankIsWhitespace(before);
    BlankIsWhitespace(after);
    var ps := ReadIsWritten(xs);
    BytesAreEncoded(StringValue(xs), ps);
    assert IsStringOf(s, before, ItemsText(xs), ps, after, StringValue(xs));
  }

  lemma WrittenParses(c: Library, s: Bytes, before: Bytes, t: Bytes, ps: seq<Piece>, after: Bytes, v: Bytes)
    requires IsStringOf(s, before, t, ps, after, v)
    ensures Parse(c, STANDARD, s) == Ok(Str(v), |s|)
  {
    hide Parse, Written, BytesOf, NoPair, StringValue, ItemsText, AllEncoded, Blank, AllWhitespace, ItemsOk;
    BlankIsWhitespace(before);
    BlankIsWhitespace(after);
    var xs := WrittenIsRead(t, ps);
    BytesAreEncoded(v, ps);
    ParsesTexts(c, s, before, StringTree(xs), after);
  }

  /** Json::parse gives a string exactly for the string literals, and it gives the bytes that were written. */
  lemma ParsesStrings(c: Library, s: Bytes, v: Bytes)
    ensures Parse(c, STANDARD, s) == Ok(Str(v), |s|) <==>
            exists before, t, ps, after :: IsStringOf(s, before, t, ps, after, v)
  {
    hide Parse, Written, BytesOf, NoPair, StringValue, ItemsText, AllEncoded, Blank, AllWhitespace, TreeOk, Height;
    if Parse(c, STANDARD, s) == Ok(Str(v), |s|) {
      var before, tree, after := AcceptsOnlyTexts(c, s);
      assert tree.StringTree? by { OnlyStringsAreStrings(c, tree); }
      StringWasWritten(c, s, before, tree.items, after);
    }
    if before, t, ps, after :| IsStringOf(s, before, t, ps, after, v) {
      WrittenParses(c, s, before, t, ps, after, v);
    }
  }

  // ---------- literals and numbers ----------

  /** `t` between blanks. */
  ghost predicate Surrounded(s: Bytes, before: Bytes, t: Bytes, after: Bytes) {
    Blank(before) && Blank(after) && s == before + t + after
  }

  ghost predicate IsDigits(d: Bytes) {
    d != [] && forall k :: 0 <= k < |d| ==> '0' <= d[k] as char <= '9'
  }

  /** The number written by digits: each counts by its place. */
  ghost function Worth(d: Bytes): int {
    if d == [] then 0 else (d[0] as int - '0' as int) * Pow10(|d| - 1) + Worth(d[1..])
  }

  /** The parts of a number by section 6 of RFC 8259. */
  datatype NumberParts = NumberParts(sign: Bytes, whole: Bytes, fraction: Bytes, exponent: Bytes)

  ghost predicate IsSignPart(t: Bytes) {
    t == [] || (|t| == 1 && t[0] as char == '-')
  }

  ghost predicate IsWholePart(t: Bytes) {
    IsDigits(t) && (t[0] as char == '0' ==> |t| == 1)
  }

  ghost predicate IsFractionPart(t: Bytes) {
    t == [] || (t[0] as char == '.' && IsDigits(t[1..]))
  }

  ghost predicate IsExponentPart(t: Bytes) {
    || t == []
    || (t[0] as char in "eE" && (IsDigits(t[1..]) || (|t| > 1 && t[1] as char in "+-" && IsDigits(t[2..]))))
  }

  ghost predicate PartsOk(p: NumberParts) {
    IsSignPart(p.sign) && IsWholePart(p.whole) && IsFractionPart(p.fraction) && IsExponentPart(p.exponent)
  }

  function PartsText(p: NumberParts): Bytes {
    p.sign + p.whole + p.fraction + p.exponent
  }

  /** Plain integers of at most nine characters are ints, and every other number is what strtod makes of it. */
  ghost function PartsValue(c: Library, p: NumberParts): Json {
    if p.fraction == [] && p.exponent == [] && |PartsText(p)| <= 9 then
      Int(if p.sign == [] then Worth(p.whole) else -Worth(p.whole))
    else
      Dbl(c.strtod(PartsText(p)))
  }

  lemma DigitsAgree(d: Bytes)
    ensures IsDigits(d) <==> d != [] && AllDigits(d)
  {
    forall k | 0 <= k < |d| ensures '0' <= d[k] as char <= '9' <==> IsDigit(d[k]) {
      assert (d[k] as char) as int == d[k];
    }
  }

  lemma {:induction false} WorthSnoc(d: Bytes, b: byte)
    ensures Worth(d + [b]) == 10 * Worth(d) + (b as int - 0x30)
    decreases |d|
  {
    if d == [] {
      assert (d + [b])[1..] == [];
    } else {
      WorthSnoc(d[1..], b);
      assert (d + [b])[1..] == d[1..] + [b];
      Tenfold(d[0] as int - 0x30, Pow10(|d| - 1));
      assert Pow10(|d|) == 10 * Pow10(|d| - 1);
    }
  }

  lemma Tenfold(x: int, y: int)
    ensures x * (10 * y) == 10 * (x * y)
  {
  }

  lemma {:induction false} WorthIsValue(d: Bytes)
    ensures Worth(d) == DigitsValue(d)
    decreases |d|
  {
    if d != [] {
      var n := |d| - 1;
      WorthIsValue(d[..n]);
      WorthSnoc(d[..n], d[n]);
      assert d == d[..n] + [d[n]];
    }
  }

  /** The derivation of a number in parts. */
  function NumberOf(p: NumberParts): Number {
    Number(p.sign != [], p.whole, if p.fraction == [] then None else Some(p.fraction[1..]), ExponentOf(p.exponent))
  }

  function ExponentOf(t: Bytes): Option<Exponent> {
    if t == [] then None
    else if |t| > 1 && IsSign(t[1]) then Some(Exponent(t[0], Some(t[1]), t[2..]))
    else Some(Exponent(t[0], None, t[1..]))
  }

  function PartsOf(n: Number): NumberParts {
    NumberParts(SignText(n.negative), n.digits, FractionText(n.fraction), ExponentText(n.exponent))
  }

  lemma ExponentsAgree(t: Bytes)
    ensures IsExponentPart(t) <==>
            var e := ExponentOf(t);
            e.Some? ==>
              && IsMark(e.value.mark) && (e.value.sign.Some? ==> IsSign(e.value.sign.value))
              && e.value.digits != [] && AllDigits(e.value.digits)
    ensures ExponentText(ExponentOf(t)) == t
  {
    if t != [] {
      assert (t[0] as char) as int == t[0];
      DigitsAgree(t[1..]);
      if |t| > 1 {
        assert (t[1] as char) as int == t[1];
        DigitsAgree(t[2..]);
        assert t == [t[0]] + ([t[1]] + t[2..]);
        if IsSign(t[1]) {
          assert t[1..][0] == t[1];
        }
      }
    }
  }

  lemma PartsAreNumber(c: Library, p: NumberParts)
    requires PartsOk(p)
    ensures NumberOk(NumberOf(p)) && NumberText(NumberOf(p)) == PartsText(p)
    ensures NumberValue(c, NumberOf(p)) == PartsValue(c, p)
  {
    hide IsExponentPart, ExponentOf, ExponentText, Worth, DigitsValue, IsDigits, AllDigits, NumberText;
    DigitsAgree(p.whole);
    assert (p.whole[0] as char) as int == p.whole[0];
    if p.fraction != [] {
      DigitsAgree(p.fraction[1..]);
      assert (p.fraction[0] as char) as int == p.fraction[0];
    }
    ExponentsAgree(p.exponent);
    WorthIsValue(p.whole);
    PartsAreText(p);
    assert ExponentOf(p.exponent) == None <==> p.exponent == [] by { NoExponent(p.exponent); }
  }

  lemma NoExponent(t: Bytes)
    ensures ExponentOf(t) == None <==> t == []
  {
  }

  lemma PartsAreText(p: NumberParts)
    requires PartsOk(p)
    ensures NumberText(NumberOf(p)) == PartsText(p)
  {
    hide IsExponentPart, ExponentOf, ExponentText, IsDigits;
    ExponentsAgree(p.exponent);
    assert FractionText(NumberOf(p).fraction) == p.fraction by {
      if p.fraction != [] {
        assert (p.fraction[0] as char) as int == p.fraction[0];
      }
    }
    assert SignText(NumberOf(p).negative) == p.sign by {
      if p.sign != [] {
        assert (p.sign[0] as char) as int == p.sign[0];
      }
    }
  }

  lemma NumberIsParts(n: Number)
    requires NumberOk(n)
    ensures PartsOk(PartsOf(n)) && NumberOf(PartsOf(n)) == n
  {
    var p := PartsOf(n);
    DigitsAgree(n.digits);
    assert (n.digits[0] as char) as int == n.digits[0];
    if n.fraction.Some? {
      DigitsAgree(n.fraction.value);
      assert p.fraction[1..] == n.fraction.value;
    }
    ExponentIsPart(n.exponent);
  }

  lemma ExponentIsPart(e: Option<Exponent>)
    requires e.Some? ==>
               && IsMark(e.value.mark) && (e.value.sign.Some? ==> IsSign(e.value.sign.value))
               && e.value.digits != [] && AllDigits(e.value.digits)
    ensures IsExponentPart(ExponentText(e)) && ExponentOf(ExponentText(e)) == e
  {
    var t := ExponentText(e);
    if e.Some? {
      if e.value.sign.Some? {
        assert t[2..] == e.value.digits;
      } else {
        assert t[1..] == e.value.digits && t[1] == e.value.digits[0];
      }
      ExponentsAgree(t);
    }
  }

  /** Json::parse gives a number exactly for the numbers between blanks. */
  lemma ParsesNumbers(c: Library, s: Bytes, v: Json)
    requires v.Int? || v.Dbl?
    ensures Parse(c, STANDARD, s) == Ok(v, |s|) <==>
            exists before, p, after :: PartsOk(p) && PartsValue(c, p) == v && Surrounded(s, before, PartsText(p), after)
  {
    hide Parse, PartsOk, PartsValue, PartsText, Blank, AllWhitespace, Height, NumberOf, PartsOf, NumberText, NumberOk,
         NumberValue;
    if Parse(c, STANDARD, s) == Ok(v, |s|) {
      var before, tree, after := AcceptsOnlyTexts(c, s);
      assert tree.NumberTree? by { OnlyNumbersAreNumbers(c, tree); }
      NumberIsParts(tree.number);
      PartsAreNumber(c, PartsOf(tree.number));
      BlankIsWhitespace(before);
      BlankIsWhitespace(after);
      assert Surrounded(s, before, PartsText(PartsOf(tree.number)), after);
    }
    if before, p, after :|
      PartsOk(p) && PartsValue(c, p) == v && Surrounded(s, before, PartsText(p), after) {
      PartsAreNumber(c, p);
      BlankIsWhitespace(before);
      BlankIsWhitespace(after);
      FlatParses(c, s, before, NumberTree(NumberOf(p)), after);
    }
  }

  lemma OnlyNumbersAreNumbers(c: Library, t: Tree)
    requires TreeOk(t) && (Value(c, t).Int? || Value(c, t).Dbl?)
    ensures t.NumberTree?
  {
  }

  lemma FlatParses(c: Library, s: Bytes, before: Bytes, t: Tree, after: Bytes)
    requires IsTextOf(s, before, t, after) && !t.ArrayTree? && !t.ObjectTree?
    ensures Parse(c, STANDARD, s) == Ok(Value(c, t), |s|)
  {
    hide Parse, IsTextOf, Value;
    assert TreeOk(t) by { TextIsOk(s, before, t, after); }
    ParsesTexts(c, s, before, t, after);
  }

  lemma TextIsOk(s: Bytes, before: Bytes, t: Tree, after: Bytes)
    requires IsTextOf(s, before, t, after)
    ensures TreeOk(t)
  {
  }

  /** The word for null or a truth value. */
  function Word(v: Json): string
    requires v.Null? || v.Bool?
  {
    match v
    case Bool(b) => if b then "true" else "false"
    case _ => "null"
  }

  lemma WordText(t: Tree)
    requires t.NullTree? || t.TrueTree? || t.FalseTree?
    ensures Text(t) == Ascii(if t.NullTree? then "null" else if t.TrueTree? then "true" else "false")
  {
    assert Ascii("null") == [0x6E, 0x75, 0x6C, 0x6C];
    assert Ascii("true") == [0x74, 0x72, 0x75, 0x65];
    assert Ascii("false") == [0x66, 0x61, 0x6C, 0x73, 0x65];
  }

  /** Json::parse gives null, true and false exactly for these words between blanks. */
  lemma ParsesWords(c: Library, s: Bytes, v: Json)
    requires v.Null? || v.Bool?
    ensures Parse(c, STANDARD, s) == Ok(v, |s|) <==>
            exists before, after :: Surrounded(s, before, Ascii(Word(v)), after)
  {
    hide Parse, Blank, AllWhitespace, Height, Ascii, Text;
    var t := match v case Bool(b) => if b then TrueTree else FalseTree case _ => NullTree;
    WordText(t);
    if Parse(c, STANDARD, s) == Ok(v, |s|) {
      var before, tree, after := AcceptsOnlyTexts(c, s);
      assert tree == t by { OnlyWordsAreWords(c, tree); }
      BlankIsWhitespace(before);
      BlankIsWhitespace(after);
      assert Surrounded(s, before, Ascii(Word(v)), after);
    }
    if before, after :| Surrounded(s, before, Ascii(Word(v)), after) {
      BlankIsWhitespace(before);
      BlankIsWhitespace(after);
      FlatParses(c, s, before, t, after);
    }
  }

  lemma OnlyWordsAreWords(c: Library, t: Tree)
    requires TreeOk(t) && (Value(c, t).Null? || Value(c, t).Bool?)
    ensures t == match Value(c, t) case Bool(b) => (if b then TrueTree else FalseTree) case _ => NullTree
  {
  }
}
