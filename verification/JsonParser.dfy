/**
  json11's parser object: a cursor over the input, a failure flag that sticks, and the first error.
  Every method is proved to do what the functions of JsonParse.dfy say.
 */
module JsonParser {
  import opened JsonValue
  import opened Wrappers
  import opened JsonGrammar
  import opened JsonParse

  // ---------- the one-slot buffer for an escaped code point ----------

  ghost function Pending(last: int): seq<Unit> {
    if last < 0 then [] else [Escaped(last)]
  }

  lemma PlainUnit(last: int, b: byte, rest: seq<Unit>)
    requires last < 0x10000 && UnitsOk(rest)
    ensures UnitsOk(Pending(last) + ([Plain(b)] + rest))
    ensures Decode(Pending(last) + ([Plain(b)] + rest)) == EncodeUtf8(last) + [b] + Decode(rest)
  {
    var tail := [Plain(b)] + rest;
    assert tail[1..] == rest;
    if last >= 0 {
      assert (Pending(last) + tail)[1..] == tail;
    } else {
      assert Pending(last) + tail == tail;
    }
  }

  lemma EscapedUnit(last: int, u: nat, rest: seq<Unit>)
    requires last < 0x10000 && u < 0x10000 && UnitsOk(rest)
    ensures UnitsOk(Pending(last) + ([Escaped(u)] + rest)) && UnitsOk(Pending(u) + rest)
    ensures Decode(Pending(last) + ([Escaped(u)] + rest)) ==
            if IsHigh(last) && IsLow(u) then EncodeUtf8(Combine(last, u)) + Decode(rest)
            else EncodeUtf8(last) + Decode(Pending(u) + rest)
  {
    var tail := [Escaped(u)] + rest;
    assert tail == Pending(u) + rest;
    if last >= 0 {
      var all := Pending(last) + tail;
      assert all[1..] == tail && all[2..] == rest;
    } else {
      assert Pending(last) + tail == tail;
    }
  }

  lemma LastUnit(last: int)
    requires last < 0x10000
    ensures UnitsOk(Pending(last)) && Decode(Pending(last)) == EncodeUtf8(last)
  {
  }

  /** The units of a string up to its closing quote. */
  ghost function LexUnits(s: Bytes, i: nat): (r: Result<seq<Unit>>)
    requires i <= |s|
    ensures r.Ok? ==> UnitsOk(r.value)
    ensures ParseString(s, i) == match r case Err(e) => Err(e) case Ok(us, j) => Ok(Decode(us), j)
  {
    match LexString(s, i)
    case Err(e) => Err(e)
    case Ok(xs, j) => LexedItemsOk(s, i); ItemsGiveUnits(xs); Ok(UnitsOf(xs), j)
  }

  lemma LexUnitsStep(s: Bytes, i: nat, x: Item, next: nat)
    requires i <= |s| && next <= |s| && LexString(s, i) == LexMore(x, s, next)
    ensures LexUnits(s, i) == match LexUnits(s, next) case Err(e) => Err(e) case Ok(us, j) => Ok([UnitOf(x)] + us, j)
  {
  }

  /**
    The string that starts at `start` decodes to what has been output, followed by what the pending
    code point and the items from `i` on decode to.
   */
  ghost predicate StringProgress(s: Bytes, start: nat, i: nat, last: int, out: Bytes)
    requires start <= |s| && i <= |s| && last < 0x10000
  {
    ParseString(s, start) ==
    match LexUnits(s, i) case Err(e) => Err(e) case Ok(us, j) => Ok(out + Decode(Pending(last) + us), j)
  }

  lemma StringStarts(s: Bytes, i: nat)
    requires i <= |s|
    ensures StringProgress(s, i, i, -1, [])
  {
    if LexUnits(s, i).Ok? {
      var us := LexUnits(s, i).value;
      assert Pending(-1) + us == us;
      assert [] + Decode(us) == Decode(us);
    }
  }

  lemma Regroup(a: Bytes, b: Bytes, c: Bytes)
    ensures a + (b + c) == a + b + c
  {
  }

  /** After an item that stands for one byte the buffer is flushed and the byte appended. */
  lemma StringPlainStep(s: Bytes, start: nat, i: nat, last: int, out: Bytes, x: Item, next: nat)
    requires start <= |s| && i < next <= |s| && last < 0x10000 && StringProgress(s, start, i, last, out)
    requires LexString(s, i) == LexMore(x, s, next) && UnitOf(x).Plain?
    ensures StringProgress(s, start, next, -1, out + EncodeUtf8(last) + [UnitOf(x).b])
  {
    hide ParseString, LexUnits, LexMore, EncodeUtf8, UnitOf;
    LexUnitsStep(s, i, x, next);
    if LexUnits(s, next).Ok? {
      var us := LexUnits(s, next).value;
      PlainUnit(last, UnitOf(x).b, us);
      assert Pending(-1) + us == us;
      Regroup(out, EncodeUtf8(last) + [UnitOf(x).b], Decode(us));
      Regroup(out, EncodeUtf8(last), [UnitOf(x).b]);
    }
  }

  /** An escaped unit completes a pair with the buffered one, or flushes it and takes its place. */
  lemma StringEscapedStep(s: Bytes, start: nat, i: nat, last: int, out: Bytes, x: Item, next: nat)
    requires start <= |s| && i < next <= |s| && last < 0x10000 && StringProgress(s, start, i, last, out)
    requires LexString(s, i) == LexMore(x, s, next) && UnitOf(x).Escaped? && UnitOf(x).u < 0x10000
    ensures var u := UnitOf(x).u;
            if IsHigh(last) && IsLow(u) then StringProgress(s, start, next, -1, out + EncodeUtf8(Combine(last, u)))
            else StringProgress(s, start, next, u, out + EncodeUtf8(last))
  {
    hide ParseString, LexUnits, LexMore, EncodeUtf8, UnitOf, Decode;
    LexUnitsStep(s, i, x, next);
    if LexUnits(s, next).Ok? {
      var us := LexUnits(s, next).value;
      var u := UnitOf(x).u;
      EscapedUnit(last, u, us);
      if IsHigh(last) && IsLow(u) {
        assert Pending(-1) + us == us;
        Regroup(out, EncodeUtf8(Combine(last, u)), Decode(us));
      } else {
        Regroup(out, EncodeUtf8(last), Decode(Pending(u) + us));
      }
    }
  }

  lemma StringEnds(s: Bytes, start: nat, i: nat, last: int, out: Bytes)
    requires start <= |s| && i < |s| && last < 0x10000 && StringProgress(s, start, i, last, out)
    requires s[i] == QUOTE
    ensures ParseString(s, start) == Ok(out + EncodeUtf8(last), i + 1)
  {
    LastUnit(last);
    assert LexUnits(s, i) == Ok([], i + 1);
    assert Pending(last) + [] == Pending(last);
  }

  lemma StringFails(s: Bytes, start: nat, i: nat, last: int, out: Bytes)
    requires start <= |s| && i <= |s| && last < 0x10000 && StringProgress(s, start, i, last, out)
    requires LexString(s, i).Err?
    ensures ParseString(s, start) == Err(LexString(s, i).error)
  {
  }

  /** The C library's atoi, on an optional sign and digits. */
  function Atoi(t: Bytes): int {
    if t != [] && t[0] == 0x2D then -DigitsValue(t[1..]) else DigitsValue(t)
  }

  /** What becomes of a number whose parts end at these positions. */
  lemma NumberRead(c: Library, s: Bytes, i: nat, integer: nat, fraction: nat, exponent: nat, end: nat)
    requires i <= integer <= fraction <= exponent <= end <= |s|
    requires integer == if Char(s, i) == 0x2D then i + 1 else i
    requires LexInteger(s, integer) == Ok(s[integer..fraction], fraction)
    requires LexFraction(s, fraction).Ok? && LexFraction(s, fraction).next == exponent
    requires LexExponent(s, exponent).Ok? && LexExponent(s, exponent).next == end
    ensures ParseNumber(c, s, i) ==
            Ok(if fraction == end && end - i <= INT_DIGITS then Int(Atoi(s[i..end])) else Dbl(c.strtod(s[i..end])), end)
  {
    hide LexInteger, LexFraction, LexExponent;
    var n := LexNumber(s, i).value;
    LexNumberText(s, i);
    assert |FractionText(n.fraction)| == exponent - fraction && |ExponentText(n.exponent)| == end - exponent;
    assert n.fraction.None? <==> exponent == fraction;
    assert n.exponent.None? <==> end == exponent;
    assert s[integer..fraction] == n.digits;
    if n.negative {
      assert s[i..fraction] == [0x2D] + n.digits;
    } else {
      assert n.digits != [] && n.digits[0] != 0x2D by {
        LexNumberOk(s, i);
      }
    }
  }

  lemma NoMoreParts(s: Bytes, i: nat)
    requires i <= |s| && Char(s, i) != 0x2E && !IsMark(Char(s, i))
    ensures LexFraction(s, i) == Ok(None, i) && LexExponent(s, i) == Ok(None, i)
  {
  }

  lemma SomeMorePart(s: Bytes, fraction: nat, exponent: nat)
    requires fraction <= |s| && LexFraction(s, fraction).Ok? && LexFraction(s, fraction).next == exponent
    requires LexExponent(s, exponent).Ok?
    ensures Char(s, fraction) == 0x2E || IsMark(Char(s, fraction)) ==> LexExponent(s, exponent).next > fraction
  {
  }

  /** The outcome of a list or an object of which `data` has been read already. */
  ghost function ListOf(data: seq<Json>, rest: Result<seq<Json>>): Result<Json> {
    match rest case Err(e) => Err(e) case Ok(items, next) => Ok(Arr(data + items), next)
  }

  ghost function ObjectOf(rest: Result<Fields>): Result<Json> {
    match rest case Err(e) => Err(e) case Ok(fields, next) => Ok(Obj(fields), next)
  }

  /** A list begins: nothing has been read yet. */
  lemma ListBegins(rest: Result<seq<Json>>)
    ensures ListOf([], rest) == match rest case Err(e) => Err(e) case Ok(items, next) => Ok(Arr(items), next)
  {
    if rest.Ok? {
      assert [] + rest.value == rest.value;
    }
  }

  /** One round of the loop over a list. */
  lemma ListStep(c: Library, mode: Mode, s: Bytes, i: nat, depth: nat, data: seq<Json>)
    requires i <= |s|
    ensures var all := ListOf(data, ParseElements(c, mode, s, i, depth));
            match ParseValue(c, mode, s, i, depth + 1)
            case Err(e) => all == Err(e)
            case Ok(v, j) =>
              match NextToken(mode, s, j)
              case Err(e) => all == Err(e)
              case Ok(ch, k) =>
                if ch == 0x5D then all == Ok(Arr(data + [v]), k)
                else if ch != 0x2C then all == Err(ExpectedCommaInList(ch))
                else match NextToken(mode, s, k)
                     case Err(e) => all == Err(e)
                     case Ok(_, m) => all == ListOf(data + [v], ParseElements(c, mode, s, m - 1, depth))
  {
    hide ParseValue, NextToken, JsonParse.ParseArray;
    if ParseElements(c, mode, s, i, depth).Ok? {
      var items := ParseElements(c, mode, s, i, depth).value;
      assert data + items == data + [items[0]] + items[1..];
    }
  }

  // ---------- the parser object ----------

  class JsonParser {
    const str: Bytes
    const strategy: Mode
    const library: Library
    var i: nat
    var failed: bool
    var err: Option<Error>

    constructor (str: Bytes, strategy: Mode, library: Library)
      ensures this.str == str && this.strategy == strategy && this.library == library
      ensures i == 0 && !failed && err == None
    {
      this.str := str;
      this.strategy := strategy;
      this.library := library;
      i := 0;
      failed := false;
      err := None;
    }

    ghost predicate Valid()
      reads this
    {
      i <= |str| && (failed <==> err.Some?)
    }

    /**
      The object is where `spec` says, with `spec`'s value returned or its error recorded; unless it
      had failed before, in which case the earlier error stands.
     */
    ghost predicate Outcome<T>(spec: Result<T>, wasFailed: bool, wasErr: Option<Error>, v: T)
      reads this
    {
      if wasFailed then failed && err == wasErr
      else match spec
           case Ok(value, next) => !failed && err == wasErr && v == value && i == next
           case Err(e) => failed && err == Some(e)
    }

    method Fail(e: Error)
      requires Valid()
      modifies this`failed, this`err
      ensures Valid() && failed && err == if old(failed) then old(err) else Some(e)
    {
      if !failed {
        err := Some(e);
      }
      failed := true;
    }

    method ConsumeWhitespace()
      requires Valid()
      modifies this`i
      ensures Valid() && i == SkipWhitespace(str, old(i))
    {
      while IsWhitespace(Char(str, i))
        invariant i <= |str| && SkipWhitespace(str, i) == SkipWhitespace(str, old(i))
        decreases |str| - i
      {
        i := i + 1;
      }
    }

    /** Advances past the closing of a multi-line comment. */
    method ConsumeBlock() returns (found: bool)
      requires Valid()
      modifies this
      ensures Valid() && i >= old(i) && (old(failed) ==> failed)
      ensures found ==> i > old(i)
      ensures Outcome(BlockEnd(str, old(i)), old(failed), old(err), found)
    {
      if i + 2 > |str| {
        Fail(EndInComment);
        return false;
      }
      while !(str[i] == 0x2A && str[i + 1] == 0x2F)
        invariant old(i) <= i && i + 2 <= |str| && BlockEnd(str, i) == BlockEnd(str, old(i))
        invariant failed == old(failed) && err == old(err)
        decreases |str| - i
      {
        i := i + 1;
        if i + 2 > |str| {
          Fail(EndInComment);
          return false;
        }
      }
      i := i + 2;
      return true;
    }

    method ConsumeComment() returns (found: bool)
      requires Valid()
      modifies this
      ensures Valid() && i >= old(i) && (old(failed) ==> failed)
      ensures found ==> i > old(i)
      ensures Outcome(SkipComment(str, old(i)), old(failed), old(err), found)
    {
      found := false;
      if Char(str, i) == 0x2F {
        i := i + 1;
        if i == |str| {
          Fail(EndAfterCommentStart);
          return false;
        }
        if str[i] == 0x2F {
          i := i + 1;
          while i < |str| && str[i] != 0x0A
            invariant old(i) + 2 <= i <= |str| && LineEnd(str, i) == LineEnd(str, old(i) + 2)
            invariant failed == old(failed) && err == old(err)
          {
            i := i + 1;
          }
          found := true;
        } else if str[i] == 0x2A {
          i := i + 1;
          found := ConsumeBlock();
        } else {
          Fail(MalformedComment);
          return false;
        }
      }
    }

    method ConsumeGarbage()
      requires Valid()
      modifies this
      ensures Valid() && i >= old(i) && (old(failed) ==> failed)
      ensures Outcome(SkipGarbage(strategy, str, old(i)), old(failed), old(err), ())
    {
      ConsumeWhitespace();
      if strategy == COMMENTS {
        ghost var start := i;
        var found := true;
        while found
          invariant Valid() && i >= start && err == old(err)
          invariant failed == old(failed)
          invariant found ==> SkipComments(str, i) == SkipComments(str, start)
          invariant !found ==> SkipComments(str, start) == Ok((), i)
          decreases |str| - i, found
        {
          found := ConsumeComment();
          if failed {
            return;
          }
          ConsumeWhitespace();
        }
      }
    }

    /** The next token; 0 if there is none. */
    method GetNextToken() returns (ch: byte)
      requires Valid()
      modifies this
      ensures Valid() && i >= old(i) && (old(failed) ==> failed)
      ensures failed ==> ch == 0
      ensures Outcome(NextToken(strategy, str, old(i)), old(failed), old(err), ch)
    {
      ConsumeGarbage();
      if failed {
        return 0;
      }
      if i == |str| {
        Fail(UnexpectedEnd);
        return 0;
      }
      i := i + 1;
      return str[i - 1];
    }

    /** Reads the four hexadecimal digits of an escape. */
    method ReadHex() returns (x: Option<Item>)
      requires Valid()
      modifies this
      ensures Valid() && i >= old(i)
      ensures x.Some? ==> i == old(i) + 4 && failed == old(failed) && err == old(err)
      ensures x.Some? <==> IsHexAt(str, old(i))
      ensures x.Some? ==> x.value == Hex(str[old(i)], str[old(i) + 1], str[old(i) + 2], str[old(i) + 3])
      ensures x.None? ==> failed && err == if old(failed) then old(err) else Some(BadEscape)
    {
      if i + 4 > |str| {
        Fail(BadEscape);
        return None;
      }
      var h0, h1, h2, h3 := str[i], str[i + 1], str[i + 2], str[i + 3];
      if !(IsHexDigit(h0) && IsHexDigit(h1) && IsHexDigit(h2) && IsHexDigit(h3)) {
        Fail(BadEscape);
        return None;
      }
      i := i + 4;
      return Some(Hex(h0, h1, h2, h3));
    }

    /** Reads a string whose opening quote has been read. */
    method ParseStringLiteral() returns (out: Bytes)
      requires Valid()
      modifies this
      ensures Valid() && i >= old(i) && (old(failed) ==> failed)
      ensures Outcome(ParseString(str, old(i)), old(failed), old(err), out)
      ensures failed && !old(failed) ==> out == []
    {
      hide StringProgress, ParseString, EncodeUtf8;
      ghost var start := i;
      var last: int := -1;
      out := [];
      StringStarts(str, i);
      while true
        invariant start <= i <= |str| && last < 0x10000
        invariant failed == old(failed) && err == old(err)
        invariant StringProgress(str, start, i, last, out)
        decreases |str| - i
      {
        ghost var at, was, before := i, last, out;
        if i == |str| {
          StringFails(str, start, at, was, before);
          Fail(EndInString);
          return [];
        }
        var ch := str[i];
        i := i + 1;
        if ch == QUOTE {
          StringEnds(str, start, at, last, out);
          out := out + EncodeUtf8(last);
          return;
        }
        if ch <= 0x1F {
          StringFails(str, start, at, was, before);
          Fail(UnescapedControl(ch));
          return [];
        }
        if ch != BACKSLASH {
          out := out + EncodeUtf8(last);
          last := -1;
          out := out + [ch];
          StringPlainStep(str, start, at, was, before, Raw(ch), i);
          continue;
        }
        if i == |str| {
          StringFails(str, start, at, was, before);
          Fail(EndInString);
          return [];
        }
        ch := str[i];
        i := i + 1;
        if ch == 0x75 {
          var x := ReadHex();
          if x.None? {
            StringFails(str, start, at, was, before);
            return [];
          }
          var codepoint := UnitOf(x.value).u;
          StringEscapedStep(str, start, at, was, before, x.value, i);
          if IsHigh(last) && IsLow(codepoint) {
            out := out + EncodeUtf8(Combine(last, codepoint));
            last := -1;
          } else {
            out := out + EncodeUtf8(last);
            last := codepoint;
          }
          continue;
        }
        out := out + EncodeUtf8(last);
        last := -1;
        if Unescaped(ch).Some? {
          StringPlainStep(str, start, at, was, before, Short(ch), i);
          out := out + [Unescaped(ch).value];
        } else {
          StringFails(str, start, at, was, before);
          Fail(InvalidEscape(ch));
          return [];
        }
      }
    }

    /** Reads the digits from the cursor on. */
    method ConsumeDigits()
      requires Valid()
      modifies this`i
      ensures Valid() && i == DigitsEnd(str, old(i))
    {
      while IsDigit(Char(str, i))
        invariant i <= |str| && DigitsEnd(str, i) == DigitsEnd(str, old(i))
        decreases |str| - i
      {
        i := i + 1;
      }
    }

    // The three parts of a number; each says where it ends, or why it is malformed.

    method ConsumeInteger()
      requires Valid() && !failed
      modifies this
      ensures Valid() && i >= old(i)
      ensures Outcome(LexInteger(str, old(i)), false, old(err), str[old(i)..i])
    {
      if Char(str, i) == 0x30 {
        i := i + 1;
        if IsDigit(Char(str, i)) {
          Fail(LeadingZero);
        }
      } else if IsDigit(Char(str, i)) {
        i := i + 1;
        ConsumeDigits();
      } else {
        Fail(InvalidNumber(Char(str, i)));
      }
    }

    method ConsumeFraction()
      requires Valid() && !failed
      modifies this
      ensures Valid() && i >= old(i)
      ensures match LexFraction(str, old(i))
              case Ok(_, next) => !failed && err == old(err) && i == next
              case Err(e) => failed && err == Some(e)
    {
      if Char(str, i) == 0x2E {
        i := i + 1;
        if !IsDigit(Char(str, i)) {
          Fail(NoFractionDigits);
          return;
        }
        ConsumeDigits();
      }
    }

    method ConsumeExponent()
      requires Valid() && !failed
      modifies this
      ensures Valid() && i >= old(i)
      ensures match LexExponent(str, old(i))
              case Ok(_, next) => !failed && err == old(err) && i == next
              case Err(e) => failed && err == Some(e)
    {
      if IsMark(Char(str, i)) {
        i := i + 1;
        if IsSign(Char(str, i)) {
          i := i + 1;
        }
        if !IsDigit(Char(str, i)) {
          Fail(NoExponentDigits);
          return;
        }
        ConsumeDigits();
      }
    }

    method ParseNumberLiteral() returns (v: Json)
      requires Valid() && !failed
      modifies this
      ensures Valid() && i >= old(i)
      ensures Outcome(ParseNumber(library, str, old(i)), false, old(err), v) && (failed ==> v == Null)
    {
      hide LexInteger, LexFraction, LexExponent, NumberValue;
      var startPos := i;
      if Char(str, i) == 0x2D {
        i := i + 1;
      }
      ghost var integer := i;
      ConsumeInteger();
      if failed {
        return Null;
      }
      ghost var fraction := i;
      if Char(str, i) != 0x2E && !IsMark(Char(str, i)) && i - startPos <= INT_DIGITS {
        NoMoreParts(str, i);
        NumberRead(library, str, startPos, integer, fraction, fraction, fraction);
        return Int(Atoi(str[startPos..i]));
      }
      ConsumeFraction();
      if failed {
        return Null;
      }
      ghost var exponent := i;
      ConsumeExponent();
      if failed {
        return Null;
      }
      SomeMorePart(str, fraction, exponent);
      NumberRead(library, str, startPos, integer, fraction, exponent, i);
      return Dbl(library.strtod(str[startPos..i]));
    }

    /** Expects a literal whose first byte has just been read. */
    method ExpectLiteral(expected: Bytes, res: Json) returns (v: Json)
      requires Valid() && i > 0
      modifies this
      ensures Valid() && i + 1 >= old(i) && (old(failed) ==> failed)
      ensures Outcome(Expect(str, old(i) - 1, expected, res), old(failed), old(err), v)
      ensures failed && !old(failed) ==> v == Null
    {
      i := i - 1;
      if Matches(str, i, expected) {
        i := i + |expected|;
        return res;
      } else {
        Fail(ExpectedLiteral(expected));
        return Null;
      }
    }

    /** Reads a value. On failure null is returned, or an empty string if a string was being read. */
    method ParseJson(depth: nat) returns (v: Json)
      requires Valid() && depth <= MAX_DEPTH + 1
      modifies this
      ensures Valid() && i >= old(i) && (old(failed) ==> failed)
      ensures Outcome(ParseValue(library, strategy, str, old(i), depth), old(failed), old(err), v)
      ensures failed ==> v == if old(failed) then Null else FailedValue(strategy, str, old(i), depth)
      decreases MAX_DEPTH + 1 - depth
    {
      hide NextToken, ParseNumber, Expect, ParseString, JsonParse.ParseObject, JsonParse.ParseArray;
      if depth > MAX_DEPTH {
        Fail(TooDeep);
        return Null;
      }
      var ch := GetNextToken();
      if failed {
        return Null;
      }
      ghost var spec := ParseToken(library, strategy, str, i, ch, depth);
      assert ParseValue(library, strategy, str, old(i), depth) == spec;
      if ch == 0x2D || IsDigit(ch) {
        i := i - 1;
        v := ParseNumberLiteral();
        return;
      }
      if ch == 0x74 {
        v := ExpectLiteral(TRUE_TEXT, Bool(true));
        return;
      }
      if ch == 0x66 {
        v := ExpectLiteral(FALSE_TEXT, Bool(false));
        return;
      }
      if ch == 0x6E {
        v := ExpectLiteral(NULL_TEXT, Null);
        return;
      }
      if ch == QUOTE {
        var out := ParseStringLiteral();
        return Str(out);
      }
      if ch == 0x7B {
        v := ParseObjectBody(depth);
        return;
      }
      if ch == 0x5B {
        v := ParseArrayBody(depth);
        return;
      }
      Fail(ExpectedValue(ch));
      return Null;
    }

    method ParseObjectBody(depth: nat) returns (v: Json)
      requires Valid() && depth <= MAX_DEPTH && i > 0 && !failed
      modifies this
      ensures Valid() && i >= old(i)
      ensures Outcome(JsonParse.ParseObject(library, strategy, str, old(i), depth), false, old(err), v)
      ensures failed ==> v == Null
      decreases MAX_DEPTH + 1 - depth, 0
    {
      hide ParseValue, JsonParse.ParseArray, ParseElements, NextToken, ParseString;
      var data: Fields := [];
      var ch := GetNextToken();
      if ch == 0x7D {
        return Obj(data);
      }
      while true
        invariant Valid() && i >= old(i) && (failed ==> ch == 0)
        invariant if failed then JsonParse.ParseObject(library, strategy, str, old(i), depth) == Err(err.value)
                  else err == old(err) && JsonParse.ParseObject(library, strategy, str, old(i), depth) ==
                         ObjectOf(ParseMembers(library, strategy, str, i, ch, depth, data))
        decreases |str| - i
      {
        if ch != QUOTE {
          Fail(ExpectedQuote(ch));
          return Null;
        }
        var key := ParseStringLiteral();
        if failed {
          return Null;
        }
        ch := GetNextToken();
        if ch != 0x3A {
          Fail(ExpectedColon(ch));
          return Null;
        }
        var item := ParseJson(depth + 1);
        data := Put(data, key, item);
        if failed {
          return Null;
        }
        ch := GetNextToken();
        if ch == 0x7D {
          break;
        }
        if ch != 0x2C {
          Fail(ExpectedCommaInObject(ch));
          return Null;
        }
        ch := GetNextToken();
      }
      return Obj(data);
    }

    /** The part of `parse_json` after an opening bracket. */
    method ParseArrayBody(depth: nat) returns (v: Json)
      requires Valid() && depth <= MAX_DEPTH && i > 0 && !failed
      modifies this
      ensures Valid() && i + 1 >= old(i)
      ensures Outcome(JsonParse.ParseArray(library, strategy, str, old(i), depth), false, old(err), v)
      ensures failed ==> v == Null
      decreases MAX_DEPTH + 1 - depth, 0
    {
      hide ParseValue, ParseElements, NextToken, ListOf;
      var data: seq<Json> := [];
      var ch := GetNextToken();
      if !failed {
        ListBegins(ParseElements(library, strategy, str, i - 1, depth));
      }
      if ch == 0x5D {
        return Arr(data);
      }
      while true
        invariant Valid() && i >= old(i) && i > 0
        invariant if failed then JsonParse.ParseArray(library, strategy, str, old(i), depth) == Err(err.value)
                  else err == old(err) && JsonParse.ParseArray(library, strategy, str, old(i), depth) ==
                         ListOf(data, ParseElements(library, strategy, str, i - 1, depth))
        decreases if failed then 0 else 1, |str| - i
      {
        i := i - 1;
        ListStep(library, strategy, str, i, depth, data);
        var item := ParseJson(depth + 1);
        data := data + [item];
        if failed {
          return Null;
        }
        ch := GetNextToken();
        if ch == 0x5D {
          break;
        }
        if ch != 0x2C {
          Fail(ExpectedCommaInList(ch));
          return Null;
        }
        ch := GetNextToken();
      }
      return Arr(data);
    }
  }

  /** Json::parse */
  method Parse(input: Bytes, strategy: Mode, library: Library) returns (result: Json, err: Option<Error>)
    ensures match JsonParse.Parse(library, strategy, input)
            case Ok(v, _) => result == v && err == None
            case Err(e) => result == Null && err == Some(e)
  {
    var parser := new JsonParser(input, strategy, library);
    var v := parser.ParseJson(0);
    parser.ConsumeGarbage();
    if parser.failed {
      return Null, parser.err;
    }
    if parser.i != |input| {
      parser.Fail(Trailing(input[parser.i]));
      return Null, parser.err;
    }
    return v, parser.err;
  }

  /** Json::parse_multi */
  method ParseMulti(input: Bytes, strategy: Mode, library: Library)
    returns (values: seq<Json>, stopPos: nat, err: Option<Error>)
    ensures Multi(values, stopPos, err) == MultiFrom(library, strategy, input, 0, [], 0)
  {
    var parser := new JsonParser(input, strategy, library);
    stopPos := 0;
    values := [];
    while parser.i != |input| && !parser.failed
      invariant parser.Valid() && !parser.failed && parser.str == input
      invariant parser.strategy == strategy && parser.library == library
      invariant MultiFrom(library, strategy, input, parser.i, values, stopPos) ==
                MultiFrom(library, strategy, input, 0, [], 0)
      decreases |input| - parser.i
    {
      var v := parser.ParseJson(0);
      values := values + [v];
      if parser.failed {
        break;
      }
      parser.ConsumeGarbage();
      if parser.failed {
        break;
      }
      stopPos := parser.i;
    }
    err := parser.err;
  }
}
