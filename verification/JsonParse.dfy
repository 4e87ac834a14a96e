/**
  What json11's parser computes, as functions of the input and the position: the value and the next
  position, or the first error. The parser object in JsonParser.dfy is proved to compute the same.
 */
module JsonParse {
  import opened JsonValue
  import opened Wrappers
  import opened JsonGrammar

  datatype Mode = STANDARD | COMMENTS

  datatype Error =
    | UnexpectedEnd
    | EndAfterCommentStart
    | EndInComment
    | MalformedComment
    | EndInString
    | UnescapedControl(b: byte)
    | BadEscape
    | InvalidEscape(b: byte)
    | LeadingZero
    | InvalidNumber(b: byte)
    | NoFractionDigits
    | NoExponentDigits
    | ExpectedLiteral(literal: Bytes)
    | TooDeep
    | ExpectedQuote(b: byte)
    | ExpectedColon(b: byte)
    | ExpectedCommaInObject(b: byte)
    | ExpectedCommaInList(b: byte)
    | ExpectedValue(b: byte)
    | Trailing(b: byte)

  datatype Result<+T> = Ok(value: T, next: nat) | Err(error: Error) {
    predicate IsFailure() {
      Err?
    }

    function PropagateFailure<U>(): Result<U>
      requires Err?
    {
      Err(error)
    }

    function Extract(): (T, nat)
      requires Ok?
    {
      (value, next)
    }
  }

  const MAX_DEPTH := 200

  // ---------- between tokens ----------

  function SkipWhitespace(s: Bytes, i: nat): (j: nat)
    requires i <= |s|
    ensures i <= j <= |s|
    decreases |s| - i
  {
    if i < |s| && IsWhitespace(s[i]) then SkipWhitespace(s, i + 1) else i
  }

  function LineEnd(s: Bytes, i: nat): (j: nat)
    requires i <= |s|
    ensures i <= j <= |s|
    decreases |s| - i
  {
    if i < |s| && s[i] != 0x0A then LineEnd(s, i + 1) else i
  }

  /** The position after the next closing of a block comment. */
  function BlockEnd(s: Bytes, i: nat): (r: Result<bool>)
    requires i <= |s|
    ensures r.Ok? ==> r.value && i + 2 <= r.next <= |s|
    decreases |s| - i
  {
    if i + 2 > |s| then Err(EndInComment)
    else if s[i] == 0x2A && s[i + 1] == 0x2F then Ok(true, i + 2)
    else BlockEnd(s, i + 1)
  }

  /** Skips one comment, and says whether there was one. */
  function SkipComment(s: Bytes, i: nat): (r: Result<bool>)
    requires i <= |s|
    ensures r.Ok? ==> i <= r.next <= |s| && (r.value ==> i < r.next) && (!r.value ==> r.next == i)
  {
    if Char(s, i) != 0x2F then Ok(false, i)
    else if i + 1 == |s| then Err(EndAfterCommentStart)
    else if s[i + 1] == 0x2F then Ok(true, LineEnd(s, i + 2))
    else if s[i + 1] == 0x2A then BlockEnd(s, i + 2)
    else Err(MalformedComment)
  }

  function SkipComments(s: Bytes, i: nat): (r: Result<()>)
    requires i <= |s|
    ensures r.Ok? ==> i <= r.next <= |s|
    decreases |s| - i
  {
    var (found, j) :- SkipComment(s, i);
    if found then SkipComments(s, SkipWhitespace(s, j)) else Ok((), SkipWhitespace(s, j))
  }

  function SkipGarbage(mode: Mode, s: Bytes, i: nat): (r: Result<()>)
    requires i <= |s|
    ensures r.Ok? ==> i <= r.next <= |s|
  {
    var j := SkipWhitespace(s, i);
    if mode == STANDARD then Ok((), j) else SkipComments(s, j)
  }

  function NextToken(mode: Mode, s: Bytes, i: nat): (r: Result<byte>)
    requires i <= |s|
    ensures r.Ok? ==> i < r.next <= |s| && r.value == s[r.next - 1]
  {
    var (_, j) :- SkipGarbage(mode, s, i);
    if j == |s| then Err(UnexpectedEnd) else Ok(s[j], j + 1)
  }

  // ---------- strings ----------

  predicate IsHexAt(s: Bytes, i: nat) {
    i + 4 <= |s| && IsHexDigit(s[i]) && IsHexDigit(s[i + 1]) && IsHexDigit(s[i + 2]) && IsHexDigit(s[i + 3])
  }

  /** The items of a string up to its closing quote. */
  function LexString(s: Bytes, i: nat): (r: Result<seq<Item>>)
    requires i <= |s|
    ensures r.Ok? ==> i < r.next <= |s|
    decreases |s| - i, 0
  {
    if i == |s| then Err(EndInString)
    else if s[i] == QUOTE then Ok([], i + 1)
    else if s[i] < 0x20 then Err(UnescapedControl(s[i]))
    else if s[i] != BACKSLASH then LexMore(Raw(s[i]), s, i + 1)
    else if i + 1 == |s| then Err(EndInString)
    else if s[i + 1] == 0x75 then
      if !IsHexAt(s, i + 2) then Err(BadEscape)
      else LexMore(Hex(s[i + 2], s[i + 3], s[i + 4], s[i + 5]), s, i + 6)
    else if Unescaped(s[i + 1]).None? then Err(InvalidEscape(s[i + 1]))
    else LexMore(Short(s[i + 1]), s, i + 2)
  }

  function LexMore(x: Item, s: Bytes, i: nat): (r: Result<seq<Item>>)
    requires i <= |s|
    ensures r.Ok? ==> i < r.next <= |s|
    decreases |s| - i, 1
  {
    var (xs, j) :- LexString(s, i);
    Ok([x] + xs, j)
  }

  lemma {:induction false} LexedItemsOk(s: Bytes, i: nat)
    requires i <= |s| && LexString(s, i).Ok?
    ensures ItemsOk(LexString(s, i).value)
    decreases |s| - i
  {
    if s[i] == QUOTE {
    } else if s[i] != BACKSLASH {
      LexedItemsOk(s, i + 1);
    } else if s[i + 1] == 0x75 {
      LexedItemsOk(s, i + 6);
    } else {
      LexedItemsOk(s, i + 2);
    }
  }

  function ParseString(s: Bytes, i: nat): (r: Result<Bytes>)
    requires i <= |s|
    ensures r.Ok? ==> i < r.next <= |s|
  {
    var (xs, j) :- LexString(s, i);
    LexedItemsOk(s, i);
    Ok(StringValue(xs), j)
  }

  // ---------- numbers ----------

  function DigitsEnd(s: Bytes, i: nat): (j: nat)
    requires i <= |s|
    ensures i <= j <= |s| && AllDigits(s[i..j])
    decreases |s| - i
  {
    if i < |s| && IsDigit(s[i]) then
      assert s[i..DigitsEnd(s, i + 1)] == [s[i]] + s[i + 1..DigitsEnd(s, i + 1)];
      DigitsEnd(s, i + 1)
    else i
  }

  function LexInteger(s: Bytes, i: nat): (r: Result<Bytes>)
    requires i <= |s|
    ensures r.Ok? ==> i < r.next <= |s| && r.value == s[i..r.next]
  {
    var b := Char(s, i);
    if b == 0x30 then
      if IsDigit(Char(s, i + 1)) then Err(LeadingZero) else Ok(s[i..i + 1], i + 1)
    else if IsDigit(b) then Ok(s[i..DigitsEnd(s, i + 1)], DigitsEnd(s, i + 1))
    else Err(InvalidNumber(b))
  }

  function LexDigits(s: Bytes, i: nat, e: Error): (r: Result<Bytes>)
    requires i <= |s|
    ensures r.Ok? ==> i < r.next <= |s| && r.value == s[i..r.next]
  {
    if !IsDigit(Char(s, i)) then Err(e) else Ok(s[i..DigitsEnd(s, i)], DigitsEnd(s, i))
  }

  function LexFraction(s: Bytes, i: nat): (r: Result<Option<Bytes>>)
    requires i <= |s|
    ensures r.Ok? ==> i <= r.next <= |s| && FractionText(r.value) == s[i..r.next]
  {
    if Char(s, i) != 0x2E then Ok(None, i)
    else
      var (d, j) :- LexDigits(s, i + 1, NoFractionDigits);
      assert s[i..j] == [s[i]] + s[i + 1..j];
      Ok(Some(d), j)
  }

  function LexExponent(s: Bytes, i: nat): (r: Result<Option<Exponent>>)
    requires i <= |s|
    ensures r.Ok? ==> i <= r.next <= |s| && ExponentText(r.value) == s[i..r.next]
  {
    if !IsMark(Char(s, i)) then Ok(None, i)
    else
      var b := Char(s, i + 1);
      if IsSign(b) then
        var (d, j) :- LexDigits(s, i + 2, NoExponentDigits);
        assert s[i..j] == [s[i]] + [s[i + 1]] + s[i + 2..j];
        Ok(Some(Exponent(s[i], Some(b), d)), j)
      else
        var (d, j) :- LexDigits(s, i + 1, NoExponentDigits);
        assert s[i..j] == [s[i]] + s[i + 1..j];
        Ok(Some(Exponent(s[i], None, d)), j)
  }

  function LexNumber(s: Bytes, i: nat): (r: Result<Number>)
    requires i <= |s|
    ensures r.Ok? ==> i < r.next <= |s|
  {
    var negative := Char(s, i) == 0x2D;
    var (digits, j) :- LexInteger(s, if negative then i + 1 else i);
    var (fraction, k) :- LexFraction(s, j);
    var (exponent, m) :- LexExponent(s, k);
    Ok(Number(negative, digits, fraction, exponent), m)
  }

  lemma LexIntegerOk(s: Bytes, i: nat)
    requires i <= |s| && LexInteger(s, i).Ok?
    ensures var d := LexInteger(s, i).value; d != [] && AllDigits(d) && (d[0] == 0x30 ==> |d| == 1)
  {
  }

  lemma LexExponentOk(s: Bytes, i: nat)
    requires i <= |s| && LexExponent(s, i).Ok?
    ensures var e := LexExponent(s, i).value;
            e.Some? ==>
              && IsMark(e.value.mark) && (e.value.sign.Some? ==> IsSign(e.value.sign.value))
              && e.value.digits != [] && AllDigits(e.value.digits)
  {
  }

  lemma LexFractionOk(s: Bytes, i: nat)
    requires i <= |s| && LexFraction(s, i).Ok?
    ensures var f := LexFraction(s, i).value; f.Some? ==> f.value != [] && AllDigits(f.value)
  {
  }

  /** What is read as a number covers exactly the input up to the next position ... */
  lemma LexNumberText(s: Bytes, i: nat)
    requires i <= |s| && LexNumber(s, i).Ok?
    ensures NumberText(LexNumber(s, i).value) == s[i..LexNumber(s, i).next]
  {
    hide LexInteger, LexFraction, LexExponent, FractionText, ExponentText;
    var i' := if Char(s, i) == 0x2D then i + 1 else i;
    var j := LexInteger(s, i').next;
    var k := LexFraction(s, j).next;
    var m := LexExponent(s, k).next;
    Glue(s, j, k, m);
    Glue(s, i', j, m);
    Glue(s, i, i', m);
  }

  lemma Glue(s: Bytes, i: nat, j: nat, k: nat)
    requires i <= j <= k <= |s|
    ensures s[i..j] + s[j..k] == s[i..k]
  {
  }

  /** ... and is one. */
  lemma LexNumberOk(s: Bytes, i: nat)
    requires i <= |s| && LexNumber(s, i).Ok?
    ensures NumberOk(LexNumber(s, i).value)
  {
    var i' := if Char(s, i) == 0x2D then i + 1 else i;
    var j := LexInteger(s, i').next;
    var k := LexFraction(s, j).next;
    LexIntegerOk(s, i');
    LexFractionOk(s, j);
    LexExponentOk(s, k);
  }

  // ---------- values ----------

  predicate Matches(s: Bytes, i: nat, literal: Bytes)
  {
    i + |literal| <= |s| && s[i..i + |literal|] == literal
  }

  function Expect(s: Bytes, i: nat, literal: Bytes, v: Json): (r: Result<Json>)
    requires i <= |s|
    ensures r.Ok? ==> r.next == i + |literal| <= |s|
  {
    if Matches(s, i, literal) then Ok(v, i + |literal|) else Err(ExpectedLiteral(literal))
  }

  function ParseNumber(c: Library, s: Bytes, i: nat): (r: Result<Json>)
    requires i <= |s|
    ensures r.Ok? ==> i < r.next <= |s|
  {
    var (n, j) :- LexNumber(s, i);
    Ok(NumberValue(c, n), j)
  }

  function ParseValue(c: Library, mode: Mode, s: Bytes, i: nat, depth: nat): (r: Result<Json>)
    requires i <= |s|
    ensures r.Ok? ==> i < r.next <= |s|
    decreases |s| - i, 0
  {
    if depth > MAX_DEPTH then Err(TooDeep)
    else
      var (ch, j) :- NextToken(mode, s, i);
      ParseToken(c, mode, s, j, ch, depth)
  }

  /** The value whose first token `ch` has just been read. */
  function ParseToken(c: Library, mode: Mode, s: Bytes, i: nat, ch: byte, depth: nat): (r: Result<Json>)
    requires 0 < i <= |s|
    ensures r.Ok? ==> i <= r.next <= |s|
    decreases |s| - i, 3
  {
    if ch == 0x2D || IsDigit(ch) then ParseNumber(c, s, i - 1)
    else if ch == 0x74 then Expect(s, i - 1, TRUE_TEXT, Bool(true))
    else if ch == 0x66 then Expect(s, i - 1, FALSE_TEXT, Bool(false))
    else if ch == 0x6E then Expect(s, i - 1, NULL_TEXT, Null)
    else if ch == QUOTE then
      var (b, k) :- ParseString(s, i);
      Ok(Str(b), k)
    else if ch == 0x7B then ParseObject(c, mode, s, i, depth)
    else if ch == 0x5B then ParseArray(c, mode, s, i, depth)
    else Err(ExpectedValue(ch))
  }

  /** What follows an opening brace. */
  function ParseObject(c: Library, mode: Mode, s: Bytes, i: nat, depth: nat): (r: Result<Json>)
    requires i <= |s|
    ensures r.Ok? ==> i < r.next <= |s|
    decreases |s| - i, 2
  {
    var (ch, j) :- NextToken(mode, s, i);
    if ch == 0x7D then Ok(Obj([]), j)
    else
      var (data, k) :- ParseMembers(c, mode, s, j, ch, depth, []);
      Ok(Obj(data), k)
  }

  /** What follows an opening bracket. */
  function ParseArray(c: Library, mode: Mode, s: Bytes, i: nat, depth: nat): (r: Result<Json>)
    requires i <= |s|
    ensures r.Ok? ==> i < r.next <= |s|
    decreases |s| - i, 2
  {
    var (ch, j) :- NextToken(mode, s, i);
    if ch == 0x5D then Ok(Arr([]), j)
    else
      var (data, k) :- ParseElements(c, mode, s, j - 1, depth);
      Ok(Arr(data), k)
  }

  /** The elements from position `i` and the closing bracket. */
  function ParseElements(c: Library, mode: Mode, s: Bytes, i: nat, depth: nat): (r: Result<seq<Json>>)
    requires i <= |s|
    ensures r.Ok? ==> i < r.next <= |s|
    decreases |s| - i, 1
  {
    var (v, j) :- ParseValue(c, mode, s, i, depth + 1);
    var (ch, k) :- NextToken(mode, s, j);
    if ch == 0x5D then Ok([v], k)
    else if ch != 0x2C then Err(ExpectedCommaInList(ch))
    else
      var (_, m) :- NextToken(mode, s, k);
      var (vs, n) :- ParseElements(c, mode, s, m - 1, depth);
      Ok([v] + vs, n)
  }

  /** The members of which the first token `ch` has been read, and the closing brace. */
  function ParseMembers(c: Library, mode: Mode, s: Bytes, i: nat, ch: byte, depth: nat, data: Fields)
    : (r: Result<Fields>)
    requires i <= |s|
    ensures r.Ok? ==> i < r.next <= |s|
    decreases |s| - i, 1
  {
    if ch != QUOTE then Err(ExpectedQuote(ch))
    else
      var (key, j) :- ParseString(s, i);
      var (colon, k) :- NextToken(mode, s, j);
      if colon != 0x3A then Err(ExpectedColon(colon))
      else
        var (v, m) :- ParseValue(c, mode, s, k, depth + 1);
        var (ch', n) :- NextToken(mode, s, m);
        if ch' == 0x7D then Ok(Put(data, key, v), n)
        else if ch' != 0x2C then Err(ExpectedCommaInObject(ch'))
        else
          var (ch'', o) :- NextToken(mode, s, n);
          ParseMembers(c, mode, s, o, ch'', depth, Put(data, key, v))
  }

  /** What the first token after an opening bracket leads to. */
  lemma ArrayStep(c: Library, mode: Mode, s: Bytes, i: nat, depth: nat, ch: byte, k: nat)
    requires i <= |s| && NextToken(mode, s, i) == Ok(ch, k)
    ensures ParseArray(c, mode, s, i, depth) ==
            if ch == 0x5D then Ok(Arr([]), k)
            else match ParseElements(c, mode, s, k - 1, depth)
                 case Err(e) => Err(e)
                 case Ok(items, n) => Ok(Arr(items), n)
  {
  }

  /** What the first token after an opening brace leads to. */
  lemma ObjectStep(c: Library, mode: Mode, s: Bytes, i: nat, depth: nat, ch: byte, k: nat)
    requires i <= |s| && NextToken(mode, s, i) == Ok(ch, k)
    ensures ParseObject(c, mode, s, i, depth) ==
            if ch == 0x7D then Ok(Obj([]), k)
            else match ParseMembers(c, mode, s, k, ch, depth, [])
                 case Err(e) => Err(e)
                 case Ok(fields, n) => Ok(Obj(fields), n)
  {
  }

  /** One round over the elements of a list. */
  lemma ElementsStep(c: Library, mode: Mode, s: Bytes, i: nat, depth: nat, v: Json, j: nat, ch: byte, k: nat)
    requires i <= |s| && ParseValue(c, mode, s, i, depth + 1) == Ok(v, j) && NextToken(mode, s, j) == Ok(ch, k)
    ensures ch == 0x5D ==> ParseElements(c, mode, s, i, depth) == Ok([v], k)
    ensures ch == 0x2C && NextToken(mode, s, k).Ok? ==>
              ParseElements(c, mode, s, i, depth) ==
              match ParseElements(c, mode, s, NextToken(mode, s, k).next - 1, depth)
              case Err(e) => Err(e)
              case Ok(vs, n) => Ok([v] + vs, n)
  {
    hide ParseValue, NextToken;
  }

  /** One round over the members of an object. */
  lemma MembersStep(c: Library, mode: Mode, s: Bytes, i: nat, depth: nat, data: Fields,
                    key: Bytes, j: nat, k: nat, v: Json, m: nat, ch: byte, n: nat)
    requires i <= |s| && ParseString(s, i) == Ok(key, j) && NextToken(mode, s, j) == Ok(0x3A, k)
    requires ParseValue(c, mode, s, k, depth + 1) == Ok(v, m) && NextToken(mode, s, m) == Ok(ch, n)
    ensures ch == 0x7D ==> ParseMembers(c, mode, s, i, QUOTE, depth, data) == Ok(Put(data, key, v), n)
    ensures ch == 0x2C && NextToken(mode, s, n).Ok? ==>
              var t := NextToken(mode, s, n);
              ParseMembers(c, mode, s, i, QUOTE, depth, data) ==
              ParseMembers(c, mode, s, t.next, t.value, depth, Put(data, key, v))
  {
  }

  /** Json::parse: one value, and nothing else but garbage. */
  function Parse(c: Library, mode: Mode, s: Bytes): Result<Json>
  {
    var (v, j) :- ParseValue(c, mode, s, 0, 0);
    var (_, k) :- SkipGarbage(mode, s, j);
    if k == |s| then Ok(v, k) else Err(Trailing(s[k]))
  }

  /** What a failed read of a value leaves in the result. */
  function FailedValue(mode: Mode, s: Bytes, i: nat, depth: nat): Json
    requires i <= |s|
  {
    if depth <= MAX_DEPTH && NextToken(mode, s, i).Ok? && NextToken(mode, s, i).value == QUOTE then Str([]) else Null
  }

  /** What reading several values gives: the values, where the last garbage after one ended, and the error. */
  datatype Multi = Multi(values: seq<Json>, stop: nat, err: Option<Error>)

  /** Json::parse_multi, with `values` read up to `i`. A value that cannot be read leaves a trace in the list. */
  function MultiFrom(c: Library, mode: Mode, s: Bytes, i: nat, values: seq<Json>, stop: nat): Multi
    requires i <= |s|
    decreases |s| - i
  {
    if i == |s| then Multi(values, stop, None)
    else
      match ParseValue(c, mode, s, i, 0)
      case Err(e) => Multi(values + [FailedValue(mode, s, i, 0)], stop, Some(e))
      case Ok(v, j) =>
        match SkipGarbage(mode, s, j)
        case Err(e) => Multi(values + [v], stop, Some(e))
        case Ok(_, k) => MultiFrom(c, mode, s, k, values + [v], k)
  }
}
