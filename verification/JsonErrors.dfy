/**
  What Json::parse reports when it fails, character by character: where no value starts, behind a
  value, and inside strings and numbers.
 */
module JsonErrors {
  import opened JsonValue
  import opened Wrappers
  import opened JsonGrammar
  import opened JsonParse
  import opened JsonComplete
  import opened JsonSound
  import opened JsonSpelling

  // ---------- where no value starts ----------

  lemma BlankIsSkipped(s: Bytes, before: Bytes, rest: Bytes)
    requires Blank(before) && s == before + rest && (rest != [] ==> !(rest[0] as char in " \t\n\r"))
    ensures AllWhitespace(before) && At(s, 0, before) && SkipWhitespace(s, 0) == |before|
  {
    BlankIsWhitespace(before);
    assert At(s, 0, before);
    if rest != [] {
      assert (rest[0] as char) as int == rest[0] == s[|before|];
    }
    SkipsWhitespace(s, 0, before);
  }

  /** Nothing but blanks: the end is unexpected. */
  lemma NothingToParse(c: Library, s: Bytes)
    requires Blank(s)
    ensures Parse(c, STANDARD, s) == Err(UnexpectedEnd)
  {
    assert s == s + [];
    BlankIsSkipped(s, s, []);
  }

  /** The characters that a value can start with. */
  const STARTS := "-0123456789tfn\"{["

  /** Behind the blanks comes something else: that is reported. */
  lemma NoValueStarts(c: Library, s: Bytes, before: Bytes, b: byte, rest: Bytes)
    requires Blank(before) && s == before + ([b] + rest)
    requires !(b as char in " \t\n\r") && !(b as char in STARTS)
    ensures Parse(c, STANDARD, s) == Err(ExpectedValue(b))
  {
    assert ([b] + rest)[0] == b && s[|before|] == b;
    BlankIsSkipped(s, before, [b] + rest);
    assert !StartsValue(b) by {
      if StartsValue(b) {
        ValuesStart(b);
      }
    }
    assert NextToken(STANDARD, s, 0) == Ok(b, |before| + 1);
    assert ParseToken(c, STANDARD, s, |before| + 1, b, 0) == Err(ExpectedValue(b));
    assert ParseValue(c, STANDARD, s, 0, 0) == Err(ExpectedValue(b));
  }

  lemma ValuesStart(b: byte)
    requires StartsValue(b)
    ensures b as char in STARTS
  {
    if IsDigit(b) {
      assert STARTS[b - 0x2F] as int == b;
    } else {
      var k := if b == 0x2D then 0 else if b == 0x74 then 11 else if b == 0x66 then 12 else if b == 0x6E then 13
               else if b == QUOTE then 14 else if b == 0x7B then 15 else 16;
      assert STARTS[k] as int == b;
    }
  }

  // ---------- strings ----------

  /** Behind the opening quote and characters that are written well. */
  ghost predicate InString(s: Bytes, before: Bytes, t: Bytes, ps: seq<Piece>, rest: Bytes) {
    Blank(before) && Written(t, ps) && NoPair(ps) && s == before + ([0x22] + (t + rest))
  }

  lemma {:induction false} LexBehind(s: Bytes, i: nat, xs: seq<Item>)
    requires ItemsOk(xs) && At(s, i, ItemsText(xs)) && LexString(s, i + |ItemsText(xs)|).Err?
    ensures LexString(s, i) == LexString(s, i + |ItemsText(xs)|)
    decreases |xs|
  {
    hide LexString, At, ItemText;
    if xs != [] {
      AtSplit(s, i, ItemText(xs[0]), ItemsText(xs[1..]));
      ReadsItem(s, i, xs[0]);
      LexBehind(s, i + |ItemText(xs[0])|, xs[1..]);
    }
  }

  /** The error behind those characters is the error of the whole. */
  lemma ErrorInString(c: Library, s: Bytes, before: Bytes, t: Bytes, ps: seq<Piece>, rest: Bytes, e: Error)
    requires InString(s, before, t, ps, rest) && LexString(s, |before| + 1 + |t|) == Err(e)
    ensures Parse(c, STANDARD, s) == Err(e)
  {
    hide LexString, Written, NoPair, Blank, AllWhitespace, At, Parse, ItemsText, ItemsOk, StringValue, AllEncoded;
    var i := |before| + 1;
    var xs := WrittenIsRead(t, ps);
    BlankIsWhitespace(before);
    AtWhole(s);
    AtSplit(s, 0, before, [0x22] + (t + rest));
    AtSplit(s, |before|, [0x22], t + rest);
    AtSplit(s, i, t, rest);
    LexBehind(s, i, xs);
    StringFails(c, s, before, e);
  }

  lemma StringFails(c: Library, s: Bytes, before: Bytes, e: Error)
    requires AllWhitespace(before) && At(s, 0, before) && At(s, |before|, [0x22])
    requires |before| < |s| && LexString(s, |before| + 1) == Err(e)
    ensures Parse(c, STANDARD, s) == Err(e)
  {
    hide LexString, NextToken, ParseToken, At, AllWhitespace;
    ReadsToken(s, 0, before, QUOTE);
    QuoteFails(c, s, |before| + 1, e);
  }

  lemma QuoteFails(c: Library, s: Bytes, i: nat, e: Error)
    requires 0 < i <= |s| && LexString(s, i) == Err(e)
    ensures ParseToken(c, STANDARD, s, i, QUOTE, 0) == Err(e)
  {
    hide LexString, StringValue;
  }

  lemma AtWhole(s: Bytes)
    ensures At(s, 0, s)
  {
  }

  lemma RestIsThere(s: Bytes, before: Bytes, t: Bytes, rest: Bytes)
    requires s == before + ([0x22] + (t + rest))
    ensures |s| == |before| + 1 + |t| + |rest| && s[|before| + 1 + |t|..] == rest
    ensures forall k :: 0 <= k < |rest| ==> s[|before| + 1 + |t| + k] == rest[k]
  {
    var front := before + ([0x22] + t);
    assert s == front + rest;
  }

  /** A string that does not end, be it behind a backslash. */
  lemma StringWithoutEnd(c: Library, s: Bytes, before: Bytes, t: Bytes, ps: seq<Piece>, rest: Bytes)
    requires InString(s, before, t, ps, rest) && (rest == [] || (|rest| == 1 && rest[0] as char == '\\'))
    ensures Parse(c, STANDARD, s) == Err(EndInString)
  {
    hide Written, NoPair, Blank, Parse;
    RestIsThere(s, before, t, rest);
    assert rest != [] ==> (rest[0] as char) as int == rest[0];
    ErrorInString(c, s, before, t, ps, rest, EndInString);
  }

  /** A control character that is not escaped. */
  lemma ControlInString(c: Library, s: Bytes, before: Bytes, t: Bytes, ps: seq<Piece>, rest: Bytes)
    requires InString(s, before, t, ps, rest) && rest != [] && rest[0] < 0x20
    ensures Parse(c, STANDARD, s) == Err(UnescapedControl(rest[0]))
  {
    hide Written, NoPair, Blank, Parse;
    RestIsThere(s, before, t, rest);
    ErrorInString(c, s, before, t, ps, rest, UnescapedControl(rest[0]));
  }

  /** A backslash before a letter that stands for nothing. */
  lemma UnknownEscape(c: Library, s: Bytes, before: Bytes, t: Bytes, ps: seq<Piece>, rest: Bytes)
    requires InString(s, before, t, ps, rest) && |rest| >= 2 && rest[0] as char == '\\'
    requires rest[1] as char != 'u' && forall b :: !ShortFor(rest[1], b)
    ensures Parse(c, STANDARD, s) == Err(InvalidEscape(rest[1]))
  {
    hide Written, NoPair, Blank, Parse, ShortFor;
    RestIsThere(s, before, t, rest);
    assert (rest[0] as char) as int == rest[0] && (rest[1] as char) as int == rest[1];
    if Unescaped(rest[1]).Some? {
      ShortIsUnescaped(rest[1], Unescaped(rest[1]).value);
    }
    var i := |before| + 1 + |t|;
    assert s[i] == rest[0] && s[i + 1] == rest[1];
    ErrorInString(c, s, before, t, ps, rest, InvalidEscape(rest[1]));
  }

  /** A backslash and the letter u without four digits. */
  lemma BrokenUnit(c: Library, s: Bytes, before: Bytes, t: Bytes, ps: seq<Piece>, rest: Bytes)
    requires InString(s, before, t, ps, rest) && |rest| >= 2 && rest[0] as char == '\\' && rest[1] as char == 'u'
    requires |rest| >= 6 ==> forall u :: !UnitText(rest[..6], u)
    ensures Parse(c, STANDARD, s) == Err(BadEscape)
  {
    hide Written, NoPair, Blank, Parse, UnitText;
    RestIsThere(s, before, t, rest);
    assert (rest[0] as char) as int == rest[0] && (rest[1] as char) as int == rest[1];
    var i := |before| + 1 + |t|;
    assert s[i] == rest[0] && s[i + 1] == rest[1];
    if |rest| >= 6 {
      assert s[i + 2] == rest[2] && s[i + 3] == rest[3] && s[i + 4] == rest[4] && s[i + 5] == rest[5];
      NoUnit(rest[..6]);
    }
    ErrorInString(c, s, before, t, ps, rest, BadEscape);
  }

  lemma NoUnit(t: Bytes)
    requires |t| == 6 && t[0] == 0x5C && t[1] == 0x75 && forall u :: !UnitText(t, u)
    ensures !(IsHexDigit(t[2]) && IsHexDigit(t[3]) && IsHexDigit(t[4]) && IsHexDigit(t[5]))
  {
    var x := Hex(t[2], t[3], t[4], t[5]);
    if ItemOk(x) {
      UnitIsHex(t, UnitOf(x).u);
    }
  }

  // ---------- numbers and words ----------

  lemma DigitChar(b: byte)
    ensures '0' <= b as char <= '9' <==> IsDigit(b)
  {
    assert (b as char) as int == b;
  }

  /** A value whose first character is there fails as its number does. */
  lemma NumberFails(c: Library, s: Bytes, before: Bytes, e: Error)
    requires Blank(before) && before <= s && LexNumber(s, |before|) == Err(e)
    requires |before| < |s| && (s[|before|] as char == '-' || '0' <= s[|before|] as char <= '9')
    ensures Parse(c, STANDARD, s) == Err(e)
  {
    hide LexNumber, NextToken, ParseToken, At, AllWhitespace;
    var i := |before|;
    BlankIsWhitespace(before);
    DigitChar(s[i]);
    assert At(s, 0, before) by { PrefixIsThere(s, before); }
    assert (s[i] as char) as int == s[i];
    AtOne(s, i, s[i]);
    ReadsToken(s, 0, before, s[i]);
    DigitFails(c, s, i + 1, s[i], e);
  }

  lemma PrefixIsThere(s: Bytes, w: Bytes)
    requires w <= s
    ensures At(s, 0, w)
  {
  }

  lemma DigitFails(c: Library, s: Bytes, i: nat, ch: byte, e: Error)
    requires 0 < i <= |s| && LexNumber(s, i - 1) == Err(e) && (ch == 0x2D || IsDigit(ch))
    ensures ParseToken(c, STANDARD, s, i, ch, 0) == Err(e)
  {
    hide LexNumber, NumberValue;
  }

  /** Parts of a number that are written well, up to the place of an error. */
  ghost predicate InNumber(s: Bytes, before: Bytes, sign: Bytes, t: Bytes, rest: Bytes) {
    Blank(before) && IsSignPart(sign) && s == before + (sign + (t + rest))
  }

  /** Where the parts are. */
  lemma NumberIsThere(s: Bytes, before: Bytes, sign: Bytes, t: Bytes, rest: Bytes) returns (j: nat, k: nat)
    requires InNumber(s, before, sign, t, rest)
    ensures j == |before| + |sign| && k == j + |t| && |s| == k + |rest| && before <= s && Blank(before)
    ensures At(s, j, t) && (sign != [] ==> sign == [0x2D] && s[|before|] == 0x2D)
    ensures forall n :: 0 <= n < |t| ==> s[j + n] == t[n]
    ensures forall n :: 0 <= n < |rest| ==> s[k + n] == rest[n]
  {
    var i := |before|;
    j, k := i + |sign|, i + |sign| + |t|;
    AtWhole(s);
    AtSplit(s, 0, before, sign + (t + rest));
    AtSplit(s, i, sign, t + rest);
    AtSplit(s, j, t, rest);
    if sign != [] {
      assert (sign[0] as char) as int == sign[0];
      AtHead(s, i, sign);
    }
    assert s[j..k] == t && s[k..k + |rest|] == rest;
  }

  /** The sign is read, and what stands behind it decides. */
  lemma SignIsRead(s: Bytes, before: Bytes, sign: Bytes, t: Bytes, rest: Bytes)
    requires InNumber(s, before, sign, t, rest)
    requires sign == [] ==> t != [] && IsDigit(t[0])
    ensures |before| < |s| && (s[|before|] as char == '-' || '0' <= s[|before|] as char <= '9')
    ensures (if Char(s, |before|) == 0x2D then |before| + 1 else |before|) == |before| + |sign| <= |s|
  {
    var j, k := NumberIsThere(s, before, sign, t, rest);
    if sign == [] {
      assert s[j] == t[0];
      DigitChar(s[j]);
    }
  }

  /** Nothing but digits may follow a minus sign; at the end, the terminator is reported. */
  lemma SignWithoutDigits(c: Library, s: Bytes, before: Bytes, sign: Bytes, rest: Bytes)
    requires InNumber(s, before, sign, [], rest) && sign != []
    requires rest != [] ==> !('0' <= rest[0] as char <= '9')
    ensures Parse(c, STANDARD, s) == Err(InvalidNumber(if rest == [] then 0 else rest[0]))
  {
    hide Parse, Blank;
    var j, k := NumberIsThere(s, before, sign, [], rest);
    SignIsRead(s, before, sign, [], rest);
    if rest != [] {
      DigitChar(rest[0]);
    }
    assert LexInteger(s, j) == Err(InvalidNumber(if rest == [] then 0 else rest[0]));
    NumberFails(c, s, before, InvalidNumber(if rest == [] then 0 else rest[0]));
  }

  /** A zero in front of another digit. */
  lemma ZeroInFront(c: Library, s: Bytes, before: Bytes, sign: Bytes, rest: Bytes)
    requires InNumber(s, before, sign, Ascii("0"), rest) && rest != [] && '0' <= rest[0] as char <= '9'
    ensures Parse(c, STANDARD, s) == Err(LeadingZero)
  {
    hide Parse, Blank;
    assert Ascii("0") == [0x30];
    var j, k := NumberIsThere(s, before, sign, Ascii("0"), rest);
    SignIsRead(s, before, sign, Ascii("0"), rest);
    DigitChar(rest[0]);
    assert s[j] == 0x30 && s[j + 1] == rest[0];
    assert LexInteger(s, j) == Err(LeadingZero);
    NumberFails(c, s, before, LeadingZero);
  }

  /** A point without a digit behind it. */
  lemma PointWithoutDigits(c: Library, s: Bytes, before: Bytes, sign: Bytes, whole: Bytes, rest: Bytes)
    requires InNumber(s, before, sign, whole, rest) && IsWholePart(whole)
    requires rest != [] && rest[0] as char == '.' && (|rest| > 1 ==> !('0' <= rest[1] as char <= '9'))
    ensures Parse(c, STANDARD, s) == Err(NoFractionDigits)
  {
    hide Parse, Blank, LexInteger, AllDigits;
    DigitsAgree(whole);
    DigitChar(whole[0]);
    assert (whole[0] as char) as int == whole[0] && (rest[0] as char) as int == rest[0];
    var j, k := NumberIsThere(s, before, sign, whole, rest);
    SignIsRead(s, before, sign, whole, rest);
    assert s[k] == rest[0];
    if |rest| > 1 {
      DigitChar(rest[1]);
      assert s[k + 1] == rest[1];
    }
    ReadsInteger(s, j, whole);
    NumberFails(c, s, before, NoFractionDigits);
  }

  /** The letter e, perhaps with a sign, without a digit behind it. */
  lemma ExponentWithoutDigits(c: Library, s: Bytes, before: Bytes, sign: Bytes, whole: Bytes, fraction: Bytes,
                              rest: Bytes)
    requires InNumber(s, before, sign, whole + fraction, rest) && IsWholePart(whole) && IsFractionPart(fraction)
    requires rest != [] && rest[0] as char in "eE"
    requires |rest| > 1 ==> !('0' <= rest[1] as char <= '9')
    requires |rest| > 2 && rest[1] as char in "+-" ==> !('0' <= rest[2] as char <= '9')
    ensures Parse(c, STANDARD, s) == Err(NoExponentDigits)
  {
    hide *;
    var j, m := NumberIsThere(s, before, sign, whole + fraction, rest);
    WholeStarts(whole, fraction);
    SignIsRead(s, before, sign, whole + fraction, rest);
    AtSplit(s, j, whole, fraction);
    MarkIsThere(s, m, rest);
    FractionIsRead(s, j + |whole|, fraction);
    WholeIsRead(s, j, whole, fraction);
    ExponentFails(s, m, rest);
    NumberLexFails(s, |before|, j, whole, m);
    NumberFails(c, s, before, NoExponentDigits);
  }

  lemma MarkIsThere(s: Bytes, m: nat, rest: Bytes)
    requires m + |rest| == |s| && rest != [] && forall n :: 0 <= n < |rest| ==> s[m + n] == rest[n]
    requires rest[0] as char in "eE"
    ensures IsMark(s[m])
  {
    assert s[m + 0] == rest[0] == (rest[0] as char) as int;
  }

  lemma NumberLexFails(s: Bytes, i: nat, j: nat, whole: Bytes, m: nat)
    requires i <= |s| && (if Char(s, i) == 0x2D then i + 1 else i) == j <= |s|
    requires LexInteger(s, j) == Ok(whole, j + |whole|) && j + |whole| <= m <= |s|
    requires LexFraction(s, j + |whole|).Ok? && LexFraction(s, j + |whole|).next == m
    requires LexExponent(s, m) == Err(NoExponentDigits)
    ensures LexNumber(s, i) == Err(NoExponentDigits)
  {
  }

  lemma WholeStarts(whole: Bytes, fraction: Bytes)
    requires IsWholePart(whole)
    ensures whole + fraction != [] && IsDigit((whole + fraction)[0])
  {
    DigitChar(whole[0]);
  }

  lemma FractionIsRead(s: Bytes, k: nat, fraction: Bytes)
    requires At(s, k, fraction) && IsFractionPart(fraction)
    requires k + |fraction| < |s| && IsMark(s[k + |fraction|])
    ensures LexFraction(s, k).Ok? && LexFraction(s, k).next == k + |fraction|
    ensures fraction != [] ==> s[k] == 0x2E
  {
    if fraction != [] {
      DigitsAgree(fraction[1..]);
      assert (fraction[0] as char) as int == fraction[0];
      assert fraction == [0x2E] + fraction[1..] == FractionText(Some(fraction[1..]));
      AtHead(s, k, fraction);
      ReadsFraction(s, k, Some(fraction[1..]));
    }
  }

  lemma WholeIsRead(s: Bytes, j: nat, whole: Bytes, fraction: Bytes)
    requires At(s, j, whole) && IsWholePart(whole) && j + |whole| < |s|
    requires s[j + |whole|] == 0x2E || IsMark(s[j + |whole|])
    ensures LexInteger(s, j) == Ok(whole, j + |whole|)
  {
    DigitsAgree(whole);
    assert (whole[0] as char) as int == whole[0];
    ReadsInteger(s, j, whole);
  }

  lemma ExponentFails(s: Bytes, m: nat, rest: Bytes)
    requires m + |rest| == |s| && rest != [] && forall n :: 0 <= n < |rest| ==> s[m + n] == rest[n]
    requires rest[0] as char in "eE"
    requires |rest| > 1 ==> !('0' <= rest[1] as char <= '9')
    requires |rest| > 2 && rest[1] as char in "+-" ==> !('0' <= rest[2] as char <= '9')
    ensures LexExponent(s, m) == Err(NoExponentDigits)
  {
    assert (rest[0] as char) as int == rest[0] == s[m + 0];
    if |rest| > 1 {
      DigitChar(rest[1]);
      assert (rest[1] as char) as int == rest[1] == s[m + 1];
      if |rest| > 2 {
        DigitChar(rest[2]);
        assert s[m + 2] == rest[2];
      }
    }
  }

  /** The first letter of a word is there, and not the word. */
  lemma WordExpected(c: Library, s: Bytes, before: Bytes, word: string, rest: Bytes)
    requires word in ["null", "true", "false"] && Blank(before) && s == before + rest
    requires rest != [] && rest[0] as char == word[0] && !(Ascii(word) <= rest)
    ensures Parse(c, STANDARD, s) == Err(ExpectedLiteral(Ascii(word)))
  {
    hide Blank, AllWhitespace;
    BlankIsWhitespace(before);
    WordText(NullTree);
    WordText(TrueTree);
    WordText(FalseTree);
    var i, ch := |before|, rest[0];
    assert (ch as char) as int == ch == s[i];
    assert At(s, 0, before);
    AtOne(s, i, ch);
    ReadsToken(s, 0, before, ch);
    hide NextToken;
    assert s[i..] == rest;
    MatchesPrefix(s, i, rest, Ascii(word));
    assert ParseToken(c, STANDARD, s, i + 1, ch, 0) == Err(ExpectedLiteral(Ascii(word)));
  }

  lemma MatchesPrefix(s: Bytes, i: nat, rest: Bytes, t: Bytes)
    requires i <= |s| && s[i..] == rest
    ensures Matches(s, i, t) <==> t <= rest
  {
    assert i + |t| <= |s| ==> s[i..i + |t|] == rest[..|t|];
  }

  // ---------- behind a value ----------

  /** Behind a value and blanks comes something else. */
  lemma TrailingReported(c: Library, s: Bytes, before: Bytes, t: Tree, after: Bytes, b: byte, rest: Bytes)
    requires Blank(before) && TreeOk(t) && Height(t) <= 200 && Blank(after)
    requires s == before + (Text(t) + (after + ([b] + rest))) && !(b as char in " \t\n\r")
    requires t.NumberTree? && after == [] ==> !(b as char in "0123456789.eE")
    ensures Parse(c, STANDARD, s) == Err(Trailing(b))
  {
    hide Parse, ParseValue, Blank, AllWhitespace, TreeOk, Height, Text, At, EndsNumber;
    BlankIsWhitespace(before);
    BlankIsWhitespace(after);
    assert (b as char) as int == b;
    var j := |before| + |Text(t)|;
    AtWhole(s);
    AtSplit(s, 0, before, Text(t) + (after + ([b] + rest)));
    AtSplit(s, |before|, Text(t), after + ([b] + rest));
    AtSplit(s, j, after, [b] + rest);
    AtSplit(s, j + |after|, [b], rest);
    AtOne(s, j + |after|, b);
    if t.NumberTree? {
      NumberEnds(s, j, after, b);
    }
    ReadsValue(c, s, 0, before, t, 0);
    SkipsWhitespace(s, j, after);
    TrailingFails(c, s, Value(c, t), j, j + |after|);
  }

  lemma TrailingFails(c: Library, s: Bytes, v: Json, j: nat, k: nat)
    requires ParseValue(c, STANDARD, s, 0, 0) == Ok(v, j) && j <= k < |s| && SkipWhitespace(s, j) == k
    ensures Parse(c, STANDARD, s) == Err(Trailing(s[k]))
  {
    hide ParseValue;
  }

  lemma NumberEnds(s: Bytes, j: nat, after: Bytes, b: byte)
    requires AllWhitespace(after) && At(s, j, after) && j + |after| < |s| && s[j + |after|] == b
    requires after == [] ==> !(b as char in "0123456789.eE")
    ensures EndsNumber(s, j)
  {
    if after != [] {
      AtHead(s, j, after);
    } else {
      NumberGoesOn(b);
    }
  }

  lemma NumberGoesOn(b: byte)
    ensures IsDigit(b) || b == 0x2E || IsMark(b) ==> b as char in "0123456789.eE"
  {
    var k := if IsDigit(b) then b - 0x30 else if b == 0x2E then 10 else if b == 0x65 then 11 else 12;
    assert IsDigit(b) || b == 0x2E || IsMark(b) ==> "0123456789.eE"[k] as int == b;
  }
}
