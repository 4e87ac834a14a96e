/**
  Completeness of the parser in STANDARD mode: on a text derived by the grammar it returns the value
  of the derivation, or fails because of the nesting depth and for no other reason.
 */
module JsonComplete {
  import opened JsonValue
  import opened Wrappers
  import opened JsonGrammar
  import opened JsonParse

  /** `t` occurs in `s` at `i`. */
  predicate At(s: Bytes, i: nat, t: Bytes) {
    i + |t| <= |s| && s[i..i + |t|] == t
  }

  lemma AtSplit(s: Bytes, i: nat, a: Bytes, b: Bytes)
    ensures At(s, i, a + b) <==> At(s, i, a) && At(s, i + |a|, b)
  {
    if i + |a| + |b| <= |s| {
      var whole := s[i..i + |a + b|];
      assert whole[..|a|] == s[i..i + |a|] && whole[|a|..] == s[i + |a|..i + |a| + |b|];
      assert (a + b)[..|a|] == a && (a + b)[|a|..] == b;
      assert whole == whole[..|a|] + whole[|a|..];
    }
  }

  lemma AtNothing(s: Bytes, i: nat)
    requires i <= |s|
    ensures At(s, i, [])
  {
  }

  lemma AtHead(s: Bytes, i: nat, t: Bytes)
    requires At(s, i, t) && t != []
    ensures i < |s| && s[i] == t[0]
  {
  }

  lemma AtOne(s: Bytes, i: nat, b: byte)
    ensures At(s, i, [b]) <==> i < |s| && s[i] == b
  {
  }

  /** At the end of a number: nothing that would continue it. */
  predicate EndsNumber(s: Bytes, i: nat) {
    i <= |s| && (i < |s| ==> !IsDigit(s[i]) && s[i] != 0x2E && !IsMark(s[i]))
  }

  // ---------- tokens ----------

  lemma {:induction false} SkipsWhitespace(s: Bytes, i: nat, w: Bytes)
    requires At(s, i, w) && AllWhitespace(w)
    requires i + |w| == |s| || !IsWhitespace(s[i + |w|])
    ensures SkipWhitespace(s, i) == i + |w|
    decreases |w|
  {
    if w != [] {
      assert s[i] == s[i..i + |w|][0];
      assert At(s, i + 1, w[1..]) by {
        AtSplit(s, i, [w[0]], w[1..]);
        assert [w[0]] + w[1..] == w;
      }
      SkipsWhitespace(s, i + 1, w[1..]);
    }
  }

  lemma ReadsToken(s: Bytes, i: nat, w: Bytes, b: byte)
    requires At(s, i, w) && AllWhitespace(w) && At(s, i + |w|, [b]) && !IsWhitespace(b)
    ensures NextToken(STANDARD, s, i) == Ok(b, i + |w| + 1)
  {
    AtOne(s, i + |w|, b);
    SkipsWhitespace(s, i, w);
  }

  // ---------- strings ----------

  lemma {:induction false} ReadsItems(s: Bytes, i: nat, xs: seq<Item>)
    requires ItemsOk(xs) && At(s, i, ItemsText(xs)) && At(s, i + |ItemsText(xs)|, [QUOTE])
    ensures LexString(s, i) == Ok(xs, i + |ItemsText(xs)| + 1)
    decreases |xs|
  {
    if xs == [] {
      AtOne(s, i, QUOTE);
    } else {
      hide LexString, ItemText, At, ItemOk;
      AtSplit(s, i, ItemText(xs[0]), ItemsText(xs[1..]));
      ReadsItems(s, i + |ItemText(xs[0])|, xs[1..]);
      ReadsItem(s, i, xs[0]);
      assert [xs[0]] + xs[1..] == xs;
    }
  }

  lemma ReadsItem(s: Bytes, i: nat, x: Item)
    requires ItemOk(x) && At(s, i, ItemText(x))
    ensures LexString(s, i) == LexMore(x, s, i + |ItemText(x)|)
  {
    var t := ItemText(x);
    forall k | 0 <= k < |t| ensures s[i + k] == t[k] {
      assert s[i + k] == s[i..i + |t|][k];
    }
    match x
    case Raw(b) => assert s[i] == t[0];
    case Short(letter) => assert s[i] == t[0] && s[i + 1] == t[1];
    case Hex(h0, h1, h2, h3) =>
      assert s[i] == t[0] && s[i + 1] == t[1] && s[i + 2] == t[2];
      assert s[i + 3] == t[3] && s[i + 4] == t[4] && s[i + 5] == t[5];
  }

  lemma ReadsString(s: Bytes, i: nat, xs: seq<Item>)
    requires ItemsOk(xs) && At(s, i, ItemsText(xs) + [QUOTE])
    ensures ParseString(s, i) == Ok(StringValue(xs), i + |ItemsText(xs)| + 1)
  {
    hide LexString, StringValue, ItemsText, At, ItemsOk;
    AtSplit(s, i, ItemsText(xs), [QUOTE]);
    ReadsItems(s, i, xs);
  }

  // ---------- numbers ----------

  lemma {:induction false} ReadsDigits(s: Bytes, i: nat, d: Bytes)
    requires At(s, i, d) && AllDigits(d) && (i + |d| < |s| ==> !IsDigit(s[i + |d|]))
    ensures DigitsEnd(s, i) == i + |d|
    decreases |d|
  {
    if d != [] {
      assert s[i] == s[i..i + |d|][0];
      AtSplit(s, i, [d[0]], d[1..]);
      assert [d[0]] + d[1..] == d;
      ReadsDigits(s, i + 1, d[1..]);
    }
  }

  lemma ReadsSomeDigits(s: Bytes, i: nat, d: Bytes, e: Error)
    requires At(s, i, d) && d != [] && AllDigits(d) && (i + |d| < |s| ==> !IsDigit(s[i + |d|]))
    ensures LexDigits(s, i, e) == Ok(d, i + |d|)
  {
    assert s[i] == s[i..i + |d|][0];
    ReadsDigits(s, i, d);
  }

  lemma ReadsInteger(s: Bytes, i: nat, d: Bytes)
    requires At(s, i, d) && d != [] && AllDigits(d) && (d[0] == 0x30 ==> |d| == 1)
    requires i + |d| < |s| ==> !IsDigit(s[i + |d|])
    ensures LexInteger(s, i) == Ok(d, i + |d|)
  {
    assert s[i] == s[i..i + |d|][0] == d[0];
    if d[0] != 0x30 {
      assert [d[0]] + d[1..] == d;
      AtSplit(s, i, [d[0]], d[1..]);
      ReadsDigits(s, i + 1, d[1..]);
    }
  }

  lemma ReadsFraction(s: Bytes, i: nat, f: Option<Bytes>)
    requires f.Some? ==> f.value != [] && AllDigits(f.value)
    requires At(s, i, FractionText(f))
    requires i + |FractionText(f)| < |s| ==> !IsDigit(s[i + |FractionText(f)|]) && (f.None? ==> s[i] != 0x2E)
    ensures LexFraction(s, i) == Ok(f, i + |FractionText(f)|)
  {
    if f.Some? {
      AtSplit(s, i, [0x2E], f.value);
      AtOne(s, i, 0x2E);
      ReadsSomeDigits(s, i + 1, f.value, NoFractionDigits);
    }
  }

  predicate ExponentOk(x: Exponent) {
    IsMark(x.mark) && (x.sign.Some? ==> IsSign(x.sign.value)) && x.digits != [] && AllDigits(x.digits)
  }

  lemma ReadsExponent(s: Bytes, i: nat, e: Option<Exponent>)
    requires i <= |s| && (e.Some? ==> ExponentOk(e.value)) && At(s, i, ExponentText(e))
    requires i + |ExponentText(e)| < |s| ==> !IsDigit(s[i + |ExponentText(e)|]) && (e.None? ==> !IsMark(s[i]))
    ensures LexExponent(s, i) == Ok(e, i + |ExponentText(e)|)
  {
    if e.Some? {
      ReadsSomeExponent(s, i, e.value);
    }
  }

  lemma ReadsSomeExponent(s: Bytes, i: nat, x: Exponent)
    requires i <= |s| && ExponentOk(x) && At(s, i, [x.mark] + (ExponentSign(x.sign) + x.digits))
    requires var j := i + 1 + |ExponentSign(x.sign)| + |x.digits|; j < |s| ==> !IsDigit(s[j])
    ensures LexExponent(s, i) == Ok(Some(x), i + 1 + |ExponentSign(x.sign)| + |x.digits|)
  {
    hide LexDigits, LexExponent, At, AllDigits;
    AtSplit(s, i, [x.mark], ExponentSign(x.sign) + x.digits);
    AtSplit(s, i + 1, ExponentSign(x.sign), x.digits);
    AtOne(s, i, x.mark);
    var k := i + 1 + |ExponentSign(x.sign)|;
    ReadsSomeDigits(s, k, x.digits, NoExponentDigits);
    if x.sign.Some? {
      AtOne(s, i + 1, x.sign.value);
      ExponentSigned(s, i, x.digits, k + |x.digits|);
    } else {
      DigitIsNoSign(s, i + 1, x.digits);
      ExponentUnsigned(s, i, x.digits, k + |x.digits|);
    }
  }

  lemma ExponentSigned(s: Bytes, i: nat, d: Bytes, j: nat)
    requires i + 1 < |s| && IsMark(s[i]) && IsSign(s[i + 1]) && LexDigits(s, i + 2, NoExponentDigits) == Ok(d, j)
    ensures LexExponent(s, i) == Ok(Some(Exponent(s[i], Some(s[i + 1]), d)), j)
  {
  }

  lemma ExponentUnsigned(s: Bytes, i: nat, d: Bytes, j: nat)
    requires i + 1 < |s| && IsMark(s[i]) && !IsSign(s[i + 1]) && LexDigits(s, i + 1, NoExponentDigits) == Ok(d, j)
    ensures LexExponent(s, i) == Ok(Some(Exponent(s[i], None, d)), j)
  {
  }

  lemma DigitIsNoSign(s: Bytes, i: nat, d: Bytes)
    requires At(s, i, d) && d != [] && AllDigits(d)
    ensures i < |s| && !IsSign(s[i])
  {
  }

  lemma ReadsNumber(s: Bytes, i: nat, n: Number)
    requires NumberOk(n) && At(s, i, NumberText(n)) && EndsNumber(s, i + |NumberText(n)|)
    ensures LexNumber(s, i) == Ok(n, i + |NumberText(n)|)
  {
    hide LexInteger, LexFraction, LexExponent, NumberOk, FractionText, ExponentText;
    var j, k, m := NumberPieces(s, i, n);
    NumberParts(s, k, m, n);
    ReadsNumberParts(s, j, k, m, n);
  }

  lemma ReadsNumberParts(s: Bytes, j: nat, k: nat, m: nat, n: Number)
    requires NumberOk(n)
    requires At(s, j, n.digits) && k == j + |n.digits|
    requires At(s, k, FractionText(n.fraction)) && m == k + |FractionText(n.fraction)|
    requires At(s, m, ExponentText(n.exponent)) && EndsNumber(s, m + |ExponentText(n.exponent)|)
    requires m < |s| ==> !IsDigit(s[m]) && (n.exponent.None? ==> !IsMark(s[m]))
    requires k < |s| ==> !IsDigit(s[k]) && (n.fraction.None? ==> s[k] != 0x2E)
    ensures LexInteger(s, j) == Ok(n.digits, k)
    ensures LexFraction(s, k) == Ok(n.fraction, m)
    ensures LexExponent(s, m) == Ok(n.exponent, m + |ExponentText(n.exponent)|)
  {
    ReadsExponent(s, m, n.exponent);
    ReadsFraction(s, k, n.fraction);
    ReadsInteger(s, j, n.digits);
  }

  /** Where the parts of a number are. */
  lemma NumberPieces(s: Bytes, i: nat, n: Number) returns (j: nat, k: nat, m: nat)
    requires NumberOk(n) && At(s, i, NumberText(n))
    ensures j == (if n.negative then i + 1 else i) && (Char(s, i) == 0x2D <==> n.negative)
    ensures At(s, j, n.digits) && k == j + |n.digits|
    ensures At(s, k, FractionText(n.fraction)) && m == k + |FractionText(n.fraction)|
    ensures At(s, m, ExponentText(n.exponent)) && m + |ExponentText(n.exponent)| == i + |NumberText(n)|
  {
    var a, b, f, e := SignText(n.negative), n.digits, FractionText(n.fraction), ExponentText(n.exponent);
    var digit := b[0];
    assert IsDigit(digit);
    hide FractionText, ExponentText, NumberOk;
    AtSplit(s, i, a, b + (f + e));
    j := i + |a|;
    AtSplit(s, j, b, f + e);
    k := j + |b|;
    AtSplit(s, k, f, e);
    m := k + |f|;
    AtHead(s, j, b);
    if n.negative {
      AtHead(s, i, a);
    }
  }

  /** What follows each part of a number does not continue it. */
  lemma NumberParts(s: Bytes, k: nat, m: nat, n: Number)
    requires NumberOk(n) && At(s, k, FractionText(n.fraction)) && m == k + |FractionText(n.fraction)|
    requires At(s, m, ExponentText(n.exponent)) && EndsNumber(s, m + |ExponentText(n.exponent)|)
    ensures m < |s| ==> !IsDigit(s[m]) && (n.exponent.None? ==> !IsMark(s[m]))
    ensures k < |s| ==> !IsDigit(s[k]) && (n.fraction.None? ==> s[k] != 0x2E)
  {
  }

  // ---------- values ----------

  /** The first byte of a value's text says what kind of value it is. */
  predicate StartsValue(b: byte) {
    b == 0x2D || IsDigit(b) || b == 0x74 || b == 0x66 || b == 0x6E || b == QUOTE || b == 0x7B || b == 0x5B
  }

  lemma TextStarts(t: Tree)
    requires TreeOk(t)
    ensures Text(t) != [] && StartsValue(Text(t)[0])
    ensures t.NumberTree? <==> Text(t)[0] == 0x2D || IsDigit(Text(t)[0])
  {
  }

  /** The result the grammar calls for: the value, unless the nesting is too deep. */
  function Bounded<T>(height: nat, v: T, next: nat): Result<T> {
    if height > MAX_DEPTH then Err(TooDeep) else Ok(v, next)
  }

  lemma {:induction false} ReadsValue(c: Library, s: Bytes, i: nat, w: Bytes, t: Tree, depth: nat)
    requires AllWhitespace(w) && TreeOk(t) && At(s, i, w) && At(s, i + |w|, Text(t))
    requires t.NumberTree? ==> EndsNumber(s, i + |w| + |Text(t)|)
    ensures ParseValue(c, STANDARD, s, i, depth) == Bounded(depth + Height(t), Value(c, t), i + |w| + |Text(t)|)
    decreases t, 1
  {
    hide ParseToken, NextToken, TreeOk, Text, Value, Height;
    TextStarts(t);
    var j := i + |w|;
    var text := Text(t);
    assert text == [text[0]] + text[1..];
    AtSplit(s, j, [text[0]], text[1..]);
    ReadsToken(s, i, w, text[0]);
    if depth <= MAX_DEPTH {
      ReadsAfterToken(c, s, j, t, depth);
    }
  }

  lemma {:induction false} ReadsAfterToken(c: Library, s: Bytes, i: nat, t: Tree, depth: nat)
    requires i + |Text(t)| <= |s| && TreeOk(t) && At(s, i, Text(t)) && Text(t) != []
    requires (t.NumberTree? ==> EndsNumber(s, i + |Text(t)|)) && depth <= MAX_DEPTH
    ensures ParseToken(c, STANDARD, s, i + 1, Text(t)[0], depth) ==
            Bounded(depth + Height(t), Value(c, t), i + |Text(t)|)
    decreases t, 0
  {
    hide ParseNumber, ParseString, JsonParse.ParseArray, JsonParse.ParseObject, At, EndsNumber;
    match t
    case ArrayTree(e) =>
      hide ElementsText, ElementsOk, ElementsValue, ElementsHeight;
      AtSplit(s, i, [0x5B], ElementsText(e));
      ReadsArray(c, s, i + 1, e, depth);
    case ObjectTree(m) =>
      hide MembersText, MembersOk, MembersValue, MembersHeight;
      AtSplit(s, i, [0x7B], MembersText(m));
      ReadsObject(c, s, i + 1, m, depth);
    case _ =>
      hide ParseToken, Text, TreeOk, Value;
      ReadsFlat(c, s, i, t, depth);
  }

  lemma ReadsFlat(c: Library, s: Bytes, i: nat, t: Tree, depth: nat)
    requires !t.ArrayTree? && !t.ObjectTree?
    requires TreeOk(t) && At(s, i, Text(t)) && Text(t) != [] && depth <= MAX_DEPTH
    requires t.NumberTree? ==> EndsNumber(s, i + |Text(t)|)
    ensures ParseToken(c, STANDARD, s, i + 1, Text(t)[0], depth) == Ok(Value(c, t), i + |Text(t)|)
  {
    hide ParseToken, NumberValue, NumberText, StringValue, ItemsText, At, EndsNumber;
    match t
    case NumberTree(n) =>
      TextStarts(t);
      ReadsNumberTree(c, s, i, n, depth);
    case StringTree(xs) =>
      AtSplit(s, i, [QUOTE], ItemsText(xs) + [QUOTE]);
      ReadsStringTree(c, s, i + 1, xs, depth);
    case EmptyArray(v) =>
      AtSplit(s, i, [0x5B], v + [0x5D]);
      AtSplit(s, i + 1, v, [0x5D]);
      ReadsEmptyArray(c, s, i + 1, v, depth);
    case EmptyObject(v) =>
      AtSplit(s, i, [0x7B], v + [0x7D]);
      AtSplit(s, i + 1, v, [0x7D]);
      ReadsEmptyObject(c, s, i + 1, v, depth);
    case _ => ReadsLiteral(c, s, i, t, depth);
  }

  lemma ReadsNumberTree(c: Library, s: Bytes, i: nat, n: Number, depth: nat)
    requires NumberOk(n) && At(s, i, NumberText(n)) && NumberText(n) != [] && EndsNumber(s, i + |NumberText(n)|)
    requires NumberText(n)[0] == 0x2D || IsDigit(NumberText(n)[0])
    ensures ParseToken(c, STANDARD, s, i + 1, NumberText(n)[0], depth) == Ok(NumberValue(c, n), i + |NumberText(n)|)
  {
    hide ParseNumber, NumberText, NumberValue;
    ReadsNumberValue(c, s, i, n);
  }

  lemma ReadsStringTree(c: Library, s: Bytes, i: nat, xs: seq<Item>, depth: nat)
    requires 0 < i && ItemsOk(xs) && At(s, i, ItemsText(xs) + [QUOTE])
    ensures ParseToken(c, STANDARD, s, i, QUOTE, depth) == Ok(Str(StringValue(xs)), i + |ItemsText(xs)| + 1)
  {
    hide ParseString, StringValue;
    ReadsString(s, i, xs);
  }

  lemma ReadsLiteral(c: Library, s: Bytes, i: nat, t: Tree, depth: nat)
    requires (t.NullTree? || t.TrueTree? || t.FalseTree?) && At(s, i, Text(t))
    ensures ParseToken(c, STANDARD, s, i + 1, Text(t)[0], depth) == Ok(Value(c, t), i + |Text(t)|)
  {
  }

  lemma ReadsNumberValue(c: Library, s: Bytes, i: nat, n: Number)
    requires NumberOk(n) && At(s, i, NumberText(n)) && EndsNumber(s, i + |NumberText(n)|)
    ensures ParseNumber(c, s, i) == Ok(NumberValue(c, n), i + |NumberText(n)|)
  {
    hide LexNumber;
    ReadsNumber(s, i, n);
  }

  lemma ReadsEmptyArray(c: Library, s: Bytes, i: nat, w: Bytes, depth: nat)
    requires 0 < i && AllWhitespace(w) && At(s, i, w) && At(s, i + |w|, [0x5D])
    ensures ParseToken(c, STANDARD, s, i, 0x5B, depth) == Ok(Arr([]), i + |w| + 1)
  {
    ReadsToken(s, i, w, 0x5D);
  }

  lemma ReadsEmptyObject(c: Library, s: Bytes, i: nat, w: Bytes, depth: nat)
    requires 0 < i && AllWhitespace(w) && At(s, i, w) && At(s, i + |w|, [0x7D])
    ensures ParseToken(c, STANDARD, s, i, 0x7B, depth) == Ok(Obj([]), i + |w| + 1)
  {
    ReadsToken(s, i, w, 0x7D);
  }

  lemma {:induction false} ReadsArray(c: Library, s: Bytes, i: nat, e: Elements, depth: nat)
    requires i <= |s| && ElementsOk(e) && At(s, i, ElementsText(e)) && depth <= MAX_DEPTH
    ensures JsonParse.ParseArray(c, STANDARD, s, i, depth) ==
            Bounded(depth + 1 + ElementsHeight(e), Arr(ElementsValue(c, e)), i + |ElementsText(e)|)
    decreases e, 1
  {
    hide At, ElementsText, ElementsTail, ElementsOk, TreeOk, Text, NextToken, ElementsValue, ElementsHeight,
         ParseElements, JsonParse.ParseArray;
    ElementsTextLength(e);
    AtSplit(s, i, e.before, ElementsTail(e));
    ElementsStart(s, i, e);
    ReadsElements(c, s, i + |e.before|, e, depth);
    ArrayStep(c, STANDARD, s, i, depth, NextToken(STANDARD, s, i).value, i + |e.before| + 1);
  }

  lemma TailStarts(e: Elements)
    requires TreeOk(e.tree)
    ensures ElementsTail(e) != [] && StartsValue(ElementsTail(e)[0])
  {
    hide StartsValue, TreeOk, Text;
    TextStarts(e.tree);
  }

  lemma ValueIsNoWhitespace(b: byte)
    requires StartsValue(b)
    ensures !IsWhitespace(b)
  {
  }

  /** The token at which the first value starts. */
  lemma ElementsStart(s: Bytes, i: nat, e: Elements)
    requires ElementsOk(e) && At(s, i, ElementsText(e))
    ensures NextToken(STANDARD, s, i).Ok? && NextToken(STANDARD, s, i).next == i + |e.before| + 1
    ensures StartsValue(NextToken(STANDARD, s, i).value)
  {
    hide *;
    ElementParts(e);
    TailStarts(e);
    ElementsTextLength(e);
    AtSplit(s, i, e.before, ElementsTail(e));
    AtHead(s, i + |e.before|, ElementsTail(e));
    AtOne(s, i + |e.before|, ElementsTail(e)[0]);
    ValueIsNoWhitespace(ElementsTail(e)[0]);
    ReadsToken(s, i, e.before, ElementsTail(e)[0]);
  }

  lemma ElementParts(e: Elements)
    requires ElementsOk(e)
    ensures AllWhitespace(e.before) && TreeOk(e.tree) && AllWhitespace(e.after)
  {
  }

  lemma EndsBefore(s: Bytes, i: nat, w: Bytes, b: byte)
    requires AllWhitespace(w) && At(s, i, w) && At(s, i + |w|, [b]) && (b == 0x2C || b == 0x5D || b == 0x7D)
    ensures EndsNumber(s, i) && NextToken(STANDARD, s, i) == Ok(b, i + |w| + 1)
  {
    AtOne(s, i + |w|, b);
    if w != [] {
      assert s[i] == s[i..i + |w|][0];
    }
    ReadsToken(s, i, w, b);
  }

  lemma {:induction false} ReadsElements(c: Library, s: Bytes, i: nat, e: Elements, depth: nat)
    requires ElementsOk(e) && At(s, i, ElementsTail(e)) && depth <= MAX_DEPTH
    ensures ParseElements(c, STANDARD, s, i, depth) ==
            Bounded(depth + 1 + ElementsHeight(e), ElementsValue(c, e), i + |ElementsTail(e)|)
    decreases e, 0
  {
    hide At, TreeOk, Text, ElementsText, ElementsTail, Value, ElementsValue, Height, ParseValue, ParseElements,
         NextToken, EndsNumber;
    var j, k := ElementPieces(s, i, e);
    ReadsValue(c, s, i, [], e.tree, depth + 1);
    if depth + 1 + Height(e.tree) > MAX_DEPTH {
      ElementsFail(c, s, i, depth, TooDeep);
    } else {
      ElementsStep(c, STANDARD, s, i, depth, Value(c, e.tree), j, if e.Element? then 0x2C else 0x5D, k);
      ElementsValueStep(c, e);
      if e.Element? {
        ElementsStart(s, k, e.rest);
        AtSplit(s, k, e.rest.before, ElementsTail(e.rest));
        ElementsTextLength(e.rest);
        ReadsElements(c, s, k + |e.rest.before|, e.rest, depth);
      }
    }
  }

  lemma ElementsFail(c: Library, s: Bytes, i: nat, depth: nat, e: Error)
    requires i <= |s| && ParseValue(c, STANDARD, s, i, depth + 1) == Err(e)
    ensures ParseElements(c, STANDARD, s, i, depth) == Err(e)
  {
  }

  lemma ElementsValueStep(c: Library, e: Elements)
    requires ElementsOk(e)
    ensures ElementsValue(c, e) ==
            if e.Element? then [Value(c, e.tree)] + ElementsValue(c, e.rest) else [Value(c, e.tree)]
  {
  }

  lemma ElementsTextLength(e: Elements)
    ensures ElementsText(e) == e.before + ElementsTail(e)
  {
  }

  /** The text from an element on, in three parts. */
  lemma ElementsTailSplits(e: Elements)
    ensures ElementsTail(e) == Text(e.tree) + (e.after + ElementsRest(e))
  {
  }

  function ElementsRest(e: Elements): (t: Bytes)
    ensures t != [] && (t[0] == 0x2C || t[0] == 0x5D) && (t[0] == 0x2C <==> e.Element?)
  {
    if e.Element? then [0x2C] + ElementsText(e.rest) else [0x5D]
  }

  lemma RestSplits(s: Bytes, k: nat, e: Elements)
    requires At(s, k, ElementsRest(e))
    ensures At(s, k, [ElementsRest(e)[0]])
    ensures if e.Element? then At(s, k + 1, ElementsText(e.rest)) && |ElementsRest(e)| == 1 + |ElementsText(e.rest)|
            else |ElementsRest(e)| == 1
  {
    hide At, ElementsText;
    if e.Element? {
      AtSplit(s, k, [0x2C], ElementsText(e.rest));
    }
  }

  /** Where an element ends, and where what follows it starts. */
  lemma ElementPieces(s: Bytes, i: nat, e: Elements) returns (j: nat, k: nat)
    requires ElementsOk(e) && At(s, i, ElementsTail(e))
    ensures At(s, i, []) && At(s, i, Text(e.tree)) && j == i + |Text(e.tree)| && EndsNumber(s, j)
    ensures NextToken(STANDARD, s, j) == Ok(if e.Element? then 0x2C else 0x5D, k)
    ensures if e.Element? then At(s, k, ElementsText(e.rest)) && k + |ElementsText(e.rest)| == i + |ElementsTail(e)|
            else k == i + |ElementsTail(e)|
  {
    hide *;
    ElementParts(e);
    ElementsTailSplits(e);
    AtSplit(s, i, Text(e.tree), e.after + ElementsRest(e));
    j := i + |Text(e.tree)|;
    AtSplit(s, j, e.after, ElementsRest(e));
    k := j + |e.after| + 1;
    RestSplits(s, k - 1, e);
    AtStarts(s, i, Text(e.tree));
    EndsBefore(s, j, e.after, ElementsRest(e)[0]);
  }

  lemma AtStarts(s: Bytes, i: nat, t: Bytes)
    requires At(s, i, t)
    ensures At(s, i, [])
  {
  }

  lemma {:induction false} ReadsObject(c: Library, s: Bytes, i: nat, m: Members, depth: nat)
    requires i <= |s| && MembersOk(m) && At(s, i, MembersText(m)) && depth <= MAX_DEPTH
    ensures JsonParse.ParseObject(c, STANDARD, s, i, depth) ==
            Bounded(depth + 1 + MembersHeight(m), Obj(MembersValue(c, m, [])), i + |MembersText(m)|)
    decreases m, 1
  {
    hide At, MembersText, MembersTail, MembersOk, TreeOk, Text, NextToken, MembersValue, MembersHeight,
         ParseMembers, JsonParse.ParseObject;
    MembersTextLength(m);
    MembersStart(s, i, m);
    ReadsMembers(c, s, i + |m.w0| + 1, m, depth, []);
    ObjectStep(c, STANDARD, s, i, depth, QUOTE, i + |m.w0| + 1);
  }

  lemma MembersStart(s: Bytes, i: nat, m: Members)
    requires MembersOk(m) && At(s, i, MembersText(m))
    ensures NextToken(STANDARD, s, i) == Ok(QUOTE, i + |m.w0| + 1)
    ensures At(s, i + |m.w0| + 1, MembersTail(m))
  {
    AtSplit(s, i, m.w0, [QUOTE] + MembersTail(m));
    AtSplit(s, i + |m.w0|, [QUOTE], MembersTail(m));
    ReadsToken(s, i, m.w0, QUOTE);
  }

  lemma {:induction false} ReadsMembers(c: Library, s: Bytes, i: nat, m: Members, depth: nat, data: Fields)
    requires MembersOk(m) && At(s, i, MembersTail(m)) && depth <= MAX_DEPTH
    ensures ParseMembers(c, STANDARD, s, i, QUOTE, depth, data) ==
            Bounded(depth + 1 + MembersHeight(m), MembersValue(c, m, data), i + |MembersTail(m)|)
    decreases m, 0
  {
    hide At, TreeOk, Text, ItemsText, ItemsOk, MembersText, MembersTail, Value, StringValue, Height,
         ParseValue, NextToken, ParseString, EndsNumber, Put;
    var j, k, n, o := MemberPieces(s, i, m);
    ReadsString(s, i, m.name);
    ReadsValue(c, s, k, m.w2, m.tree, depth + 1);
    if depth + 1 + Height(m.tree) <= MAX_DEPTH {
      hide ParseMembers;
      var key, v := StringValue(m.name), Value(c, m.tree);
      MembersStep(c, STANDARD, s, i, depth, data, key, j, k, v, n, if m.Member? then 0x2C else 0x7D, o);
      if m.Member? {
        MembersStart(s, o, m.rest);
        MembersTextLength(m.rest);
        ReadsMembers(c, s, o + |m.rest.w0| + 1, m.rest, depth, Put(data, key, v));
      }
    }
  }

  lemma MembersTextLength(m: Members)
    ensures MembersText(m) == m.w0 + ([QUOTE] + MembersTail(m))
  {
  }

  /** Where the parts of a member are. */
  lemma MemberPieces(s: Bytes, i: nat, m: Members) returns (j: nat, k: nat, n: nat, o: nat)
    requires MembersOk(m) && At(s, i, MembersTail(m))
    ensures At(s, i, ItemsText(m.name) + [QUOTE]) && j == i + |ItemsText(m.name)| + 1
    ensures NextToken(STANDARD, s, j) == Ok(0x3A, k)
    ensures At(s, k, m.w2) && At(s, k + |m.w2|, Text(m.tree)) && n == k + |m.w2| + |Text(m.tree)| && EndsNumber(s, n)
    ensures NextToken(STANDARD, s, n) == Ok(if m.Member? then 0x2C else 0x7D, o)
    ensures if m.Member? then At(s, o, MembersText(m.rest)) && o + |MembersText(m.rest)| == i + |MembersTail(m)|
            else o == i + |MembersTail(m)|
  {
    hide NextToken, Text, ItemsText, MembersText, EndsNumber, At;
    var rest := if m.Member? then [0x2C] + MembersText(m.rest) else [0x7D];
    var r3 := m.w3 + rest;
    var r2 := Text(m.tree) + r3;
    var r1 := m.w2 + r2;
    AtSplit(s, i, ItemsText(m.name) + [QUOTE], m.w1 + ([0x3A] + r1));
    j := i + |ItemsText(m.name)| + 1;
    AtSplit(s, j, m.w1, [0x3A] + r1);
    AtSplit(s, j + |m.w1|, [0x3A], r1);
    k := j + |m.w1| + 1;
    AtSplit(s, k, m.w2, r2);
    AtSplit(s, k + |m.w2|, Text(m.tree), r3);
    n := k + |m.w2| + |Text(m.tree)|;
    AtSplit(s, n, m.w3, rest);
    o := n + |m.w3| + 1;
    if m.Member? {
      AtSplit(s, o - 1, [0x2C], MembersText(m.rest));
    }
    ReadsToken(s, j, m.w1, 0x3A);
    EndsBefore(s, n, m.w3, rest[0]);
  }
}
