/**
  Soundness of the parser in STANDARD mode: what it accepts has a derivation in the grammar, and it
  returns the derivation's value. With completeness this gives the exact language of Json::parse.
 */
module JsonSound {
  import opened JsonValue
  import opened JsonGrammar
  import opened JsonParse
  import opened JsonComplete

  // ---------- tokens ----------

  lemma {:induction false} SkipsOnlyWhitespace(s: Bytes, i: nat)
    requires i <= |s|
    ensures AllWhitespace(s[i..SkipWhitespace(s, i)])
    ensures var j := SkipWhitespace(s, i); j < |s| ==> !IsWhitespace(s[j])
    decreases |s| - i
  {
    if i < |s| && IsWhitespace(s[i]) {
      SkipsOnlyWhitespace(s, i + 1);
      assert s[i..SkipWhitespace(s, i)] == [s[i]] + s[i + 1..SkipWhitespace(s, i)];
    }
  }

  /** A token and the whitespace before it. */
  lemma TokenDerived(s: Bytes, i: nat) returns (w: Bytes)
    requires i <= |s| && NextToken(STANDARD, s, i).Ok?
    ensures var r := NextToken(STANDARD, s, i);
            AllWhitespace(w) && At(s, i, w) && At(s, i + |w|, [r.value]) && r.next == i + |w| + 1
  {
    SkipsOnlyWhitespace(s, i);
    w := s[i..SkipWhitespace(s, i)];
    AtOne(s, i + |w|, s[i + |w|]);
  }

  // ---------- strings ----------

  lemma {:induction false} ItemsDerived(s: Bytes, i: nat)
    requires i <= |s| && LexString(s, i).Ok?
    ensures var xs := LexString(s, i).value;
            At(s, i, ItemsText(xs) + [QUOTE]) && LexString(s, i).next == i + |ItemsText(xs)| + 1
    decreases |s| - i
  {
    if s[i] == QUOTE {
      AtOne(s, i, QUOTE);
      assert ItemsText([]) + [QUOTE] == [QUOTE];
    } else {
      var x, j := FirstItem(s, i);
      ItemsDerived(s, j);
      var xs := LexString(s, j).value;
      assert ([x] + xs)[1..] == xs;
      AtSplit(s, i, ItemText(x), ItemsText(xs) + [QUOTE]);
      assert ItemText(x) + (ItemsText(xs) + [QUOTE]) == ItemText(x) + ItemsText(xs) + [QUOTE];
    }
  }

  lemma FirstItem(s: Bytes, i: nat) returns (x: Item, j: nat)
    requires i < |s| && LexString(s, i).Ok? && s[i] != QUOTE
    ensures At(s, i, ItemText(x)) && j == i + |ItemText(x)| <= |s| && LexString(s, i) == LexMore(x, s, j)
  {
    if s[i] != BACKSLASH {
      x := Raw(s[i]);
    } else if s[i + 1] == 0x75 {
      x := Hex(s[i + 2], s[i + 3], s[i + 4], s[i + 5]);
    } else {
      x := Short(s[i + 1]);
    }
    j := i + |ItemText(x)|;
  }

  lemma StringDerived(s: Bytes, i: nat) returns (xs: seq<Item>)
    requires i <= |s| && ParseString(s, i).Ok?
    ensures ItemsOk(xs) && At(s, i, ItemsText(xs) + [QUOTE])
    ensures ParseString(s, i) == Ok(StringValue(xs), i + |ItemsText(xs)| + 1)
  {
    hide LexString, StringValue, ItemsText;
    ItemsDerived(s, i);
    LexedItemsOk(s, i);
    xs := LexString(s, i).value;
  }

  // ---------- values ----------

  /** The tree occurs at `i` after some whitespace, and is what was read there. */
  ghost predicate Derived(c: Library, s: Bytes, i: nat, w: Bytes, t: Tree, depth: nat, v: Json, next: nat) {
    && AllWhitespace(w) && TreeOk(t) && At(s, i, w) && At(s, i + |w|, Text(t))
    && v == Value(c, t) && next == i + |w| + |Text(t)| && depth + Height(t) <= MAX_DEPTH
  }

  lemma {:induction false} ValueDerived(c: Library, s: Bytes, i: nat, depth: nat) returns (w: Bytes, t: Tree)
    requires i <= |s| && ParseValue(c, STANDARD, s, i, depth).Ok?
    ensures var r := ParseValue(c, STANDARD, s, i, depth); Derived(c, s, i, w, t, depth, r.value, r.next)
    decreases |s| - i, 0
  {
    hide NextToken, ParseToken, Text, TreeOk, Value, Height, At;
    w := TokenDerived(s, i);
    AtOne(s, i + |w|, NextToken(STANDARD, s, i).value);
    t := TokenValueDerived(c, s, i + |w| + 1, NextToken(STANDARD, s, i).value, depth);
  }

  /** What the value is whose first token is at `i - 1`. */
  lemma {:induction false} TokenValueDerived(c: Library, s: Bytes, i: nat, ch: byte, depth: nat) returns (t: Tree)
    requires 0 < i <= |s| && s[i - 1] == ch && depth <= MAX_DEPTH
    requires ParseToken(c, STANDARD, s, i, ch, depth).Ok?
    ensures var r := ParseToken(c, STANDARD, s, i, ch, depth);
            && TreeOk(t) && At(s, i - 1, Text(t)) && r.value == Value(c, t) && r.next == i - 1 + |Text(t)|
            && depth + Height(t) <= MAX_DEPTH
    decreases |s| - i, 3
  {
    hide ParseNumber, ParseString, Expect, JsonParse.ParseArray, JsonParse.ParseObject, At, NumberText, NumberValue,
         ElementsText, MembersText, ElementsValue, MembersValue, ElementsHeight, MembersHeight;
    AtOne(s, i - 1, ch);
    if ch == 0x7B {
      t := ObjectDerived(c, s, i, depth);
    } else if ch == 0x5B {
      t := ArrayDerived(c, s, i, depth);
    } else {
      t := FlatDerived(c, s, i, ch, depth);
    }
  }

  lemma FlatDerived(c: Library, s: Bytes, i: nat, ch: byte, depth: nat) returns (t: Tree)
    requires 0 < i <= |s| && s[i - 1] == ch && ch != 0x7B && ch != 0x5B
    requires ParseToken(c, STANDARD, s, i, ch, depth).Ok?
    ensures var r := ParseToken(c, STANDARD, s, i, ch, depth);
            && TreeOk(t) && At(s, i - 1, Text(t)) && r.value == Value(c, t) && r.next == i - 1 + |Text(t)|
            && Height(t) == 0
  {
    hide LexNumber, ParseString, NumberText, NumberValue, ItemsText, StringValue;
    if ch == 0x2D || IsDigit(ch) {
      LexNumberText(s, i - 1);
      LexNumberOk(s, i - 1);
      t := NumberTree(LexNumber(s, i - 1).value);
    } else if ch == QUOTE {
      var xs := StringDerived(s, i);
      t := StringTree(xs);
      AtOne(s, i - 1, QUOTE);
      AtSplit(s, i - 1, [QUOTE], ItemsText(xs) + [QUOTE]);
    } else {
      t := if ch == 0x74 then TrueTree else if ch == 0x66 then FalseTree else NullTree;
    }
  }

  // ---------- arrays ----------

  /** Whitespace before the first element goes with the element. */
  function Indented(w: Bytes, e: Elements): Elements {
    e.(before := w + e.before)
  }

  lemma IndentedElements(c: Library, w: Bytes, e: Elements)
    requires AllWhitespace(w) && ElementsOk(e)
    ensures ElementsOk(Indented(w, e)) && ElementsText(Indented(w, e)) == w + ElementsText(e)
    ensures ElementsValue(c, Indented(w, e)) == ElementsValue(c, e)
    ensures ElementsHeight(Indented(w, e)) == ElementsHeight(e)
  {
  }

  lemma {:induction false} ArrayDerived(c: Library, s: Bytes, i: nat, depth: nat) returns (t: Tree)
    requires 0 < i <= |s| && At(s, i - 1, [0x5B]) && depth <= MAX_DEPTH
    requires JsonParse.ParseArray(c, STANDARD, s, i, depth).Ok?
    ensures var r := JsonParse.ParseArray(c, STANDARD, s, i, depth);
            && TreeOk(t) && At(s, i - 1, Text(t)) && r.value == Value(c, t) && r.next == i - 1 + |Text(t)|
            && depth + Height(t) <= MAX_DEPTH
    decreases |s| - i, 2
  {
    hide NextToken, At, ParseElements, ElementsText, ElementsOk, ElementsValue, ElementsHeight;
    var w := TokenDerived(s, i);
    var ch, j := NextToken(STANDARD, s, i).value, NextToken(STANDARD, s, i).next;
    if ch == 0x5D {
      t := EmptyArray(w);
      AtSplit(s, i, w, [0x5D]);
      AtSplit(s, i - 1, [0x5B], w + [0x5D]);
    } else {
      var e := ElementsDerived(c, s, j - 1, depth);
      IndentedElements(c, w, e);
      AtSplit(s, i, w, ElementsText(e));
      AtSplit(s, i - 1, [0x5B], ElementsText(Indented(w, e)));
      t := ArrayTree(Indented(w, e));
    }
  }

  lemma {:induction false} ElementsDerived(c: Library, s: Bytes, i: nat, depth: nat) returns (e: Elements)
    requires i <= |s| && ParseElements(c, STANDARD, s, i, depth).Ok?
    ensures var r := ParseElements(c, STANDARD, s, i, depth);
            && ElementsOk(e) && At(s, i, ElementsText(e)) && r.value == ElementsValue(c, e)
            && r.next == i + |ElementsText(e)| && depth + 1 + ElementsHeight(e) <= MAX_DEPTH
    decreases |s| - i, 1
  {
    hide ParseValue, NextToken, At, Text, TreeOk, Value, Height;
    var before, t := ValueDerived(c, s, i, depth + 1);
    var j := ParseValue(c, STANDARD, s, i, depth + 1).next;
    var after := TokenDerived(s, j);
    var ch, k := NextToken(STANDARD, s, j).value, NextToken(STANDARD, s, j).next;
    if ch == 0x5D {
      e := LastElement(before, t, after);
      AtSplit(s, j, after, [0x5D]);
      AtSplit(s, i + |before|, Text(t), after + [0x5D]);
      AtSplit(s, i, before, Text(t) + (after + [0x5D]));
    } else {
      var w := TokenDerived(s, k);
      var rest := ElementsDerived(c, s, NextToken(STANDARD, s, k).next - 1, depth);
      hide ElementsText, ElementsTail, ElementsOk, ElementsValue, ElementsHeight;
      IndentedElements(c, w, rest);
      AtSplit(s, k, w, ElementsText(rest));
      e := Element(before, t, after, Indented(w, rest));
      ElementsCons(c, s, i, j, k, e, depth);
    }
  }

  /** An element in front of others. */
  lemma ElementsCons(c: Library, s: Bytes, i: nat, j: nat, k: nat, e: Elements, depth: nat)
    requires e.Element? && AllWhitespace(e.before) && TreeOk(e.tree) && AllWhitespace(e.after) && ElementsOk(e.rest)
    requires At(s, i, e.before) && At(s, i + |e.before|, Text(e.tree)) && j == i + |e.before| + |Text(e.tree)|
    requires At(s, j, e.after) && At(s, j + |e.after|, [0x2C]) && k == j + |e.after| + 1
    requires At(s, k, ElementsText(e.rest))
    requires depth + 1 + Height(e.tree) <= MAX_DEPTH && depth + 1 + ElementsHeight(e.rest) <= MAX_DEPTH
    ensures ElementsOk(e) && At(s, i, ElementsText(e)) && k + |ElementsText(e.rest)| == i + |ElementsText(e)|
    ensures ElementsValue(c, e) == [Value(c, e.tree)] + ElementsValue(c, e.rest)
    ensures depth + 1 + ElementsHeight(e) <= MAX_DEPTH
  {
    hide At, Text, Height, TreeOk;
    AtSplit(s, k - 1, [0x2C], ElementsText(e.rest));
    AtSplit(s, j, e.after, [0x2C] + ElementsText(e.rest));
    AtSplit(s, i + |e.before|, Text(e.tree), e.after + ([0x2C] + ElementsText(e.rest)));
    AtSplit(s, i, e.before, ElementsTail(e));
  }

  // ---------- objects ----------

  lemma IndentedMembers(c: Library, w: Bytes, m: Members, data: Fields)
    requires AllWhitespace(w) && MembersOk(m)
    ensures var m' := m.(w0 := w);
            && MembersOk(m') && MembersText(m') == w + ([QUOTE] + MembersTail(m))
            && MembersValue(c, m', data) == MembersValue(c, m, data) && MembersHeight(m') == MembersHeight(m)
  {
  }

  lemma {:induction false} ObjectDerived(c: Library, s: Bytes, i: nat, depth: nat) returns (t: Tree)
    requires 0 < i <= |s| && At(s, i - 1, [0x7B]) && depth <= MAX_DEPTH
    requires JsonParse.ParseObject(c, STANDARD, s, i, depth).Ok?
    ensures var r := JsonParse.ParseObject(c, STANDARD, s, i, depth);
            && TreeOk(t) && At(s, i - 1, Text(t)) && r.value == Value(c, t) && r.next == i - 1 + |Text(t)|
            && depth + Height(t) <= MAX_DEPTH
    decreases |s| - i, 2
  {
    hide NextToken, At, ParseMembers, MembersText, MembersTail, MembersOk, MembersValue, MembersHeight;
    var w := TokenDerived(s, i);
    var ch, j := NextToken(STANDARD, s, i).value, NextToken(STANDARD, s, i).next;
    if ch == 0x7D {
      t := EmptyObject(w);
      AtSplit(s, i, w, [0x7D]);
      AtSplit(s, i - 1, [0x7B], w + [0x7D]);
    } else {
      var m := MembersDerived(c, s, j, ch, depth, []);
      IndentedMembers(c, w, m, []);
      AtSplit(s, i + |w|, [QUOTE], MembersTail(m));
      AtSplit(s, i, w, [QUOTE] + MembersTail(m));
      AtSplit(s, i - 1, [0x7B], MembersText(m.(w0 := w)));
      t := ObjectTree(m.(w0 := w));
    }
  }

  lemma {:induction false} MembersDerived(c: Library, s: Bytes, i: nat, ch: byte, depth: nat, data: Fields)
    returns (m: Members)
    requires i <= |s| && ParseMembers(c, STANDARD, s, i, ch, depth, data).Ok?
    ensures var r := ParseMembers(c, STANDARD, s, i, ch, depth, data);
            && ch == QUOTE && MembersOk(m) && At(s, i, MembersTail(m)) && r.value == MembersValue(c, m, data)
            && r.next == i + |MembersTail(m)| && depth + 1 + MembersHeight(m) <= MAX_DEPTH
    decreases |s| - i, 1
  {
    hide ParseValue, NextToken, ParseString, At, Text, TreeOk, Value, Height, ItemsText, StringValue, Put;
    var name := StringDerived(s, i);
    var j := ParseString(s, i).next;
    var w1 := TokenDerived(s, j);
    var k := NextToken(STANDARD, s, j).next;
    var w2, t := ValueDerived(c, s, k, depth + 1);
    var n := ParseValue(c, STANDARD, s, k, depth + 1).next;
    var w3 := TokenDerived(s, n);
    var o := NextToken(STANDARD, s, n).next;
    if NextToken(STANDARD, s, n).value == 0x7D {
      m := LastMember([], name, w1, w2, t, w3);
      MemberAt(s, i, j, k, n, m, [0x7D]);
    } else {
      var w := TokenDerived(s, o);
      var data' := Put(data, StringValue(name), Value(c, t));
      var next := NextToken(STANDARD, s, o);
      var rest := MembersDerived(c, s, next.next, next.value, depth, data');
      hide MembersText, MembersTail, MembersOk, MembersValue, MembersHeight;
      IndentedMembers(c, w, rest, data');
      AtSplit(s, o + |w|, [QUOTE], MembersTail(rest));
      AtSplit(s, o, w, [QUOTE] + MembersTail(rest));
      m := Member([], name, w1, w2, t, w3, rest.(w0 := w));
      MembersCons(c, s, i, j, k, n, o, m, depth, data);
    }
  }

  /** The text of a member from the text of its parts. */
  lemma MemberAt(s: Bytes, i: nat, j: nat, k: nat, n: nat, m: Members, rest: Bytes)
    requires At(s, i, ItemsText(m.name) + [QUOTE]) && j == i + |ItemsText(m.name)| + 1
    requires At(s, j, m.w1) && At(s, j + |m.w1|, [0x3A]) && k == j + |m.w1| + 1
    requires At(s, k, m.w2) && At(s, k + |m.w2|, Text(m.tree)) && n == k + |m.w2| + |Text(m.tree)|
    requires At(s, n, m.w3) && At(s, n + |m.w3|, rest)
    requires rest == if m.Member? then [0x2C] + MembersText(m.rest) else [0x7D]
    ensures At(s, i, MembersTail(m)) && n + |m.w3| + |rest| == i + |MembersTail(m)|
  {
    hide At, Text, ItemsText, MembersText;
    var r3 := m.w3 + rest;
    var r2 := Text(m.tree) + r3;
    var r1 := m.w2 + r2;
    AtSplit(s, n, m.w3, rest);
    AtSplit(s, k + |m.w2|, Text(m.tree), r3);
    AtSplit(s, k, m.w2, r2);
    AtSplit(s, k - 1, [0x3A], r1);
    AtSplit(s, j, m.w1, [0x3A] + r1);
    AtSplit(s, i, ItemsText(m.name) + [QUOTE], m.w1 + ([0x3A] + r1));
  }

  /** A member in front of others. */
  lemma MembersCons(c: Library, s: Bytes, i: nat, j: nat, k: nat, n: nat, o: nat, m: Members, depth: nat, data: Fields)
    requires m.Member? && AllWhitespace(m.w0) && ItemsOk(m.name) && AllWhitespace(m.w1) && AllWhitespace(m.w2)
    requires TreeOk(m.tree) && AllWhitespace(m.w3) && MembersOk(m.rest)
    requires At(s, i, ItemsText(m.name) + [QUOTE]) && j == i + |ItemsText(m.name)| + 1
    requires At(s, j, m.w1) && At(s, j + |m.w1|, [0x3A]) && k == j + |m.w1| + 1
    requires At(s, k, m.w2) && At(s, k + |m.w2|, Text(m.tree)) && n == k + |m.w2| + |Text(m.tree)|
    requires At(s, n, m.w3) && At(s, n + |m.w3|, [0x2C]) && o == n + |m.w3| + 1 && At(s, o, MembersText(m.rest))
    requires depth + 1 + Height(m.tree) <= MAX_DEPTH && depth + 1 + MembersHeight(m.rest) <= MAX_DEPTH
    ensures MembersOk(m) && At(s, i, MembersTail(m)) && o + |MembersText(m.rest)| == i + |MembersTail(m)|
    ensures MembersValue(c, m, data) == MembersValue(c, m.rest, Put(data, StringValue(m.name), Value(c, m.tree)))
    ensures depth + 1 + MembersHeight(m) <= MAX_DEPTH
  {
    hide At, Text, TreeOk, Height, ItemsText, MembersTail, MembersText;
    AtSplit(s, o - 1, [0x2C], MembersText(m.rest));
    MemberAt(s, i, j, k, n, m, [0x2C] + MembersText(m.rest));
  }

  // ---------- whole texts ----------

  lemma TextIsThere(s: Bytes, before: Bytes, t: Tree, after: Bytes)
    requires IsTextOf(s, before, t, after)
    ensures At(s, 0, before) && At(s, |before|, Text(t)) && At(s, |before| + |Text(t)|, after)
    ensures |s| == |before| + |Text(t)| + |after| && EndsNumber(s, |before| + |Text(t)|)
  {
  }

  lemma ParseEnds(c: Library, s: Bytes, v: Json, j: nat, after: Bytes)
    requires ParseValue(c, STANDARD, s, 0, 0) == Ok(v, j)
    requires AllWhitespace(after) && At(s, j, after) && j + |after| == |s|
    ensures Parse(c, STANDARD, s) == Ok(v, |s|)
  {
    hide ParseValue;
    SkipsWhitespace(s, j, after);
  }

  /** On a JSON text Json::parse gives its value, unless the nesting is too deep. */
  lemma ParsesTexts(c: Library, s: Bytes, before: Bytes, t: Tree, after: Bytes)
    requires IsTextOf(s, before, t, after)
    ensures TreeOk(t) && Parse(c, STANDARD, s) == if Height(t) <= 200 then Ok(Value(c, t), |s|) else Err(TooDeep)
  {
    hide ParseValue, Text, Value, TreeOk, Height, At, EndsNumber;
    TextIsThere(s, before, t, after);
    ReadsValue(c, s, 0, before, t, 0);
    if Height(t) <= MAX_DEPTH {
      hide Parse;
      ParseEnds(c, s, Value(c, t), |before| + |Text(t)|, after);
    }
  }

  lemma TextFound(s: Bytes, before: Bytes, t: Tree, j: nat)
    requires AllWhitespace(before) && TreeOk(t) && At(s, 0, before) && At(s, |before|, Text(t))
    requires j == |before| + |Text(t)| && AllWhitespace(s[j..])
    ensures IsTextOf(s, before, t, s[j..])
  {
  }

  /** What Json::parse accepts is a JSON text. */
  lemma AcceptsOnlyTexts(c: Library, s: Bytes) returns (before: Bytes, t: Tree, after: Bytes)
    requires Parse(c, STANDARD, s).Ok?
    ensures IsTextOf(s, before, t, after) && Height(t) <= 200
    ensures Parse(c, STANDARD, s) == Ok(Value(c, t), |s|)
  {
    hide ParseValue, Text, Value, TreeOk, Height, IsTextOf, At, AllWhitespace;
    before, t := ValueDerived(c, s, 0, 0);
    var j := ParseValue(c, STANDARD, s, 0, 0).next;
    SkipsOnlyWhitespace(s, j);
    after := s[j..];
    assert s[j..|s|] == after;
    TextFound(s, before, t, j);
  }

  /** Json::parse accepts exactly the JSON texts within the depth limit. */
  lemma AcceptsExactlyTexts(c: Library, s: Bytes)
    ensures Parse(c, STANDARD, s).Ok? <==>
            exists before, t, after :: IsTextOf(s, before, t, after) && Height(t) <= 200
  {
    hide Parse, IsTextOf, Height;
    if Parse(c, STANDARD, s).Ok? {
      var before, t, after := AcceptsOnlyTexts(c, s);
    }
    if before, t, after :| IsTextOf(s, before, t, after) && Height(t) <= 200 {
      ParsesTexts(c, s, before, t, after);
    }
  }

  /** A text within the depth limit has one value, whichever way it is derived. */
  lemma ValueIsUnique(c: Library, s: Bytes, before: Bytes, t: Tree, after: Bytes,
                      before': Bytes, t': Tree, after': Bytes)
    requires IsTextOf(s, before, t, after) && IsTextOf(s, before', t', after') && Height(t) <= 200
    ensures Value(c, t) == Value(c, t') && Height(t') <= 200
  {
    hide Parse, Text, TreeOk, Value, Height;
    ParsesTexts(c, s, before, t, after);
    ParsesTexts(c, s, before', t', after');
  }
}
