/**
  Json::parse_multi: reading is local, so that reading the input again up to the stop position gives
  exactly the values before a failure; and a list of values survives printing and reading.
 */
module JsonMulti {
  import opened JsonValue
  import opened Wrappers
  import opened JsonGrammar
  import opened JsonParse
  import opened JsonOrder
  import opened JsonComplete
  import opened JsonSound
  import opened JsonDump

  /** What has been read up to a position does not depend on what comes after it. */
  ghost predicate Local<T>(p: Bytes, r: Result<T>, r': Result<T>) {
    r.Ok? && r.next <= |p| ==> r' == r
  }

  // ---------- between tokens ----------

  lemma {:induction false} WhitespaceIsLocal(s: Bytes, p: Bytes, i: nat)
    requires p <= s && i <= |p|
    ensures SkipWhitespace(s, i) <= |p| ==> SkipWhitespace(p, i) == SkipWhitespace(s, i)
    decreases |p| - i
  {
    if i < |p| && IsWhitespace(s[i]) {
      WhitespaceIsLocal(s, p, i + 1);
    }
  }

  lemma {:induction false} LineEndIsLocal(s: Bytes, p: Bytes, i: nat)
    requires p <= s && i <= |p|
    ensures LineEnd(s, i) <= |p| ==> LineEnd(p, i) == LineEnd(s, i)
    decreases |p| - i
  {
    if i < |p| && s[i] != 0x0A {
      LineEndIsLocal(s, p, i + 1);
    }
  }

  lemma {:induction false} BlockEndIsLocal(s: Bytes, p: Bytes, i: nat)
    requires p <= s && i <= |p|
    ensures Local(p, BlockEnd(s, i), BlockEnd(p, i))
    decreases |p| - i
  {
    if i < |p| {
      BlockEndIsLocal(s, p, i + 1);
    }
  }

  lemma CommentIsLocal(s: Bytes, p: Bytes, i: nat)
    requires p <= s && i <= |p|
    ensures i < |p| ==> Local(p, SkipComment(s, i), SkipComment(p, i))
    ensures i == |p| ==> SkipComment(p, i) == Ok(false, i)
  {
    if i + 2 <= |p| {
      LineEndIsLocal(s, p, i + 2);
      BlockEndIsLocal(s, p, i + 2);
    }
  }

  lemma {:induction false} CommentsAreLocal(s: Bytes, p: Bytes, i: nat)
    requires p <= s && i <= |p|
    ensures Local(p, SkipComments(s, i), SkipComments(p, i))
    decreases |s| - i
  {
    hide SkipComment;
    var r := SkipComments(s, i);
    CommentIsLocal(s, p, i);
    if r.Ok? && r.next <= |p| && i < |p| {
      var j := SkipComment(s, i).next;
      WhitespaceIsLocal(s, p, j);
      if SkipComment(s, i).value {
        CommentsAreLocal(s, p, SkipWhitespace(s, j));
      }
    }
  }

  lemma GarbageIsLocal(mode: Mode, s: Bytes, p: Bytes, i: nat)
    requires p <= s && i <= |p|
    ensures Local(p, SkipGarbage(mode, s, i), SkipGarbage(mode, p, i))
  {
    hide SkipComments;
    WhitespaceIsLocal(s, p, i);
    if SkipWhitespace(s, i) <= |p| {
      CommentsAreLocal(s, p, SkipWhitespace(s, i));
    }
  }

  lemma TokenIsLocal(mode: Mode, s: Bytes, p: Bytes, i: nat)
    requires p <= s && i <= |p|
    ensures Local(p, NextToken(mode, s, i), NextToken(mode, p, i))
  {
    hide SkipGarbage;
    GarbageIsLocal(mode, s, p, i);
  }

  // ---------- strings, numbers and literals ----------

  lemma {:induction false} StringIsLocal(s: Bytes, p: Bytes, i: nat)
    requires p <= s && i <= |p|
    ensures Local(p, LexString(s, i), LexString(p, i))
    decreases |s| - i
  {
    var r := LexString(s, i);
    if r.Ok? && r.next <= |p| && s[i] != QUOTE {
      var j := if s[i] != BACKSLASH then i + 1 else if s[i + 1] == 0x75 then i + 6 else i + 2;
      assert j <= |p|;
      StringIsLocal(s, p, j);
    }
  }

  lemma ParsedStringIsLocal(s: Bytes, p: Bytes, i: nat)
    requires p <= s && i <= |p|
    ensures Local(p, ParseString(s, i), ParseString(p, i))
  {
    hide LexString, StringValue;
    StringIsLocal(s, p, i);
  }

  lemma {:induction false} DigitsAreLocal(s: Bytes, p: Bytes, i: nat)
    requires p <= s && i <= |p|
    ensures var j := DigitsEnd(s, i); j <= |p| ==> DigitsEnd(p, i) == j && p[i..j] == s[i..j]
    decreases |p| - i
  {
    if i < |p| && IsDigit(s[i]) {
      DigitsAreLocal(s, p, i + 1);
      assert forall j :: i <= j <= |p| ==> p[i..j] == s[i..j];
    }
  }

  lemma IntegerIsLocal(s: Bytes, p: Bytes, i: nat)
    requires p <= s && i <= |p|
    ensures Local(p, LexInteger(s, i), LexInteger(p, i))
  {
    if i < |p| {
      DigitsAreLocal(s, p, i + 1);
      assert forall j :: i <= j <= |p| ==> p[i..j] == s[i..j];
    }
  }

  lemma LexDigitsIsLocal(s: Bytes, p: Bytes, i: nat, e: Error)
    requires p <= s && i <= |p|
    ensures Local(p, LexDigits(s, i, e), LexDigits(p, i, e))
  {
    DigitsAreLocal(s, p, i);
  }

  lemma FractionIsLocal(s: Bytes, p: Bytes, i: nat)
    requires p <= s && i <= |p|
    ensures Local(p, LexFraction(s, i), LexFraction(p, i))
  {
    hide LexDigits;
    if i < |p| {
      LexDigitsIsLocal(s, p, i + 1, NoFractionDigits);
    }
  }

  lemma ExponentIsLocal(s: Bytes, p: Bytes, i: nat)
    requires p <= s && i <= |p|
    ensures Local(p, LexExponent(s, i), LexExponent(p, i))
  {
    hide LexDigits;
    if i < |p| && IsMark(s[i]) {
      LexDigitsIsLocal(s, p, i + 1, NoExponentDigits);
      if i + 2 <= |p| {
        LexDigitsIsLocal(s, p, i + 2, NoExponentDigits);
      }
    }
  }

  lemma NumberIsLocal(s: Bytes, p: Bytes, i: nat)
    requires p <= s && i <= |p|
    ensures Local(p, LexNumber(s, i), LexNumber(p, i))
  {
    hide LexInteger, LexFraction, LexExponent;
    var r := LexNumber(s, i);
    if r.Ok? && r.next <= |p| {
      var i' := if Char(s, i) == 0x2D then i + 1 else i;
      var j := LexInteger(s, i').next;
      var k := LexFraction(s, j).next;
      IntegerIsLocal(s, p, i');
      FractionIsLocal(s, p, j);
      ExponentIsLocal(s, p, k);
    }
  }

  lemma LiteralIsLocal(s: Bytes, p: Bytes, i: nat, t: Bytes)
    requires p <= s && i + |t| <= |p|
    ensures Matches(p, i, t) == Matches(s, i, t)
  {
  }

  // ---------- values ----------

  lemma {:induction false} ValueIsLocal(c: Library, mode: Mode, s: Bytes, p: Bytes, i: nat, depth: nat)
    requires p <= s && i <= |p|
    ensures Local(p, ParseValue(c, mode, s, i, depth), ParseValue(c, mode, p, i, depth))
    decreases |s| - i, 0
  {
    hide NextToken, ParseToken;
    var r := ParseValue(c, mode, s, i, depth);
    if r.Ok? && r.next <= |p| {
      TokenIsLocal(mode, s, p, i);
      TokenValueIsLocal(c, mode, s, p, NextToken(mode, s, i).next, NextToken(mode, s, i).value, depth);
    }
  }

  lemma {:induction false} TokenValueIsLocal(c: Library, mode: Mode, s: Bytes, p: Bytes, i: nat, ch: byte, depth: nat)
    requires p <= s && 0 < i <= |p|
    ensures Local(p, ParseToken(c, mode, s, i, ch, depth), ParseToken(c, mode, p, i, ch, depth))
    decreases |s| - i, 3
  {
    hide LexNumber, ParseString, JsonParse.ParseObject, JsonParse.ParseArray, Matches;
    var r := ParseToken(c, mode, s, i, ch, depth);
    if r.Ok? && r.next <= |p| {
      if ch == 0x2D || IsDigit(ch) {
        NumberIsLocal(s, p, i - 1);
      } else if ch == 0x74 || ch == 0x66 || ch == 0x6E {
        LiteralIsLocal(s, p, i - 1, if ch == 0x74 then TRUE_TEXT else if ch == 0x66 then FALSE_TEXT else NULL_TEXT);
      } else if ch == QUOTE {
        ParsedStringIsLocal(s, p, i);
      } else if ch == 0x7B {
        ObjectIsLocal(c, mode, s, p, i, depth);
      } else {
        ArrayIsLocal(c, mode, s, p, i, depth);
      }
    }
  }

  lemma {:induction false} ArrayIsLocal(c: Library, mode: Mode, s: Bytes, p: Bytes, i: nat, depth: nat)
    requires p <= s && i <= |p|
    ensures Local(p, JsonParse.ParseArray(c, mode, s, i, depth), JsonParse.ParseArray(c, mode, p, i, depth))
    decreases |s| - i, 2
  {
    hide NextToken, ParseElements;
    var r := JsonParse.ParseArray(c, mode, s, i, depth);
    if r.Ok? && r.next <= |p| {
      var j := NextToken(mode, s, i).next;
      if NextToken(mode, s, i).value != 0x5D {
        ElementsAreLocal(c, mode, s, p, j - 1, depth);
      }
      TokenIsLocal(mode, s, p, i);
    }
  }

  lemma {:induction false} ElementsAreLocal(c: Library, mode: Mode, s: Bytes, p: Bytes, i: nat, depth: nat)
    requires p <= s && i <= |p|
    ensures Local(p, ParseElements(c, mode, s, i, depth), ParseElements(c, mode, p, i, depth))
    decreases |s| - i, 1
  {
    hide NextToken, ParseValue;
    var r := ParseElements(c, mode, s, i, depth);
    if r.Ok? && r.next <= |p| {
      var j := ParseValue(c, mode, s, i, depth + 1).next;
      var k := NextToken(mode, s, j).next;
      if NextToken(mode, s, j).value == 0x2C {
        var m := NextToken(mode, s, k).next;
        ElementsAreLocal(c, mode, s, p, m - 1, depth);
        TokenIsLocal(mode, s, p, k);
      }
      TokenIsLocal(mode, s, p, j);
      ValueIsLocal(c, mode, s, p, i, depth + 1);
    }
  }

  lemma {:induction false} ObjectIsLocal(c: Library, mode: Mode, s: Bytes, p: Bytes, i: nat, depth: nat)
    requires p <= s && i <= |p|
    ensures Local(p, JsonParse.ParseObject(c, mode, s, i, depth), JsonParse.ParseObject(c, mode, p, i, depth))
    decreases |s| - i, 2
  {
    hide NextToken, ParseMembers;
    var r := JsonParse.ParseObject(c, mode, s, i, depth);
    if r.Ok? && r.next <= |p| {
      var ch, j := NextToken(mode, s, i).value, NextToken(mode, s, i).next;
      if ch != 0x7D {
        MembersAreLocal(c, mode, s, p, j, ch, depth, []);
      }
      TokenIsLocal(mode, s, p, i);
    }
  }

  lemma {:induction false} MembersAreLocal(c: Library, mode: Mode, s: Bytes, p: Bytes, i: nat, ch: byte, depth: nat,
                                           data: Fields)
    requires p <= s && i <= |p|
    ensures Local(p, ParseMembers(c, mode, s, i, ch, depth, data), ParseMembers(c, mode, p, i, ch, depth, data))
    decreases |s| - i, 1
  {
    hide NextToken, ParseValue, ParseString, Put;
    var r := ParseMembers(c, mode, s, i, ch, depth, data);
    if r.Ok? && r.next <= |p| {
      var key, j := ParseString(s, i).value, ParseString(s, i).next;
      var k := NextToken(mode, s, j).next;
      var v, m := ParseValue(c, mode, s, k, depth + 1).value, ParseValue(c, mode, s, k, depth + 1).next;
      var n := NextToken(mode, s, m).next;
      if NextToken(mode, s, m).value == 0x2C {
        var next := NextToken(mode, s, n);
        MembersAreLocal(c, mode, s, p, next.next, next.value, depth, Put(data, key, v));
        TokenIsLocal(mode, s, p, n);
      }
      ParsedStringIsLocal(s, p, i);
      TokenIsLocal(mode, s, p, j);
      ValueIsLocal(c, mode, s, p, k, depth + 1);
      TokenIsLocal(mode, s, p, m);
    }
  }

  // ---------- reading again up to the stop position ----------

  /** The values before the failure, if there was one; the last in the list is then not one of them. */
  function Good(m: Multi): seq<Json> {
    if m.err.None? || m.values == [] then m.values else m.values[..|m.values| - 1]
  }

  lemma {:induction false} StopsBeforeFailure(c: Library, mode: Mode, s: Bytes, i: nat, values: seq<Json>)
    requires i <= |s|
    ensures var m := MultiFrom(c, mode, s, i, values, i);
            && i <= m.stop <= |s| && |m.values| >= |values| + (if m.err.Some? then 1 else 0)
            && MultiFrom(c, mode, s[..m.stop], i, values, i) == Multi(Good(m), m.stop, None)
    decreases |s| - i
  {
    hide ParseValue, SkipGarbage, FailedValue;
    var m := MultiFrom(c, mode, s, i, values, i);
    if i < |s| && ParseValue(c, mode, s, i, 0).Ok? {
      var v, j := ParseValue(c, mode, s, i, 0).value, ParseValue(c, mode, s, i, 0).next;
      if SkipGarbage(mode, s, j).Ok? {
        var k := SkipGarbage(mode, s, j).next;
        StopsBeforeFailure(c, mode, s, k, values + [v]);
        var p := s[..m.stop];
        ValueIsLocal(c, mode, s, p, i, 0);
        GarbageIsLocal(mode, s, p, j);
      } else {
        assert Good(m) == values;
      }
    } else if i < |s| {
      assert Good(m) == values;
    }
  }

  /** Reading the input again up to the stop position succeeds with exactly the values before the failure. */
  lemma PrefixReplays(c: Library, mode: Mode, s: Bytes)
    ensures var m := MultiFrom(c, mode, s, 0, [], 0);
            m.stop <= |s| && MultiFrom(c, mode, s[..m.stop], 0, [], 0) == Multi(Good(m), m.stop, None)
  {
    hide MultiFrom;
    StopsBeforeFailure(c, mode, s, 0, []);
  }

  // ---------- printed lists ----------

  /** Printed values with a space after each but the last. */
  function Joined(c: Library, vs: seq<Json>): Bytes {
    if vs == [] then [] else Dumped(c, vs[0]) + if |vs| == 1 then [] else [SPACE] + Joined(c, vs[1..])
  }

  ghost predicate ReadBack(vs: seq<Json>, rs: seq<Json>) {
    |rs| == |vs| && forall k :: 0 <= k < |vs| ==> (Eq(vs[k], rs[k]) <==> AllFinite(vs[k]))
  }

  /** What is between a printed value and the next. */
  lemma JoinEnds(c: Library, s: Bytes, j: nat, vs: seq<Json>)
    requires vs != [] && Exact(c) && (|vs| > 1 ==> Representable(c, vs[1]))
    requires At(s, j, if |vs| == 1 then [] else [SPACE] + Joined(c, vs[1..]))
    requires j + (if |vs| == 1 then 0 else 1 + |Joined(c, vs[1..])|) == |s|
    ensures EndsNumber(s, j) && At(s, j, [])
    ensures var k := if |vs| == 1 then j else j + 1;
            SkipGarbage(STANDARD, s, j) == Ok((), k) && At(s, k, Joined(c, vs[1..])) && k + |Joined(c, vs[1..])| == |s|
  {
    hide Exact, Representable, Printed, Text, TreeOk, At, Height, Nesting, Value, Eq, AllFinite;
    AtNothing(s, j);
    if |vs| == 1 {
      assert vs[1..] == [];
    } else {
      var rest := Joined(c, vs[1..]);
      AtSplit(s, j, [SPACE], rest);
      AtOne(s, j, SPACE);
      PrintedIsDerivation(c, vs[1]);
      TextStarts(Printed(c, vs[1]));
      assert vs[1..][0] == vs[1];
      AtHead(s, j + 1, rest);
      SkipsWhitespace(s, j, [SPACE]);
    }
  }

  /** The first of the printed values is read, and the space after it. */
  lemma FirstReads(c: Library, s: Bytes, i: nat, vs: seq<Json>) returns (v: Json, j: nat, k: nat)
    requires vs != [] && Exact(c) && Representable(c, vs[0]) && Nesting(vs[0]) <= MAX_DEPTH
    requires |vs| > 1 ==> Representable(c, vs[1])
    requires At(s, i, Joined(c, vs)) && i + |Joined(c, vs)| == |s|
    ensures i < j <= k <= |s|
    ensures ParseValue(c, STANDARD, s, i, 0) == Ok(v, j) && SkipGarbage(STANDARD, s, j) == Ok((), k)
    ensures Eq(vs[0], v) <==> AllFinite(vs[0])
    ensures At(s, k, Joined(c, vs[1..])) && k + |Joined(c, vs[1..])| == |s|
  {
    hide Exact, Representable, Nesting, AllFinite, Eq, Printed, Text, TreeOk, Height, Value, At, EndsNumber,
         ParseValue, SkipGarbage;
    var t := Printed(c, vs[0]);
    PrintedIsDerivation(c, vs[0]);
    TextStarts(t);
    AtSplit(s, i, Text(t), if |vs| == 1 then [] else [SPACE] + Joined(c, vs[1..]));
    j := i + |Text(t)|;
    JoinEnds(c, s, j, vs);
    AtNothing(s, i);
    ReadsValue(c, s, i, [], t, 0);
    k := SkipGarbage(STANDARD, s, j).next;
    v := Value(c, t);
  }

  lemma MultiStep(c: Library, mode: Mode, s: Bytes, i: nat, values: seq<Json>, v: Json, j: nat, k: nat)
    requires i < |s| && ParseValue(c, mode, s, i, 0) == Ok(v, j) && SkipGarbage(mode, s, j) == Ok((), k)
    ensures MultiFrom(c, mode, s, i, values, i) == MultiFrom(c, mode, s, k, values + [v], k)
  {
  }

  lemma ReadBackCons(vs: seq<Json>, v: Json, rest: seq<Json>)
    requires vs != [] && (Eq(vs[0], v) <==> AllFinite(vs[0])) && ReadBack(vs[1..], rest)
    ensures ReadBack(vs, [v] + rest)
  {
  }

  /** A value nested too deeply fails at its first token, which is a bracket or a brace. */
  lemma DeepFails(c: Library, s: Bytes, i: nat, vs: seq<Json>)
    requires vs != [] && Exact(c) && Representable(c, vs[0]) && Nesting(vs[0]) > MAX_DEPTH
    requires |vs| > 1 ==> Representable(c, vs[1])
    requires At(s, i, Joined(c, vs)) && i + |Joined(c, vs)| == |s|
    ensures i < |s| && ParseValue(c, STANDARD, s, i, 0) == Err(TooDeep) && FailedValue(STANDARD, s, i, 0) == Null
  {
    hide Exact, Representable, AllFinite, Eq, Height, Value, At, EndsNumber, ParseValue, SkipGarbage, TreeOk,
         Text, NextToken, Printed;
    var t := Printed(c, vs[0]);
    PrintedIsDerivation(c, vs[0]);
    TextStarts(t);
    AtSplit(s, i, Text(t), if |vs| == 1 then [] else [SPACE] + Joined(c, vs[1..]));
    JoinEnds(c, s, i + |Text(t)|, vs);
    AtNothing(s, i);
    ReadsValue(c, s, i, [], t, 0);
    DeepStarts(c, vs[0]);
    AtHead(s, i, Text(t));
    AtOne(s, i, Text(t)[0]);
    ReadsToken(s, i, [], Text(t)[0]);
  }

  lemma DeepStarts(c: Library, v: Json)
    requires Nesting(v) > MAX_DEPTH
    ensures Dumped(c, v) != [] && (Dumped(c, v)[0] == 0x5B || Dumped(c, v)[0] == 0x7B)
  {
  }

  /** Where the first value nested too deeply is; the length of the list without one. */
  function FirstDeep(vs: seq<Json>): (d: nat)
    ensures d <= |vs| && (d < |vs| ==> Nesting(vs[d]) > 200)
    ensures forall k :: 0 <= k < d ==> Nesting(vs[k]) <= 200
  {
    if vs == [] || Nesting(vs[0]) > 200 then 0 else 1 + FirstDeep(vs[1..])
  }

  /** What reading a printed list gives, from the values `rs` read back before the first one nested too deeply. */
  ghost function ListOutcome(c: Library, vs: seq<Json>, values: seq<Json>, end: nat): Multi
    requires |Joined(c, vs)| <= end
  {
    var d := FirstDeep(vs);
    if d == |vs| then Multi(values, end, None)
    else
      JoinedShrinks(c, vs, d);
      Multi(values + [Null], end - |Joined(c, vs[d..])|, Some(TooDeep))
  }

  lemma {:induction false} JoinedShrinks(c: Library, vs: seq<Json>, d: nat)
    requires d <= |vs|
    ensures |Joined(c, vs[d..])| <= |Joined(c, vs)|
    decreases d
  {
    hide Dumped;
    if d == 0 {
      assert vs[0..] == vs;
    } else {
      assert vs[1..][d - 1..] == vs[d..];
      JoinedShrinks(c, vs[1..], d - 1);
    }
  }

  lemma OutcomeStep(c: Library, vs: seq<Json>, values: seq<Json>, end: nat)
    requires vs != [] && Nesting(vs[0]) <= MAX_DEPTH && |Joined(c, vs)| <= end
    ensures FirstDeep(vs) == 1 + FirstDeep(vs[1..]) && |Joined(c, vs[1..])| <= end
    ensures ListOutcome(c, vs, values, end) == ListOutcome(c, vs[1..], values, end)
  {
    hide Dumped, Nesting;
    JoinedShrinks(c, vs, 1);
    assert vs[1..][FirstDeep(vs) - 1..] == vs[FirstDeep(vs)..];
  }

  lemma {:induction false} JoinedReads(c: Library, s: Bytes, i: nat, vs: seq<Json>, values: seq<Json>)
    returns (rs: seq<Json>)
    requires Exact(c) && forall k :: 0 <= k < |vs| ==> Representable(c, vs[k])
    requires At(s, i, Joined(c, vs)) && i + |Joined(c, vs)| == |s|
    ensures ReadBack(vs[..FirstDeep(vs)], rs)
    ensures MultiFrom(c, STANDARD, s, i, values, i) == ListOutcome(c, vs, values + rs, |s|)
    decreases |vs|
  {
    if vs == [] {
      rs := [];
      assert values + [] == values;
    } else if Nesting(vs[0]) > MAX_DEPTH {
      hide Exact, Representable, Nesting, At, ParseValue, FailedValue, Joined;
      rs := [];
      assert values + [] == values && vs[0..] == vs;
      DeepFails(c, s, i, vs);
    } else {
      hide *;
      var v, j, k := FirstReads(c, s, i, vs);
      MultiStep(c, STANDARD, s, i, values, v, j, k);
      var rest := JoinedReads(c, s, k, vs[1..], values + [v]);
      rs := [v] + rest;
      JoinedCons(c, vs, values, v, rest, |s|);
    }
  }

  lemma JoinedCons(c: Library, vs: seq<Json>, values: seq<Json>, v: Json, rest: seq<Json>, end: nat)
    requires vs != [] && Nesting(vs[0]) <= MAX_DEPTH && |Joined(c, vs)| <= end
    requires (Eq(vs[0], v) <==> AllFinite(vs[0])) && ReadBack(vs[1..][..FirstDeep(vs[1..])], rest)
    ensures ReadBack(vs[..FirstDeep(vs)], [v] + rest) && |Joined(c, vs[1..])| <= end
    ensures ListOutcome(c, vs, values + ([v] + rest), end) == ListOutcome(c, vs[1..], values + [v] + rest, end)
  {
    hide Eq, AllFinite, Nesting, Joined, ReadBack, FirstDeep, ListOutcome;
    assert values + [v] + rest == values + ([v] + rest);
    OutcomeStep(c, vs, values + ([v] + rest), end);
    var d := FirstDeep(vs);
    assert vs[..d][1..] == vs[1..][..d - 1] && vs[..d][0] == vs[0];
    ReadBackCons(vs[..d], v, rest);
  }

  /**
    Values printed one after the other with spaces between them are read back as the same list, up to
    the first that is nested too deeply. Reading stops in front of that one.
   */
  lemma PrintedListReads(c: Library, vs: seq<Json>)
    requires Exact(c) && forall k :: 0 <= k < |vs| ==> Representable(c, vs[k])
    ensures var m, d := MultiFrom(c, STANDARD, Joined(c, vs), 0, [], 0), FirstDeep(vs);
            && ReadBack(vs[..d], Good(m))
            && if d == |vs| then m.err == None && m.stop == |Joined(c, vs)|
               else
                 && m.err == Some(TooDeep) && m.stop == |Joined(c, vs)| - |Joined(c, vs[d..])|
                 && m.values == Good(m) + [Null]
  {
    hide Exact, Representable, Nesting, Joined, MultiFrom, ReadBack, FirstDeep;
    assert At(Joined(c, vs), 0, Joined(c, vs));
    var rs := JoinedReads(c, Joined(c, vs), 0, vs, []);
    assert [] + rs == rs;
    assert (rs + [Null])[..|rs|] == rs;
  }
}
