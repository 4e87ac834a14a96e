/**
  The inputs that Json::parse_multi reads without an error, in STANDARD mode: values of the grammar one
  after the other. In either mode, where it stops and what it leaves behind when it fails.
 */
module JsonStream {
  import opened JsonValue
  import opened Wrappers
  import opened JsonGrammar
  import opened JsonParse
  import opened JsonComplete
  import opened JsonSound
  import opened JsonMulti

  /** A value and the whitespace after it. */
  datatype Part = Part(tree: Tree, after: Bytes)

  function StreamText(parts: seq<Part>): Bytes {
    if parts == [] then [] else Text(parts[0].tree) + (parts[0].after + StreamText(parts[1..]))
  }

  ghost predicate PartOk(p: Part) {
    TreeOk(p.tree) && AllWhitespace(p.after) && Height(p.tree) <= 200
  }

  /** Between a number and a digit there is whitespace. */
  ghost predicate Apart(p: Part, next: Part) {
    p.tree.NumberTree? && p.after == [] && Text(next.tree) != [] ==> !(0x30 <= Text(next.tree)[0] <= 0x39)
  }

  ghost predicate PartsOk(parts: seq<Part>) {
    && (forall k :: 0 <= k < |parts| ==> PartOk(parts[k]))
    && forall k :: 0 < k < |parts| ==> Apart(parts[k - 1], parts[k])
  }

  /** Optional whitespace, then values, each followed by whitespace, and no number runs into the next. */
  ghost predicate IsStream(s: Bytes, before: Bytes, parts: seq<Part>) {
    parts != [] && AllWhitespace(before) && PartsOk(parts) && s == before + StreamText(parts)
  }

  function StreamValues(c: Library, parts: seq<Part>): seq<Json>
    requires forall k :: 0 <= k < |parts| ==> TreeOk(parts[k].tree)
  {
    seq(|parts|, k requires 0 <= k < |parts| => Value(c, parts[k].tree))
  }

  // ---------- streams are read ----------

  lemma PartsTail(parts: seq<Part>)
    requires PartsOk(parts) && parts != []
    ensures PartsOk(parts[1..]) && PartOk(parts[0]) && (|parts| > 1 ==> Apart(parts[0], parts[1]))
  {
    hide PartOk, Apart;
    var rest := parts[1..];
    forall k | 0 < k < |rest| ensures Apart(rest[k - 1], rest[k]) {
      var n := k + 1;
      assert Apart(parts[n - 1], parts[n]);
    }
    if |parts| > 1 {
      var n := 1;
      assert Apart(parts[n - 1], parts[n]);
    }
  }

  /** What comes after a part: the end, or the first byte of a value. */
  lemma StreamStarts(parts: seq<Part>)
    requires PartsOk(parts) && parts != []
    ensures Text(parts[0].tree) != [] && StreamText(parts) != [] && StreamText(parts)[0] == Text(parts[0].tree)[0]
    ensures StartsValue(StreamText(parts)[0]) && !IsWhitespace(StreamText(parts)[0])
  {
    TextStarts(parts[0].tree);
  }

  lemma WhitespaceFollows(s: Bytes, j: nat, w: Bytes)
    requires At(s, j, w) && AllWhitespace(w) && w != []
    ensures j < |s| && IsWhitespace(s[j])
  {
    AtHead(s, j, w);
  }

  /** A part ends before the whitespace after it, which is skipped up to the next part. */
  lemma PartEnds(s: Bytes, j: nat, parts: seq<Part>)
    requires PartsOk(parts) && parts != []
    requires At(s, j, parts[0].after + StreamText(parts[1..])) && j + |parts[0].after + StreamText(parts[1..])| == |s|
    ensures parts[0].tree.NumberTree? ==> EndsNumber(s, j)
    ensures SkipGarbage(STANDARD, s, j) == Ok((), j + |parts[0].after|)
    ensures At(s, j + |parts[0].after|, StreamText(parts[1..]))
  {
    var w, rest := parts[0].after, StreamText(parts[1..]);
    PartsTail(parts);
    hide TreeOk, At, StreamText, Height, Text, PartsOk, EndsNumber, SkipGarbage, StartsValue, AllWhitespace;
    AtSplit(s, j, w, rest);
    if parts[1..] != [] {
      StreamStarts(parts[1..]);
      assert parts[1..][0] == parts[1];
    }
    NothingLeft(parts[1..]);
    ValueFollows(s, j, w, rest);
  }

  lemma ValueFollows(s: Bytes, j: nat, w: Bytes, rest: Bytes)
    requires AllWhitespace(w) && At(s, j, w) && At(s, j + |w|, rest) && j + |w| + |rest| == |s|
    requires rest != [] ==> StartsValue(rest[0]) && !IsWhitespace(rest[0])
    ensures SkipGarbage(STANDARD, s, j) == Ok((), j + |w|)
    ensures (w == [] && rest != [] ==> !(0x30 <= rest[0] <= 0x39)) ==> EndsNumber(s, j)
  {
    hide At;
    if w != [] {
      WhitespaceFollows(s, j, w);
    }
    if rest != [] {
      AtHead(s, j + |w|, rest);
    }
    SkipsWhitespace(s, j, w);
  }

  lemma NothingLeft(parts: seq<Part>)
    ensures parts == [] ==> StreamText(parts) == [] && PartsOk(parts)
  {
  }

  lemma {:induction false} StreamReads(c: Library, s: Bytes, i: nat, before: Bytes, parts: seq<Part>, values: seq<Json>)
    requires PartsOk(parts) && AllWhitespace(before) && (parts == [] ==> before == [])
    requires At(s, i, before + StreamText(parts)) && i + |before + StreamText(parts)| == |s|
    ensures MultiFrom(c, STANDARD, s, i, values, i) == Multi(values + StreamValues(c, parts), |s|, None)
    decreases |parts|
  {
    if parts == [] {
      assert values + StreamValues(c, parts) == values;
    } else {
      var v, j, k := PartReads(c, s, i, before, parts);
      hide *;
      MultiStep(c, STANDARD, s, i, values, v, j, k);
      StreamReads(c, s, k, [], parts[1..], values + [v]);
      ValuesCons(c, parts, values, v);
    }
  }

  lemma ValuesCons(c: Library, parts: seq<Part>, values: seq<Json>, v: Json)
    requires parts != [] && (forall k :: 0 <= k < |parts| ==> TreeOk(parts[k].tree)) && v == Value(c, parts[0].tree)
    ensures values + [v] + StreamValues(c, parts[1..]) == values + StreamValues(c, parts)
  {
    hide TreeOk, Value;
    assert [v] + StreamValues(c, parts[1..]) == StreamValues(c, parts);
  }

  /** The first part is read, and the whitespace after it skipped. */
  lemma PartReads(c: Library, s: Bytes, i: nat, before: Bytes, parts: seq<Part>) returns (v: Json, j: nat, k: nat)
    requires PartsOk(parts) && parts != [] && AllWhitespace(before)
    requires At(s, i, before + StreamText(parts)) && i + |before + StreamText(parts)| == |s|
    ensures i < |s| && i < j <= k <= |s| && TreeOk(parts[0].tree) && v == Value(c, parts[0].tree)
    ensures ParseValue(c, STANDARD, s, i, 0) == Ok(v, j) && SkipGarbage(STANDARD, s, j) == Ok((), k)
    ensures PartsOk(parts[1..])
    ensures At(s, k, [] + StreamText(parts[1..])) && k + |[] + StreamText(parts[1..])| == |s|
  {
    hide *;
    var t, w := parts[0].tree, parts[0].after;
    PartIsThere(s, i, before, parts);
    j := i + |before| + |Text(t)|;
    PartEnds(s, j, parts);
    k := j + |w|;
    ShallowReads(c, s, i, before, t);
    v := Value(c, t);
    assert [] + StreamText(parts[1..]) == StreamText(parts[1..]);
  }

  lemma ShallowReads(c: Library, s: Bytes, i: nat, w: Bytes, t: Tree)
    requires AllWhitespace(w) && TreeOk(t) && At(s, i, w) && At(s, i + |w|, Text(t)) && Height(t) <= 200
    requires t.NumberTree? ==> EndsNumber(s, i + |w| + |Text(t)|)
    ensures i + |w| + |Text(t)| <= |s| && ParseValue(c, STANDARD, s, i, 0) == Ok(Value(c, t), i + |w| + |Text(t)|)
  {
    hide ParseValue, TreeOk, Text, Value, Height, EndsNumber;
    ReadsValue(c, s, i, w, t, 0);
  }

  lemma StreamSplits(parts: seq<Part>)
    requires parts != []
    ensures StreamText(parts) == Text(parts[0].tree) + (parts[0].after + StreamText(parts[1..]))
  {
  }

  lemma AtThree(s: Bytes, i: nat, x: Bytes, y: Bytes, z: Bytes)
    requires At(s, i, x + (y + z)) && i + |x + (y + z)| == |s|
    ensures At(s, i, x) && At(s, i + |x|, y) && At(s, i + |x| + |y|, z) && i + |x| + |y| + |z| == |s|
  {
    AtSplit(s, i, x, y + z);
    AtSplit(s, i + |x|, y, z);
  }

  lemma PartIsThere(s: Bytes, i: nat, before: Bytes, parts: seq<Part>)
    requires PartsOk(parts) && parts != []
    requires At(s, i, before + StreamText(parts)) && i + |before + StreamText(parts)| == |s|
    ensures PartsOk(parts[1..]) && TreeOk(parts[0].tree) && Height(parts[0].tree) <= 200 && Text(parts[0].tree) != []
    ensures At(s, i, before) && At(s, i + |before|, Text(parts[0].tree))
    ensures var j, rest := i + |before| + |Text(parts[0].tree)|, parts[0].after + StreamText(parts[1..]);
            At(s, j, rest) && j + |rest| == |s|
  {
    PartsTail(parts);
    hide TreeOk, Text, Height, At, PartsOk, StreamText;
    StreamSplits(parts);
    AtThree(s, i, before, Text(parts[0].tree), parts[0].after + StreamText(parts[1..]));
    TextStarts(parts[0].tree);
  }

  // ---------- what is read is a stream ----------

  lemma {:induction false} DigitsStop(s: Bytes, i: nat)
    requires i <= |s|
    ensures var j := DigitsEnd(s, i); j < |s| ==> !IsDigit(s[j])
    decreases |s| - i
  {
    if i < |s| && IsDigit(s[i]) {
      DigitsStop(s, i + 1);
    }
  }

  /** A number is read as far as its digits go. */
  lemma NumberStops(s: Bytes, i: nat)
    requires i <= |s| && LexNumber(s, i).Ok?
    ensures var j := LexNumber(s, i).next; j < |s| ==> !IsDigit(s[j])
  {
    forall k: nat | k <= |s| ensures DigitsEnd(s, k) < |s| ==> !IsDigit(s[DigitsEnd(s, k)]) {
      DigitsStop(s, k);
    }
  }

  lemma NumberTreeStops(c: Library, s: Bytes, i: nat, w: Bytes, t: Tree)
    requires i <= |s| && ParseValue(c, STANDARD, s, i, 0).Ok? && AllWhitespace(w) && TreeOk(t) && t.NumberTree?
    requires At(s, i, w) && At(s, i + |w|, Text(t))
    ensures var j := ParseValue(c, STANDARD, s, i, 0).next; j < |s| ==> !IsDigit(s[j])
  {
    hide LexNumber, NextToken, Text, TreeOk, At;
    TextStarts(t);
    var text, j := Text(t), i + |w|;
    assert text == [text[0]] + text[1..];
    AtSplit(s, j, [text[0]], text[1..]);
    ReadsToken(s, i, w, text[0]);
    NumberStops(s, j);
  }

  lemma {:induction false} ReadIsStream(c: Library, s: Bytes, i: nat, values: seq<Json>)
    returns (before: Bytes, parts: seq<Part>)
    requires i < |s| && MultiFrom(c, STANDARD, s, i, values, i).err.None?
    ensures parts != [] && AllWhitespace(before) && PartsOk(parts) && s[i..] == before + StreamText(parts)
    ensures !IsWhitespace(s[i]) ==> before == []
    decreases |s| - i
  {
    hide ParseValue, Text, TreeOk, Height, Value, At, StreamText, PartsOk;
    var t;
    before, t := ValueDerived(c, s, i, 0);
    var v, j := ParseValue(c, STANDARD, s, i, 0).value, ParseValue(c, STANDARD, s, i, 0).next;
    var k := SkipWhitespace(s, j);
    SkipsOnlyWhitespace(s, j);
    if before != [] {
      WhitespaceFollows(s, i, before);
    }
    var rest: seq<Part> := [];
    if k < |s| {
      var none;
      none, rest := ReadIsStream(c, s, k, values + [v]);
      assert [] + StreamText(rest) == StreamText(rest);
    }
    if t.NumberTree? {
      NumberTreeStops(c, s, i, before, t);
    }
    NothingLeft(rest);
    parts := [Part(t, s[j..k])] + rest;
    PartsCons(s, i, before, t, j, k, rest);
  }

  lemma PartsCons(s: Bytes, i: nat, before: Bytes, t: Tree, j: nat, k: nat, rest: seq<Part>)
    requires At(s, i, before) && At(s, i + |before|, Text(t)) && j == i + |before| + |Text(t)| <= k <= |s|
    requires PartOk(Part(t, s[j..k])) && PartsOk(rest) && s[k..] == StreamText(rest)
    requires t.NumberTree? && j < |s| ==> !IsDigit(s[j])
    ensures PartsOk([Part(t, s[j..k])] + rest)
    ensures s[i..] == before + StreamText([Part(t, s[j..k])] + rest)
  {
    var parts := [Part(t, s[j..k])] + rest;
    assert parts[0] == Part(t, s[j..k]) && parts[1..] == rest;
    hide StreamText, At, Text, PartOk, Apart, PartsOk, AllWhitespace;
    AtGlue(s, i, before, Text(t), j, k);
    StreamSplits(parts);
    PartsPrepend(s, parts[0], j, k, rest);
  }

  lemma AtGlue(s: Bytes, i: nat, x: Bytes, y: Bytes, j: nat, k: nat)
    requires At(s, i, x) && At(s, i + |x|, y) && j == i + |x| + |y| <= k <= |s|
    ensures s[i..] == x + (y + (s[j..k] + s[k..]))
  {
    Glue(s, j, k, |s|);
    Glue(s, i + |x|, j, |s|);
    Glue(s, i, i + |x|, |s|);
  }

  lemma PartsPrepend(s: Bytes, p: Part, j: nat, k: nat, rest: seq<Part>)
    requires j <= k <= |s| && p.after == s[j..k] && s[k..] == StreamText(rest)
    requires PartOk(p) && PartsOk(rest)
    requires p.tree.NumberTree? && j < |s| ==> !IsDigit(s[j])
    ensures PartsOk([p] + rest)
  {
    var parts := [p] + rest;
    hide PartOk, StreamText, Text;
    if rest != [] {
      StreamStarts(rest);
      if j == k {
        assert s[j] == s[k..][0];
      }
      assert Apart(p, rest[0]);
    }
    hide Apart;
    forall n | 0 < n < |parts| ensures Apart(parts[n - 1], parts[n]) {
      if n > 1 {
        var m := n - 1;
        assert Apart(rest[m - 1], rest[m]);
      }
    }
  }

  // ---------- main results ----------

  /** On a stream parse_multi gives its values in order, and no error. */
  lemma StreamsAreRead(c: Library, s: Bytes, before: Bytes, parts: seq<Part>)
    requires IsStream(s, before, parts)
    ensures forall k :: 0 <= k < |parts| ==> TreeOk(parts[k].tree)
    ensures MultiFrom(c, STANDARD, s, 0, [], 0) == Multi(StreamValues(c, parts), |s|, None)
  {
    hide StreamText, TreeOk, MultiFrom, StreamValues, Height;
    assert At(s, 0, before + StreamText(parts));
    StreamReads(c, s, 0, before, parts, []);
    assert [] + StreamValues(c, parts) == StreamValues(c, parts);
  }

  /** There is no error exactly if the input is empty or a stream. */
  lemma ReadsExactlyStreams(c: Library, s: Bytes)
    ensures MultiFrom(c, STANDARD, s, 0, [], 0).err.None? <==>
            s == [] || exists before, parts :: IsStream(s, before, parts)
  {
    hide StreamText, MultiFrom, PartsOk, StreamValues;
    if s == [] {
      assert MultiFrom(c, STANDARD, s, 0, [], 0).err.None? by { NothingRead(c); }
    } else if MultiFrom(c, STANDARD, s, 0, [], 0).err.None? {
      var before, parts := ReadIsStream(c, s, 0, []);
      assert s[0..] == s;
      assert IsStream(s, before, parts);
    }
    if before, parts :| IsStream(s, before, parts) {
      StreamsAreRead(c, s, before, parts);
    }
  }

  lemma NothingRead(c: Library)
    ensures MultiFrom(c, STANDARD, [], 0, [], 0).err.None?
  {
  }

  /** What a failure leaves: `x` is the last entry, because a value could not be read, or garbage not be skipped. */
  ghost predicate LeftBy(c: Library, mode: Mode, s: Bytes, i: nat, e: Error, x: Json)
    requires i <= |s|
  {
    var r := ParseValue(c, mode, s, i, 0);
    if r.Err? then
      e == r.error && x == if NextToken(mode, s, i).Ok? && NextToken(mode, s, i).value == 0x22 then Str([]) else Null
    else
      SkipGarbage(mode, s, r.next) == Err(e) && x == r.value
  }

  lemma {:induction false} FailureFrom(c: Library, mode: Mode, s: Bytes, i: nat, values: seq<Json>)
    requires i <= |s|
    ensures var m := MultiFrom(c, mode, s, i, values, i);
            && m.stop <= |s| && (m.err.None? <==> m.stop == |s|)
            && (m.err.Some? ==> exists x :: m.values == Good(m) + [x] && LeftBy(c, mode, s, m.stop, m.err.value, x))
    decreases |s| - i
  {
    hide ParseValue, SkipGarbage, NextToken;
    if i < |s| {
      var r := ParseValue(c, mode, s, i, 0);
      var m := MultiFrom(c, mode, s, i, values, i);
      if r.Ok? && SkipGarbage(mode, s, r.next).Ok? {
        FailureFrom(c, mode, s, SkipGarbage(mode, s, r.next).next, values + [r.value]);
      } else {
        var x := if r.Ok? then r.value else FailedValue(mode, s, i, 0);
        assert m.values == values + [x] && Good(m) == values;
        assert LeftBy(c, mode, s, i, m.err.value, x);
      }
    }
  }

  /**
    In either mode there is an error exactly if reading stops before the end, and with an error the last
    entry is what the failure behind the stop position left.
   */
  lemma FailureLeavesOne(c: Library, mode: Mode, s: Bytes)
    ensures var m := MultiFrom(c, mode, s, 0, [], 0);
            && m.stop <= |s| && (m.err.None? <==> m.stop == |s|)
            && (m.err.Some? ==> exists x :: m.values == Good(m) + [x] && LeftBy(c, mode, s, m.stop, m.err.value, x))
  {
    FailureFrom(c, mode, s, 0, []);
  }
}
