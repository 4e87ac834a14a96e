/**
  Comments. COMMENTS mode accepts a text exactly when STANDARD mode accepts it with every comment
  outside strings blanked, and gives the same value; a text without comments is treated alike.
 */
module JsonStrip {
  import opened JsonValue
  import opened Wrappers
  import opened JsonGrammar
  import opened JsonParse

  const SLASH: byte := 0x2F

  function Spaces(n: nat): (w: Bytes)
    ensures |w| == n && AllWhitespace(w) && forall k :: 0 <= k < n ==> w[k] == SPACE
  {
    seq(n, _ => SPACE)
  }

  // ---------- blanking comments ----------

  /** Where the comment at this position ends: before the end of the line, or after the closing. */
  function CommentEnd(s: Bytes, i: nat): (j: Option<nat>)
    requires i <= |s|
    ensures j.Some? ==> i < j.value <= |s|
  {
    if i + 2 > |s| || s[i] != SLASH then None
    else if s[i + 1] == SLASH then Some(LineEnd(s, i + 2))
    else if s[i + 1] == 0x2A && BlockEnd(s, i + 2).Ok? then Some(BlockEnd(s, i + 2).next)
    else None
  }

  /** The rest of the text from outside a string. */
  function Blanked(s: Bytes, i: nat): (b: Bytes)
    requires i <= |s|
    ensures |b| == |s| - i
    decreases |s| - i
  {
    if i == |s| then []
    else if s[i] == QUOTE then [QUOTE] + BlankedInString(s, i + 1)
    else match CommentEnd(s, i)
         case Some(j) => Spaces(j - i) + Blanked(s, j)
         case None => [s[i]] + Blanked(s, i + 1)
  }

  /** The rest of the text from inside a string. */
  function BlankedInString(s: Bytes, i: nat): (b: Bytes)
    requires i <= |s|
    ensures |b| == |s| - i
    decreases |s| - i
  {
    if i == |s| then []
    else if s[i] == QUOTE then [QUOTE] + Blanked(s, i + 1)
    else if s[i] == BACKSLASH && i + 1 < |s| then [BACKSLASH, s[i + 1]] + BlankedInString(s, i + 2)
    else [s[i]] + BlankedInString(s, i + 1)
  }

  // ---------- what a comment is ----------

  ghost predicate CharsAt(s: Bytes, i: nat, first: char, second: char) {
    i + 2 <= |s| && s[i] as char == first && s[i + 1] as char == second
  }

  /** Two slashes and the rest of the line, without the line feed. */
  ghost predicate IsLineComment(s: Bytes, i: nat, j: nat) {
    && CharsAt(s, i, '/', '/') && i + 2 <= j <= |s|
    && (forall k :: i + 2 <= k < j ==> s[k] as char != '\n') && (j < |s| ==> s[j] as char == '\n')
  }

  /** From the opening to the first closing after it. */
  ghost predicate IsBlockComment(s: Bytes, i: nat, j: nat) {
    && CharsAt(s, i, '/', '*') && i + 4 <= j <= |s| && CharsAt(s, j - 2, '*', '/')
    && forall k: nat :: i + 2 <= k < j - 2 ==> !CharsAt(s, k, '*', '/')
  }

  lemma {:induction false} LineEndMeans(s: Bytes, i: nat, j: nat)
    requires i <= |s|
    ensures LineEnd(s, i) == j <==>
            && i <= j <= |s| && (forall k :: i <= k < j ==> s[k] as char != '\n') && (j < |s| ==> s[j] as char == '\n')
    decreases |s| - i
  {
    if i < |s| {
      assert (s[i] as char) as int == s[i];
      if s[i] != 0x0A {
        LineEndMeans(s, i + 1, j);
      }
    }
  }

  lemma {:induction false} BlockEndMeans(s: Bytes, i: nat, j: nat)
    requires i <= |s|
    ensures BlockEnd(s, i) == Ok(true, j) <==>
            && i + 2 <= j <= |s| && CharsAt(s, j - 2, '*', '/')
            && forall k: nat :: i <= k < j - 2 ==> !CharsAt(s, k, '*', '/')
    decreases |s| - i
  {
    if i + 2 <= |s| {
      assert (s[i] as char) as int == s[i] && (s[i + 1] as char) as int == s[i + 1];
      assert CharsAt(s, i, '*', '/') <==> s[i] == 0x2A && s[i + 1] == 0x2F;
      BlockEndMeans(s, i + 1, j);
    }
  }

  /** What is skipped, and blanked, as a comment. */
  lemma CommentMeans(s: Bytes, i: nat, j: nat)
    requires i < |s|
    ensures CommentEnd(s, i) == Some(j) <==> IsLineComment(s, i, j) || IsBlockComment(s, i, j)
    ensures SkipComment(s, i) == Ok(true, j) <==> IsLineComment(s, i, j) || IsBlockComment(s, i, j)
    ensures SkipComment(s, i) == Ok(false, j) <==> s[i] as char != '/' && j == i
  {
    assert (s[i] as char) as int == s[i];
    if i + 2 <= |s| {
      assert (s[i + 1] as char) as int == s[i + 1];
      LineEndMeans(s, i + 2, j);
      BlockEndMeans(s, i + 2, j);
    }
  }

  lemma {:induction false} BlockEndFails(s: Bytes, i: nat)
    requires i <= |s| && forall j: nat :: i + 2 <= j <= |s| ==> BlockEnd(s, i) != Ok(true, j)
    ensures BlockEnd(s, i) == Err(EndInComment)
    decreases |s| - i
  {
    if i + 2 <= |s| && !(s[i] == 0x2A && s[i + 1] == 0x2F) {
      BlockEndFails(s, i + 1);
    }
  }

  /** A slash that starts no comment: at the end, before another character, or without a closing. */
  lemma CommentFails(s: Bytes, i: nat)
    requires i < |s| && s[i] as char == '/' && forall j :: !IsLineComment(s, i, j) && !IsBlockComment(s, i, j)
    ensures SkipComment(s, i) == Err(if i + 1 == |s| then EndAfterCommentStart
                                     else if s[i + 1] as char == '*' then EndInComment else MalformedComment)
  {
    hide IsLineComment, IsBlockComment;
    assert (s[i] as char) as int == s[i];
    if i + 1 < |s| {
      assert (s[i + 1] as char) as int == s[i + 1];
      forall j: nat ensures SkipComment(s, i) != Ok(true, j) {
        CommentMeans(s, i, j);
      }
      if s[i + 1] == 0x2A {
        BlockEndFails(s, i + 2);
      }
    }
  }

  // ---------- the two texts side by side ----------

  /** At this position, outside a string, the second text is the first with comments blanked. */
  ghost predicate Sync(s: Bytes, b: Bytes, i: nat) {
    i <= |s| == |b| && b[i..] == Blanked(s, i)
  }

  ghost predicate SyncInString(s: Bytes, b: Bytes, i: nat) {
    i <= |s| == |b| && b[i..] == BlankedInString(s, i)
  }

  lemma SyncStep(s: Bytes, b: Bytes, i: nat)
    requires Sync(s, b, i) && i < |s| && s[i] != QUOTE
    ensures CommentEnd(s, i).None? ==> b[i] == s[i] && Sync(s, b, i + 1)
    ensures CommentEnd(s, i).Some? ==> Sync(s, b, CommentEnd(s, i).value)
    ensures CommentEnd(s, i).Some? ==> forall k :: i <= k < CommentEnd(s, i).value ==> b[k] == SPACE
  {
  }

  lemma SyncString(s: Bytes, b: Bytes, i: nat)
    requires Sync(s, b, i) && i < |s| && s[i] == QUOTE
    ensures b[i] == QUOTE && SyncInString(s, b, i + 1)
  {
  }

  lemma SyncInStringStep(s: Bytes, b: Bytes, i: nat)
    requires SyncInString(s, b, i) && i < |s|
    ensures b[i] == s[i]
    ensures s[i] == QUOTE ==> Sync(s, b, i + 1)
    ensures s[i] == BACKSLASH && i + 1 < |s| ==> b[i + 1] == s[i + 1] && SyncInString(s, b, i + 2)
    ensures s[i] != QUOTE && s[i] != BACKSLASH ==> SyncInString(s, b, i + 1)
  {
  }

  /** Both readings succeed with the same outcome at a position outside strings, or both fail. */
  ghost predicate Agree<T>(s: Bytes, b: Bytes, r: Result<T>, r': Result<T>) {
    if r.Ok? then r' == r && Sync(s, b, r.next) else r'.Err?
  }

  // ---------- between tokens ----------

  lemma {:induction false} SpacesAreSkipped(b: Bytes, i: nat, j: nat)
    requires i <= j <= |b| && forall k :: i <= k < j ==> b[k] == SPACE
    ensures SkipWhitespace(b, i) == SkipWhitespace(b, j)
    decreases j - i
  {
    if i < j {
      SpacesAreSkipped(b, i + 1, j);
    }
  }

  lemma {:induction false} WhitespaceAgrees(s: Bytes, b: Bytes, i: nat)
    requires Sync(s, b, i)
    ensures var j := SkipWhitespace(s, i);
            Sync(s, b, j) && SkipWhitespace(b, i) == SkipWhitespace(b, j) && (j < |s| ==> !IsWhitespace(s[j]))
    decreases |s| - i
  {
    if i < |s| && IsWhitespace(s[i]) {
      SyncStep(s, b, i);
      WhitespaceAgrees(s, b, i + 1);
    }
  }

  /** After the comments the texts agree; where a comment is malformed the blanked text has a slash. */
  lemma {:induction false} CommentsAgree(s: Bytes, b: Bytes, i: nat)
    requires Sync(s, b, i) && (i < |s| ==> !IsWhitespace(s[i]))
    ensures var k := SkipWhitespace(b, i);
            match SkipComments(s, i)
            case Ok(_, j) => k == j && Sync(s, b, j) && (j < |s| ==> s[j] != SLASH)
            case Err(_) => k < |b| && b[k] == SLASH
    decreases |s| - i
  {
    if i < |s| && s[i] != QUOTE {
      SyncStep(s, b, i);
      match CommentEnd(s, i) {
        case None =>
        case Some(j) =>
          assert SkipComment(s, i) == Ok(true, j);
          SpacesAreSkipped(b, i, j);
          WhitespaceAgrees(s, b, j);
          CommentsAgree(s, b, SkipWhitespace(s, j));
      }
    } else if i < |s| {
      SyncString(s, b, i);
    }
  }

  lemma GarbageAgrees(s: Bytes, b: Bytes, i: nat)
    requires Sync(s, b, i)
    ensures match SkipGarbage(COMMENTS, s, i)
            case Ok(_, j) => SkipGarbage(STANDARD, b, i) == Ok((), j) && Sync(s, b, j) && (j < |s| ==> s[j] != SLASH)
            case Err(_) => var j := SkipGarbage(STANDARD, b, i).next; j < |b| && b[j] == SLASH
  {
    hide SkipComments;
    WhitespaceAgrees(s, b, i);
    CommentsAgree(s, b, SkipWhitespace(s, i));
  }

  /** The next token is the same, unless it is a stray slash of the blanked text. */
  lemma TokensAgree(s: Bytes, b: Bytes, i: nat)
    requires Sync(s, b, i)
    ensures match NextToken(COMMENTS, s, i)
            case Ok(ch, j) =>
              && NextToken(STANDARD, b, i) == Ok(ch, j) && Sync(s, b, j - 1) && ch != SLASH
              && (ch == QUOTE ==> SyncInString(s, b, j)) && (ch != QUOTE ==> Sync(s, b, j))
            case Err(_) => NextToken(STANDARD, b, i).Ok? ==> NextToken(STANDARD, b, i).value == SLASH
  {
    hide SkipGarbage;
    GarbageAgrees(s, b, i);
    var r := SkipGarbage(COMMENTS, s, i);
    if r.Ok? && r.next < |s| {
      if s[r.next] == QUOTE {
        SyncString(s, b, r.next);
      } else {
        SyncStep(s, b, r.next);
      }
    }
  }

  // ---------- strings ----------

  lemma HexAgrees(s: Bytes, b: Bytes, i: nat)
    requires SyncInString(s, b, i)
    ensures IsHexAt(s, i) <==> IsHexAt(b, i)
    ensures IsHexAt(s, i) ==>
              && s[i] == b[i] && s[i + 1] == b[i + 1] && s[i + 2] == b[i + 2] && s[i + 3] == b[i + 3]
              && SyncInString(s, b, i + 4)
  {
    SyncLength(s, b, i);
    hide SyncInString;
    if i + 4 <= |s| {
      SyncInStringStep(s, b, i);
      if IsHexDigit(s[i]) {
        SyncInStringStep(s, b, i + 1);
        if IsHexDigit(s[i + 1]) {
          SyncInStringStep(s, b, i + 2);
          if IsHexDigit(s[i + 2]) {
            SyncInStringStep(s, b, i + 3);
          }
        }
      }
    }
  }

  lemma {:induction false} StringsAgree(s: Bytes, b: Bytes, i: nat)
    requires SyncInString(s, b, i)
    ensures Agree(s, b, LexString(s, i), LexString(b, i))
    decreases |s| - i
  {
    SyncLength(s, b, i);
    hide SyncInString, Sync, Unescaped, IsHexAt;
    if i < |s| {
      SyncInStringStep(s, b, i);
      if s[i] == QUOTE || s[i] < 0x20 {
      } else if s[i] != BACKSLASH {
        StringsAgree(s, b, i + 1);
      } else if i + 1 < |s| {
        if s[i + 1] == 0x75 {
          HexAgrees(s, b, i + 2);
          if IsHexAt(s, i + 2) {
            StringsAgree(s, b, i + 6);
          }
        } else {
          StringsAgree(s, b, i + 2);
        }
      }
    }
  }

  lemma SyncLength(s: Bytes, b: Bytes, i: nat)
    requires SyncInString(s, b, i)
    ensures i <= |s| == |b|
  {
  }

  // ---------- numbers and literals ----------

  predicate InNumber(ch: byte) {
    IsDigit(ch) || ch == 0x2E || IsMark(ch) || IsSign(ch)
  }

  lemma SyncNumber(s: Bytes, b: Bytes, i: nat)
    requires Sync(s, b, i)
    ensures i <= |s| == |b| && (Char(s, i) == Char(b, i) || (!InNumber(Char(s, i)) && !InNumber(Char(b, i))))
    ensures InNumber(Char(s, i)) ==> i < |s| && Sync(s, b, i + 1)
  {
  }

  lemma {:induction false} DigitsAgree(s: Bytes, b: Bytes, i: nat)
    requires Sync(s, b, i)
    ensures i <= |s| == |b| && DigitsEnd(b, i) == DigitsEnd(s, i) && Sync(s, b, DigitsEnd(s, i))
    ensures s[i..DigitsEnd(s, i)] == b[i..DigitsEnd(s, i)]
    decreases |s| - i
  {
    SyncNumber(s, b, i);
    if i < |s| && IsDigit(s[i]) {
      hide Sync;
      DigitsAgree(s, b, i + 1);
      var j := DigitsEnd(s, i);
      assert s[i..j] == [s[i]] + s[i + 1..j] && b[i..j] == [b[i]] + b[i + 1..j];
    }
  }

  lemma IntegersAgree(s: Bytes, b: Bytes, i: nat)
    requires Sync(s, b, i)
    ensures i <= |s| == |b| && Agree(s, b, LexInteger(s, i), LexInteger(b, i))
  {
    SyncNumber(s, b, i);
    hide Sync;
    if IsDigit(Char(s, i)) {
      SyncNumber(s, b, i + 1);
      DigitsAgree(s, b, i + 1);
      DigitsAgree(s, b, i);
    }
  }

  lemma LexDigitsAgree(s: Bytes, b: Bytes, i: nat, e: Error)
    requires Sync(s, b, i)
    ensures i <= |s| == |b| && Agree(s, b, LexDigits(s, i, e), LexDigits(b, i, e))
  {
    SyncNumber(s, b, i);
    DigitsAgree(s, b, i);
  }

  lemma FractionsAgree(s: Bytes, b: Bytes, i: nat)
    requires Sync(s, b, i)
    ensures i <= |s| == |b| && Agree(s, b, LexFraction(s, i), LexFraction(b, i))
  {
    SyncNumber(s, b, i);
    hide Sync, LexDigits;
    if Char(s, i) == 0x2E {
      LexDigitsAgree(s, b, i + 1, NoFractionDigits);
    }
  }

  lemma ExponentsAgree(s: Bytes, b: Bytes, i: nat)
    requires Sync(s, b, i)
    ensures i <= |s| == |b| && Agree(s, b, LexExponent(s, i), LexExponent(b, i))
  {
    SyncNumber(s, b, i);
    hide Sync, LexDigits;
    if IsMark(Char(s, i)) {
      SyncNumber(s, b, i + 1);
      LexDigitsAgree(s, b, i + 1, NoExponentDigits);
      if IsSign(Char(s, i + 1)) {
        LexDigitsAgree(s, b, i + 2, NoExponentDigits);
      }
    }
  }

  lemma NumbersAgree(s: Bytes, b: Bytes, i: nat)
    requires Sync(s, b, i)
    ensures i <= |s| == |b| && Agree(s, b, LexNumber(s, i), LexNumber(b, i))
  {
    SyncNumber(s, b, i);
    hide Sync, LexInteger, LexFraction, LexExponent;
    var i' := if Char(s, i) == 0x2D then i + 1 else i;
    IntegersAgree(s, b, i');
    if LexInteger(s, i').Ok? {
      var j := LexInteger(s, i').next;
      FractionsAgree(s, b, j);
      if LexFraction(s, j).Ok? {
        ExponentsAgree(s, b, LexFraction(s, j).next);
      }
    }
  }

  predicate IsLetters(t: Bytes) {
    forall k :: 0 <= k < |t| ==> 0x61 <= t[k] <= 0x7A
  }

  lemma {:induction false} LettersAgree(s: Bytes, b: Bytes, i: nat, t: Bytes)
    requires Sync(s, b, i) && IsLetters(t)
    ensures i <= |s| == |b| && (Matches(s, i, t) <==> Matches(b, i, t))
    ensures Matches(s, i, t) ==> Sync(s, b, i + |t|)
    decreases |t|
  {
    if t != [] && i < |s| {
      if s[i] == QUOTE {
        SyncString(s, b, i);
      } else {
        SyncStep(s, b, i);
      }
      MatchesFirst(s, i, t);
      MatchesFirst(b, i, t);
      if s[i] == t[0] {
        LettersAgree(s, b, i + 1, t[1..]);
      }
    }
  }

  lemma MatchesFirst(s: Bytes, i: nat, t: Bytes)
    requires i < |s| && t != []
    ensures Matches(s, i, t) <==> s[i] == t[0] && Matches(s, i + 1, t[1..])
  {
  }

  // ---------- values ----------

  lemma ParsedStringsAgree(s: Bytes, b: Bytes, i: nat)
    requires SyncInString(s, b, i)
    ensures i <= |s| == |b| && Agree(s, b, ParseString(s, i), ParseString(b, i))
  {
    SyncLength(s, b, i);
    hide Sync, LexString, StringValue;
    StringsAgree(s, b, i);
  }

  lemma SyncBounds(s: Bytes, b: Bytes, i: nat)
    requires Sync(s, b, i)
    ensures i <= |s| == |b|
  {
  }

  lemma {:induction false} ValuesAgree(c: Library, s: Bytes, b: Bytes, i: nat, depth: nat)
    requires Sync(s, b, i)
    ensures i <= |s| == |b| && Agree(s, b, ParseValue(c, COMMENTS, s, i, depth), ParseValue(c, STANDARD, b, i, depth))
    decreases |s| - i, 0
  {
    SyncBounds(s, b, i);
    hide Sync, SyncInString, NextToken, ParseToken;
    TokensAgree(s, b, i);
    if depth <= MAX_DEPTH {
      match NextToken(COMMENTS, s, i)
      case Ok(ch, j) => TokenValuesAgree(c, s, b, j, ch, depth);
      case Err(_) =>
        if NextToken(STANDARD, b, i).Ok? {
          SlashIsNoValue(c, b, NextToken(STANDARD, b, i).next, depth);
        }
    }
  }

  lemma SlashIsNoValue(c: Library, b: Bytes, i: nat, depth: nat)
    requires 0 < i <= |b|
    ensures ParseToken(c, STANDARD, b, i, SLASH, depth).Err?
  {
  }

  lemma {:induction false} TokenValuesAgree(c: Library, s: Bytes, b: Bytes, i: nat, ch: byte, depth: nat)
    requires 0 < i <= |s| == |b| && Sync(s, b, i - 1) && if ch == QUOTE then SyncInString(s, b, i) else Sync(s, b, i)
    ensures Agree(s, b, ParseToken(c, COMMENTS, s, i, ch, depth), ParseToken(c, STANDARD, b, i, ch, depth))
    decreases |s| - i, 3
  {
    hide Sync, SyncInString, LexNumber, ParseString, JsonParse.ParseObject, JsonParse.ParseArray, Matches;
    if ch == 0x2D || IsDigit(ch) {
      NumbersAgree(s, b, i - 1);
    } else if ch == 0x74 {
      LettersAgree(s, b, i - 1, TRUE_TEXT);
    } else if ch == 0x66 {
      LettersAgree(s, b, i - 1, FALSE_TEXT);
    } else if ch == 0x6E {
      LettersAgree(s, b, i - 1, NULL_TEXT);
    } else if ch == QUOTE {
      ParsedStringsAgree(s, b, i);
    } else if ch == 0x7B {
      ObjectsAgree(c, s, b, i, depth);
    } else if ch == 0x5B {
      ArraysAgree(c, s, b, i, depth);
    }
  }

  lemma {:induction false} ArraysAgree(c: Library, s: Bytes, b: Bytes, i: nat, depth: nat)
    requires Sync(s, b, i)
    ensures i <= |s| == |b|
    ensures Agree(s, b, JsonParse.ParseArray(c, COMMENTS, s, i, depth), JsonParse.ParseArray(c, STANDARD, b, i, depth))
    decreases |s| - i, 2
  {
    hide Sync, SyncInString, NextToken, ParseElements, JsonParse.ParseArray, Blanked, BlankedInString;
    SyncBounds(s, b, i);
    TokensAgree(s, b, i);
    match NextToken(COMMENTS, s, i)
    case Ok(ch, j) =>
      ArrayStep(c, COMMENTS, s, i, depth, ch, j);
      ArrayStep(c, STANDARD, b, i, depth, ch, j);
      if ch != 0x5D {
        ElementsAgree(c, s, b, j - 1, depth);
      }
    case Err(_) =>
      ArrayNeedsToken(c, COMMENTS, s, i, depth);
      StrayArray(c, b, i, depth);
  }

  /** Where nothing but a slash follows the bracket there is no array. */
  lemma StrayArray(c: Library, b: Bytes, i: nat, depth: nat)
    requires i <= |b| && (NextToken(STANDARD, b, i).Ok? ==> NextToken(STANDARD, b, i).value == SLASH)
    ensures JsonParse.ParseArray(c, STANDARD, b, i, depth).Err?
  {
    hide NextToken, ParseElements, JsonParse.ParseArray;
    if NextToken(STANDARD, b, i).Ok? {
      StraySlash(c, b, i, depth);
      ArrayStep(c, STANDARD, b, i, depth, SLASH, NextToken(STANDARD, b, i).next);
    } else {
      ArrayNeedsToken(c, STANDARD, b, i, depth);
    }
  }

  lemma ArrayNeedsToken(c: Library, mode: Mode, s: Bytes, i: nat, depth: nat)
    requires i <= |s| && NextToken(mode, s, i).Err?
    ensures JsonParse.ParseArray(c, mode, s, i, depth).Err?
  {
  }

  /** A stray slash cannot start an element. */
  lemma StraySlash(c: Library, b: Bytes, i: nat, depth: nat)
    requires i <= |b| && NextToken(STANDARD, b, i).Ok? && NextToken(STANDARD, b, i).value == SLASH
    ensures var j := NextToken(STANDARD, b, i).next; ParseElements(c, STANDARD, b, j - 1, depth).Err?
  {
    hide ParseToken;
    var j := NextToken(STANDARD, b, i).next;
    assert b[j - 1] == SLASH;
    assert SkipWhitespace(b, j - 1) == j - 1;
    assert NextToken(STANDARD, b, j - 1) == Ok(SLASH, j);
    SlashIsNoValue(c, b, j, depth + 1);
  }

  /** What the elements amount to once the first has been read. */
  lemma ElementsUnfold(c: Library, mode: Mode, s: Bytes, i: nat, depth: nat, v: Json, j: nat)
    requires i <= |s| && ParseValue(c, mode, s, i, depth + 1) == Ok(v, j)
    ensures ParseElements(c, mode, s, i, depth) ==
            match NextToken(mode, s, j)
            case Err(e) => Err(e)
            case Ok(ch, k) =>
              if ch == 0x5D then Ok([v], k)
              else if ch != 0x2C then Err(ExpectedCommaInList(ch))
              else match NextToken(mode, s, k)
                   case Err(e) => Err(e)
                   case Ok(_, m) =>
                     match ParseElements(c, mode, s, m - 1, depth)
                     case Err(e) => Err(e)
                     case Ok(vs, n) => Ok([v] + vs, n)
  {
    hide ParseValue, NextToken;
  }

  lemma ElementsNeedValue(c: Library, mode: Mode, s: Bytes, i: nat, depth: nat)
    requires i <= |s| && ParseValue(c, mode, s, i, depth + 1).Err?
    ensures ParseElements(c, mode, s, i, depth).Err?
  {
  }

  lemma {:induction false} ElementsAgree(c: Library, s: Bytes, b: Bytes, i: nat, depth: nat)
    requires Sync(s, b, i)
    ensures i <= |s| == |b|
    ensures Agree(s, b, ParseElements(c, COMMENTS, s, i, depth), ParseElements(c, STANDARD, b, i, depth))
    decreases |s| - i, 1
  {
    SyncBounds(s, b, i);
    hide Sync, SyncInString, ParseValue, ParseElements;
    ValuesAgree(c, s, b, i, depth + 1);
    if ParseValue(c, COMMENTS, s, i, depth + 1).Ok? {
      ElementEndsAgree(c, s, b, i, depth);
    } else {
      ElementsNeedValue(c, COMMENTS, s, i, depth);
      ElementsNeedValue(c, STANDARD, b, i, depth);
    }
  }

  lemma {:induction false} ElementEndsAgree(c: Library, s: Bytes, b: Bytes, i: nat, depth: nat)
    requires i <= |s| == |b| && ParseValue(c, COMMENTS, s, i, depth + 1).Ok?
    requires ParseValue(c, STANDARD, b, i, depth + 1) == ParseValue(c, COMMENTS, s, i, depth + 1)
    requires Sync(s, b, ParseValue(c, COMMENTS, s, i, depth + 1).next)
    ensures Agree(s, b, ParseElements(c, COMMENTS, s, i, depth), ParseElements(c, STANDARD, b, i, depth))
    decreases |s| - i, 0
  {
    hide Sync, SyncInString, NextToken, ParseValue, ParseElements;
    var v, j := ParseValue(c, COMMENTS, s, i, depth + 1).value, ParseValue(c, COMMENTS, s, i, depth + 1).next;
    ElementsUnfold(c, COMMENTS, s, i, depth, v, j);
    ElementsUnfold(c, STANDARD, b, i, depth, v, j);
    TokensAgree(s, b, j);
    if NextToken(COMMENTS, s, j).Ok? && NextToken(COMMENTS, s, j).value == 0x2C {
      var k := NextToken(COMMENTS, s, j).next;
      TokensAgree(s, b, k);
      if NextToken(COMMENTS, s, k).Ok? {
        ElementsAgree(c, s, b, NextToken(COMMENTS, s, k).next - 1, depth);
      } else if NextToken(STANDARD, b, k).Ok? {
        StraySlash(c, b, k, depth);
      }
    }
  }

  lemma {:induction false} ObjectsAgree(c: Library, s: Bytes, b: Bytes, i: nat, depth: nat)
    requires Sync(s, b, i)
    ensures i <= |s| == |b|
    ensures Agree(s, b, JsonParse.ParseObject(c, COMMENTS, s, i, depth),
                  JsonParse.ParseObject(c, STANDARD, b, i, depth))
    decreases |s| - i, 2
  {
    SyncBounds(s, b, i);
    hide Sync, SyncInString, NextToken;
    TokensAgree(s, b, i);
    if NextToken(COMMENTS, s, i).Ok? && NextToken(COMMENTS, s, i).value == QUOTE {
      hide ParseMembers;
      MembersAgree(c, s, b, NextToken(COMMENTS, s, i).next, depth, []);
    }
  }

  /** What the members amount to once the name and the value of the first have been read. */
  lemma MembersUnfold(c: Library, mode: Mode, s: Bytes, i: nat, depth: nat, data: Fields,
                      key: Bytes, j: nat, k: nat, v: Json, m: nat)
    requires i <= |s| && ParseString(s, i) == Ok(key, j) && NextToken(mode, s, j) == Ok(0x3A, k)
    requires ParseValue(c, mode, s, k, depth + 1) == Ok(v, m)
    ensures ParseMembers(c, mode, s, i, QUOTE, depth, data) ==
            match NextToken(mode, s, m)
            case Err(e) => Err(e)
            case Ok(ch, n) =>
              if ch == 0x7D then Ok(Put(data, key, v), n)
              else if ch != 0x2C then Err(ExpectedCommaInObject(ch))
              else match NextToken(mode, s, n)
                   case Err(e) => Err(e)
                   case Ok(ch', o) => ParseMembers(c, mode, s, o, ch', depth, Put(data, key, v))
  {
  }

  /** Without a name, a colon and a value there is no member. */
  lemma MembersNeedValue(c: Library, mode: Mode, s: Bytes, i: nat, ch: byte, depth: nat, data: Fields)
    requires i <= |s|
    requires ch == QUOTE && ParseString(s, i).Ok? ==>
               var t := NextToken(mode, s, ParseString(s, i).next);
               t.Ok? && t.value == 0x3A ==> ParseValue(c, mode, s, t.next, depth + 1).Err?
    ensures ParseMembers(c, mode, s, i, ch, depth, data).Err?
  {
  }

  lemma {:induction false} MembersAgree(c: Library, s: Bytes, b: Bytes, i: nat, depth: nat, data: Fields)
    requires SyncInString(s, b, i)
    ensures i <= |s| == |b|
    ensures Agree(s, b, ParseMembers(c, COMMENTS, s, i, QUOTE, depth, data),
                  ParseMembers(c, STANDARD, b, i, QUOTE, depth, data))
    decreases |s| - i, 1
  {
    SyncLength(s, b, i);
    hide Sync, SyncInString, NextToken, ParseValue, ParseString, Put, ParseMembers;
    ParsedStringsAgree(s, b, i);
    if ParseString(s, i).Ok? {
      var j := ParseString(s, i).next;
      TokensAgree(s, b, j);
      if NextToken(COMMENTS, s, j).Ok? && NextToken(COMMENTS, s, j).value == 0x3A {
        var k := NextToken(COMMENTS, s, j).next;
        ValuesAgree(c, s, b, k, depth + 1);
        if ParseValue(c, COMMENTS, s, k, depth + 1).Ok? {
          MemberEndsAgree(c, s, b, i, depth, data);
          return;
        }
      }
    }
    MembersNeedValue(c, COMMENTS, s, i, QUOTE, depth, data);
    MembersNeedValue(c, STANDARD, b, i, QUOTE, depth, data);
  }

  lemma {:induction false} MemberEndsAgree(c: Library, s: Bytes, b: Bytes, i: nat, depth: nat, data: Fields)
    requires i <= |s| == |b| && ParseString(s, i).Ok? && ParseString(b, i) == ParseString(s, i)
    requires var j := ParseString(s, i).next;
             && NextToken(COMMENTS, s, j).Ok? && NextToken(COMMENTS, s, j).value == 0x3A
             && NextToken(STANDARD, b, j) == NextToken(COMMENTS, s, j)
    requires var k := NextToken(COMMENTS, s, ParseString(s, i).next).next;
             && ParseValue(c, COMMENTS, s, k, depth + 1).Ok?
             && Agree(s, b, ParseValue(c, COMMENTS, s, k, depth + 1), ParseValue(c, STANDARD, b, k, depth + 1))
    ensures Agree(s, b, ParseMembers(c, COMMENTS, s, i, QUOTE, depth, data),
                  ParseMembers(c, STANDARD, b, i, QUOTE, depth, data))
    decreases |s| - i, 0
  {
    hide Sync, SyncInString, NextToken, ParseValue, ParseString, Put, ParseMembers;
    var key, j := ParseString(s, i).value, ParseString(s, i).next;
    var k := NextToken(COMMENTS, s, j).next;
    var v, m := ParseValue(c, COMMENTS, s, k, depth + 1).value, ParseValue(c, COMMENTS, s, k, depth + 1).next;
    MembersUnfold(c, COMMENTS, s, i, depth, data, key, j, k, v, m);
    MembersUnfold(c, STANDARD, b, i, depth, data, key, j, k, v, m);
    TokensAgree(s, b, m);
    if NextToken(COMMENTS, s, m).Ok? && NextToken(COMMENTS, s, m).value == 0x2C {
      var n := NextToken(COMMENTS, s, m).next;
      TokensAgree(s, b, n);
      if NextToken(COMMENTS, s, n).Ok? && NextToken(COMMENTS, s, n).value == QUOTE {
        MembersAgree(c, s, b, NextToken(COMMENTS, s, n).next, depth, Put(data, key, v));
      } else {
        MembersNeedQuote(c, COMMENTS, s, n, depth, Put(data, key, v));
        MembersNeedQuote(c, STANDARD, b, n, depth, Put(data, key, v));
      }
    }
  }

  lemma MembersNeedQuote(c: Library, mode: Mode, s: Bytes, i: nat, depth: nat, data: Fields)
    requires i <= |s|
    requires NextToken(mode, s, i).Ok? ==> NextToken(mode, s, i).value != QUOTE
    ensures NextToken(mode, s, i).Ok? ==>
              ParseMembers(c, mode, s, NextToken(mode, s, i).next, NextToken(mode, s, i).value, depth, data).Err?
  {
  }

  // ---------- whole texts ----------

  /** COMMENTS mode accepts a text exactly when STANDARD mode accepts the blanked text, with the same value. */
  lemma CommentsAreBlanks(c: Library, s: Bytes)
    ensures var r, r' := Parse(c, COMMENTS, s), Parse(c, STANDARD, Blanked(s, 0));
            (r.Ok? <==> r'.Ok?) && (r.Ok? ==> r' == r)
  {
    hide Blanked, ParseValue, SkipGarbage;
    var b := Blanked(s, 0);
    assert Sync(s, b, 0);
    ValuesAgree(c, s, b, 0, 0);
    var r := ParseValue(c, COMMENTS, s, 0, 0);
    if r.Ok? {
      GarbageAgrees(s, b, r.next);
    }
  }

  // ---------- texts without comments ----------

  lemma TokenStays(s: Bytes, i: nat)
    requires i <= |s| && NextToken(STANDARD, s, i).Ok? && NextToken(STANDARD, s, i).value != SLASH
    ensures NextToken(COMMENTS, s, i) == NextToken(STANDARD, s, i)
  {
    SkippedTwice(s, i);
  }

  lemma {:induction false} SkippedTwice(s: Bytes, i: nat)
    requires i <= |s|
    ensures SkipWhitespace(s, SkipWhitespace(s, i)) == SkipWhitespace(s, i)
    decreases |s| - i
  {
    if i < |s| && IsWhitespace(s[i]) {
      SkippedTwice(s, i + 1);
    }
  }

  lemma {:induction false} ValueStays(c: Library, s: Bytes, i: nat, depth: nat)
    requires i <= |s| && ParseValue(c, STANDARD, s, i, depth).Ok?
    ensures ParseValue(c, COMMENTS, s, i, depth) == ParseValue(c, STANDARD, s, i, depth)
    decreases |s| - i, 0
  {
    hide NextToken, ParseToken;
    var ch, j := NextToken(STANDARD, s, i).value, NextToken(STANDARD, s, i).next;
    if ch == SLASH {
      SlashIsNoValue(c, s, j, depth);
    }
    TokenStays(s, i);
    TokenValueStays(c, s, j, ch, depth);
  }

  lemma {:induction false} TokenValueStays(c: Library, s: Bytes, i: nat, ch: byte, depth: nat)
    requires 0 < i <= |s| && ParseToken(c, STANDARD, s, i, ch, depth).Ok?
    ensures ParseToken(c, COMMENTS, s, i, ch, depth) == ParseToken(c, STANDARD, s, i, ch, depth)
    decreases |s| - i, 3
  {
    hide ParseString, LexNumber, Matches, JsonParse.ParseArray, JsonParse.ParseObject;
    if ch == 0x5B {
      ArrayStays(c, s, i, depth);
    } else if ch == 0x7B {
      ObjectStays(c, s, i, depth);
    }
  }

  lemma {:induction false} ArrayStays(c: Library, s: Bytes, i: nat, depth: nat)
    requires i <= |s| && JsonParse.ParseArray(c, STANDARD, s, i, depth).Ok?
    ensures JsonParse.ParseArray(c, COMMENTS, s, i, depth) == JsonParse.ParseArray(c, STANDARD, s, i, depth)
    decreases |s| - i, 2
  {
    hide NextToken, ParseElements;
    ElementsStay(c, s, i, depth);
  }

  lemma {:induction false} ObjectStays(c: Library, s: Bytes, i: nat, depth: nat)
    requires i <= |s| && JsonParse.ParseObject(c, STANDARD, s, i, depth).Ok?
    ensures JsonParse.ParseObject(c, COMMENTS, s, i, depth) == JsonParse.ParseObject(c, STANDARD, s, i, depth)
    decreases |s| - i, 2
  {
    hide NextToken, ParseMembers;
    var ch, j := NextToken(STANDARD, s, i).value, NextToken(STANDARD, s, i).next;
    if ch != 0x7D {
      if ch != QUOTE {
        MembersNeedQuote(c, STANDARD, s, i, depth, []);
      }
      MembersStay(c, s, j, ch, depth, []);
    }
    TokenStays(s, i);
  }

  /** An array's first token, and its elements unless it is empty. */
  lemma {:induction false} ElementsStay(c: Library, s: Bytes, i: nat, depth: nat)
    requires i <= |s| && NextToken(STANDARD, s, i).Ok?
    requires NextToken(STANDARD, s, i).value == 0x5D ||
             ParseElements(c, STANDARD, s, NextToken(STANDARD, s, i).next - 1, depth).Ok?
    ensures NextToken(COMMENTS, s, i) == NextToken(STANDARD, s, i)
    ensures NextToken(STANDARD, s, i).value != 0x5D ==>
              var k := NextToken(STANDARD, s, i).next - 1;
              ParseElements(c, COMMENTS, s, k, depth) == ParseElements(c, STANDARD, s, k, depth)
    decreases |s| - i, 1
  {
    hide NextToken, ParseValue, ParseElements;
    if NextToken(STANDARD, s, i).value == SLASH {
      StraySlash(c, s, i, depth);
    }
    TokenStays(s, i);
    if NextToken(STANDARD, s, i).value != 0x5D {
      var k := NextToken(STANDARD, s, i).next - 1;
      if ParseValue(c, STANDARD, s, k, depth + 1).Err? {
        ElementsNeedValue(c, STANDARD, s, k, depth);
      }
      ValueStays(c, s, k, depth + 1);
      ElementRestStays(c, s, k, depth);
    }
  }

  lemma {:induction false} ElementRestStays(c: Library, s: Bytes, i: nat, depth: nat)
    requires i <= |s| && ParseElements(c, STANDARD, s, i, depth).Ok? && ParseValue(c, STANDARD, s, i, depth + 1).Ok?
    requires ParseValue(c, COMMENTS, s, i, depth + 1) == ParseValue(c, STANDARD, s, i, depth + 1)
    ensures ParseElements(c, COMMENTS, s, i, depth) == ParseElements(c, STANDARD, s, i, depth)
    decreases |s| - i, 0
  {
    hide NextToken, ParseValue, ParseElements;
    var v, j := ParseValue(c, STANDARD, s, i, depth + 1).value, ParseValue(c, STANDARD, s, i, depth + 1).next;
    ElementsUnfold(c, COMMENTS, s, i, depth, v, j);
    ElementsUnfold(c, STANDARD, s, i, depth, v, j);
    TokenStays(s, j);
    if NextToken(STANDARD, s, j).value == 0x2C {
      var k := NextToken(STANDARD, s, j).next;
      if NextToken(STANDARD, s, k).value == 0x5D {
        NothingToRead(c, s, k, depth);
      }
      ElementsStay(c, s, k, depth);
    }
  }

  /** A closing bracket is no element. */
  lemma NothingToRead(c: Library, s: Bytes, i: nat, depth: nat)
    requires i <= |s| && NextToken(STANDARD, s, i).Ok? && NextToken(STANDARD, s, i).value == 0x5D
    ensures ParseElements(c, STANDARD, s, NextToken(STANDARD, s, i).next - 1, depth).Err?
  {
    var j := NextToken(STANDARD, s, i).next;
    assert SkipWhitespace(s, j - 1) == j - 1;
    assert ParseValue(c, STANDARD, s, j - 1, depth + 1).Err?;
  }

  lemma {:induction false} MembersStay(c: Library, s: Bytes, i: nat, ch: byte, depth: nat, data: Fields)
    requires i <= |s| && ParseMembers(c, STANDARD, s, i, ch, depth, data).Ok?
    ensures ParseMembers(c, COMMENTS, s, i, ch, depth, data) == ParseMembers(c, STANDARD, s, i, ch, depth, data)
    decreases |s| - i, 1
  {
    hide NextToken, ParseValue, ParseString, Put;
    var key, j := ParseString(s, i).value, ParseString(s, i).next;
    TokenStays(s, j);
    var k := NextToken(STANDARD, s, j).next;
    ValueStays(c, s, k, depth + 1);
    var v, m := ParseValue(c, STANDARD, s, k, depth + 1).value, ParseValue(c, STANDARD, s, k, depth + 1).next;
    MembersUnfold(c, COMMENTS, s, i, depth, data, key, j, k, v, m);
    MembersUnfold(c, STANDARD, s, i, depth, data, key, j, k, v, m);
    hide ParseMembers;
    TokenStays(s, m);
    if NextToken(STANDARD, s, m).value == 0x2C {
      var n := NextToken(STANDARD, s, m).next;
      if NextToken(STANDARD, s, n).value != QUOTE {
        MembersNeedQuote(c, STANDARD, s, n, depth, Put(data, key, v));
      }
      TokenStays(s, n);
      MembersStay(c, s, NextToken(STANDARD, s, n).next, NextToken(STANDARD, s, n).value, depth, Put(data, key, v));
    }
  }

  /** What STANDARD mode accepts, COMMENTS mode accepts with the same value. */
  lemma CommentsModeExtends(c: Library, s: Bytes)
    requires Parse(c, STANDARD, s).Ok?
    ensures Parse(c, COMMENTS, s) == Parse(c, STANDARD, s)
  {
    hide ParseValue;
    ValueStays(c, s, 0, 0);
    SkippedTwice(s, ParseValue(c, STANDARD, s, 0, 0).next);
  }
}
