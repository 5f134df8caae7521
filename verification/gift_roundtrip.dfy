/** Export followed by import. For questions whose texts need no escaping
    and cannot be mistaken for GIFT syntax, `parseGiftFormat` reads back
    exactly what `handleExportGift` wrote, except the id and the blank
    answers; outside those conditions the escapes are not undone. */
module GiftRoundTrip {
  import opened Common
  import opened Model
  import opened GiftExport
  import opened GiftImport

  predicate Lacks(s: string, c: char)
  {
    forall i :: 0 <= i < |s| ==> s[i] != c
  }

  /** Every newline of `s`, except one at the very end, is followed by a
      character that is not white space. */
  predicate NewlinesFollowed(s: string)
  {
    forall m, n :: 0 <= m < |s| && 0 <= n < |s| && n == m + 1 && s[m] == '\n' ==> !IsSpace(s[n])
  }

  /** A block the separator cannot cut into pieces. */
  predicate Solid(b: string)
  {
    |b| > 0 && !IsSpace(b[0]) && !IsSpace(b[|b| - 1]) && NewlinesFollowed(b)
  }

  // ---------------------------------------------------------------------
  // Splitting the export into its blocks
  // ---------------------------------------------------------------------

  /** Inside a stretch whose newlines are all followed by non-white text and
      whose last character is not white, the separator matches nowhere. */
  lemma NoSeparatorWithin(s: string, lo: nat, hi: nat)
    requires lo < hi <= |s| && !IsSpace(s[hi - 1])
    requires forall m :: lo <= m < hi - 1 && s[m] == '\n' ==> !IsSpace(s[m + 1])
    ensures forall q :: lo <= q < hi ==> !SeparatorAt(s, q)
  {
    forall q | lo <= q < hi
      ensures !SeparatorAt(s, q)
    {
      SeparatorAtIff(s, q);
      var sk := SkipSpaces(s, q);
      assert sk <= hi - 1;
      forall a | q <= a < sk - 1
        ensures s[a] != '\n'
      {
        assert IsSpace(s[a + 1]);
      }
    }
  }

  /** Two newlines between non-white text are a separator, and it ends after the second. */
  lemma SeparatorBetween(s: string, m: nat)
    requires m + 2 < |s| && s[m] == '\n' && s[m + 1] == '\n' && !IsSpace(s[m + 2])
    ensures SeparatorAt(s, m) && SeparatorEnd(s, m) == m + 2
  {
    var sk := SkipSpaces(s, m);
    assert IsSpace(s[m]) && IsSpace(s[m + 1]);
    assert sk == m + 2;
  }

  /** A suffix of `s` that is a concatenation splits into its two parts. */
  lemma SuffixParts(s: string, p: nat, x: string, y: string)
    requires p <= |s| && s[p..] == x + y
    ensures p + |x| <= |s| && s[p..p + |x|] == x && s[p + |x|..] == y
    ensures forall m :: p <= m < p + |x| ==> s[m] == x[m - p]
  {
    assert s[p..][..|x|] == x && s[p..][|x|..] == y;
  }

  /** A stretch of `s` that is a concatenation splits into its two parts. */
  lemma PrefixParts(s: string, p: nat, x: string, y: string)
    requires p + |x| + |y| <= |s| && s[p..p + |x| + |y|] == x + y
    ensures s[p..p + |x|] == x && s[p + |x|..p + |x| + |y|] == y
    ensures forall m :: p <= m < p + |x| ==> s[m] == x[m - p]
    ensures forall m :: p + |x| <= m < p + |x| + |y| ==> s[m] == y[m - p - |x|]
  {
    assert s[p..p + |x| + |y|][..|x|] == x && s[p..p + |x| + |y|][|x|..] == y;
  }

  lemma FindSeparatorAt(s: string, p: nat, hi: nat)
    requires p <= hi <= |s| && forall q :: p <= q < hi ==> !SeparatorAt(s, q)
    requires hi == |s| || SeparatorAt(s, hi)
    ensures FindSeparator(s, p) == hi
  {
  }

  /** The last block runs to the end of the text: no separator follows it. */
  lemma LastBlock(s: string, p: nat, b: string)
    requires Solid(b) && p <= |s| && s[p..] == b
    ensures FindSeparator(s, p) == |s|
  {
    assert forall m :: p <= m < |s| ==> s[m] == b[m - p];
    NoSeparatorWithin(s, p, |s|);
    FindSeparatorAt(s, p, |s|);
  }

  /** A block followed by a blank line and more text: the separator first
      matches at the blank line and ends where the next block starts. */
  lemma BlockThenRest(s: string, p: nat, b: string, rest: string)
    requires Solid(b) && |rest| > 0 && !IsSpace(rest[0])
    requires p <= |s| && s[p..] == b + "\n\n" + rest
    ensures p + |b| + 2 <= |s| && s[p..p + |b|] == b && s[p + |b| + 2..] == rest
    ensures FindSeparator(s, p) == p + |b| && SeparatorEnd(s, p + |b|) == p + |b| + 2
  {
    var hi := p + |b|;
    SuffixParts(s, p, b + "\n\n", rest);
    PrefixParts(s, p, b, "\n\n");
    assert s[hi + 2] == rest[0];
    SeparatorBetween(s, hi);
    NoSeparatorWithin(s, p, hi);
    FindSeparatorAt(s, p, hi);
  }

  lemma SplitFromStep(s: string, p: nat, hi: nat, e: nat)
    requires p <= hi < |s| && FindSeparator(s, p) == hi && SeparatorEnd(s, hi) == e
    ensures SplitFrom(s, p) == [s[p..hi]] + SplitFrom(s, e)
  {
  }

  lemma SplitFromLast(s: string, p: nat)
    requires p <= |s| && FindSeparator(s, p) == |s|
    ensures SplitFrom(s, p) == [s[p..]]
  {
  }

  /** A solid block, a blank line and more text: the block is the first piece. */
  lemma SplitFromCons(s: string, p: nat, b: string, rest: string, q: nat, tail: seq<string>)
    requires Solid(b) && |rest| > 0 && !IsSpace(rest[0])
    requires p <= |s| && s[p..] == b + "\n\n" + rest
    requires q == p + |b| + 2 && q <= |s| && SplitFrom(s, q) == tail
    ensures SplitFrom(s, p) == [b] + tail
  {
    BlockThenRest(s, p, b, rest);
    SplitFromStep(s, p, p + |b|, q);
  }

  lemma {:induction false} SplitFromBlocks(s: string, p: nat, blocks: seq<string>)
    requires |blocks| > 0 && forall i :: 0 <= i < |blocks| ==> Solid(blocks[i])
    requires p <= |s| && s[p..] == Join(blocks, "\n\n")
    ensures SplitFrom(s, p) == blocks
    decreases |blocks|
  {
    if |blocks| == 1 {
      LastBlock(s, p, blocks[0]);
      SplitFromLast(s, p);
    } else {
      var b, tail := blocks[0], blocks[1..];
      var rest := Join(tail, "\n\n");
      JoinStart(tail, "\n\n");
      assert Join(blocks, "\n\n") == b + "\n\n" + rest;
      SuffixParts(s, p, b + "\n\n", rest);
      var q: nat := p + |b| + 2;
      assert s[q..] == rest;
      SplitFromBlocks(s, q, tail);
      SplitFromCons(s, p, b, rest, q, tail);
      assert blocks == [b] + tail;
    }
  }

  /** A join of non-empty parts starts with the first part. */
  lemma JoinStart(parts: seq<string>, sep: string)
    requires |parts| > 0 && |parts[0]| > 0
    ensures |Join(parts, sep)| > 0 && Join(parts, sep)[0] == parts[0][0]
  {
  }

  /** The blocks of the export, joined by blank lines, split back into the same blocks. */
  lemma SplitBlocksJoin(blocks: seq<string>)
    requires |blocks| > 0 && forall i :: 0 <= i < |blocks| ==> Solid(blocks[i])
    ensures SplitBlocks(Join(blocks, "\n\n")) == blocks
  {
    SplitFromBlocks(Join(blocks, "\n\n"), 0, blocks);
  }

  // ---------------------------------------------------------------------
  // Matching an exported block
  // ---------------------------------------------------------------------

  lemma FindCharAt(s: string, c: char, i: nat, o: nat)
    requires i <= o < |s| && s[o] == c && forall m :: i <= m < o ==> s[m] != c
    ensures FindChar(s, c, i) == o
  {
  }

  lemma FindPairAt(s: string, i: nat, p: nat)
    requires i <= p && p + 1 < |s| && s[p] == ':' && s[p + 1] == ':'
    requires forall m :: i <= m < p ==> s[m] != ':'
    ensures FindPair(s, i) == p
  {
  }

  lemma MatchBodyAt(b: string, i: nat, t: string, a: string)
    requires i <= |b| && b[i..] == t + "{" + a + "}" && Lacks(t, '{') && Lacks(a, '}')
    ensures MatchBody(b, i) == Some(Match(t, a))
  {
    var o := i + |t|;
    var c := o + 1 + |a|;
    SuffixParts(b, i, t + "{" + a, "}");
    PrefixParts(b, i, t + "{", a);
    PrefixParts(b, i, t, "{");
    FindCharAt(b, '{', i, o);
    FindCharAt(b, '}', o + 1, c);
  }

  /** In `::title::` followed by more text, with no ':' in the title, the
      first "::" after the opening one closes the title. */
  lemma TitleEnd(b: string, x: string, y: string, title: string, p: nat)
    requires x == "::" + title + "::" && b == x + y && p == |x| && Lacks(title, ':')
    ensures StartsWith(b, "::") && p <= |b| && FindPair(b, 2) == p - 2 && b[p..] == y
  {
    SuffixParts(b, 0, x, y);
    assert b[..2] == "::";
    assert forall m :: 2 <= m < p - 2 ==> x[m] == title[m - 2];
    FindPairAt(b, 2, p - 2);
  }

  /** A block `::title::text{answers}` matches with the title skipped, when
      the title has no ':', the text no '{' and the answers no '}'. */
  lemma MatchTitled(title: string, t: string, a: string)
    requires Lacks(title, ':') && Lacks(t, '{') && Lacks(a, '}')
    ensures MatchQuestion(("::" + title + "::") + (t + "{" + a + "}")) == Some(Match(t, a))
  {
    var x, y := "::" + title + "::", t + "{" + a + "}";
    var b := x + y;
    var p := |x|;
    TitleEnd(b, x, y, title, p);
    MatchBodyAt(b, p, t, a);
  }

  // ---------------------------------------------------------------------
  // The shape of an exported block
  // ---------------------------------------------------------------------

  lemma {:induction false} LacksJoin(parts: seq<string>, sep: string, c: char)
    requires Lacks(sep, c) && forall i :: 0 <= i < |parts| ==> Lacks(parts[i], c)
    ensures Lacks(Join(parts, sep), c)
    decreases |parts|
  {
    if |parts| > 1 {
      LacksJoin(parts[1..], sep, c);
    }
  }

  /** Lines that are solid and free of newlines join into a solid text. */
  lemma {:induction false} JoinSolid(lines: seq<string>)
    requires |lines| > 0
    requires forall i :: 0 <= i < |lines| ==> Solid(lines[i]) && Lacks(lines[i], '\n')
    ensures Solid(Join(lines, "\n"))
    decreases |lines|
  {
    if |lines| > 1 {
      JoinSolid(lines[1..]);
      var l, r := lines[0], Join(lines[1..], "\n");
      var s := l + "\n" + r;
      assert Join(lines, "\n") == s;
      forall m | 0 <= m < |s| - 1 && s[m] == '\n'
        ensures !IsSpace(s[m + 1])
      {
        if m > |l| {
          assert s[m] == r[m - |l| - 1] && s[m + 1] == r[m - |l|];
        }
      }
    }
  }

  /** A solid head without newlines, then a newline, a solid body, a newline and '}', is solid. */
  lemma SolidWrap(head: string, body: string)
    requires |head| > 0 && !IsSpace(head[0]) && Lacks(head, '\n') && Solid(body)
    ensures Solid(head + "\n" + body + "\n}")
  {
    var s := head + "\n" + body + "\n}";
    var n := |head| + 1 + |body|;
    assert s[|s| - 1] == '}' && s[n] == '\n';
    forall m | 0 <= m < |s| - 1 && s[m] == '\n'
      ensures !IsSpace(s[m + 1])
    {
      if m == |head| {
        assert s[m + 1] == body[0];
      } else if |head| < m < n - 1 {
        assert s[m] == body[m - |head| - 1] && s[m + 1] == body[m - |head|];
      }
    }
  }

  /** An answer text the export writes unchanged and the import reads back
      unchanged: no reserved character, no '%', no line terminator. */
  predicate PlainText(s: string)
  {
    forall i :: 0 <= i < |s| ==> !IsReserved(s[i]) && s[i] != '%' && !IsLineTerminator(s[i])
  }

  /** What survives `trim` was already there. */
  lemma TrimPlain(s: string)
    requires PlainText(s)
    ensures PlainText(Trim(s))
  {
    var a, b := SkipSpaces(s, 0), SkipSpacesBack(s, |s|);
    if a < b {
      assert forall i :: 0 <= i < b - a ==> Trim(s)[i] == s[a + i];
    }
  }

  /** The conditions under which a question survives export and import:
      a trimmed one-line text without '{', plain answers, two filled answers
      and a correct index on a filled one. */
  predicate Portable(q: Question)
  {
    && Trimmed(q.text) && q.text != ""
    && (forall i :: 0 <= i < |q.text| ==> q.text[i] != '{' && !IsLineTerminator(q.text[i]))
    && (forall i :: 0 <= i < |q.answers| ==> PlainText(q.answers[i].text))
    && Count(IsFilledAnswer, q.answers) >= 2
    && 0 <= q.correctAnswerIndex < |q.answers| && IsFilledAnswer(q.answers[q.correctAnswerIndex])
  }

  lemma {:induction false} FilledIndicesCount(answers: seq<Answer>, i: nat)
    requires i <= |answers|
    ensures |FilledIndicesFrom(answers, i)| == Count(IsFilledAnswer, answers[i..])
    decreases |answers| - i
  {
    if i < |answers| {
      FilledIndicesCount(answers, i + 1);
      assert answers[i..][1..] == answers[i + 1..];
    }
  }

  /** The trimmed text of the `k`-th filled answer of a portable question. */
  function FilledText(q: Question, k: nat): (t: string)
    requires k < |FilledIndicesFrom(q.answers, 0)|
  {
    Trim(q.answers[FilledIndicesFrom(q.answers, 0)[k]].text)
  }

  /** Line `k` of a portable question's export: its marker and the trimmed text,
      which is not empty, plain and comes back from the line as it is. */
  lemma LineShape(q: Question, k: nat)
    requires Portable(q) && k < |FilledIndicesFrom(q.answers, 0)|
    ensures |AnswerLines(q)| == |FilledIndicesFrom(q.answers, 0)|
    ensures AnswerLines(q)[k]
         == Marker(FilledIndicesFrom(q.answers, 0)[k] == q.correctAnswerIndex) + FilledText(q, k)
    ensures FilledText(q, k) != "" && PlainText(FilledText(q, k)) && Verbatim(FilledText(q, k))
  {
    var idx := FilledIndicesFrom(q.answers, 0);
    AnswerLinesSpec(q.answers, q.correctAnswerIndex, 0);
    var a := q.answers[idx[k]];
    TrimPlain(a.text);
    BlankIffTrimEmpty(a.text);
    EscapePlain(Trim(a.text));
  }

  /** One exported line per filled answer. */
  lemma LinesCount(q: Question)
    ensures |AnswerLines(q)| == |FilledIndicesFrom(q.answers, 0)|
  {
    AnswerLinesSpec(q.answers, q.correctAnswerIndex, 0);
  }

  /** A marker followed by a plain, trimmed, non-empty text is solid and free
      of newlines, carriage returns and '}'. */
  lemma MarkedLineClean(correct: bool, t: string)
    requires t != "" && PlainText(t) && Trimmed(t)
    ensures var line := Marker(correct) + t;
      Solid(line) && Lacks(line, '\n') && Lacks(line, '\r') && Lacks(line, '}')
  {
    var line := Marker(correct) + t;
    assert forall i :: 1 <= i < |line| ==> line[i] == t[i - 1];
  }

  /** Every exported answer line of a portable question is solid and free of
      newlines, carriage returns and '}'. */
  lemma LineClean(q: Question, k: nat)
    requires Portable(q) && k < |AnswerLines(q)|
    ensures && Solid(AnswerLines(q)[k]) && Lacks(AnswerLines(q)[k], '\n')
            && Lacks(AnswerLines(q)[k], '\r') && Lacks(AnswerLines(q)[k], '}')
  {
    LinesCount(q);
    LineShape(q, k);
    MarkedLineClean(FilledIndicesFrom(q.answers, 0)[k] == q.correctAnswerIndex, FilledText(q, k));
  }

  // ---------------------------------------------------------------------
  // Reading an exported block back
  // ---------------------------------------------------------------------

  /** The position of the first `x` in `s`, -1 when there is none. */
  function IndexOf(s: seq<nat>, x: int): (r: int)
    ensures -1 <= r < |s|
    ensures r >= 0 ==> s[r] == x && forall m :: 0 <= m < r ==> s[m] != x
    ensures r == -1 ==> forall m :: 0 <= m < |s| ==> s[m] != x
    decreases |s|
  {
    if |s| == 0 then -1
    else if s[0] == x then 0
    else
      var r := IndexOf(s[1..], x);
      if r == -1 then -1 else r + 1
  }

  /** The trimmed texts of the filled answers, in order. */
  function FilledTexts(q: Question): (r: seq<Answer>)
    ensures |r| == |FilledIndicesFrom(q.answers, 0)|
  {
    var idx := FilledIndicesFrom(q.answers, 0);
    seq(|idx|, k requires 0 <= k < |idx| => Answer(Trim(q.answers[idx[k]].text)))
  }

  /** The question the import makes of the export of `q` at position `k`:
      a fresh id, the same text, no image, the filled answers trimmed and
      padded to five, and the correct index moved to the correct answer's
      place among the filled ones. */
  function Reimported(q: Question, k: nat, freshId: nat -> string): Question
  {
    Question(freshId(k), q.text, None, PadAnswers(FilledTexts(q), AnswerSlots),
             IndexOf(FilledIndicesFrom(q.answers, 0), q.correctAnswerIndex), None)
  }

  /** The entries the import reads from the answer lines of `q`. */
  function Entries(q: Question): (es: seq<Entry>)
    ensures |es| == |FilledIndicesFrom(q.answers, 0)|
  {
    var idx := FilledIndicesFrom(q.answers, 0);
    seq(|idx|, k requires 0 <= k < |idx| => Entry(Trim(q.answers[idx[k]].text), idx[k] == q.correctAnswerIndex))
  }

  /** The exported block, cut where the question pattern cuts it. */
  lemma BlockParts(q: Question, k: nat)
    ensures Block(q, k)
         == ("::" + ("Soru " + NatToString(k + 1)) + "::")
          + (("[html]" + q.text) + "{" + ("\n" + Join(AnswerLines(q), "\n") + "\n") + "}")
  {
  }

  /** The exported block, cut where the newlines are. */
  lemma BlockLines(q: Question, k: nat)
    ensures Block(q, k)
         == ("::Soru " + NatToString(k + 1) + "::" + "[html]" + q.text + "{")
          + "\n" + Join(AnswerLines(q), "\n") + "\n}"
  {
  }

  /** The answer lines of a portable question join into a solid text free of
      carriage returns and '}'. */
  lemma AnswersJoined(q: Question)
    requires Portable(q)
    ensures |AnswerLines(q)| >= 2
    ensures var j := Join(AnswerLines(q), "\n");
      Solid(j) && Lacks(j, '\r') && Lacks(j, '}')
  {
    var lines := AnswerLines(q);
    LinesCount(q);
    FilledIndicesCount(q.answers, 0);
    assert q.answers[0..] == q.answers;
    forall i | 0 <= i < |lines|
      ensures Solid(lines[i]) && Lacks(lines[i], '\n') && Lacks(lines[i], '\r') && Lacks(lines[i], '}')
    {
      LineClean(q, i);
    }
    JoinSolid(lines);
    LacksJoin(lines, "\n", '\r');
    LacksJoin(lines, "\n", '}');
  }

  lemma DigitsLack(n: nat, c: char)
    requires !('0' <= c <= '9')
    ensures Lacks(NatToString(n), c)
  {
  }

  /** An exported block is solid and free of carriage returns. */
  lemma BlockSolid(q: Question, k: nat)
    requires Portable(q)
    ensures Solid(Block(q, k)) && Lacks(Block(q, k), '\r')
  {
    var n := NatToString(k + 1);
    var head := "::Soru " + n + "::" + "[html]" + q.text + "{";
    var j := Join(AnswerLines(q), "\n");
    AnswersJoined(q);
    DigitsLack(k + 1, '\n');
    DigitsLack(k + 1, '\r');
    BlockLines(q, k);
    assert forall i :: 0 <= i < |head| ==> head[i] != '\n' && head[i] != '\r';
    SolidWrap(head, j);
  }

  /** A trimmed block `::title::text{answers}` is neither blank nor a
      comment, and the pattern captures its text and answers. */
  lemma MatchWhole(b: string, title: string, t: string, a: string)
    requires b == ("::" + title + "::") + (t + "{" + a + "}") && Trimmed(b)
    requires Lacks(title, ':') && Lacks(t, '{') && Lacks(a, '}')
    ensures BlockMatch(b) == Some(Match(t, a))
  {
    TrimOfTrimmed(b);
    assert b[0] == ':';
    MatchTitled(title, t, a);
  }

  /** The pattern captures the text after the title of an exported block
      and the answer lines between its braces. */
  lemma ExportedMatch(q: Question, k: nat)
    requires Portable(q)
    ensures BlockMatch(Block(q, k)) == Some(Match("[html]" + q.text, "\n" + Join(AnswerLines(q), "\n") + "\n"))
  {
    var title := "Soru " + NatToString(k + 1);
    var t := "[html]" + q.text;
    var a := "\n" + Join(AnswerLines(q), "\n") + "\n";
    BlockSolid(q, k);
    DigitsLack(k + 1, ':');
    assert Lacks(title, ':');
    assert Lacks(t, '{');
    AnswersJoined(q);
    assert Lacks(a, '}');
    BlockParts(q, k);
    MatchWhole(Block(q, k), title, t, a);
  }

  /** The question text comes back once the `[html]` tag is dropped. */
  lemma ExportedText(q: Question)
    requires Portable(q)
    ensures QuestionText("[html]" + q.text) == q.text
  {
    var t := "[html]" + q.text;
    TrimOfTrimmed(t);
    assert t[6..] == q.text;
    TrimOfTrimmed(q.text);
  }

  /** Each exported answer line reads back as the entry of its answer. */
  lemma ExportedLines(q: Question)
    requires Portable(q)
    ensures var lines := AnswerLines(q);
      && |lines| == |Entries(q)|
      && (forall i :: 0 <= i < |lines| ==> IsMarkerLine(lines[i]))
      && forall i :: 0 <= i < |lines| ==> ParseAnswerLine(lines[i]) == Entries(q)[i]
  {
    var lines := AnswerLines(q);
    LinesCount(q);
    forall i | 0 <= i < |lines|
      ensures IsMarkerLine(lines[i]) && ParseAnswerLine(lines[i]) == Entries(q)[i]
    {
      var idx := FilledIndicesFrom(q.answers, 0);
      LineShape(q, i);
      ParseAnswerLineInverse(FilledText(q, i), idx[i] == q.correctAnswerIndex);
    }
  }

  /** Lines free of newlines, joined by newlines into a solid text and
      wrapped in newlines, are what trimming and splitting give back. */
  lemma WrappedLines(lines: seq<string>)
    requires |lines| > 0 && Solid(Join(lines, "\n"))
    requires forall i, m :: 0 <= i < |lines| && 0 <= m < |lines[i]| ==> lines[i][m] != '\n'
    ensures SplitOn(Trim("\n" + Join(lines, "\n") + "\n"), '\n') == lines
  {
    var j := Join(lines, "\n");
    assert AllSpace("\n");
    TrimSurrounded("\n", j, "\n");
    SplitOnJoin(lines, '\n');
  }

  /** Marker lines read back as the entries they stand for. */
  lemma MarkerLinesEntries(lines: seq<string>, es: seq<Entry>)
    requires forall i :: 0 <= i < |lines| ==> IsMarkerLine(lines[i])
    requires |es| == |lines| && forall i :: 0 <= i < |lines| ==> ParseAnswerLine(lines[i]) == es[i]
    ensures ParseLines(Filter(IsMarkerLine, lines)) == es
  {
    FilterAll(IsMarkerLine, lines);
  }

  /** Marker lines joined by newlines and wrapped in newlines read back as
      the entries of the lines. */
  lemma EntriesOfLines(lines: seq<string>, es: seq<Entry>)
    requires |lines| > 0 && Solid(Join(lines, "\n"))
    requires forall i, m :: 0 <= i < |lines| && 0 <= m < |lines[i]| ==> lines[i][m] != '\n'
    requires forall i :: 0 <= i < |lines| ==> IsMarkerLine(lines[i])
    requires |es| == |lines| && forall i :: 0 <= i < |lines| ==> ParseAnswerLine(lines[i]) == es[i]
    ensures BlockEntries("\n" + Join(lines, "\n") + "\n") == es
  {
    WrappedLines(lines);
    MarkerLinesEntries(lines, es);
  }

  /** The answer text between the braces reads back as the entries of `q`. */
  lemma ExportedEntries(q: Question)
    requires Portable(q)
    ensures BlockEntries("\n" + Join(AnswerLines(q), "\n") + "\n") == Entries(q)
  {
    var lines := AnswerLines(q);
    AnswersJoined(q);
    forall i, m | 0 <= i < |lines| && 0 <= m < |lines[i]|
      ensures lines[i][m] != '\n'
    {
      LineClean(q, i);
    }
    ExportedLines(q);
    EntriesOfLines(lines, Entries(q));
  }

  /** The entries of a portable question all have text, and there are at least two. */
  lemma EntriesKept(q: Question)
    requires Portable(q)
    ensures Kept(Entries(q)) == Entries(q) && Texts(Entries(q)) == FilledTexts(q)
    ensures |Entries(q)| >= 2
  {
    var idx, es := FilledIndicesFrom(q.answers, 0), Entries(q);
    forall i | 0 <= i < |es|
      ensures HasText(es[i])
    {
      BlankIffTrimEmpty(q.answers[idx[i]].text);
    }
    FilterAll(HasText, es);
    FilledIndicesCount(q.answers, 0);
    assert q.answers[0..] == q.answers;
  }

  /** When exactly the entries at the positions where `idx` holds `c` are
      marked correct, and `idx` is strictly increasing and holds `c`, the last
      correct entry is at the one position of `c`. */
  lemma LastCorrectAt(es: seq<Entry>, idx: seq<nat>, c: int)
    requires |es| == |idx| && forall i :: 0 <= i < |es| ==> (es[i].correct <==> idx[i] == c)
    requires forall i, j :: 0 <= i < j < |idx| ==> idx[i] < idx[j]
    requires c in idx
    ensures LastCorrect(es) == IndexOf(idx, c) >= 0
  {
    var m :| 0 <= m < |idx| && idx[m] == c;
    assert es[m].correct;
    var r := LastCorrect(es);
    assert r >= m;
  }

  /** The last entry marked correct is the correct answer's place among the filled ones. */
  lemma EntriesCorrect(q: Question)
    requires Portable(q)
    ensures LastCorrect(Entries(q)) == IndexOf(FilledIndicesFrom(q.answers, 0), q.correctAnswerIndex) >= 0
  {
    LastCorrectAt(Entries(q), FilledIndicesFrom(q.answers, 0), q.correctAnswerIndex);
  }

  /** A block whose captured parts read back as a text and entries that all
      have text, at least two, one of them correct, is accepted as the
      question made of them. */
  lemma AcceptedBlock(block: string, k: nat, freshId: nat -> string, m: Match, text: string,
                      es: seq<Entry>, answers: seq<Answer>, c: int)
    requires BlockMatch(block) == Some(m) && QuestionText(m.text) == text && text != ""
    requires BlockEntries(m.answers) == es && Kept(es) == es && |es| >= 2
    requires Texts(es) == answers && LastCorrect(es) == c >= 0
    ensures ParseBlock(block, k, freshId) == Some(Question(freshId(k), text, None, PadAnswers(answers, AnswerSlots), c, None))
  {
    ParseBlockSpec(block, k, freshId);
  }

  /** The export of a portable question at position `k` is read back as
      `Reimported(q, k, freshId)`. */
  lemma ParseExportedBlock(q: Question, k: nat, freshId: nat -> string)
    requires Portable(q)
    ensures ParseBlock(Block(q, k), k, freshId) == Some(Reimported(q, k, freshId))
  {
    var a := "\n" + Join(AnswerLines(q), "\n") + "\n";
    ExportedMatch(q, k);
    ExportedText(q);
    ExportedEntries(q);
    EntriesKept(q);
    EntriesCorrect(q);
    AcceptedBlock(Block(q, k), k, freshId, Match("[html]" + q.text, a), q.text, Entries(q), FilledTexts(q),
                  IndexOf(FilledIndicesFrom(q.answers, 0), q.correctAnswerIndex));
  }

  // ---------------------------------------------------------------------
  // The whole bank
  // ---------------------------------------------------------------------

  /** What the import makes of the export of the whole bank. */
  function ReimportedAll(questions: seq<Question>, freshId: nat -> string): (r: seq<Question>)
    ensures |r| == |questions|
  {
    seq(|questions|, k requires 0 <= k < |questions| => Reimported(questions[k], k, freshId))
  }

  lemma ParseExportedBlocks(questions: seq<Question>, freshId: nat -> string)
    requires forall k :: 0 <= k < |questions| ==> Portable(questions[k])
    ensures ParseBlocks(Blocks(questions), freshId) == ReimportedAll(questions, freshId)
  {
    var opts, all := ParseEach(Blocks(questions), freshId), ReimportedAll(questions, freshId);
    forall i | 0 <= i < |questions|
      ensures opts[i] == Some(all[i])
    {
      ParseExportedBlock(questions[i], i, freshId);
    }
    PresentAll(opts, all);
  }

  /** Every block of the export is solid and free of carriage returns. */
  lemma BlocksSolid(questions: seq<Question>)
    requires forall k :: 0 <= k < |questions| ==> Portable(questions[k])
    ensures forall k :: 0 <= k < |questions| ==> Solid(Blocks(questions)[k]) && Lacks(Blocks(questions)[k], '\r')
  {
    forall k | 0 <= k < |questions|
      ensures Solid(Blocks(questions)[k]) && Lacks(Blocks(questions)[k], '\r')
    {
      BlockSolid(questions[k], k);
    }
  }

  /** Export followed by import: a non-empty bank of portable questions comes
      back question by question, each as `Reimported` describes, in order. */
  lemma ExportImport(questions: seq<Question>, freshId: nat -> string)
    requires |questions| > 0 && forall k :: 0 <= k < |questions| ==> Portable(questions[k])
    ensures ExportGift(questions).Some?
    ensures ParseGift(ExportGift(questions).value, freshId) == ReimportedAll(questions, freshId)
  {
    var blocks := Blocks(questions);
    var text := Join(blocks, "\n\n");
    BlocksSolid(questions);
    LacksJoin(blocks, "\n\n", '\r');
    assert NormalizeNewlines(text) == text;
    SplitBlocksJoin(blocks);
    ParseExportedBlocks(questions, freshId);
  }

  // ---------------------------------------------------------------------
  // What survives and what does not
  // ---------------------------------------------------------------------

  /** The text and the correct answer's text survive the round trip. */
  lemma ReimportedKeepsCorrect(q: Question, k: nat, freshId: nat -> string)
    requires Portable(q)
    ensures var r := Reimported(q, k, freshId);
      && r.text == q.text
      && 0 <= r.correctAnswerIndex < |r.answers|
      && r.answers[r.correctAnswerIndex] == Answer(Trim(q.answers[q.correctAnswerIndex].text))
  {
    var idx := FilledIndicesFrom(q.answers, 0);
    assert q.correctAnswerIndex in idx;
    var c := IndexOf(idx, q.correctAnswerIndex);
    assert FilledTexts(q)[c] == Answer(Trim(q.answers[q.correctAnswerIndex].text));
  }

  /** With the filled answers first and already trimmed, the trimmed filled
      texts are the first answers. */
  lemma FilledTextsPrefix(q: Question)
    requires BlanksTrailing(q.answers)
    requires forall i :: 0 <= i < |q.answers| ==> Trim(q.answers[i].text) == q.answers[i].text
    ensures |FilledTexts(q)| <= |q.answers| && FilledTexts(q) == q.answers[..|FilledTexts(q)|]
    ensures forall j :: |FilledTexts(q)| <= j < |q.answers| ==> q.answers[j] == Answer("")
  {
    var idx := FilledIndicesFrom(q.answers, 0);
    var m := FilledPrefix(q.answers);
    forall j | |idx| <= j < |q.answers|
      ensures q.answers[j] == Answer("")
    {
      BlankIffTrimEmpty(q.answers[j].text);
    }
  }

  /** Padding the leading part back with empty answers restores answers whose rest is empty. */
  lemma PadRestores(answers: seq<Answer>, n: nat)
    requires n <= |answers| && forall j :: n <= j < |answers| ==> answers[j] == Answer("")
    ensures PadAnswers(answers[..n], |answers|) == answers
  {
  }

  /** In `base, base + 1, ...` the value `base + j` is at position `j`. */
  lemma {:induction false} IndexOfIdentity(idx: seq<nat>, base: nat, j: nat)
    requires (forall m :: 0 <= m < |idx| ==> idx[m] == base + m) && j < |idx|
    ensures IndexOf(idx, base + j) == j
    decreases |idx|
  {
    if j > 0 {
      IndexOfIdentity(idx[1..], base + 1, j - 1);
    }
  }

  /** With the filled answers first, the correct index is its own place among them. */
  lemma IndexOfPrefix(q: Question)
    requires BlanksTrailing(q.answers)
    requires 0 <= q.correctAnswerIndex < |q.answers| && IsFilledAnswer(q.answers[q.correctAnswerIndex])
    ensures IndexOf(FilledIndicesFrom(q.answers, 0), q.correctAnswerIndex) == q.correctAnswerIndex
  {
    var idx := FilledIndicesFrom(q.answers, 0);
    var m := FilledPrefix(q.answers);
    assert q.correctAnswerIndex < |idx|;
    IndexOfIdentity(idx, 0, q.correctAnswerIndex);
  }

  /** A question already in the shape the import produces (five answers, the
      filled ones first and trimmed, the blank ones empty, no image, not a
      booklet copy) comes back unchanged except for its id. */
  lemma ReimportedIdentity(q: Question, k: nat, freshId: nat -> string)
    requires Portable(q) && q.image.None? && q.originalIndex.None?
    requires |q.answers| == AnswerSlots && BlanksTrailing(q.answers)
    requires forall i :: 0 <= i < |q.answers| ==> Trim(q.answers[i].text) == q.answers[i].text
    ensures Reimported(q, k, freshId) == q.(id := freshId(k))
  {
    FilledTextsPrefix(q);
    PadRestores(q.answers, |FilledTexts(q)|);
    IndexOfPrefix(q);
  }

  /** The export escapes the reserved characters of an answer. */
  lemma ExportEscapes()
    ensures AnswerLine(Answer("a#b"), 0, 0) == Some("=a\\#b")
  {
    assert Escape("a#b") == "a\\#b";
    TrimOfTrimmed("a#b");
    assert !IsSpace("a#b"[0]);
    assert !IsBlank("a#b");
    assert Trim("a#b") == "a#b";
    assert Marker(true) == "=";
    assert AnswerLine(Answer("a#b"), 0, 0) == Some("=" + Escape("a#b"));
    assert "=" + "a\\#b" == "=a\\#b";
  }

  /** The import does not undo the escapes: the line `=a\#b` reads as the
      correct answer `a\`, the backslash kept and the rest taken as feedback. */
  lemma ImportKeepsBackslash()
    ensures IsMarkerLine("=a\\#b")
    ensures ParseAnswerLine("=a\\#b") == Entry("a\\", true)
  {
    var line := "=a\\#b";
    TrimOfTrimmed(line);
    var s := line[1..];
    assert s == "a\\#b";
    assert !FeedbackAt(s, 0) && !FeedbackAt(s, 1) && FeedbackAt(s, 2);
    assert FindFeedback(s, 0) == 2;
    assert CutFeedback(s) == "a\\";
    assert RemoveWeight("a\\") == "a\\";
    assert "a\\"[0] == 'a' && "a\\"[1] == '\\' && !IsSpace('a') && !IsSpace('\\');
    TrimOfTrimmed("a\\");
  }
}
