/** Import of Moodle GIFT text (`parseGiftFormat`). Every regular expression
    of the source is written out as the scan its backtracking search amounts
    to; the comment on each function says why the two agree. */
module GiftImport {
  import opened Common
  import opened Model

  /** `replace(/\r\n/g, '\n')`: every CR LF pair, read from the left, becomes LF. */
  function NormalizeNewlines(s: string): (r: string)
    ensures |r| <= |s|
    ensures (forall i :: 0 <= i < |s| ==> s[i] != '\r') ==> r == s
    decreases |s|
  {
    if |s| == 0 then ""
    else if |s| >= 2 && s[0] == '\r' && s[1] == '\n' then "\n" + NormalizeNewlines(s[2..])
    else [s[0]] + NormalizeNewlines(s[1..])
  }

  // ---------------------------------------------------------------------
  // Blocks: `split(/(?:\s*\n){2,}/)`
  // ---------------------------------------------------------------------

  /** The position just after the last newline of `s[i..j]`, or `i` when there is none. */
  function AfterLastNewline(s: string, i: nat, j: nat): (k: nat)
    requires i <= j <= |s|
    ensures i <= k <= j
    ensures k > i ==> s[k - 1] == '\n'
    ensures forall m :: k <= m < j ==> s[m] != '\n'
    decreases j - i
  {
    if j == i then i
    else if s[j - 1] == '\n' then j
    else AfterLastNewline(s, i, j - 1)
  }

  /** Where a separator tried at `q` ends. The greedy `\s*` of the first
      repetition runs to the end of the white-space run at `q` and gives back
      characters until a newline follows; further repetitions must each end on
      a later newline, so a successful match ends just after the last newline
      of the run. */
  function SeparatorEnd(s: string, q: nat): (e: nat)
    requires q <= |s|
    ensures q <= e <= |s|
  {
    AfterLastNewline(s, q, SkipSpaces(s, q))
  }

  /** The separator matches at `q`: the white-space run starting at `q` holds
      at least two newlines (`SeparatorAtIff`). */
  predicate SeparatorAt(s: string, q: nat)
    requires q <= |s|
  {
    var e := SeparatorEnd(s, q);
    e > q && AfterLastNewline(s, q, e - 1) > q
  }

  /** The separator matches at `q` exactly when two newlines sit in the white-space run at `q`. */
  lemma SeparatorAtIff(s: string, q: nat)
    requires q <= |s|
    ensures SeparatorAt(s, q) <==>
      exists a, b :: q <= a < b < SkipSpaces(s, q) && s[a] == '\n' && s[b] == '\n'
  {
    var sk := SkipSpaces(s, q);
    var e := SeparatorEnd(s, q);
    if SeparatorAt(s, q) {
      var k := AfterLastNewline(s, q, e - 1);
      assert q <= k - 1 < e - 1 < sk && s[k - 1] == '\n' && s[e - 1] == '\n';
    }
    if exists a, b :: q <= a < b < sk && s[a] == '\n' && s[b] == '\n' {
      var a, b :| q <= a < b < sk && s[a] == '\n' && s[b] == '\n';
      assert e > b;
      assert AfterLastNewline(s, q, e - 1) > a;
    }
  }

  /** The first position at or after `p` where the separator matches (`|s|` if none). */
  function FindSeparator(s: string, p: nat): (q: nat)
    requires p <= |s|
    ensures p <= q <= |s|
    ensures q < |s| ==> SeparatorAt(s, q)
    ensures forall m :: p <= m < q ==> !SeparatorAt(s, m)
    decreases |s| - p
  {
    if p == |s| || SeparatorAt(s, p) then p else FindSeparator(s, p + 1)
  }

  /** `split` from position `p` on: the piece up to the next separator, then the
      pieces after it. No separator can match the empty string, so the split
      never stops on an empty match. */
  function SplitFrom(s: string, p: nat): (r: seq<string>)
    requires p <= |s|
    ensures 0 < |r| <= |s| - p + 1
    decreases |s| - p
  {
    var q := FindSeparator(s, p);
    if q == |s| then [s[p..]]
    else [s[p..q]] + SplitFrom(s, SeparatorEnd(s, q))
  }

  function SplitBlocks(s: string): (r: seq<string>)
    ensures 0 < |r| <= |s| + 1
  {
    SplitFrom(s, 0)
  }

  // ---------------------------------------------------------------------
  // The question pattern: `/(?:::(.*?)::)?(.*?)\{(.*?)\}/s`
  // ---------------------------------------------------------------------

  /** The first position at or after `i` holding `c` (`|s|` if none). */
  function FindChar(s: string, c: char, i: nat): (k: nat)
    requires i <= |s|
    ensures i <= k <= |s|
    ensures k < |s| ==> s[k] == c
    ensures forall m :: i <= m < k ==> s[m] != c
    decreases |s| - i
  {
    if i == |s| || s[i] == c then i else FindChar(s, c, i + 1)
  }

  /** The first position at or after `i` where "::" starts (`|s|` if none). */
  function FindPair(s: string, i: nat): (k: nat)
    requires i <= |s|
    ensures i <= k <= |s|
    ensures k < |s| ==> k + 1 < |s| && s[k] == ':' && s[k + 1] == ':'
    ensures forall m :: i <= m && m + 1 < k + 1 && m + 1 < |s| ==> !(s[m] == ':' && s[m + 1] == ':')
    decreases |s| - i
  {
    if i + 1 >= |s| then |s|
    else if s[i] == ':' && s[i + 1] == ':' then i
    else FindPair(s, i + 1)
  }

  /** The captured question text and answers text. */
  datatype Match = Match(text: string, answers: string)

  /** `(.*?)\{(.*?)\}` tried at `i`: the lazy text stops at the first '{' and
      the lazy answers at the next '}'. When that '{' has no '}' after it, no
      later '{' has one either, so the pattern fails at `i`. */
  function MatchBody(s: string, i: nat): (m: Option<Match>)
    requires i <= |s|
    ensures m.Some? ==>
      && StartsWith(s[i..], m.value.text + "{" + m.value.answers + "}")
      && (forall k :: 0 <= k < |m.value.text| ==> m.value.text[k] != '{')
      && (forall k :: 0 <= k < |m.value.answers| ==> m.value.answers[k] != '}')
    ensures m.None? <==> forall o, c :: i <= o < c < |s| && s[o] == '{' ==> s[c] != '}'
  {
    var o := FindChar(s, '{', i);
    if o == |s| then
      assert forall m :: i <= m < |s| ==> s[m] != '{';
      None
    else
      var c := FindChar(s, '}', o + 1);
      if c == |s| then
        assert forall m :: o < m < |s| ==> s[m] != '}';
        None
      else
        assert i <= o < c < |s| && s[o] == '{' && s[c] == '}';
        var m := Match(s[i..o], s[o + 1..c]);
        assert s[i..][..|m.text + "{" + m.answers + "}"|] == m.text + "{" + m.answers + "}";
        Some(m)
  }

  /** `block.match(questionRegex)`. A match, when there is one, starts at 0,
      since `MatchBody(b, 0)` failing means no '{' of `b` has a '}' after it.
      At 0 the optional title is tried first: "::", the lazy title up to the
      first "::" after it, then the body; a later "::" cannot rescue a body that
      failed after the first. Without a title the body is tried at 0. */
  function MatchQuestion(b: string): (m: Option<Match>)
    ensures m.None? <==> MatchBody(b, 0).None?
  {
    if StartsWith(b, "::") then
      var t := FindPair(b, 2);
      if t < |b| && MatchBody(b, t + 2).Some? then MatchBody(b, t + 2) else MatchBody(b, 0)
    else MatchBody(b, 0)
  }

  /** `questionText`: the trimmed text, with a leading `[html]` dropped and the rest trimmed again. */
  function QuestionText(text: string): (r: string)
    ensures Trimmed(r)
  {
    var t := Trim(text);
    if StartsWith(t, "[html]") then Trim(t[6..]) else t
  }

  // ---------------------------------------------------------------------
  // Answer lines
  // ---------------------------------------------------------------------

  /** The filter of `answerLines`: the trimmed line starts with '=' or '~'. */
  predicate IsMarkerLine(line: string)
  {
    var t := Trim(line);
    |t| > 0 && (t[0] == '=' || t[0] == '~')
  }

  /** `/#.*$/` matches at `h`: a '#' followed by no line terminator up to the
      end of the text ('.' stops at a line terminator and '$', without the `m`
      flag, is only the end of the text). */
  predicate FeedbackAt(s: string, h: nat)
  {
    h < |s| && s[h] == '#' && forall m :: h < m < |s| ==> !IsLineTerminator(s[m])
  }

  function FindFeedback(s: string, i: nat): (h: nat)
    requires i <= |s|
    ensures i <= h <= |s|
    ensures h < |s| ==> FeedbackAt(s, h)
    ensures forall m :: i <= m < h ==> !FeedbackAt(s, m)
    decreases |s| - i
  {
    if i == |s| || FeedbackAt(s, i) then i else FindFeedback(s, i + 1)
  }

  /** `replace(/#.*$/, '')`: everything from the leftmost match on is dropped. */
  function CutFeedback(s: string): (r: string)
    ensures StartsWith(s, r)
    ensures |r| < |s| ==> FeedbackAt(s, |r|)
    ensures forall m :: 0 <= m < |r| ==> !FeedbackAt(s, m)
    ensures (forall m :: 0 <= m < |s| ==> s[m] != '#') ==> r == s
  {
    s[..FindFeedback(s, 0)]
  }

  predicate IsDigit(c: char)
  {
    '0' <= c <= '9'
  }

  predicate AllDigits(t: string)
  {
    |t| > 0 && forall k :: 0 <= k < |t| ==> IsDigit(t[k])
  }

  /** `\d+(\.\d+)?` as a whole string. */
  predicate IsDecimal(t: string)
  {
    AllDigits(t) || exists k :: 0 < k < |t| && t[k] == '.' && AllDigits(t[..k]) && AllDigits(t[k + 1..])
  }

  /** `%-?\d+(\.\d+)?%` as a whole string: a GIFT answer weight. */
  predicate IsWeight(w: string)
  {
    && |w| >= 3 && w[0] == '%' && w[|w| - 1] == '%'
    && (IsDecimal(w[1..|w| - 1]) || (w[1] == '-' && IsDecimal(w[2..|w| - 1])))
  }

  /** The end of the run of decimal digits starting at `i`. */
  function DigitsEnd(s: string, i: nat): (k: nat)
    requires i <= |s|
    ensures i <= k <= |s|
    ensures forall m :: i <= m < k ==> IsDigit(s[m])
    ensures k < |s| ==> !IsDigit(s[k])
    decreases |s| - i
  {
    if i < |s| && IsDigit(s[i]) then DigitsEnd(s, i + 1) else i
  }

  /** `%-?\d+(\.\d+)?%` tried at `j`. Backtracking cannot help: giving back a
      digit or the '-' leaves a digit or '-' where '.', '%' or a digit is
      needed, so the match is the greedy one or none. */
  function PercentEnd(s: string, j: nat): (e: Option<nat>)
    requires j <= |s|
    ensures e.Some? ==> j < e.value <= |s| && IsWeight(s[j..e.value])
  {
    if j == |s| || s[j] != '%' then None
    else
      var k := if j + 1 < |s| && s[j + 1] == '-' then j + 2 else j + 1;
      var d := DigitsEnd(s, k);
      if d == k then None
      else if d + 1 < |s| && s[d] == '.' && IsDigit(s[d + 1]) then
        var d2 := DigitsEnd(s, d + 1);
        if d2 < |s| && s[d2] == '%' then
          WeightWithFraction(s, j, k, d, d2);
          Some(d2 + 1)
        else None
      else if d < |s| && s[d] == '%' then
        WeightWhole(s, j, k, d);
        Some(d + 1)
      else None
  }

  lemma SliceOfSlice(s: string, a: nat, b: nat, c: nat, e: nat)
    requires a <= b <= |s| && c <= e <= b - a
    ensures s[a..b][c..e] == s[a + c..a + e]
  {
    assert forall i :: 0 <= i < e - c ==> s[a..b][c..e][i] == s[a + c + i];
  }

  /** `%`, an optional `-`, a decimal `s[k..d]` and `%` at `d` make a weight. */
  lemma WeightOfDecimal(s: string, j: nat, k: nat, d: nat)
    requires j < k < d < |s| && s[j] == '%' && s[d] == '%'
    requires k == j + 1 || (k == j + 2 && s[j + 1] == '-')
    requires IsDecimal(s[k..d])
    ensures IsWeight(s[j..d + 1])
  {
    var w := s[j..d + 1];
    SliceOfSlice(s, j, d + 1, k - j, |w| - 1);
  }

  lemma WeightWhole(s: string, j: nat, k: nat, d: nat)
    requires j < k <= d < |s| && s[j] == '%' && s[d] == '%'
    requires k == j + 1 || (k == j + 2 && s[j + 1] == '-')
    requires k < d && forall m :: k <= m < d ==> IsDigit(s[m])
    ensures IsWeight(s[j..d + 1])
  {
    assert AllDigits(s[k..d]);
    WeightOfDecimal(s, j, k, d);
  }

  lemma WeightWithFraction(s: string, j: nat, k: nat, d: nat, d2: nat)
    requires j < k < d < d2 < |s| && s[j] == '%' && s[d] == '.' && s[d2] == '%'
    requires k == j + 1 || (k == j + 2 && s[j + 1] == '-')
    requires forall m :: k <= m < d ==> IsDigit(s[m])
    requires d + 1 < d2 && forall m :: d + 1 <= m < d2 ==> IsDigit(s[m])
    ensures IsWeight(s[j..d2 + 1])
  {
    var t := s[k..d2];
    var x := d - k;
    SliceOfSlice(s, k, d2, 0, x);
    SliceOfSlice(s, k, d2, x + 1, |t|);
    assert AllDigits(t[..x]) && AllDigits(t[x + 1..]);
    assert 0 < x < |t| && t[x] == '.';
    WeightOfDecimal(s, j, k, d2);
  }

  /** `~?%-?\d+(\.\d+)?%` tried at `h`: with a leading '~' when there is one
      (without it the match would have to start with '%' at the '~'). */
  function WeightEnd(s: string, h: nat): (e: Option<nat>)
    requires h <= |s|
    ensures e.Some? ==> h < e.value <= |s|
  {
    if h < |s| && s[h] == '~' then PercentEnd(s, h + 1) else PercentEnd(s, h)
  }

  /** The leftmost position at or after `i` where the weight pattern matches (`|s|` if none). */
  function FindWeight(s: string, i: nat): (h: nat)
    requires i <= |s|
    ensures i <= h <= |s|
    ensures h < |s| ==> WeightEnd(s, h).Some?
    ensures forall m :: i <= m < h ==> WeightEnd(s, m).None?
    decreases |s| - i
  {
    if i == |s| || WeightEnd(s, i).Some? then i else FindWeight(s, i + 1)
  }

  /** A weight, possibly preceded by '~'. */
  predicate IsWeightMark(w: string)
  {
    IsWeight(w) || (|w| > 0 && w[0] == '~' && IsWeight(w[1..]))
  }

  /** A run of digits from `k` up to a non-digit at `d` (or the end) ends at `d`. */
  lemma {:induction false} DigitsRun(s: string, k: nat, d: nat)
    requires k <= d <= |s|
    requires forall m :: k <= m < d ==> IsDigit(s[m])
    requires d == |s| || !IsDigit(s[d])
    ensures DigitsEnd(s, k) == d
    decreases d - k
  {
    if k < d {
      DigitsRun(s, k + 1, d);
    }
  }

  /** A weight is `%`, an optional `-`, a decimal and a closing `%`. */
  lemma WeightParts(s: string, j: nat, e: nat)
    requires j < e <= |s| && IsWeight(s[j..e])
    ensures s[j] == '%' && s[e - 1] == '%'
    ensures var k := if s[j + 1] == '-' then j + 2 else j + 1;
      k < e - 1 && IsDecimal(s[k..e - 1])
  {
    var w := s[j..e];
    assert s[j] == w[0] && s[e - 1] == w[|w| - 1] && s[j + 1] == w[1];
    if s[j + 1] == '-' {
      assert !IsDecimal(w[1..|w| - 1]) by {
        var u := w[1..|w| - 1];
        assert u[0] == '-';
        forall x | 0 < x < |u| ensures !AllDigits(u[..x]) {
          assert u[..x][0] == u[0];
        }
      }
      SliceOfSlice(s, j, e, 2, |w| - 1);
    } else {
      SliceOfSlice(s, j, e, 1, |w| - 1);
    }
  }

  /** A digit run `s[a..b]` closed by a non-digit is read by `DigitsEnd` up to `b`. */
  lemma DigitsSlice(s: string, a: nat, b: nat)
    requires a <= b < |s| && (a == b || AllDigits(s[a..b])) && !IsDigit(s[b])
    ensures DigitsEnd(s, a) == b
  {
    forall m | a <= m < b
      ensures IsDigit(s[m])
    {
      assert s[a..b][m - a] == s[m];
    }
    DigitsRun(s, a, b);
  }

  /** A decimal closed by `%` at `d` is read by `PercentEnd`'s digit scans up
      to `d`: a whole part alone, or a whole part, a dot and a fraction. */
  lemma DecimalScan(s: string, k: nat, d: nat)
    requires k < d < |s| && s[d] == '%' && IsDecimal(s[k..d])
    ensures var n := DigitsEnd(s, k);
      && n > k
      && (if n + 1 < |s| && s[n] == '.' && IsDigit(s[n + 1]) then DigitsEnd(s, n + 1) == d else n == d)
  {
    var t := s[k..d];
    if AllDigits(t) {
      DigitsSlice(s, k, d);
    } else {
      var x :| 0 < x < |t| && t[x] == '.' && AllDigits(t[..x]) && AllDigits(t[x + 1..]);
      FractionScan(s, k, d, x);
    }
  }

  /** The scans over a whole part `s[k..k + x]`, a dot and a fraction up to `d`. */
  lemma FractionScan(s: string, k: nat, d: nat, x: nat)
    requires k < d <= |s| && 0 < x < d - k && s[k..d][x] == '.'
    requires AllDigits(s[k..d][..x]) && AllDigits(s[k..d][x + 1..])
    requires d < |s| && !IsDigit(s[d])
    ensures DigitsEnd(s, k) == k + x && s[k + x] == '.' && IsDigit(s[k + x + 1])
    ensures DigitsEnd(s, k + x + 1) == d
  {
    assert s[k..d][x + 1..][0] == s[k + x + 1];
    SliceOfSlice(s, k, d, 0, x);
    SliceOfSlice(s, k, d, x + 1, d - k);
    DigitsSlice(s, k, k + x);
    DigitsSlice(s, k + x + 1, d);
  }

  /** Wherever a weight starts, `PercentEnd` finds it, ending where it ends. */
  lemma PercentMatches(s: string, j: nat, e: nat)
    requires j < e <= |s| && IsWeight(s[j..e])
    ensures PercentEnd(s, j) == Some(e)
  {
    WeightParts(s, j, e);
    var k := if s[j + 1] == '-' then j + 2 else j + 1;
    DecimalScan(s, k, e - 1);
  }

  /** Wherever a weight mark starts, `WeightEnd` finds a match. */
  lemma MarkMatches(s: string, h: nat, e: nat)
    requires h < e <= |s| && IsWeightMark(s[h..e])
    ensures WeightEnd(s, h).Some?
  {
    if IsWeight(s[h..e]) {
      assert s[h] == s[h..e][0] == '%';
      PercentMatches(s, h, e);
    } else {
      assert s[h..e][1..] == s[h + 1..e];
      PercentMatches(s, h + 1, e);
    }
  }

  /** No weight mark starts before a position where none was found. */
  lemma NoMarkBefore(s: string, h: nat)
    requires h <= |s| && forall m :: 0 <= m < h ==> WeightEnd(s, m).None?
    ensures forall m, e :: 0 <= m < h && m < e <= |s| ==> !IsWeightMark(s[m..e])
  {
    forall m, e | 0 <= m < h && m < e <= |s| && IsWeightMark(s[m..e])
      ensures false
    {
      MarkMatches(s, m, e);
    }
  }

  /** Some weight mark occurs in `s`. */
  predicate HasWeightMark(s: string)
  {
    exists h, e :: 0 <= h < e <= |s| && IsWeightMark(s[h..e])
  }

  /** `replace(/~?%-?\d+(\.\d+)?%/, '')`: the leftmost weight mark is removed.
      The text changes exactly when it holds a weight mark; then the cut is one
      mark, and no mark starts before it. */
  function RemoveWeight(s: string): (r: string)
    ensures HasWeightMark(s) <==> r != s
    ensures r != s ==> exists h, e ::
      && 0 <= h < e <= |s| && r == s[..h] + s[e..] && IsWeightMark(s[h..e])
      && forall m, e2 :: 0 <= m < h && m < e2 <= |s| ==> !IsWeightMark(s[m..e2])
    ensures (forall m :: 0 <= m < |s| ==> s[m] != '%') ==> r == s
  {
    var h := FindWeight(s, 0);
    NoMarkBefore(s, h);
    if h == |s| then s
    else
      var e := WeightEnd(s, h).value;
      assert IsWeightMark(s[h..e]) by {
        if s[h] == '~' {
          assert s[h..e][1..] == s[h + 1..e];
        }
      }
      assert |s[..h] + s[e..]| < |s|;
      s[..h] + s[e..]
  }

  /** One answer line after `trim`: its text and whether it was marked '='. */
  datatype Entry = Entry(text: string, correct: bool)

  /** The body of `answerLines.forEach` up to the test `if (text)`: drop the
      marker, cut the feedback, remove the weight, trim. */
  function ParseAnswerLine(line: string): (e: Entry)
    requires IsMarkerLine(line)
    ensures Trimmed(e.text)
  {
    var t := Trim(line);
    Entry(Trim(RemoveWeight(CutFeedback(t[1..]))), t[0] == '=')
  }

  /** A text that comes back from an answer line unchanged: trimmed, and free
      of '#', '%' and line terminators. */
  predicate Verbatim(a: string)
  {
    Trimmed(a) && forall k :: 0 <= k < |a| ==> a[k] != '#' && a[k] != '%' && !IsLineTerminator(a[k])
  }

  /** An answer line written as the export writes it reads back as the text and
      the marker it was written with. */
  lemma ParseAnswerLineInverse(a: string, correct: bool)
    requires Verbatim(a) && a != ""
    ensures IsMarkerLine((if correct then "=" else "~") + a)
    ensures ParseAnswerLine((if correct then "=" else "~") + a) == Entry(a, correct)
  {
    var line := (if correct then "=" else "~") + a;
    TrimOfTrimmed(line);
    assert line[1..] == a;
    TrimOfTrimmed(a);
  }

  /** The `forEach` over the answer lines, from the state `acc` on: a
      non-empty text is appended, and a correct one moves the correct index to it. */
  datatype Collected = Collected(answers: seq<Answer>, correctAnswerIndex: int)

  function CollectFrom(entries: seq<Entry>, acc: Collected): (r: Collected)
    decreases |entries|
  {
    if |entries| == 0 then acc
    else
      var e := entries[0];
      var next :=
        if e.text != "" then
          Collected(acc.answers + [Answer(e.text)],
                    if e.correct then |acc.answers| else acc.correctAnswerIndex)
        else acc;
      CollectFrom(entries[1..], next)
  }

  function Collect(entries: seq<Entry>): Collected
  {
    CollectFrom(entries, Collected([], -1))
  }

  predicate HasText(e: Entry)
  {
    e.text != ""
  }

  /** The entries the loop keeps. */
  function Kept(entries: seq<Entry>): seq<Entry>
  {
    Filter(HasText, entries)
  }

  function Texts(entries: seq<Entry>): (r: seq<Answer>)
    ensures |r| == |entries|
    ensures forall k :: 0 <= k < |entries| ==> r[k] == Answer(entries[k].text)
  {
    seq(|entries|, k requires 0 <= k < |entries| => Answer(entries[k].text))
  }

  /** The position of the last correct entry, -1 when none is correct. */
  function LastCorrect(entries: seq<Entry>): (k: int)
    ensures -1 <= k < |entries|
    ensures k >= 0 ==> entries[k].correct
    ensures forall m :: k < m < |entries| ==> !entries[m].correct
    decreases |entries|
  {
    if |entries| == 0 then -1
    else if entries[|entries| - 1].correct then |entries| - 1
    else LastCorrect(entries[..|entries| - 1])
  }

  lemma TextsSnoc(pre: seq<Entry>, e: Entry)
    ensures Texts(pre + [e]) == Texts(pre) + [Answer(e.text)]
  {
  }

  lemma LastCorrectSnoc(pre: seq<Entry>, e: Entry)
    ensures LastCorrect(pre + [e]) == if e.correct then |pre| else LastCorrect(pre)
  {
    assert (pre + [e])[..|pre|] == pre;
  }

  lemma KeptCons(e: Entry, rest: seq<Entry>)
    ensures Kept([e] + rest) == (if e.text != "" then [e] else []) + Kept(rest)
  {
    assert ([e] + rest)[1..] == rest;
  }

  /** One turn of the loop on an entry with text, from the state that the
      entries `pre` leave: the state that `pre + [e]` leaves. */
  lemma CollectFromKeep(pre: seq<Entry>, e: Entry, rest: seq<Entry>)
    requires e.text != ""
    ensures CollectFrom([e] + rest, Collected(Texts(pre), LastCorrect(pre)))
         == CollectFrom(rest, Collected(Texts(pre + [e]), LastCorrect(pre + [e])))
  {
    assert ([e] + rest)[1..] == rest;
    TextsSnoc(pre, e);
    LastCorrectSnoc(pre, e);
  }

  /** One turn of the loop on an entry without text leaves the state alone. */
  lemma CollectFromSkip(e: Entry, rest: seq<Entry>, acc: Collected)
    requires e.text == ""
    ensures CollectFrom([e] + rest, acc) == CollectFrom(rest, acc)
  {
    assert ([e] + rest)[1..] == rest;
  }

  /** The state the loop reaches from the state `pre` leaves, for the entries `entries`. */
  predicate CollectsFrom(pre: seq<Entry>, entries: seq<Entry>)
  {
    CollectFrom(entries, Collected(Texts(pre), LastCorrect(pre)))
      == Collected(Texts(pre + Kept(entries)), LastCorrect(pre + Kept(entries)))
  }

  lemma CollectsKeep(pre: seq<Entry>, entries: seq<Entry>)
    requires |entries| > 0 && entries[0].text != ""
    requires CollectsFrom(pre + [entries[0]], entries[1..])
    ensures CollectsFrom(pre, entries)
  {
    var e, rest := entries[0], entries[1..];
    assert entries == [e] + rest;
    KeptCons(e, rest);
    CollectFromKeep(pre, e, rest);
    Associative(pre, [e], Kept(rest));
  }

  lemma Associative<T>(a: seq<T>, b: seq<T>, c: seq<T>)
    ensures (a + b) + c == a + (b + c)
  {
  }

  lemma CollectsSkip(pre: seq<Entry>, entries: seq<Entry>)
    requires |entries| > 0 && entries[0].text == ""
    requires CollectsFrom(pre, entries[1..])
    ensures CollectsFrom(pre, entries)
  {
    var e, rest := entries[0], entries[1..];
    assert entries == [e] + rest;
    KeptCons(e, rest);
    CollectFromSkip(e, rest, Collected(Texts(pre), LastCorrect(pre)));
  }

  lemma {:induction false} CollectFromSpec(pre: seq<Entry>, entries: seq<Entry>)
    ensures CollectsFrom(pre, entries)
    decreases |entries|
  {
    if |entries| == 0 {
      assert pre + Kept(entries) == pre;
    } else if entries[0].text != "" {
      CollectFromSpec(pre + [entries[0]], entries[1..]);
      CollectsKeep(pre, entries);
    } else {
      CollectFromSpec(pre, entries[1..]);
      CollectsSkip(pre, entries);
    }
  }

  /** The loop collects the non-empty texts in order, and the correct index
      ends on the last correct one among them (-1 when there is none). */
  lemma CollectSpec(entries: seq<Entry>)
    ensures Collect(entries) == Collected(Texts(Kept(entries)), LastCorrect(Kept(entries)))
  {
    assert Texts([]) == [];
    CollectFromSpec([], entries);
    assert [] + Kept(entries) == Kept(entries);
  }

  function ParseLines(lines: seq<string>): (es: seq<Entry>)
    requires forall k :: 0 <= k < |lines| ==> IsMarkerLine(lines[k])
    ensures |es| == |lines|
    ensures forall k :: 0 <= k < |lines| ==> es[k] == ParseAnswerLine(lines[k])
  {
    seq(|lines|, k requires 0 <= k < |lines| => ParseAnswerLine(lines[k]))
  }

  /** The entries of an answers text: its trimmed lines that start with a marker. */
  function BlockEntries(answers: string): seq<Entry>
  {
    ParseLines(Filter(IsMarkerLine, SplitOn(Trim(answers), '\n')))
  }

  // ---------------------------------------------------------------------
  // Blocks to questions
  // ---------------------------------------------------------------------

  /** The number of answer slots an imported question is padded to. */
  const AnswerSlots: nat := 5

  /** A question as the import builds it: a trimmed non-empty text, no image,
      at least five answers of which the filled ones come first and number at
      least two, and a correct index that points at a filled one. */
  predicate Imported(q: Question)
  {
    && Trimmed(q.text) && q.text != ""
    && q.image.None? && q.originalIndex.None?
    && |q.answers| >= AnswerSlots
    && BlanksTrailing(q.answers)
    && Count(IsFilledAnswer, q.answers) >= 2
    && 0 <= q.correctAnswerIndex < |q.answers| && IsFilledAnswer(q.answers[q.correctAnswerIndex])
  }

  /** A block is skipped when it is empty or a `//` comment. */
  predicate Skipped(b: string)
  {
    Trim(b) == "" || StartsWith(Trim(b), "//")
  }

  /** What `parseGiftFormat` makes of block number `k`; `freshId(k)` stands for
      the id built from the clock, `k` and `Math.random()`. */
  function ParseBlock(block: string, k: nat, freshId: nat -> string): (r: Option<Question>)
    ensures r.Some? ==> r.value.id == freshId(k) && |r.value.answers| >= AnswerSlots
  {
    var b := Trim(block);
    if b == "" || StartsWith(b, "//") then None
    else
      match MatchQuestion(b)
      case None => None
      case Some(m) =>
        var text := QuestionText(m.text);
        var c := Collect(BlockEntries(m.answers));
        if text != "" && |c.answers| >= 2 && c.correctAnswerIndex != -1 then
          Some(Question(freshId(k), text, None, PadAnswers(c.answers, AnswerSlots), c.correctAnswerIndex, None))
        else None
  }

  /** The captured parts of a block that is neither blank nor a comment. */
  function BlockMatch(block: string): Option<Match>
  {
    if Skipped(block) then None else MatchQuestion(Trim(block))
  }

  /** A block is accepted exactly when it matches, its text without `[html]`
      is not empty, at least two answers have text, and one of those is
      marked '='. The answers are those texts, padded with empty ones to five,
      and the correct index is the position of the last '=' among them. */
  lemma ParseBlockSpec(block: string, k: nat, freshId: nat -> string)
    ensures ParseBlock(block, k, freshId).Some? <==>
      && BlockMatch(block).Some?
      && QuestionText(BlockMatch(block).value.text) != ""
      && |Kept(BlockEntries(BlockMatch(block).value.answers))| >= 2
      && LastCorrect(Kept(BlockEntries(BlockMatch(block).value.answers))) >= 0
    ensures ParseBlock(block, k, freshId).Some? ==>
      ParseBlock(block, k, freshId).value
        == Question(freshId(k), QuestionText(BlockMatch(block).value.text), None,
                    PadAnswers(Texts(Kept(BlockEntries(BlockMatch(block).value.answers))), AnswerSlots),
                    LastCorrect(Kept(BlockEntries(BlockMatch(block).value.answers))), None)
  {
    if BlockMatch(block).Some? {
      CollectSpec(BlockEntries(BlockMatch(block).value.answers));
    }
  }

  /** Every entry the import keeps has a trimmed, non-empty text. */
  lemma KeptTexts(answers: string)
    ensures forall i :: 0 <= i < |Kept(BlockEntries(answers))| ==>
      Kept(BlockEntries(answers))[i].text != "" && Trimmed(Kept(BlockEntries(answers))[i].text)
  {
    var entries := BlockEntries(answers);
    var kept := Kept(entries);
    forall i | 0 <= i < |kept|
      ensures kept[i].text != "" && Trimmed(kept[i].text)
    {
      assert kept[i] in entries;
    }
  }

  /** The question the import builds from a non-empty text and at least two
      kept entries, with the correct index on one of them, is well formed. */
  lemma ImportedOf(text: string, kept: seq<Entry>, c: int, k: nat, freshId: nat -> string)
    requires Trimmed(text) && text != ""
    requires forall i :: 0 <= i < |kept| ==> kept[i].text != "" && Trimmed(kept[i].text)
    requires |kept| >= 2 && 0 <= c < |kept|
    ensures Imported(Question(freshId(k), text, None, PadAnswers(Texts(kept), AnswerSlots), c, None))
  {
    ImportedAnswers(kept);
  }

  /** Every question the import builds is well formed. */
  lemma ParseBlockImported(block: string, k: nat, freshId: nat -> string)
    ensures ParseBlock(block, k, freshId).Some? ==> Imported(ParseBlock(block, k, freshId).value)
  {
    if ParseBlock(block, k, freshId).Some? {
      ParseBlockSpec(block, k, freshId);
      var m := BlockMatch(block).value;
      KeptTexts(m.answers);
      ImportedOf(QuestionText(m.text), Kept(BlockEntries(m.answers)), LastCorrect(Kept(BlockEntries(m.answers))), k, freshId);
    }
  }

  /** Kept texts are trimmed and non-empty, hence filled; padded with empty
      texts they keep the filled ones first. */
  lemma ImportedAnswers(kept: seq<Entry>)
    requires forall k :: 0 <= k < |kept| ==> kept[k].text != "" && Trimmed(kept[k].text)
    ensures var answers := PadAnswers(Texts(kept), AnswerSlots);
      && BlanksTrailing(answers)
      && Count(IsFilledAnswer, answers) == |kept|
      && forall k :: 0 <= k < |kept| ==> IsFilledAnswer(answers[k])
  {
    var t := Texts(kept);
    forall k | 0 <= k < |t|
      ensures IsFilledAnswer(t[k])
    {
      assert !IsSpace(t[k].text[0]);
    }
    PaddedFilled(t, AnswerSlots);
  }

  /** Filled answers padded with empty ones: the filled ones come first and
      are the only filled ones. */
  lemma PaddedFilled(t: seq<Answer>, n: nat)
    requires forall k :: 0 <= k < |t| ==> IsFilledAnswer(t[k])
    ensures var answers := PadAnswers(t, n);
      && BlanksTrailing(answers)
      && Count(IsFilledAnswer, answers) == |t|
      && forall k :: 0 <= k < |t| ==> IsFilledAnswer(answers[k])
  {
    var answers := PadAnswers(t, n);
    var pad := answers[|t|..];
    assert answers == t + pad;
    assert forall k :: 0 <= k < |pad| ==> pad[k] == Answer("");
    assert forall k :: 0 <= k < |pad| ==> !IsFilledAnswer(pad[k]);
    FilterAppend(IsFilledAnswer, t, pad);
    FilterAll(IsFilledAnswer, t);
    FilterNone(IsFilledAnswer, pad);
  }

  /** What the import makes of each block, `None` for a block it skips. */
  function ParseEach(blocks: seq<string>, freshId: nat -> string): (r: seq<Option<Question>>)
    ensures |r| == |blocks|
    ensures forall i :: 0 <= i < |blocks| ==> r[i] == ParseBlock(blocks[i], i, freshId)
  {
    seq(|blocks|, i requires 0 <= i < |blocks| => ParseBlock(blocks[i], i, freshId))
  }

  /** The `forEach` over the blocks: the accepted ones, in order, each made
      with the block's own index. */
  function ParseBlocks(blocks: seq<string>, freshId: nat -> string): (r: seq<Question>)
    ensures |r| <= |blocks|
    ensures forall i :: 0 <= i < |r| ==> Imported(r[i])
  {
    var opts := ParseEach(blocks, freshId);
    forall i | 0 <= i < |blocks|
      ensures opts[i].Some? ==> Imported(opts[i].value)
    {
      ParseBlockImported(blocks[i], i, freshId);
    }
    Present(opts)
  }

  /** `parseGiftFormat`: the accepted blocks, in order, as questions. */
  function ParseGift(text: string, freshId: nat -> string): (r: seq<Question>)
    ensures forall i :: 0 <= i < |r| ==> Imported(r[i])
  {
    ParseBlocks(SplitBlocks(NormalizeNewlines(text)), freshId)
  }

  /** The import returns the question of every accepted block, in block
      order, each once: the result is read off strictly increasing block
      indices, which take in every block `ParseBlock` accepts. */
  lemma ParseBlocksPositions(blocks: seq<string>, freshId: nat -> string) returns (idx: seq<nat>)
    ensures |idx| == |ParseBlocks(blocks, freshId)|
    ensures forall k :: 0 <= k < |idx| ==>
      && idx[k] < |blocks|
      && ParseBlock(blocks[idx[k]], idx[k], freshId) == Some(ParseBlocks(blocks, freshId)[k])
    ensures forall k, l :: 0 <= k < l < |idx| ==> idx[k] < idx[l]
    ensures forall i :: 0 <= i < |blocks| && ParseBlock(blocks[i], i, freshId).Some? ==> i in idx
  {
    idx := PresentPositions(ParseEach(blocks, freshId));
  }

  /** For any text, `parseGiftFormat` gives the question of every accepted
      block of the split text, in block order. */
  lemma ParseGiftPositions(text: string, freshId: nat -> string) returns (idx: seq<nat>)
    ensures var blocks := SplitBlocks(NormalizeNewlines(text));
      && |idx| == |ParseGift(text, freshId)|
      && (forall k :: 0 <= k < |idx| ==>
            && idx[k] < |blocks|
            && ParseBlock(blocks[idx[k]], idx[k], freshId) == Some(ParseGift(text, freshId)[k]))
      && (forall k, l :: 0 <= k < l < |idx| ==> idx[k] < idx[l])
      && forall i :: 0 <= i < |blocks| && ParseBlock(blocks[i], i, freshId).Some? ==> i in idx
  {
    idx := ParseBlocksPositions(SplitBlocks(NormalizeNewlines(text)), freshId);
  }
}
