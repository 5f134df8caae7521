/** The printed test page (components/TestPreview.tsx), reduced to what it
    shows: the header lines, the booklet letter, and for every question its
    number, image, text and labelled answers. Styling is kept only where the
    measuring copy and the printed copy differ. */
module TestSheet {
  import opened Common
  import opened Model
  import opened Shuffling
  import opened Variants

  /** `String.fromCharCode(n)`: the argument is taken modulo 2^16 (ToUint16),
      giving one UTF-16 code unit. */
  function CodeUnit(n: int): (c: nat)
    ensures c < 0x1_0000
    ensures 0 <= n < 0x1_0000 ==> c == n
  {
    n % 0x1_0000
  }

  /** A printed answer: the code unit of its label letter, and its text. */
  datatype PrintedAnswer = PrintedAnswer(letter: nat, text: string)

  /** A printed question. `number` is `None` where JavaScript prints `NaN`
      (a question without `originalIndex`). */
  datatype PrintedQuestion = PrintedQuestion(number: Option<nat>, image: Option<string>, text: string,
                                             answers: seq<PrintedAnswer>)

  datatype Container = Container(width: string, fontFamily: string, minHeight: Option<string>)

  datatype PrintedPage = PrintedPage(container: Container, title: string, subtitle: string,
                                     bookletLetter: string, questions: seq<PrintedQuestion>)

  /** The label of the answer at raw position `i`: `a`, `b`, `c`, ... */
  function AnswerLabel(i: nat): nat
  {
    CodeUnit(97 + i)
  }

  /** `answers.map((ans, i) => ans.text && ...)`: the answers from raw position
      `i` on whose text is not the empty string, each with the label of its
      raw position. White space counts as text here. */
  function PrintedAnswersFrom(answers: seq<Answer>, i: nat): (r: seq<PrintedAnswer>)
    requires i <= |answers|
    ensures forall k :: 0 <= k < |r| ==> r[k].text != ""
    ensures forall k :: 0 <= k < |r| ==>
      exists j :: i <= j < |answers| && r[k] == PrintedAnswer(AnswerLabel(j), answers[j].text)
    ensures forall j :: i <= j < |answers| && answers[j].text != "" ==>
      PrintedAnswer(AnswerLabel(j), answers[j].text) in r
    decreases |answers| - i
  {
    if i == |answers| then []
    else
      var rest := PrintedAnswersFrom(answers, i + 1);
      if answers[i].text != "" then [PrintedAnswer(AnswerLabel(i), answers[i].text)] + rest else rest
  }

  /** The condition under which an answer is printed: its text is not empty. */
  function HasText(a: Answer): bool
  {
    a.text != ""
  }

  /** `r` prints the answers at raw positions `p`, in that order. */
  predicate PrintedAt(r: seq<PrintedAnswer>, answers: seq<Answer>, p: seq<nat>)
  {
    && |r| == |p|
    && forall k :: 0 <= k < |p| ==> p[k] < |answers| && r[k] == PrintedAnswer(AnswerLabel(p[k]), answers[p[k]].text)
  }

  lemma PrintedAtCons(r: seq<PrintedAnswer>, answers: seq<Answer>, p: seq<nat>, i: nat)
    requires i < |answers| && PrintedAt(r, answers, p)
    ensures PrintedAt([PrintedAnswer(AnswerLabel(i), answers[i].text)] + r, answers, [i] + p)
  {
  }

  /** From raw position `i` on, the printed answers are the answers at the
      positions with text, in that order. */
  lemma {:induction false} PrintedAtPositions(answers: seq<Answer>, i: nat)
    requires i <= |answers|
    ensures PrintedAt(PrintedAnswersFrom(answers, i), answers, PositionsFrom(HasText, answers, i))
    decreases |answers| - i
  {
    if i < |answers| {
      PrintedAtPositions(answers, i + 1);
      var rest, pos := PrintedAnswersFrom(answers, i + 1), PositionsFrom(HasText, answers, i + 1);
      if HasText(answers[i]) {
        assert PrintedAnswersFrom(answers, i) == [PrintedAnswer(AnswerLabel(i), answers[i].text)] + rest;
        assert PositionsFrom(HasText, answers, i) == [i] + pos;
        PrintedAtCons(rest, answers, pos, i);
      } else {
        assert PrintedAnswersFrom(answers, i) == rest;
        assert PositionsFrom(HasText, answers, i) == pos;
      }
    }
  }

  /** The answers are printed in raw order, each once: the printed list is
      read off strictly increasing raw positions, which take in every answer
      with text. While the labels do not wrap, they strictly increase. */
  lemma PrintedAnswerPositions(answers: seq<Answer>) returns (idx: seq<nat>)
    ensures |idx| == |PrintedAnswersFrom(answers, 0)|
    ensures forall k :: 0 <= k < |idx| ==>
      && idx[k] < |answers|
      && PrintedAnswersFrom(answers, 0)[k] == PrintedAnswer(AnswerLabel(idx[k]), answers[idx[k]].text)
    ensures forall k, l :: 0 <= k < l < |idx| ==> idx[k] < idx[l]
    ensures forall j :: 0 <= j < |answers| && answers[j].text != "" ==> j in idx
    ensures 97 + |answers| <= 0x1_0000 ==> forall k, l :: 0 <= k < l < |idx| ==>
      PrintedAnswersFrom(answers, 0)[k].letter < PrintedAnswersFrom(answers, 0)[l].letter
  {
    idx := PositionsFrom(HasText, answers, 0);
    PrintedAtPositions(answers, 0);
    PositionsComplete(HasText, answers, 0);
  }

  /** `q.originalIndex! + 1`. */
  function Number(q: Question): (n: Option<nat>)
    ensures q.originalIndex.Some? <==> n.Some?
    ensures n.Some? ==> n.value >= 1 && n.value - 1 == q.originalIndex.value
  {
    match q.originalIndex
    case Some(k) => Some(k + 1)
    case None => None
  }

  /** One question block; the image is shown only when it is a non-empty text. */
  function PrintQuestion(q: Question): (p: PrintedQuestion)
    ensures p.number == Number(q) && p.text == q.text
    ensures p.image.Some? <==> q.image.Some? && q.image.value != ""
    ensures p.image.Some? ==> p.image == q.image
    ensures p.answers == PrintedAnswersFrom(q.answers, 0)
  {
    var image := if q.image.Some? && q.image.value != "" then q.image else None;
    PrintedQuestion(Number(q), image, q.text, PrintedAnswersFrom(q.answers, 0))
  }

  /** The page container: the measuring copy has no minimum height. */
  function PageContainer(isMeasureOnly: bool): (c: Container)
    ensures c.width == "210mm" && c.fontFamily == "Times New Roman, serif"
    ensures c.minHeight.None? <==> isMeasureOnly
    ensures c.minHeight.Some? ==> c.minHeight.value == "297mm"
  {
    var base := Container("210mm", "Times New Roman, serif", None);
    if isMeasureOnly then base else base.(minHeight := Some("297mm"))
  }

  /** `TestPreview`: the header from the exam details and one block per
      question, in list order. */
  function PrintPage(details: TestDetails, questions: seq<Question>, isMeasureOnly: bool): (r: PrintedPage)
    ensures |r.questions| == |questions|
    ensures forall k :: 0 <= k < |questions| ==> r.questions[k] == PrintQuestion(questions[k])
    ensures r.bookletLetter == ToUpper(details.booklet)
    ensures r.container == PageContainer(isMeasureOnly)
  {
    PrintedPage(
      PageContainer(isMeasureOnly),
      details.schoolYear + " EĞİTİM - ÖĞRETİM YILI " + ToUpper(details.faculty) + " " + ToUpper(details.department),
      ToUpper(details.course) + " DERSİ " + ToUpper(details.examType) + " SORULARI",
      ToUpper(details.booklet),
      seq(|questions|, k requires 0 <= k < |questions| => PrintQuestion(questions[k])))
  }

  /** The measuring copy and the printed copy differ only in the minimum height. */
  lemma MeasureCopyDiffers(details: TestDetails, questions: seq<Question>)
    ensures PrintPage(details, questions, true)
         == PrintPage(details, questions, false).(container := PrintPage(details, questions, false).container.(minHeight := None))
  {
  }

  /** The printed number of a question does not depend on where it stands on
      the page: the same question prints the same block at any two positions. */
  lemma NumberIgnoresPosition(details: TestDetails, a: seq<Question>, b: seq<Question>, i: nat, j: nat)
    requires i < |a| && j < |b| && a[i] == b[j]
    ensures PrintPage(details, a, false).questions[i] == PrintPage(details, b, false).questions[j]
  {
  }

  /** Every question of `r` carries an original index below `n`, no two the
      same, and every index below `n` occurs. */
  predicate TaggedOnce(r: seq<Question>, n: nat)
  {
    && (forall k :: 0 <= k < |r| ==> r[k].originalIndex.Some? && r[k].originalIndex.value < n)
    && (forall k, l :: 0 <= k < l < |r| ==> r[k].originalIndex != r[l].originalIndex)
    && (forall i :: 0 <= i < n ==> Tagged(r, i))
  }

  predicate Tagged(r: seq<Question>, i: nat)
  {
    exists k :: 0 <= k < |r| && r[k].originalIndex == Some(i)
  }

  /** Some question of `r` is printed with number `m`. */
  predicate NumberPrinted(r: seq<Question>, m: nat)
  {
    exists k :: 0 <= k < |r| && Number(r[k]) == Some(m)
  }

  /** A booklet variant is tagged once with the bank positions. */
  lemma VariantTaggedOnce(qs: seq<Question>, qjs: seq<nat>, ajs: seq<seq<nat>>)
    requires VariantDraws(qs, qjs, ajs)
    ensures TaggedOnce(ShuffleQuestionsAndAnswers(qs, qjs, ajs), |qs|)
  {
    EachQuestionOnce(qs, qjs, ajs);
  }

  /** The numbers printed for a list tagged once with `0 .. n - 1` are
      `1 .. n`, each exactly once. */
  lemma TaggedNumbers(r: seq<Question>, n: nat)
    requires TaggedOnce(r, n)
    ensures forall k :: 0 <= k < |r| ==> Number(r[k]).Some? && 1 <= Number(r[k]).value <= n
    ensures forall k, l :: 0 <= k < l < |r| ==> Number(r[k]) != Number(r[l])
    ensures forall m :: 1 <= m <= n ==> NumberPrinted(r, m)
  {
    forall m | 1 <= m <= n
      ensures NumberPrinted(r, m)
    {
      assert Tagged(r, m - 1);
      var k :| 0 <= k < |r| && r[k].originalIndex == Some(m - 1);
      assert Number(r[k]) == Some(m);
    }
  }

  /** Across a whole booklet variant the printed numbers (`PrintQuestion`
      prints `Number`) are `1 .. n`, each exactly once, whatever order the
      shuffle chose. */
  lemma VariantNumbers(qs: seq<Question>, qjs: seq<nat>, ajs: seq<seq<nat>>)
    requires VariantDraws(qs, qjs, ajs)
    ensures var r := ShuffleQuestionsAndAnswers(qs, qjs, ajs);
      && (forall k, l :: 0 <= k < l < |r| ==> Number(r[k]) != Number(r[l]))
      && (forall m :: 1 <= m <= |qs| ==> NumberPrinted(r, m))
  {
    VariantTaggedOnce(qs, qjs, ajs);
    TaggedNumbers(ShuffleQuestionsAndAnswers(qs, qjs, ajs), |qs|);
  }

  /** Labels follow raw positions, so an empty answer leaves a gap: the answers
      "x", "", "y" print as a) x and c) y. */
  lemma LabelsSkipEmpty()
    ensures PrintedAnswersFrom([Answer("x"), Answer(""), Answer("y")], 0)
         == [PrintedAnswer(97, "x"), PrintedAnswer(99, "y")]
  {
  }

  /** Only the empty text is skipped: an answer of one space is printed,
      although the editor and the shuffle treat it as blank. */
  lemma SpaceAnswerPrinted()
    ensures PrintedAnswersFrom([Answer("x"), Answer(" ")], 0)
         == [PrintedAnswer(97, "x"), PrintedAnswer(98, " ")]
    ensures IsBlankAnswer(Answer(" "))
  {
  }
}
