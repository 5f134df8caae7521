/** The answer-key page (components/AnswerKeyPreview.tsx): one block per
    booklet, one row per question of the booklet, giving the row number and
    the letter of the correct answer. */
module AnswerKey {
  import opened Common
  import opened Model
  import opened TestSheet

  /** A row of the key: its number and the code unit of its letter. */
  datatype KeyRow = KeyRow(number: nat, letter: nat)

  /** The block of one booklet; `columns` is the CSS column count of its list. */
  datatype KeyBlock = KeyBlock(heading: string, rows: seq<KeyRow>, columns: nat)

  datatype KeySheet = KeySheet(title: string, blocks: seq<KeyBlock>)

  /** Booklets with more questions than this get a two-column list. */
  const OneColumnMax: nat := 20

  /** `String.fromCharCode(65 + q.correctAnswerIndex)`: `A` for 0, `B` for 1, ... */
  function KeyLetter(q: Question): (c: nat)
    ensures 0 <= q.correctAnswerIndex < 26 ==> c == 65 + q.correctAnswerIndex && 'A' as nat <= c <= 'Z' as nat
  {
    CodeUnit(65 + q.correctAnswerIndex)
  }

  /** The block of booklet `b`: row `k + 1` holds the letter of the question at
      position `k`, whatever number the booklet prints for it. */
  function KeyBlockOf(b: Booklet): (r: KeyBlock)
    ensures r.heading == b.bookletType + " KİTAPÇIĞI"
    ensures |r.rows| == |b.questions|
    ensures forall k :: 0 <= k < |r.rows| ==> r.rows[k].number == k + 1
    ensures forall k :: 0 <= k < |r.rows| ==> r.rows[k].letter == KeyLetter(b.questions[k])
    ensures r.columns == 2 <==> |b.questions| > OneColumnMax
    ensures r.columns == 1 <==> |b.questions| <= OneColumnMax
  {
    KeyBlock(
      b.bookletType + " KİTAPÇIĞI",
      seq(|b.questions|, k requires 0 <= k < |b.questions| => KeyRow(k + 1, KeyLetter(b.questions[k]))),
      if |b.questions| > OneColumnMax then 2 else 1)
  }

  /** `AnswerKeyPreview`: nothing without booklets, otherwise the course title
      and one block per booklet, in order. */
  function KeyPage(booklets: Option<seq<Booklet>>, courseName: string): (r: Option<KeySheet>)
    ensures r.Some? <==> booklets.Some?
    ensures r.Some? ==> r.value.title == ToUpper(courseName) + " DERSİ CEVAP ANAHTARI"
    ensures r.Some? ==> |r.value.blocks| == |booklets.value|
    ensures r.Some? ==> forall i :: 0 <= i < |r.value.blocks| ==> r.value.blocks[i] == KeyBlockOf(booklets.value[i])
  {
    match booklets
    case None => None
    case Some(bs) =>
      Some(KeySheet(ToUpper(courseName) + " DERSİ CEVAP ANAHTARI",
                    seq(|bs|, i requires 0 <= i < |bs| => KeyBlockOf(bs[i]))))
  }

  /** The key letter is the capital of the label the test page prints next to
      the correct answer, when that answer is among the first 26 and is printed. */
  lemma {:induction false} KeyLetterIsPrintedLabel(q: Question)
    requires 0 <= q.correctAnswerIndex < |q.answers| && q.correctAnswerIndex < 26
    requires q.answers[q.correctAnswerIndex].text != ""
    ensures PrintedAnswer(KeyLetter(q) + 32, q.answers[q.correctAnswerIndex].text) in PrintedAnswersFrom(q.answers, 0)
  {
    assert AnswerLabel(q.correctAnswerIndex) == KeyLetter(q) + 32;
  }

  /** A key row agrees with the number the test page prints for the same
      question exactly when the question still stands at its bank position. */
  lemma KeyRowMatchesPrintedNumber(b: Booklet, k: nat)
    requires k < |b.questions| && b.questions[k].originalIndex.Some?
    ensures Some(KeyBlockOf(b).rows[k].number) == Number(b.questions[k]) <==> b.questions[k].originalIndex == Some(k)
  {
  }

  /** In a booklet whose two questions were swapped, key row 1 gives the
      answer of the question the page prints as number 2. */
  lemma KeyNumbersDisagree(q0: Question, q1: Question)
    ensures var b := Booklet("B", [q1.(originalIndex := Some(1)), q0.(originalIndex := Some(0))]);
      && KeyBlockOf(b).rows[0] == KeyRow(1, KeyLetter(q1))
      && PrintQuestion(b.questions[0]).number == Some(2)
  {
  }
}
