/** The optical answer form (components/OpticalForm.tsx), reduced to its grid:
    the student-number grid, the group bubbles A-D and one numbered row of
    five bubbles per question. */
module OpticalSheet {
  import opened Common
  import opened Model
  import opened Generation

  /** A group bubble: its letter and whether it is printed filled. */
  datatype GroupBubble = GroupBubble(letter: string, filled: bool)

  /** An answer row: its number and its count of bubbles. */
  datatype AnswerRow = AnswerRow(number: nat, bubbles: nat)

  datatype OpticalGrid = OpticalGrid(
    digitHeaders: seq<nat>,
    digitBubbles: nat,
    groups: seq<GroupBubble>,
    choiceHeaders: seq<string>,
    rows: seq<AnswerRow>)

  /** The form always has room for at least this many questions. */
  const MinRows: nat := 15

  const GroupLetters: seq<string> := ["A", "B", "C", "D"]
  const ChoiceLetters: seq<string> := ["A", "B", "C", "D", "E"]

  /** `Math.max(15, questionCount)`. */
  function RowCount(questionCount: nat): (n: nat)
    ensures n >= MinRows && n >= questionCount
    ensures n == MinRows || n == questionCount
  {
    if questionCount > MinRows then questionCount else MinRows
  }

  /** The group bubbles: bubble `g` is filled when the upper-cased booklet letter is `g`. */
  function Groups(booklet: string): (gs: seq<GroupBubble>)
    ensures |gs| == |GroupLetters|
    ensures forall i :: 0 <= i < |gs| ==> gs[i].letter == GroupLetters[i]
    ensures forall i :: 0 <= i < |gs| ==> (gs[i].filled <==> ToUpper(booklet) == GroupLetters[i])
  {
    seq(|GroupLetters|, i requires 0 <= i < |GroupLetters| =>
      GroupBubble(GroupLetters[i], ToUpper(booklet) == GroupLetters[i]))
  }

  /** `OpticalForm`: ten digit columns of ten bubbles, the group bubbles, and
      `max(15, questionCount)` rows numbered from 1, each of five bubbles. */
  function Form(questionCount: nat, booklet: string): (f: OpticalGrid)
    ensures f.digitHeaders == [0, 1, 2, 3, 4, 5, 6, 7, 8, 9] && f.digitBubbles == 100
    ensures f.groups == Groups(booklet)
    ensures f.choiceHeaders == ChoiceLetters
    ensures |f.rows| == RowCount(questionCount)
    ensures forall k :: 0 <= k < |f.rows| ==> f.rows[k] == AnswerRow(k + 1, |ChoiceLetters|)
  {
    var n := RowCount(questionCount);
    OpticalGrid(Range(10), 10 * 10, Groups(booklet), ChoiceLetters,
                seq(n, k requires 0 <= k < n => AnswerRow(k + 1, 5)))
  }

  /** At most one group bubble is filled, and one is exactly when the
      upper-cased booklet letter is one of A-D. */
  lemma OneGroupFilled(booklet: string)
    ensures forall i, j :: 0 <= i < j < |Groups(booklet)| ==> !(Groups(booklet)[i].filled && Groups(booklet)[j].filled)
    ensures (exists i :: 0 <= i < |Groups(booklet)| && Groups(booklet)[i].filled) <==> ToUpper(booklet) in GroupLetters
  {
    var gs := Groups(booklet);
    if ToUpper(booklet) in GroupLetters {
      var i :| 0 <= i < |GroupLetters| && GroupLetters[i] == ToUpper(booklet);
      assert gs[i].filled;
    }
  }

  /** The form of generated booklet `i` fills the bubble of its own letter
      for the first four booklets, and no bubble from booklet E on. */
  lemma GeneratedBookletGroup(questionCount: nat, i: nat)
    requires i < 26
    ensures i < 4 ==> Form(questionCount, BookletLabel(i)).groups[i].filled
    ensures forall j :: 0 <= j < 4 && j != i ==> !Form(questionCount, BookletLabel(i)).groups[j].filled
  {
    var b := BookletLabel(i);
    assert ToUpper(b) == b;
    forall j | 0 <= j < 4 && j != i
      ensures ToUpper(b) != GroupLetters[j]
    {
      assert GroupLetters[j][0] == (65 + j) as char;
    }
  }

  /** A lower-case booklet letter fills the bubble of its capital. */
  lemma LowerCaseGroup()
    ensures Form(0, "b").groups[1].filled
    ensures !Form(0, "b").groups[0].filled
  {
    assert ToUpper("b") == "B";
  }

  /** The form made for a run has a row for every question of every booklet:
      each booklet holds the whole bank, and the form gets the bank's size. */
  lemma RowsCoverBooklet(qs: seq<Question>, nb: nat, draws: seq<VariantDraw>, i: nat)
    requires nb <= 26 && BookletDraws(qs, nb, draws) && i < nb
    ensures |Form(|qs|, BookletLabel(i)).rows| >= |Booklets(qs, nb, draws)[i].questions|
  {
  }
}
