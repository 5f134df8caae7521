/** The question editor dialog (components/QuestionEditor.tsx): the state it
    opens with, the edits of the text, the answers and the correct-answer
    selector, and the checks `handleSave` makes before handing the question on. */
module Editor {
  import opened Common
  import opened Model

  /** The dialog's state: the question being edited and the error shown, if any. */
  datatype EditorState = EditorState(question: Question, error: Option<string>)

  /** `initialQuestionState`: no id, no text, no image, five empty answers, the first one marked correct. */
  const InitialQuestion: Question :=
    Question("", "", None, [Answer(""), Answer(""), Answer(""), Answer(""), Answer("")], 0, None)

  const EmptyTextError: string := "Soru metni boş olamaz."
  const TooFewAnswersError: string := "Lütfen en az iki cevap şıkkı girin."

  /** The effect run when the dialog opens: the question to edit, or a blank
      one, and no error. While the dialog is closed nothing changes. */
  function Open(s: EditorState, isOpen: bool, toEdit: Option<Question>): (r: EditorState)
    ensures !isOpen ==> r == s
    ensures isOpen ==> r.error == None
    ensures isOpen && toEdit.Some? ==> r.question == toEdit.value
    ensures isOpen && toEdit.None? ==>
      && r.question.id == "" && r.question.text == "" && r.question.image == None
      && |r.question.answers| == 5
      && (forall k :: 0 <= k < |r.question.answers| ==> r.question.answers[k] == Answer(""))
      && r.question.correctAnswerIndex == 0
  {
    if !isOpen then s
    else EditorState(if toEdit.Some? then toEdit.value else InitialQuestion, None)
  }

  /** `handleTextChange`: the new text, and the error cleared. */
  function TextChange(s: EditorState, value: string): (r: EditorState)
    ensures r.question.text == value && r.error == None
    ensures r.question.(text := s.question.text) == s.question
  {
    EditorState(s.question.(text := value), None)
  }

  /** `handleAnswerChange`: the answer at `index` gets the new text and the
      error is cleared. The index is always the position of an answer field. */
  function AnswerChange(s: EditorState, index: nat, value: string): (r: EditorState)
    requires index < |s.question.answers|
    ensures |r.question.answers| == |s.question.answers|
    ensures r.question.answers[index] == Answer(value)
    ensures forall k :: 0 <= k < |s.question.answers| && k != index ==> r.question.answers[k] == s.question.answers[k]
    ensures r.question.(answers := s.question.answers) == s.question
    ensures r.error == None
  {
    EditorState(s.question.(answers := s.question.answers[index := Answer(value)]), None)
  }

  /** Typing an answer's old text back restores the question. */
  lemma AnswerChangeUndone(s: EditorState, index: nat, value: string)
    requires index < |s.question.answers|
    ensures AnswerChange(AnswerChange(s, index, value), index, s.question.answers[index].text).question == s.question
  {
    var r := AnswerChange(AnswerChange(s, index, value), index, s.question.answers[index].text);
    assert r.question.answers == s.question.answers;
  }

  /** The values the correct-answer selector offers: the raw positions of the
      answers whose trimmed text is not empty. */
  function CorrectAnswerChoices(answers: seq<Answer>): (r: seq<nat>)
    ensures forall k: nat :: k in r <==> k < |answers| && IsFilledAnswer(answers[k])
    ensures forall i, j :: 0 <= i < j < |r| ==> r[i] < r[j]
  {
    var r := FilledIndicesFrom(answers, 0);
    assert forall k: nat :: k in r ==> exists i :: 0 <= i < |r| && r[i] == k;
    r
  }

  /** There is one choice per filled answer. */
  lemma {:induction false} ChoicesFrom(answers: seq<Answer>, i: nat)
    requires i <= |answers|
    ensures |FilledIndicesFrom(answers, i)| == |FilledAnswers(answers[i..])|
    decreases |answers| - i
  {
    if i < |answers| {
      ChoicesFrom(answers, i + 1);
      assert answers[i..][0] == answers[i];
      assert answers[i..][1..] == answers[i + 1..];
    }
  }

  lemma ChoicesCount(answers: seq<Answer>)
    ensures |CorrectAnswerChoices(answers)| == |FilledAnswers(answers)|
  {
    ChoicesFrom(answers, 0);
    assert answers[0..] == answers;
  }

  /** Picking an entry of the selector: `correctAnswerIndex` becomes the chosen position. */
  function SelectCorrect(s: EditorState, choice: nat): (r: EditorState)
    requires choice in CorrectAnswerChoices(s.question.answers)
    ensures r.question.(correctAnswerIndex := s.question.correctAnswerIndex) == s.question
    ensures r.error == s.error
    ensures 0 <= r.question.correctAnswerIndex < |r.question.answers|
    ensures IsFilledAnswer(r.question.answers[r.question.correctAnswerIndex])
  {
    EditorState(s.question.(correctAnswerIndex := choice), s.error)
  }

  /** A question text the editor refuses: empty once trimmed, or the lone
      `<br>` the rich-text field leaves behind. */
  predicate IsEmptyText(text: string)
  {
    Trim(text) == "" || Trim(text) == "<br>"
  }

  /** What `handleSave` does: the new state, the question handed to `onSave`
      (if any), and whether the dialog was closed. */
  datatype SaveResult = SaveResult(state: EditorState, saved: Option<Question>, closed: bool)

  /** `handleSave`. `freshId` stands for `new Date().toISOString()`. */
  function Save(s: EditorState, freshId: string): (r: SaveResult)
    ensures r.saved.Some? <==> !IsEmptyText(s.question.text) && |FilledAnswers(s.question.answers)| >= 2
    ensures r.closed <==> r.saved.Some?
    ensures r.state.question == s.question
    ensures r.saved.None? ==> r.state.error.Some?
    ensures IsEmptyText(s.question.text) ==> r.state.error == Some(EmptyTextError)
    ensures !IsEmptyText(s.question.text) && |FilledAnswers(s.question.answers)| < 2 ==>
      r.state.error == Some(TooFewAnswersError)
    ensures r.saved.Some? ==> r.state == s
    ensures r.saved.Some? ==> r.saved.value.(id := s.question.id) == s.question
    ensures r.saved.Some? && s.question.id != "" ==> r.saved.value.id == s.question.id
    ensures r.saved.Some? && s.question.id == "" ==> r.saved.value.id == freshId
  {
    if IsEmptyText(s.question.text) then SaveResult(s.(error := Some(EmptyTextError)), None, false)
    else if |FilledAnswers(s.question.answers)| < 2 then SaveResult(s.(error := Some(TooFewAnswersError)), None, false)
    else
      var id := if s.question.id != "" then s.question.id else freshId;
      SaveResult(s, Some(s.question.(id := id)), true)
  }

  /** A new question cannot be saved as the dialog opens it: its text is empty. */
  lemma NewQuestionRefused(s: EditorState, freshId: string)
    ensures Save(Open(s, true, None), freshId).saved == None
    ensures Save(Open(s, true, None), freshId).state.error == Some(EmptyTextError)
  {
  }

  /** A saved question has at least two filled answers, and so at least two
      entries in the correct-answer selector. */
  lemma SavedHasTwoChoices(s: EditorState, freshId: string)
    requires Save(s, freshId).saved.Some?
    ensures |CorrectAnswerChoices(Save(s, freshId).saved.value.answers)| >= 2
  {
    ChoicesCount(s.question.answers);
  }

  /** `handleSave` does not check the correct answer: a question whose marked
      answer has been emptied after it was picked is saved as it is. */
  lemma SaveIgnoresBlankCorrect()
    ensures var q := Question("", "q", None, [Answer("a"), Answer("b"), Answer("")], 2, None);
      var r := Save(EditorState(q, None), "id");
      && r.saved == Some(q.(id := "id"))
      && !IsFilledAnswer(q.answers[q.correctAnswerIndex])
  {
    var answers := [Answer("a"), Answer("b"), Answer("")];
    assert !IsSpace('a') && !IsSpace('b') && !IsSpace('q');
    assert "a"[0] == 'a' && "b"[0] == 'b' && "q"[0] == 'q';
    assert "q" != "<br>";
    TrimOfTrimmed("q");
    assert answers[1..] == [Answer("b"), Answer("")];
    assert answers[1..][1..] == [Answer("")];
    assert FilledAnswers(answers) == [Answer("a"), Answer("b")];
  }
}
