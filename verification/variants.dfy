/** `shuffleQuestionsAndAnswers` (App.tsx): one shuffled booklet variant of the
    question bank. Questions are tagged with their bank position, permuted, and
    each question's filled answers are permuted with the correct one found
    again by its text. */
module Variants {
  import opened Common
  import opened Model
  import opened Shuffling

  /** `findIndex(a => a.text === text)`: the first answer with that text, or -1. */
  function FindAnswerIndex(answers: seq<Answer>, text: string): (k: int)
    ensures -1 <= k < |answers|
    ensures k >= 0 ==> answers[k].text == text
    ensures forall i :: 0 <= i < |answers| && (k == -1 || i < k) ==> answers[i].text != text
  {
    if |answers| == 0 then -1
    else if answers[0].text == text then 0
    else
      var k := FindAnswerIndex(answers[1..], text);
      if k == -1 then -1 else k + 1
  }

  lemma FilledTextsNonEmpty(answers: seq<Answer>)
    ensures forall k :: 0 <= k < |FilledAnswers(answers)| ==> FilledAnswers(answers)[k].text != ""
  {
  }

  /** The answer shuffle of one question. When `validAnswers[correctAnswerIndex]`
      exists, the filled answers are permuted, the correct one is found again by
      its text, and the list is padded back with blanks; otherwise the raw
      answers are permuted and `correctAnswerIndex` is kept as it was. */
  function ShuffleAnswers(q: Question, js: seq<nat>): (r: Question)
    requires ValidDraws(js, |q.answers|)
    ensures r.id == q.id && r.text == q.text && r.image == q.image
    ensures r.originalIndex == q.originalIndex
    ensures |r.answers| == |q.answers|
    ensures var valid := FilledAnswers(q.answers);
      0 <= q.correctAnswerIndex < |valid| ==>
        && 0 <= r.correctAnswerIndex < |valid|
        && r.answers[r.correctAnswerIndex].text == valid[q.correctAnswerIndex].text
        && multiset(r.answers[..|valid|]) == multiset(valid)
        && forall k :: |valid| <= k < |r.answers| ==> r.answers[k] == Answer("")
    ensures var valid := FilledAnswers(q.answers);
      !(0 <= q.correctAnswerIndex < |valid|) ==>
        && multiset(r.answers) == multiset(q.answers)
        && r.correctAnswerIndex == q.correctAnswerIndex
  {
    var valid := FilledAnswers(q.answers);
    // `validAnswers[q.correctAnswerIndex]?.text`, with `undefined` read as the falsy ""
    var correctText := if 0 <= q.correctAnswerIndex < |valid| then valid[q.correctAnswerIndex].text else "";
    FilledTextsNonEmpty(q.answers);
    if correctText == "" then
      ShuffleKeepsMultiset(q.answers, js);
      q.(answers := Shuffle(q.answers, js))
    else
      var shuffled := Shuffle(valid, js);
      ShuffleKeepsMultiset(valid, js);
      assert valid[q.correctAnswerIndex] in multiset(shuffled);
      var newIndex := FindAnswerIndex(shuffled, correctText);
      q.(answers := PadAnswers(shuffled, |q.answers|), correctAnswerIndex := newIndex)
  }

  /** `originalQuestions.map((q, index) => ({...q, originalIndex: index}))`. */
  function Tag(qs: seq<Question>): (r: seq<Question>)
    ensures |r| == |qs|
    ensures forall i :: 0 <= i < |qs| ==> r[i] == qs[i].(originalIndex := Some(i))
  {
    seq(|qs|, i requires 0 <= i < |qs| => qs[i].(originalIndex := Some(i)))
  }

  /** The draws for one variant: `qjs` for the question order, `ajs[k]` for the
      answers of the question that lands at position `k`. */
  predicate VariantDraws(qs: seq<Question>, qjs: seq<nat>, ajs: seq<seq<nat>>)
  {
    && ValidDraws(qjs, |qs|)
    && |ajs| == |qs|
    && forall k, i :: 0 <= k < |ajs| && 0 <= i < |qs| ==> ValidDraws(ajs[k], |qs[i].answers|)
  }

  /** `shuffleQuestionsAndAnswers`: position `k` of the variant holds the bank
      question at `Permutation(|qs|, qjs)[k]`, tagged with that bank position,
      with its answers shuffled; id, text and image are those of that question. */
  function ShuffleQuestionsAndAnswers(qs: seq<Question>, qjs: seq<nat>, ajs: seq<seq<nat>>): (r: seq<Question>)
    requires VariantDraws(qs, qjs, ajs)
    ensures |r| == |qs|
    ensures forall k :: 0 <= k < |r| ==>
      var i := Permutation(|qs|, qjs)[k];
      && r[k].originalIndex == Some(i)
      && r[k].id == qs[i].id && r[k].text == qs[i].text && r[k].image == qs[i].image
      && r[k] == ShuffleAnswers(qs[i].(originalIndex := Some(i)), ajs[k])
  {
    var tagged := Tag(qs);
    var shuffled := Shuffle(tagged, qjs);
    ShuffleIsPermutation(tagged, qjs);
    seq(|shuffled|, k requires 0 <= k < |shuffled| => ShuffleAnswers(shuffled[k], ajs[k]))
  }

  /** Every bank question appears in the variant exactly once: the original
      indices of the variant are pairwise distinct and cover `0 .. |qs| - 1`. */
  lemma {:induction false} EachQuestionOnce(qs: seq<Question>, qjs: seq<nat>, ajs: seq<seq<nat>>)
    requires VariantDraws(qs, qjs, ajs)
    ensures var r := ShuffleQuestionsAndAnswers(qs, qjs, ajs);
      && (forall k, l :: 0 <= k < l < |r| ==> r[k].originalIndex != r[l].originalIndex)
      && (forall i :: 0 <= i < |qs| ==> exists k :: 0 <= k < |r| && r[k].originalIndex == Some(i))
  {
    var r := ShuffleQuestionsAndAnswers(qs, qjs, ajs);
    var p := Permutation(|qs|, qjs);
    ShuffleKeepsMultiset(Range(|qs|), qjs);
    forall i | 0 <= i < |qs|
      ensures exists k :: 0 <= k < |r| && r[k].originalIndex == Some(i)
    {
      assert Range(|qs|)[i] == i;
      assert i in multiset(p);
      var k :| 0 <= k < |p| && p[k] == i;
      assert r[k].originalIndex == Some(i);
    }
  }

  /** When blanks trail the filled answers and `correctAnswerIndex` is the raw
      position of a filled answer (the editor's meaning), the shuffle keeps that
      answer correct. */
  lemma {:induction false} RawCorrectAnswerKept(q: Question, js: seq<nat>)
    requires ValidDraws(js, |q.answers|)
    requires BlanksTrailing(q.answers)
    requires 0 <= q.correctAnswerIndex < |q.answers| && IsFilledAnswer(q.answers[q.correctAnswerIndex])
    ensures var r := ShuffleAnswers(q, js);
      0 <= r.correctAnswerIndex < |r.answers|
      && r.answers[r.correctAnswerIndex].text == q.answers[q.correctAnswerIndex].text
  {
    var m := FilledPrefix(q.answers);
    assert q.correctAnswerIndex < m;
    assert FilledAnswers(q.answers)[q.correctAnswerIndex] == q.answers[q.correctAnswerIndex];
  }

  /** The editor stores a raw position (here 1, the answer "x"), but the shuffle
      reads it as a position among the filled answers, where 1 is "y": after any
      shuffle the answer marked correct is "y". */
  lemma EditorIndexReadAsFilledIndex(js: seq<nat>)
    requires ValidDraws(js, 3)
    ensures var q := Question("q", "text", None, [Answer(""), Answer("x"), Answer("y")], 1, None);
      var r := ShuffleAnswers(q, js);
      && q.answers[q.correctAnswerIndex].text == "x"
      && 0 <= r.correctAnswerIndex < |r.answers|
      && r.answers[r.correctAnswerIndex].text == "y"
  {
    var answers := [Answer(""), Answer("x"), Answer("y")];
    assert !IsSpace('x') && !IsSpace('y');
    assert "x"[0] == 'x' && "y"[0] == 'y';
    assert IsBlankAnswer(answers[0]);
    assert IsFilledAnswer(Answer("x")) && IsFilledAnswer(Answer("y"));
    assert answers[1..] == [Answer("x"), Answer("y")];
    assert answers[1..][1..] == [Answer("y")];
    assert Filter(IsFilledAnswer, [Answer("y")]) == [Answer("y")];
    assert Filter(IsFilledAnswer, answers[1..]) == [Answer("x"), Answer("y")];
    assert FilledAnswers(answers) == [Answer("x"), Answer("y")];
  }
}
