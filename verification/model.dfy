/** The records of the question bank (types.ts). */
module Model {
  import opened Common

  datatype Answer = Answer(text: string)

  /** A question. `image` is `None` for both an absent and a `null` image;
      `originalIndex` is set only on the copies placed in a booklet. */
  datatype Question = Question(
    id: string,
    text: string,
    image: Option<string>,
    answers: seq<Answer>,
    correctAnswerIndex: int,
    originalIndex: Option<nat>)

  /** The exam header; `booklet` is the booklet letter printed on a page. */
  datatype TestDetails = TestDetails(
    schoolYear: string,
    faculty: string,
    department: string,
    course: string,
    examType: string,
    booklet: string,
    studentNumberLength: Option<int>)

  /** One shuffled variant of the bank, labelled A, B, C, ... */
  datatype Booklet = Booklet(bookletType: string, questions: seq<Question>)

  predicate IsBlankAnswer(a: Answer)
  {
    IsBlank(a.text)
  }

  predicate IsFilledAnswer(a: Answer)
  {
    !IsBlank(a.text)
  }

  /** The answers whose trimmed text is not empty, in order (`validAnswers`,
      `filledAnswers`). */
  function FilledAnswers(answers: seq<Answer>): seq<Answer>
  {
    Filter(IsFilledAnswer, answers)
  }

  /** The raw positions, from `i` on, of the answers that are not blank, in order. */
  function FilledIndicesFrom(answers: seq<Answer>, i: nat): (idx: seq<nat>)
    requires i <= |answers|
    ensures forall k :: 0 <= k < |idx| ==> i <= idx[k] < |answers| && IsFilledAnswer(answers[idx[k]])
    ensures forall k, l :: 0 <= k < l < |idx| ==> idx[k] < idx[l]
    ensures forall j :: i <= j < |answers| && IsFilledAnswer(answers[j]) ==> j in idx
    decreases |answers| - i
  {
    if i == |answers| then []
    else if IsFilledAnswer(answers[i]) then [i] + FilledIndicesFrom(answers, i + 1)
    else FilledIndicesFrom(answers, i + 1)
  }

  /** Every blank answer comes after every filled one: the one layout in which a
      raw answer position and a position among the filled answers agree. */
  predicate BlanksTrailing(answers: seq<Answer>)
  {
    forall i, j :: 0 <= i < j < |answers| && IsBlankAnswer(answers[i]) ==> IsBlankAnswer(answers[j])
  }

  /** Appending empty answers until there are `n`: `while (answers.length < n) answers.push({ text: '' })`. */
  function PadAnswers(answers: seq<Answer>, n: nat): (r: seq<Answer>)
    ensures |r| == if |answers| < n then n else |answers|
    ensures r[..|answers|] == answers
    ensures forall k :: |answers| <= k < |r| ==> r[k] == Answer("")
    decreases n - |answers|
  {
    if |answers| < n then PadAnswers(answers + [Answer("")], n) else answers
  }

  /** No filled answer from position `i` on: no filled positions. */
  lemma {:induction false} FilledNone(answers: seq<Answer>, i: nat)
    requires i <= |answers| && forall j :: i <= j < |answers| ==> IsBlankAnswer(answers[j])
    ensures FilledIndicesFrom(answers, i) == []
    decreases |answers| - i
  {
    if i < |answers| {
      FilledNone(answers, i + 1);
    }
  }

  /** When the filled answers come first, from position `i` on the filled
      positions are `i, i + 1, ...` up to the first blank answer. */
  lemma {:induction false} FilledRunFrom(answers: seq<Answer>, i: nat)
    requires BlanksTrailing(answers) && i <= |answers|
    ensures var idx := FilledIndicesFrom(answers, i);
      && i + |idx| <= |answers|
      && (forall m :: 0 <= m < |idx| ==> idx[m] == i + m)
      && (forall j :: i <= j < i + |idx| ==> IsFilledAnswer(answers[j]))
      && (i + |idx| == |answers| || IsBlankAnswer(answers[i + |idx|]))
      && forall j :: i + |idx| <= j < |answers| ==> IsBlankAnswer(answers[j])
    decreases |answers| - i
  {
    if i < |answers| {
      if IsFilledAnswer(answers[i]) {
        FilledRunFrom(answers, i + 1);
        var rest := FilledIndicesFrom(answers, i + 1);
        assert FilledIndicesFrom(answers, i) == [i] + rest;
      } else {
        assert IsBlankAnswer(answers[i]);
        assert forall j :: i <= j < |answers| ==> IsBlankAnswer(answers[j]);
        FilledNone(answers, i);
      }
    }
  }

  /** With every blank answer after the filled ones, the filled answers are a
      prefix of the raw list, and their raw positions are `0 .. m - 1`. */
  lemma FilledPrefix(answers: seq<Answer>) returns (m: nat)
    requires BlanksTrailing(answers)
    ensures m <= |answers| && FilledAnswers(answers) == answers[..m]
    ensures forall i :: m <= i < |answers| ==> IsBlankAnswer(answers[i])
    ensures |FilledIndicesFrom(answers, 0)| == m && forall k :: 0 <= k < m ==> FilledIndicesFrom(answers, 0)[k] == k
  {
    m := 0;
    while m < |answers| && IsFilledAnswer(answers[m])
      invariant m <= |answers|
      invariant forall i :: 0 <= i < m ==> IsFilledAnswer(answers[i])
    {
      m := m + 1;
    }
    assert answers == answers[..m] + answers[m..];
    forall i | m <= i < |answers|
      ensures IsBlankAnswer(answers[i])
    {
      assert IsBlankAnswer(answers[m]);
    }
    FilterAppend(IsFilledAnswer, answers[..m], answers[m..]);
    FilterAll(IsFilledAnswer, answers[..m]);
    FilterNone(IsFilledAnswer, answers[m..]);
    FilledRunLength(answers, m);
  }

  /** A run of `m` filled answers ended by a blank one (or by the end) is
      exactly the filled positions. */
  lemma FilledRunLength(answers: seq<Answer>, m: nat)
    requires BlanksTrailing(answers) && m <= |answers|
    requires forall i :: 0 <= i < m ==> IsFilledAnswer(answers[i])
    requires m == |answers| || IsBlankAnswer(answers[m])
    ensures |FilledIndicesFrom(answers, 0)| == m && forall k :: 0 <= k < m ==> FilledIndicesFrom(answers, 0)[k] == k
  {
    FilledRunFrom(answers, 0);
  }
}
