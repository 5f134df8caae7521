/** The question bank edits of App.tsx: saving from the editor and deleting. */
module Bank {
  import opened Common
  import opened Model

  function Ids(qs: seq<Question>): (ids: seq<string>)
    ensures |ids| == |qs| && forall i :: 0 <= i < |qs| ==> ids[i] == qs[i].id
  {
    seq(|qs|, i requires 0 <= i < |qs| => qs[i].id)
  }

  /** `handleSaveQuestion`: while editing, every question with the saved
      question's id is replaced by it; otherwise the question is appended. */
  function SaveQuestion(questions: seq<Question>, q: Question, editing: bool): (r: seq<Question>)
    ensures editing ==> |r| == |questions| && Ids(r) == Ids(questions)
    ensures editing ==> forall i :: 0 <= i < |r| ==> r[i] == questions[i] || (r[i] == q && questions[i].id == q.id)
    ensures editing ==> forall i :: 0 <= i < |r| && questions[i].id == q.id ==> r[i] == q
    ensures !editing ==> |r| == |questions| + 1 && r[..|questions|] == questions && r[|questions|] == q
  {
    if editing then seq(|questions|, i requires 0 <= i < |questions| => if questions[i].id == q.id then q else questions[i])
    else questions + [q]
  }

  /** The filter predicate of `deleteQuestion`. */
  function OtherThan(id: string): Question -> bool
  {
    (q: Question) => q.id != id
  }

  /** `deleteQuestion`: when the user confirms, every question with the id
      goes and the others stay in order; otherwise nothing changes. */
  function DeleteQuestion(questions: seq<Question>, id: string, confirmed: bool): (r: seq<Question>)
    ensures !confirmed ==> r == questions
    ensures confirmed ==> forall i :: 0 <= i < |r| ==> r[i].id != id && r[i] in questions
    ensures confirmed ==> forall i :: 0 <= i < |questions| && questions[i].id != id ==> questions[i] in r
  {
    if confirmed then Filter(OtherThan(id), questions) else questions
  }

  /** A confirmed delete keeps the other questions in their order and
      multiplicity: the remaining bank is read off strictly increasing
      positions of the old one, which take in every position whose question
      has another id. */
  lemma DeleteKeepsOrder(questions: seq<Question>, id: string) returns (idx: seq<nat>)
    ensures |idx| == |DeleteQuestion(questions, id, true)|
    ensures forall k :: 0 <= k < |idx| ==>
      idx[k] < |questions| && DeleteQuestion(questions, id, true)[k] == questions[idx[k]]
    ensures forall k, l :: 0 <= k < l < |idx| ==> idx[k] < idx[l]
    ensures forall j :: 0 <= j < |questions| && questions[j].id != id ==> j in idx
  {
    idx := FilterPositions(OtherThan(id), questions);
  }

  /** Deleting an id no question carries leaves the bank as it was, in the
      same order. */
  lemma DeleteAbsentKeepsBank(questions: seq<Question>, id: string)
    requires forall i :: 0 <= i < |questions| ==> questions[i].id != id
    ensures DeleteQuestion(questions, id, true) == questions
  {
    FilterAll(OtherThan(id), questions);
  }

  /** Deleting a question just added under a fresh id gives the bank back. */
  lemma DeleteUndoesAdd(questions: seq<Question>, q: Question)
    requires forall i :: 0 <= i < |questions| ==> questions[i].id != q.id
    ensures DeleteQuestion(SaveQuestion(questions, q, false), q.id, true) == questions
  {
    FilterAppend(OtherThan(q.id), questions, [q]);
    FilterAll(OtherThan(q.id), questions);
    assert Filter(OtherThan(q.id), [q]) == [];
  }

  /** Saving an edit whose id is in the bank leaves the bank holding it. */
  lemma SaveEditLands(questions: seq<Question>, q: Question, i: nat)
    requires i < |questions| && questions[i].id == q.id
    ensures q in SaveQuestion(questions, q, true)
  {
    assert SaveQuestion(questions, q, true)[i] == q;
  }
}
