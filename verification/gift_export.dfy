/** Export of the bank in Moodle's GIFT format (`handleExportGift`). */
module GiftExport {
  import opened Common
  import opened Model

  /** The characters `escapeGiftText` protects with a backslash. */
  predicate IsReserved(c: char)
  {
    c == '~' || c == '=' || c == '#' || c == '{' || c == '}'
  }

  /** `escapeGiftText`: a backslash in front of every reserved character. */
  function Escape(s: string): (r: string)
    ensures |r| >= |s|
    ensures |r| > 0 ==> !IsReserved(r[0])
    ensures forall j, i :: 0 <= j < i < |r| && j == i - 1 && IsReserved(r[i]) ==> r[j] == '\\'
    decreases |s|
  {
    if |s| == 0 then ""
    else if IsReserved(s[0]) then ['\\', s[0]] + Escape(s[1..])
    else [s[0]] + Escape(s[1..])
  }

  /** Reading an escaped text back the way GIFT readers do: a backslash
      followed by a reserved character stands for that character. */
  function Unescape(s: string): string
    decreases |s|
  {
    if |s| == 0 then ""
    else if |s| >= 2 && s[0] == '\\' && IsReserved(s[1]) then [s[1]] + Unescape(s[2..])
    else [s[0]] + Unescape(s[1..])
  }

  /** Escaping loses nothing: every text, backslashes included, reads back as itself. */
  lemma {:induction false} UnescapeEscape(s: string)
    ensures Unescape(Escape(s)) == s
    decreases |s|
  {
    if |s| > 0 {
      UnescapeEscape(s[1..]);
      var rest := Escape(s[1..]);
      if IsReserved(s[0]) {
        var e := ['\\', s[0]] + rest;
        assert e[2..] == rest;
      } else {
        var e := [s[0]] + rest;
        assert e[1..] == rest;
        if |e| >= 2 {
          assert e[1] == rest[0];
        }
      }
    }
  }

  /** A text free of reserved characters is exported as it is. */
  lemma {:induction false} EscapePlain(s: string)
    requires forall i :: 0 <= i < |s| ==> !IsReserved(s[i])
    ensures Escape(s) == s
    decreases |s|
  {
    if |s| > 0 {
      EscapePlain(s[1..]);
    }
  }

  /** The marker of an exported answer line. */
  function Marker(correct: bool): string
  {
    if correct then "=" else "~"
  }

  /** The line exported for the answer at raw position `i`, if it is not blank. */
  function AnswerLine(a: Answer, i: nat, correctAnswerIndex: int): Option<string>
  {
    if IsBlank(a.text) then None
    else Some(Marker(i == correctAnswerIndex) + Escape(Trim(a.text)))
  }

  /** The answers from raw position `i` on, mapped to lines, nulls dropped. */
  function AnswerLinesFrom(answers: seq<Answer>, correctAnswerIndex: int, i: nat): seq<string>
    requires i <= |answers|
    decreases |answers| - i
  {
    if i == |answers| then []
    else
      var rest := AnswerLinesFrom(answers, correctAnswerIndex, i + 1);
      match AnswerLine(answers[i], i, correctAnswerIndex)
      case None => rest
      case Some(line) => [line] + rest
  }

  function AnswerLines(q: Question): seq<string>
  {
    AnswerLinesFrom(q.answers, q.correctAnswerIndex, 0)
  }

  /** One line per non-blank answer. */
  lemma {:induction false} AnswerLinesCount(answers: seq<Answer>, correctAnswerIndex: int, i: nat)
    requires i <= |answers|
    ensures |AnswerLinesFrom(answers, correctAnswerIndex, i)| == |FilledIndicesFrom(answers, i)|
    decreases |answers| - i
  {
    if i < |answers| {
      AnswerLinesCount(answers, correctAnswerIndex, i + 1);
    }
  }

  /** Line `k` of the export from raw position `i` on is the line of the
      `k`-th non-blank answer from there. */
  lemma {:induction false} AnswerLineAt(answers: seq<Answer>, correctAnswerIndex: int, i: nat, k: nat)
    requires i <= |answers| && k < |FilledIndicesFrom(answers, i)|
    ensures |AnswerLinesFrom(answers, correctAnswerIndex, i)| == |FilledIndicesFrom(answers, i)|
    ensures AnswerLine(answers[FilledIndicesFrom(answers, i)[k]], FilledIndicesFrom(answers, i)[k], correctAnswerIndex)
         == Some(AnswerLinesFrom(answers, correctAnswerIndex, i)[k])
    decreases |answers| - i
  {
    AnswerLinesCount(answers, correctAnswerIndex, i);
    AnswerLinesStep(answers, correctAnswerIndex, i);
    if IsFilledAnswer(answers[i]) {
      if k > 0 {
        AnswerLineAt(answers, correctAnswerIndex, i + 1, k - 1);
      }
    } else {
      AnswerLineAt(answers, correctAnswerIndex, i + 1, k);
    }
  }

  /** Line `k` of the export is the line of the `k`-th non-blank answer:
      its trimmed, escaped text, marked `=` exactly when its raw position is
      the correct index. */
  lemma AnswerLinesSpec(answers: seq<Answer>, correctAnswerIndex: int, i: nat)
    requires i <= |answers|
    ensures |AnswerLinesFrom(answers, correctAnswerIndex, i)| == |FilledIndicesFrom(answers, i)|
    ensures forall k :: 0 <= k < |AnswerLinesFrom(answers, correctAnswerIndex, i)| ==>
      AnswerLine(answers[FilledIndicesFrom(answers, i)[k]], FilledIndicesFrom(answers, i)[k], correctAnswerIndex)
        == Some(AnswerLinesFrom(answers, correctAnswerIndex, i)[k])
  {
    AnswerLinesCount(answers, correctAnswerIndex, i);
    forall k | 0 <= k < |AnswerLinesFrom(answers, correctAnswerIndex, i)|
      ensures AnswerLine(answers[FilledIndicesFrom(answers, i)[k]], FilledIndicesFrom(answers, i)[k], correctAnswerIndex)
           == Some(AnswerLinesFrom(answers, correctAnswerIndex, i)[k])
    {
      AnswerLineAt(answers, correctAnswerIndex, i, k);
    }
  }

  /** One step of the two scans: a non-blank answer contributes its line and its position. */
  lemma AnswerLinesStep(answers: seq<Answer>, correctAnswerIndex: int, i: nat)
    requires i < |answers|
    ensures IsFilledAnswer(answers[i]) ==>
      && AnswerLinesFrom(answers, correctAnswerIndex, i)
         == [AnswerLine(answers[i], i, correctAnswerIndex).value] + AnswerLinesFrom(answers, correctAnswerIndex, i + 1)
      && FilledIndicesFrom(answers, i) == [i] + FilledIndicesFrom(answers, i + 1)
      && AnswerLine(answers[i], i, correctAnswerIndex).Some?
    ensures !IsFilledAnswer(answers[i]) ==>
      && AnswerLinesFrom(answers, correctAnswerIndex, i) == AnswerLinesFrom(answers, correctAnswerIndex, i + 1)
      && FilledIndicesFrom(answers, i) == FilledIndicesFrom(answers, i + 1)
  {
  }

  /** An exported line marking the correct answer. */
  predicate IsCorrectLine(line: string)
  {
    |line| > 0 && line[0] == '='
  }

  /** Line `k` carries the `=` marker exactly when its answer's raw position
      is the correct index. */
  lemma CorrectLineAt(q: Question, k: nat)
    requires k < |FilledIndicesFrom(q.answers, 0)|
    ensures |AnswerLines(q)| == |FilledIndicesFrom(q.answers, 0)|
    ensures IsCorrectLine(AnswerLines(q)[k]) <==> FilledIndicesFrom(q.answers, 0)[k] == q.correctAnswerIndex
  {
    AnswerLineAt(q.answers, q.correctAnswerIndex, 0, k);
  }

  /** The `=` marker goes on exactly one line when the correct index is the
      raw position of a non-blank answer, and on none otherwise. */
  lemma CorrectLineUnique(q: Question)
    ensures var lines, idx := AnswerLines(q), FilledIndicesFrom(q.answers, 0);
      && |lines| == |idx|
      && (forall k :: 0 <= k < |lines| ==> (IsCorrectLine(lines[k]) <==> idx[k] == q.correctAnswerIndex))
      && (forall k, l :: 0 <= k < l < |lines| ==> !(IsCorrectLine(lines[k]) && IsCorrectLine(lines[l])))
      && ((exists k :: 0 <= k < |lines| && IsCorrectLine(lines[k]))
          <==> 0 <= q.correctAnswerIndex < |q.answers| && IsFilledAnswer(q.answers[q.correctAnswerIndex]))
  {
    var lines, idx := AnswerLines(q), FilledIndicesFrom(q.answers, 0);
    AnswerLinesCount(q.answers, q.correctAnswerIndex, 0);
    forall k | 0 <= k < |lines|
      ensures IsCorrectLine(lines[k]) <==> idx[k] == q.correctAnswerIndex
    {
      CorrectLineAt(q, k);
    }
    if 0 <= q.correctAnswerIndex < |q.answers| && IsFilledAnswer(q.answers[q.correctAnswerIndex]) {
      var k :| 0 <= k < |idx| && idx[k] == q.correctAnswerIndex;
      assert IsCorrectLine(lines[k]);
    }
  }

  /** The exported block of the question at list position `k`. */
  function Block(q: Question, k: nat): string
  {
    "::Soru " + NatToString(k + 1) + "::" + "[html]" + q.text + "{\n" + Join(AnswerLines(q), "\n") + "\n}"
  }

  function Blocks(questions: seq<Question>): (blocks: seq<string>)
    ensures |blocks| == |questions|
    ensures forall k :: 0 <= k < |questions| ==> blocks[k] == Block(questions[k], k)
  {
    seq(|questions|, k requires 0 <= k < |questions| => Block(questions[k], k))
  }

  /** `handleExportGift`: nothing for an empty bank (an alert), otherwise the
      blocks separated by blank lines. */
  function ExportGift(questions: seq<Question>): (r: Option<string>)
    ensures r.None? <==> |questions| == 0
  {
    if |questions| == 0 then None else Some(Join(Blocks(questions), "\n\n"))
  }
}
