# Test booklet generator — a Dafny model of its core

The application keeps a bank of multiple-choice questions and produces
printable exams from it:

- An editor dialog (`QuestionEditor`) creates and edits the questions.
- Up to four booklet variants (A, B, C, D) are derived from the bank.
  Each variant shuffles the question order and the answer order.
- Each booklet is paginated by measuring rendered pages against a fixed
  content height.
- The pages, an answer key and one optical answer form per booklet are
  rendered in turn into a single PDF.
- The bank can be exported to Moodle's GIFT text format and imported
  back from it.
- A small combo box (`FontSelector`) picks the font.

This project models that core as pure functions over immutable
datatypes and proves what each step promises:

| file | module | what it holds |
|---|---|---|
| `common.dfy` | `Common` | white space, `trim`, ASCII case mapping, `filter`, `slice`, `join`, `split` |
| `model.dfy` | `Model` | questions, answers, exam details, booklets; the filled answers |
| `shuffle.dfy` | `Shuffling` | `shuffleArray`, with the random draws as an input |
| `variants.dfy` | `Variants` | `shuffleQuestionsAndAnswers` |
| `pagination.dfy` | `Pagination` | `paginate`, with the measurement as an input function |
| `bank.dfy` | `Bank` | `handleSaveQuestion` and `deleteQuestion` |
| `generation.dfy` | `Generation` | `handleGeneratePdf`, the three render effects, `resetPdfGenerationState` |
| `gift_export.dfy` | `GiftExport` | `escapeGiftText`, `handleExportGift` |
| `gift_import.dfy` | `GiftImport` | `parseGiftFormat`, its regular expressions written as scans |
| `gift_roundtrip.dfy` | `GiftRoundTrip` | export followed by import |
| `editor.dfy` | `Editor` | the editor's state, edits and save checks |
| `font_selector.dfy` | `FontSelection` | the font combo box |
| `test_preview.dfy` | `TestSheet` | what a printed test page shows |
| `answer_key.dfy` | `AnswerKey` | what the answer key shows |
| `optical_form.dfy` | `OpticalSheet` | the grid of the optical form |

Under sequential scheduling of the generation effects (see "Left out"),
the model follows the code as written. Several places where the
code does not do what its surroundings suggest are proved as concrete
lemmas:

- The editor stores `correctAnswerIndex` as a raw answer position. The
  booklet shuffle reads it as a position among the filled answers, so a
  blank answer before the correct one moves the mark
  (`Variants.EditorIndexReadAsFilledIndex`). When blanks only trail,
  the two readings agree (`Variants.RawCorrectAnswerKept`).
- The answer key numbers its rows by page position. The test page prints
  each question's bank number instead, so the two disagree as soon as a
  booklet is shuffled (`AnswerKey.KeyNumbersDisagree`). They agree exactly
  when the question kept its bank position
  (`AnswerKey.KeyRowMatchesPrintedNumber`).
- The export escapes `~ = # { }` with a backslash, but the import never
  removes the backslash. An escaped `#` even starts the feedback cut
  (`GiftRoundTrip.ExportEscapes`, `GiftRoundTrip.ImportKeepsBackslash`).
  The round trip is therefore proved for texts without such characters
  (`GiftRoundTrip.ExportImport`).
- A test page skips only answers whose text is exactly empty. An answer of
  spaces is printed, although the editor and the shuffle treat it as blank
  (`TestSheet.SpaceAnswerPrinted`).
- The optical form has group bubbles only for A–D. Booklets are labelled
  only A–D because the count selector offers 1 to 4 (`App.tsx:619-625`).
  A fifth booklet would fill no bubble (`OpticalSheet.GeneratedBookletGroup`).
- The font selector keeps its highlight when a new `value` arrives. The
  highlight can then point past the shorter list, and Enter falls back to
  the query (`FontSelection.ValueChangeUnbounds`).
- `handleSave` does not check that the answer marked correct is still
  filled (`Editor.SaveIgnoresBlankCorrect`).

Inputs the code takes from the environment become parameters:

- `Math.random()` becomes the draw sequences.
- The DOM measurement of a page becomes `measure`.
- The clock-based ids become `freshId`.
- `window.confirm` becomes a boolean.
- A capture that throws becomes an `ok` flag per render step.

## Model

| member | source | states |
|---|---|---|
| Shuffling.Swap | App.tsx:26 | positions `i` and `j` are exchanged and every other position is unchanged |
| Shuffling.ShuffleArray | App.tsx:22-29 | the in-place loop on a copy computes the Fisher–Yates shuffle of the input for the given draws: same length, same multiset of elements |
| Shuffling.ShuffleKeepsMultiset | App.tsx:22-29 | the shuffled copy is a rearrangement of the input |
| Shuffling.Permutation | App.tsx:24-27 | the positions the shuffle takes its elements from are `n` distinct indices below `n`, a permutation |
| Shuffling.ShuffleIsPermutation | App.tsx:22-29 | element `k` of the shuffled copy is the input's element at `Permutation[k]`, so nothing is duplicated or lost |
| Variants.FindAnswerIndex | App.tsx:156 | `-1` or the first answer with the text; no earlier answer (none at all for `-1`) has it |
| Variants.ShuffleAnswers | App.tsx:147-167 | when the correct index addresses a filled answer, the new index addresses an answer with the same text, the filled prefix is a rearrangement of the filled answers and the rest are empty answers; otherwise the raw answers are rearranged and the index is kept; length, id, text and image never change |
| Variants.Tag | App.tsx:144 | each question is tagged with its bank position and nothing else changes |
| Variants.ShuffleQuestionsAndAnswers | App.tsx:143-169 | position `k` holds the bank question at `Permutation[k]`, tagged with that position, same id, text and image, with its answers shuffled |
| Variants.EachQuestionOnce | App.tsx:143-169 | every bank question appears in a variant exactly once: original indices pairwise distinct and covering every bank position |
| Model.FilledPrefix | App.tsx:148 | when blank answers only trail, the filled answers are a prefix of the raw list, sitting at raw positions `0 .. m - 1` |
| Model.PadAnswers | App.tsx:158-161 | the answers are kept in front and followed by empty answers up to `n`; a list already that long is unchanged |
| Variants.RawCorrectAnswerKept | App.tsx:147-167 | with trailing blanks and a correct index on a filled answer, the variant marks the answer with the same text correct |
| Variants.EditorIndexReadAsFilledIndex | App.tsx:148-149 | for answers `"", "x", "y"` with index 1 (the editor's "x"), every shuffle marks "y" correct |
| Pagination.PaginateIsGreedy | App.tsx:193-215 | the pages concatenate to the input, none is empty, every question joining a non-empty page kept it within the limit, and each page was closed only because the next question overflowed it |
| Pagination.PaginateProperties | App.tsx:182-231 | the pages concatenate to the input in order; no pages exactly when no questions; every page is non-empty and measures at most 900 unless it holds a single question |
| Pagination.GreedyPagesIffQuestions | App.tsx:194-197 | a greedy pagination has pages exactly when there are questions |
| Pagination.GreedyPaginationUnique | App.tsx:206-215 | two greedy paginations of the same questions are equal |
| Pagination.GreedyPaginationIsPaginate | App.tsx:182-231 | a page list is a greedy pagination of the questions if and only if it is the one `paginate` returns |
| Bank.SaveQuestion | App.tsx:129-135 | editing replaces exactly the questions with the saved id and keeps the ids in order; adding appends the question after the unchanged bank |
| Bank.DeleteQuestion | App.tsx:137-141 | unconfirmed, nothing changes; confirmed, no question with the id remains, and every other question remains |
| Bank.DeleteKeepsOrder | App.tsx:137-141 | a confirmed delete keeps the other questions in order and with their repeats: the result is read off strictly increasing positions of the bank, taking in every question with another id |
| Bank.DeleteAbsentKeepsBank | App.tsx:137-141 | deleting, for any bank, an id no question carries leaves the bank as it was, in the same order |
| Bank.DeleteUndoesAdd | App.tsx:129-141 | deleting a question just added under an unused id gives back the bank |
| Bank.SaveEditLands | App.tsx:130-131 | after saving an edit whose id is in the bank, the bank holds the edited question |
| Generation.BookletLabel | App.tsx:247 | booklet `i` is labelled with one capital letter |
| Generation.Labels | App.tsx:246-247 | `nb` labels, the `i`-th being `BookletLabel(i)` |
| Generation.LabelsDistinct | App.tsx:246-252 | the booklet letters are pairwise distinct |
| Generation.Booklets | App.tsx:245-252 | `nb` booklets, booklet `i` labelled `BookletLabel(i)` and holding as many questions as the bank |
| Generation.BookletTypes | App.tsx:532 | the optical-form queue lists the booklet letters in booklet order |
| Generation.BookletPages | App.tsx:258-268 | the pages of one booklet all carry its letter, none is empty, and together they are its questions in order; no pages exactly for an empty booklet |
| Generation.PageJobs | App.tsx:256-269 | no queued page is empty |
| Generation.PageJobsCoverBooklets | App.tsx:256-269 | the page queue's questions, concatenated, are every booklet's questions in booklet order |
| Generation.PageJobsLabelled | App.tsx:258-268 | every queued page carries the letter of one of the booklets |
| Generation.PageJobsNonEmpty | App.tsx:256-278 | a first booklet with questions gives at least one page |
| Generation.Generate | App.tsx:233-279 | an empty bank changes nothing; otherwise the run is generating with an empty document, the booklets as answer-key data, the first queued page current and the rest queued |
| Generation.Underscored | App.tsx:539 | the course name with every white-space character replaced by `_` |
| Generation.RenderPage | App.tsx:471-505 | rendering a page saves nothing |
| Generation.RenderAnswerKey | App.tsx:514-541 | after the answer key, either nothing is saved or one file is saved and the run is idle |
| Generation.RenderOpticalForm | App.tsx:566-584 | after an optical form, either nothing is saved or one file is saved and the run is idle |
| Generation.Step | App.tsx:466-594 | an idle run does not change; a capture that throws resets the run (`resetPdfGenerationState`) and saves nothing; a step saves at most one file, only on success, and then leaves the run idle |
| Generation.Drive | App.tsx:466-594 | a run that is no longer busy is left as it is, so a sequence of steps saves at most one file and leaves the run idle after it |
| Generation.PagePhase | App.tsx:504-505 | with no optical form pending, the current and queued pages join the document in order, one step each |
| Generation.PagePhaseBusy | App.tsx:504-505 | during the page phase the run stays busy and nothing is saved |
| Generation.OpticalPhase | App.tsx:577-584 | the current and queued optical forms join the document in order, and the last one saves `test_<course>_cevapli_optik.pdf` and resets the run |
| Generation.AnswerKeyStep | App.tsx:514-537 | once the pages are done, the answer key joins the document and the first booklet letter becomes the current optical form |
| Generation.RunFromStart | App.tsx:466-594 | from a started run with every capture succeeding, pages, answer key and forms are rendered and exactly one file is saved |
| Generation.RunFromStartFailure | App.tsx:506-510 | a capture that throws at any step before the save resets the run without saving |
| Generation.RunFromStartBusy | App.tsx:466-594 | until the last step the run stays busy and nothing is saved |
| Generation.GenerateStarts | App.tsx:271-278 | from an idle run and a non-empty bank, generation leaves a started run and saves nothing |
| Generation.BookletLetters | App.tsx:246-252 | the booklets carry the letters A, B, … in order, none empty |
| Generation.StartedRunsToSave | App.tsx:466-594 | a started run saves its document after one step per page, one for the key and one per form; it saves nothing before, and a failure at any step resets without saving |
| Generation.GenerationRun | App.tsx:233-594 | one generation saves exactly one file, named after the course, holding every page of booklet A, then B, …, then the answer key, then one optical form per booklet in letter order |
| GiftExport.Escape | App.tsx:300-302 | the result is no shorter, never starts with a reserved character, and every reserved character in it is preceded by a backslash |
| GiftExport.UnescapeEscape | App.tsx:300-302 | escaping loses nothing: reading escapes back gives the original text, backslashes included |
| GiftExport.EscapePlain | App.tsx:301 | a text without reserved characters is exported unchanged |
| GiftExport.AnswerLinesCount | App.tsx:308-315 | one line per non-blank answer |
| GiftExport.AnswerLineAt | App.tsx:308-315 | line `k` is the line of the `k`-th non-blank answer |
| GiftExport.AnswerLinesSpec | App.tsx:308-315 | line `k` is the marker and escaped trimmed text of the `k`-th non-blank answer |
| GiftExport.AnswerLinesStep | App.tsx:309-314 | a non-blank answer contributes one line and one position; a blank answer contributes neither |
| GiftExport.CorrectLineAt | App.tsx:311 | line `k` is marked `=` exactly when its answer's raw position is the correct index |
| GiftExport.CorrectLineUnique | App.tsx:308-315 | at most one line is marked `=`, and one is exactly when the correct index is the raw position of a non-blank answer |
| GiftExport.Blocks | App.tsx:304-317 | one block per question, block `k` numbered `Soru k+1` |
| GiftExport.ExportGift | App.tsx:294-318 | nothing is exported exactly when the bank is empty |
| GiftImport.NormalizeNewlines | App.tsx:365 | never longer; a text without CR is unchanged |
| GiftImport.SeparatorAtIff | App.tsx:365 | the block separator matches at a position exactly when the white-space run there holds two newlines |
| GiftImport.SplitBlocks | App.tsx:365 | the split gives at least one block, and at most one more than the text has characters |
| GiftImport.MatchQuestion | App.tsx:373-379 | the question pattern fails exactly when no body `text{answers}` matches from the start |
| GiftImport.QuestionText | App.tsx:383-386 | the question text comes out trimmed |
| GiftImport.CutFeedback | App.tsx:399 | the kept part is a prefix, cut at the leftmost `#` with no line break after it and unchanged without `#` |
| GiftImport.DigitsEnd | App.tsx:400 | the end of the maximal run of digits from `i` |
| GiftImport.FindWeight | App.tsx:400 | the leftmost position where the weight pattern matches, or the end |
| GiftImport.RemoveWeight | App.tsx:400 | the text changes exactly when it holds a weight mark `~?%-?d+(.d+)?%`; then one mark is cut out and no mark starts before it (the leftmost match); unchanged without `%` |
| GiftImport.PercentMatches | App.tsx:400 | wherever a weight `%-?d+(.d+)?%` starts, the matcher finds it and ends where it ends |
| GiftImport.MarkMatches | App.tsx:400 | wherever a weight mark (with optional `~`) starts, the matcher finds a match there |
| GiftImport.NoMarkBefore | App.tsx:400 | below a position where the matcher found nothing, no weight mark starts |
| GiftImport.ParseAnswerLine | App.tsx:394-401 | the answer text is trimmed |
| GiftImport.ParseAnswerLineInverse | App.tsx:394-401 | a line written as the export writes a plain text reads back as that text and marker |
| GiftImport.LastCorrect | App.tsx:405-407 | the position of the last correct entry, or `-1` when none is correct |
| GiftImport.CollectSpec | App.tsx:393-409 | the loop collects the non-empty texts in order, and its correct index is the last correct one among them |
| GiftImport.ParseBlock | App.tsx:367-425 | an accepted block gets the fresh id of its block index and at least five answers |
| GiftImport.ParseBlockSpec | App.tsx:367-425 | a block is accepted if and only if it matches, its text is non-empty, two answers have text and one is marked `=`; the question is that text, those answers padded to five, and the last `=` as correct |
| GiftImport.ParseBlockImported | App.tsx:411-422 | every imported question has a trimmed non-empty text, no image, at least five answers with the filled ones first, at least two filled, and a correct index on a filled answer |
| GiftImport.ImportedAnswers | App.tsx:411-414 | the kept texts padded to five have the filled answers first, exactly as many as were kept |
| GiftImport.PaddedFilled | App.tsx:412-414 | padding filled answers with empty ones puts the filled ones first and adds no filled one |
| GiftImport.ParseBlocks | App.tsx:367-426 | at most one question per block, each well formed |
| GiftImport.ParseGift | App.tsx:363-429 | every question the import returns is well formed |
| GiftImport.ParseBlocksPositions | App.tsx:367-428 | the import returns the question of every accepted block, each once, in block order: the result is read off strictly increasing block indices taking in every block the block parser accepts |
| GiftImport.ParseGiftPositions | App.tsx:363-429 | for any text, the questions returned are those of the accepted blocks of the split text, each once, in block order |
| GiftRoundTrip.SplitBlocksJoin | App.tsx:365 | the export's blocks, joined by blank lines, split back into the same blocks |
| GiftRoundTrip.ParseExportedBlock | App.tsx:367-425 | the export of a portable question reads back as `Reimported`: a fresh id, the same text, its filled answers trimmed and padded to five, the same correct answer |
| GiftRoundTrip.ParseExportedBlocks | App.tsx:363-429 | the exported blocks of a portable bank read back one question per block, in order |
| GiftRoundTrip.ExportImport | App.tsx:294-429 | a non-empty portable bank is exported and its import gives back every question, in order, as `Reimported` describes |
| GiftRoundTrip.ReimportedKeepsCorrect | App.tsx:411-422 | the round trip keeps the question text and the correct answer's trimmed text |
| GiftRoundTrip.ReimportedIdentity | App.tsx:411-422 | a question already in the import's shape comes back unchanged except for its id |
| GiftRoundTrip.ExportEscapes | App.tsx:308-312 | the answer `a#b`, marked correct, is exported as `=a\#b` |
| GiftRoundTrip.ImportKeepsBackslash | App.tsx:397-401 | the line `=a\#b` imports as the correct answer `a\`: the escape is not undone |
| Editor.Open | components/QuestionEditor.tsx:77-99 | while closed nothing changes; on opening, the error is cleared and the question is the one to edit or a blank one with five empty answers, the first marked correct |
| Editor.TextChange | components/QuestionEditor.tsx:101-104 | only the text changes, and the error is cleared |
| Editor.AnswerChange | components/QuestionEditor.tsx:106-111 | only the answer at the index changes, and the error is cleared |
| Editor.AnswerChangeUndone | components/QuestionEditor.tsx:106-111 | typing an answer's old text back restores the question |
| Editor.CorrectAnswerChoices | components/QuestionEditor.tsx:213-215 | the selector offers a position if and only if its answer is filled, in increasing order |
| Editor.ChoicesCount | components/QuestionEditor.tsx:213-215 | the selector has one entry per filled answer |
| Editor.SelectCorrect | components/QuestionEditor.tsx:208-216 | picking an entry changes only the correct index, which then addresses a filled answer |
| Editor.Save | components/QuestionEditor.tsx:131-143 | a question is handed on and the dialog closed if and only if its text is not empty or `<br>` and two answers are filled; otherwise the matching error is set; the saved question keeps its id or gets the fresh one |
| Editor.NewQuestionRefused | components/QuestionEditor.tsx:131-135 | the blank question the dialog opens with is refused with the empty-text error |
| Editor.SavedHasTwoChoices | components/QuestionEditor.tsx:136-140 | a saved question offers at least two correct-answer choices |
| Editor.SaveIgnoresBlankCorrect | components/QuestionEditor.tsx:131-143 | a question whose marked answer is empty is saved unchanged |
| FontSelection.Filtered | components/FontSelector.tsx:32-34 | at most 200 fonts, each a matching option; all matching options when there are at most 200 of them; otherwise exactly 200 |
| FontSelection.FilteredPositions | components/FontSelector.tsx:32-34 | the listed fonts keep the options' order: they sit at strictly increasing positions of the options, which take in every matching position when at most 200 match, and every matching position before the last one listed in any case, so the list is the first 200 matches |
| FontSelection.IncludesEmpty | components/FontSelector.tsx:33 | every text contains the empty query |
| FontSelection.EmptyQueryListsAll | components/FontSelector.tsx:32-34 | with an empty query the first 200 options are listed as given |
| FontSelection.Initial | components/FontSelector.tsx:11-13 | closed, showing the value, nothing highlighted |
| FontSelection.Choose | components/FontSelector.tsx:36-41 | the value is handed on and shown, the list closed, the highlight dropped |
| FontSelection.KeyDown | components/FontSelector.tsx:43-62 | ArrowDown opens and moves down but never past the last row; ArrowUp moves up but not below 0; Enter picks the highlighted row, else the trimmed query if any, else nothing; Escape closes and drops the highlight |
| FontSelection.Type | components/FontSelector.tsx:71 | typing sets the query, opens the list and drops the highlight |
| FontSelection.ValueChange | components/FontSelector.tsx:16-18 | a new value replaces the query only |
| FontSelection.Focus | components/FontSelector.tsx:72 | focus opens the list |
| FontSelection.MouseEnter | components/FontSelector.tsx:89 | pointing at a row highlights it |
| FontSelection.MouseLeave | components/FontSelector.tsx:90 | leaving a row drops the highlight |
| FontSelection.Click | components/FontSelector.tsx:91 | clicking a row chooses its font |
| FontSelection.ClickOutside | components/FontSelector.tsx:20-30 | a click elsewhere closes the list and drops the highlight, keeping the query |
| FontSelection.KeyDownKeepsBounded | components/FontSelector.tsx:43-62 | every key keeps the highlight at `-1` or on a row, the one exception being 0 on an empty list |
| FontSelection.OtherStepsKeepBounded | components/FontSelector.tsx:71-91 | typing, focus, the mouse and outside clicks keep the highlight bounded |
| FontSelection.EnterPicksHighlighted | components/FontSelector.tsx:51-57 | with a bounded highlight on a non-empty list, Enter picks the highlighted font |
| FontSelection.ValueChangeUnbounds | components/FontSelector.tsx:16-18 | a value change can leave the highlight past the list, and Enter then picks the query |
| TestSheet.CodeUnit | components/TestPreview.tsx:52 | `String.fromCharCode` gives one UTF-16 code unit, the argument itself when it is in range |
| TestSheet.PrintedAnswersFrom | components/TestPreview.tsx:51-53 | exactly the answers with non-empty text are printed, each with the letter of its raw position |
| TestSheet.PrintedAnswerPositions | components/TestPreview.tsx:51-53 | the answers are printed in raw order, each once: the printed list is read off strictly increasing raw positions, taking in every answer with text; the letters strictly increase while they do not wrap |
| TestSheet.Number | components/TestPreview.tsx:46 | a question is numbered one past its bank position, and NaN without one |
| TestSheet.PrintQuestion | components/TestPreview.tsx:44-57 | the block shows the bank number, the text, the image exactly when it is a non-empty text, and the printed answers |
| TestSheet.PageContainer | components/TestPreview.tsx:12-19 | an A4-wide container whose minimum height is absent exactly for the measuring copy |
| TestSheet.PrintPage | components/TestPreview.tsx:11-62 | one block per question in list order, the upper-cased booklet letter, and the container for the copy's purpose |
| TestSheet.MeasureCopyDiffers | components/TestPreview.tsx:17-19 | the measuring copy equals the printed copy except for the minimum height |
| TestSheet.NumberIgnoresPosition | components/TestPreview.tsx:46 | the same question prints the same block at any position |
| TestSheet.VariantTaggedOnce | App.tsx:143-169 | a variant tags each bank position on exactly one question |
| TestSheet.TaggedNumbers | components/TestPreview.tsx:46 | a list tagged once with `0 .. n-1` prints each of the numbers `1 .. n` exactly once |
| TestSheet.VariantNumbers | components/TestPreview.tsx:43-58 | in every booklet variant the printed numbers are `1 .. n`, each exactly once, whatever the order |
| TestSheet.LabelsSkipEmpty | components/TestPreview.tsx:51-53 | the answers `x, "", y` print as a) x and c) y |
| TestSheet.SpaceAnswerPrinted | components/TestPreview.tsx:51-53 | an answer of one space is printed, although it counts as blank |
| AnswerKey.KeyLetter | components/AnswerKeyPreview.tsx:27 | correct index 0 gives A, 1 gives B, and so on up to Z |
| AnswerKey.KeyBlockOf | components/AnswerKeyPreview.tsx:20-31 | heading `<letter> KİTAPÇIĞI`; row `k+1` holds the key letter of the question at position `k`; two columns exactly when there are more than 20 questions |
| AnswerKey.KeyPage | components/AnswerKeyPreview.tsx:10-36 | nothing without booklets; otherwise the course title and one block per booklet in order |
| AnswerKey.KeyLetterIsPrintedLabel | components/AnswerKeyPreview.tsx:27 | the key letter is the capital of the label the test page prints next to the correct answer |
| AnswerKey.KeyRowMatchesPrintedNumber | components/AnswerKeyPreview.tsx:24-27 | a key row's number equals the printed number of its question if and only if the question stands at its bank position |
| AnswerKey.KeyNumbersDisagree | components/AnswerKeyPreview.tsx:24-27 | in a booklet with two swapped questions, key row 1 answers the question printed as number 2 |
| OpticalSheet.RowCount | components/OpticalForm.tsx:11 | at least 15 rows and at least one per question, exactly one of the two |
| OpticalSheet.Groups | components/OpticalForm.tsx:46-48 | bubbles A–D, each filled exactly when the upper-cased booklet letter is its letter |
| OpticalSheet.Form | components/OpticalForm.tsx:10-88 | digit headers 0–9 over 100 bubbles, the group bubbles, choice headers A–E, and rows numbered from 1 with five bubbles each |
| OpticalSheet.OneGroupFilled | components/OpticalForm.tsx:46-48 | at most one group bubble is filled, and one is exactly when the letter is one of A–D |
| OpticalSheet.GeneratedBookletGroup | components/OpticalForm.tsx:46-48 | the form of a generated booklet fills only its own letter's bubble, and none from the fifth booklet on |
| OpticalSheet.LowerCaseGroup | components/OpticalForm.tsx:48 | a lower-case booklet letter fills the bubble of its capital |
| OpticalSheet.RowsCoverBooklet | components/OpticalForm.tsx:11 | the form of a generated booklet has a row for each of its questions |

## Left out

- Rendering: DOM rendering, `html2canvas` captures, `jsPDF` page and image arithmetic, and the progress messages are not modelled. A capture is a step that succeeds or throws; a page, the key and a form are abstract sheets in the saved document.
- Timers and effect scheduling: `setTimeout` and React's scheduling are not modelled. The render effects are one `Generation.Step` each, the optical-form effect tried first. Under that sequential scheduling, in a run started from idle, the two effects never have work at once. The program does not keep to that order.
- Generation.Generate: the run is modelled as if pagination finished before any effect fires. In the code `setAnswerKeyData` runs (`App.tsx:254`) before `await paginate` (`App.tsx:261`), and each measured question waits one timer tick (`App.tsx:217`). Meanwhile the page effect sees no current page but answer-key data (`App.tsx:514`). It arms the key and form captures after 100 ms (`App.tsx:549`). On a bank whose pagination outlasts that timer, the key and forms can be captured, and `_cevapli_optik.pdf` saved with the run reset, before any test page exists. Pagination that ends while forms are still being captured gives the page effect work alongside the optical-form effect (`App.tsx:271-273`). The model does not contain these interleavings.
- Early returns on missing refs: the effects return early when `previewRef`, `answerKeyRef` or `opticalFormRef` is unset, and the model assumes the refs are mounted. When `answerKeyRef` is unset, the code skips the key image but still starts the form queue, and that branch is not modelled.
- `paginate`'s measuring round trip: it renders into a detached root and reports the height asynchronously. It is the pure function `measure`, which must give the same height for the same page.
- Randomness and the clock: `Math.random()` and `new Date()` are inputs, namely draw sequences, `freshId` and the editor's fresh id.
- Outside I/O:
  - persistence through `localStorage`;
  - JSON export and import (`handleExport`, `handleImport`);
  - file reading for GIFT import (`handleImportGift`);
  - the download links;
  - `alert`.
  These are I/O around the core. `window.confirm` is the boolean `confirmed`.
- `handleFileChange` and `handleRemoveImage`: the editor's image upload and removal are not modelled; the image is a field that is carried along.
- Rich text: the rich-text editor widget, `Modal` and all CSS are not modelled, apart from the container width, font and minimum height that tell the measuring copy from the printed one.
- OpticalForm's `Form ID` is a timestamp and is not modelled.
- The editor selector's option labels are left out: they show `String.fromCharCode(65 + index)` and the first 30 characters of the answer.
- `studentNumberLength` (`types.ts:21`) is not modelled because nothing in the core uses it.
- Common.ToLower: maps only ASCII letters. JavaScript's `toLowerCase` and `toUpperCase` are full Unicode mappings, so font matching and upper-cased headings agree with the code only on ASCII text.
- GiftImport.MatchQuestion: the regular expressions of `parseGiftFormat` are written as explicit leftmost, lazy scans following JavaScript's matching order. The regex engine is not modelled.
- GiftImport.ParseGift: the id built from `new Date()`, the block index and `Math.random()` is `freshId(blockIndex)`. Ids made at the same moment are not proved distinct.
- GiftRoundTrip.ExportImport: stated only for portable questions. Portable means a trimmed one-line text without `{`, answers free of reserved characters, `%` and line breaks, two filled answers and a correct index on a filled one. Others do not survive the round trip, as `GiftRoundTrip.ImportKeepsBackslash` shows.
- Generation.Generate: requires 1 to 4 booklets, the range the count selector offers (`App.tsx:619-625`).
- Generation.Generate: the re-entrancy of `handleGeneratePdf` while a run is in progress is not modelled.
- GiftImport.SplitBlocks: its own contract only bounds the number of blocks. Where the text is cut is stated by `GiftImport.SeparatorAtIff` for one position and by `GiftRoundTrip.SplitBlocksJoin` for the exported text. No general statement inverts the split.
- GiftImport.NormalizeNewlines: the contract states only that the text never grows and that one without CR is unchanged. Each CR LF becoming LF is left to the body.
- GiftImport.QuestionText: the contract states only that the result is trimmed. The `[html]` removal is proved for exported blocks (`GiftRoundTrip.ParseExportedBlock`).
- GiftImport.ParseAnswerLine: the contract states only that the answer text is trimmed. The full reading is proved for lines in the exported shape (`GiftImport.ParseAnswerLineInverse`).
- GiftImport.MatchQuestion: the contract states when the question pattern fails. What it captures is proved for exported blocks (`GiftRoundTrip.ParseExportedBlock`).
- Bank.DeleteQuestion: its own contract states which questions remain. Their order and repeats are stated by `Bank.DeleteKeepsOrder`.
- FontSelection.Filtered: its own contract states which fonts may be listed and how many. That they are the first matches, in order, is stated by `FontSelection.FilteredPositions`.
- TestSheet.PrintedAnswersFrom: its own contract states which answers are printed. Their raw order and that each is printed once are stated by `TestSheet.PrintedAnswerPositions`.
- GiftImport.ParseBlocks: its own contract states only that each result is well formed and that there are no more results than blocks. Which blocks come back, and in what order, is stated by `GiftImport.ParseBlocksPositions`, and for the whole text by `GiftImport.ParseGiftPositions`.
- GiftImport.ParseGift: its own contract states only that each question returned is well formed. Which blocks come back, and in what order, is stated by `GiftImport.ParseGiftPositions`.
