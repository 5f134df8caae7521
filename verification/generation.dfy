/** The booklet-generation run of App.tsx as a sequential state machine:
    `handleGeneratePdf` builds the booklets and the page queue, then each
    `Step` is one firing of a render effect — a test page, the answer-key page
    or an optical form — whose capture either succeeds or throws. Timers,
    re-renders and the imaging itself are not modelled; a sheet of the
    document is identified by what was rendered on it. */
module Generation {
  import opened Common
  import opened Model
  import opened Shuffling
  import opened Variants
  import opened Pagination

  /** One queued test page: the booklet it belongs to and its questions. */
  datatype PageJob = PageJob(bookletType: string, questions: seq<Question>)

  /** A sheet of the PDF under construction. */
  datatype Sheet =
    | TestPage(job: PageJob)
    | AnswerKeySheet(booklets: seq<Booklet>)
    | OpticalFormSheet(bookletType: string)

  datatype SavedFile = SavedFile(fileName: string, sheets: seq<Sheet>)

  /** The run state `resetPdfGenerationState` clears; `doc` is the document
      under construction (the empty document stands for the null reference). */
  datatype Run = Run(
    generating: bool,
    currentPage: Option<PageJob>,
    currentOpticalForm: Option<string>,
    answerKeyData: Option<seq<Booklet>>,
    doc: seq<Sheet>,
    pageQueue: seq<PageJob>,
    opticalQueue: seq<string>)

  /** The run state together with the files handed to the browser so far. */
  datatype Session = Session(run: Run, saved: seq<SavedFile>)

  /** `resetPdfGenerationState`. */
  const Idle: Run := Run(false, None, None, None, [], [], [])

  /** The draws of one booklet variant. */
  datatype VariantDraw = VariantDraw(questionDraws: seq<nat>, answerDraws: seq<seq<nat>>)

  /** `String.fromCharCode(65 + i)`. */
  function BookletLabel(i: nat): (letter: string)
    requires i < 26
    ensures |letter| == 1 && 'A' <= letter[0] <= 'Z'
  {
    [(65 + i) as char]
  }

  function Labels(nb: nat): (labels: seq<string>)
    requires nb <= 26
    ensures |labels| == nb
    ensures forall i :: 0 <= i < nb ==> labels[i] == BookletLabel(i)
  {
    seq(nb, i requires 0 <= i < nb => BookletLabel(i))
  }

  /** The letters are pairwise distinct. */
  lemma LabelsDistinct(nb: nat)
    requires nb <= 26
    ensures forall i, j :: 0 <= i < j < nb ==> Labels(nb)[i] != Labels(nb)[j]
  {
    forall i, j | 0 <= i < j < nb
      ensures Labels(nb)[i] != Labels(nb)[j]
    {
      assert Labels(nb)[i][0] != Labels(nb)[j][0];
    }
  }

  predicate BookletDraws(qs: seq<Question>, nb: nat, draws: seq<VariantDraw>)
  {
    |draws| >= nb &&
    forall i :: 0 <= i < nb ==> VariantDraws(qs, draws[i].questionDraws, draws[i].answerDraws)
  }

  /** Booklet `i` is labelled with the `i`-th capital letter and holds its own
      variant of the bank (the bank is deep-copied first, which a value model
      does implicitly). */
  function Booklets(qs: seq<Question>, nb: nat, draws: seq<VariantDraw>): (bs: seq<Booklet>)
    requires nb <= 26 && BookletDraws(qs, nb, draws)
    ensures |bs| == nb
    ensures forall i :: 0 <= i < nb ==>
      bs[i].bookletType == BookletLabel(i) && |bs[i].questions| == |qs|
  {
    seq(nb, i requires 0 <= i < nb =>
      Booklet(BookletLabel(i), ShuffleQuestionsAndAnswers(qs, draws[i].questionDraws, draws[i].answerDraws)))
  }

  function BookletTypes(bs: seq<Booklet>): (types: seq<string>)
    ensures |types| == |bs|
    ensures forall i :: 0 <= i < |bs| ==> types[i] == bs[i].bookletType
  {
    seq(|bs|, i requires 0 <= i < |bs| => bs[i].bookletType)
  }

  /** The page jobs of one booklet, paginated against that booklet's header. */
  function BookletPages(measure: (TestDetails, seq<Question>) -> int, details: TestDetails, b: Booklet): (r: seq<PageJob>)
    ensures forall k :: 0 <= k < |r| ==> r[k].bookletType == b.bookletType && |r[k].questions| > 0
    ensures Flatten(JobQuestions(r)) == b.questions
    ensures |r| == 0 <==> |b.questions| == 0
  {
    var bookletDetails := details.(booklet := b.bookletType);
    var pages := Paginate(q => measure(bookletDetails, q), b.questions);
    var r := seq(|pages|, k requires 0 <= k < |pages| => PageJob(b.bookletType, pages[k]));
    PaginateProperties(q => measure(bookletDetails, q), b.questions);
    assert JobQuestions(r) == pages;
    r
  }

  /** The page queue: every booklet's pages, booklet after booklet. */
  function PageJobs(measure: (TestDetails, seq<Question>) -> int, details: TestDetails, bs: seq<Booklet>): (r: seq<PageJob>)
    ensures forall k :: 0 <= k < |r| ==> |r[k].questions| > 0
    decreases |bs|
  {
    if |bs| == 0 then [] else BookletPages(measure, details, bs[0]) + PageJobs(measure, details, bs[1..])
  }

  function JobQuestions(jobs: seq<PageJob>): seq<seq<Question>>
  {
    seq(|jobs|, k requires 0 <= k < |jobs| => jobs[k].questions)
  }

  function BookletQuestions(bs: seq<Booklet>): seq<seq<Question>>
  {
    seq(|bs|, k requires 0 <= k < |bs| => bs[k].questions)
  }

  /** The page queue holds every question of every booklet once, in booklet
      order and in each booklet's order. */
  lemma {:induction false} PageJobsCoverBooklets(measure: (TestDetails, seq<Question>) -> int, details: TestDetails, bs: seq<Booklet>)
    ensures Flatten(JobQuestions(PageJobs(measure, details, bs))) == Flatten(BookletQuestions(bs))
    decreases |bs|
  {
    if |bs| > 0 {
      var b := bs[0];
      var mine := BookletPages(measure, details, b);
      var rest := PageJobs(measure, details, bs[1..]);
      PageJobsCoverBooklets(measure, details, bs[1..]);
      assert JobQuestions(mine + rest) == JobQuestions(mine) + JobQuestions(rest);
      FlattenAppend(JobQuestions(mine), JobQuestions(rest));
      assert BookletQuestions(bs) == [b.questions] + BookletQuestions(bs[1..]);
    }
  }

  /** Every job carries the label of a booklet it came from. */
  lemma {:induction false} PageJobsLabelled(measure: (TestDetails, seq<Question>) -> int, details: TestDetails, bs: seq<Booklet>)
    ensures forall k :: 0 <= k < |PageJobs(measure, details, bs)| ==>
      PageJobs(measure, details, bs)[k].bookletType in BookletTypes(bs)
    decreases |bs|
  {
    var jobs := PageJobs(measure, details, bs);
    if |bs| > 0 {
      var mine := BookletPages(measure, details, bs[0]);
      var rest := PageJobs(measure, details, bs[1..]);
      PageJobsLabelled(measure, details, bs[1..]);
      assert forall j :: 0 <= j < |rest| ==> rest[j].bookletType in BookletTypes(bs[1..]);
      assert jobs == mine + rest;
      assert BookletTypes(bs) == [bs[0].bookletType] + BookletTypes(bs[1..]);
      forall k | 0 <= k < |jobs|
        ensures jobs[k].bookletType in BookletTypes(bs)
      {
        if k < |mine| {
          assert mine[k].bookletType == bs[0].bookletType;
          assert jobs[k] == mine[k] && BookletTypes(bs)[0] == bs[0].bookletType;
        } else {
          var j := k - |mine|;
          assert 0 <= j < |rest| && jobs[k] == rest[j];
          assert rest[j].bookletType in BookletTypes(bs[1..]);
        }
      }
    }
  }

  /** A first booklet with questions gives at least one page. */
  lemma PageJobsNonEmpty(measure: (TestDetails, seq<Question>) -> int, details: TestDetails, bs: seq<Booklet>)
    requires |bs| > 0 && |bs[0].questions| > 0
    ensures |PageJobs(measure, details, bs)| > 0
  {
  }

  /** `handleGeneratePdf`: with an empty bank nothing happens (an alert);
      otherwise the booklets become the answer-key data, all their pages
      are queued and the first one is taken off the queue for rendering. */
  function Generate(s: Session, qs: seq<Question>, details: TestDetails, nb: nat,
                    measure: (TestDetails, seq<Question>) -> int, draws: seq<VariantDraw>): (r: Session)
    requires 1 <= nb <= 4 && BookletDraws(qs, nb, draws)
    ensures |qs| == 0 ==> r == s
    ensures |qs| > 0 ==>
      var bs := Booklets(qs, nb, draws);
      var jobs := PageJobs(measure, details, bs);
      && r.saved == s.saved
      && r.run.generating && r.run.doc == []
      && r.run.answerKeyData == Some(bs)
      && r.run.currentOpticalForm == s.run.currentOpticalForm
      && r.run.opticalQueue == s.run.opticalQueue
      && (if |jobs| == 0 then r.run.currentPage == None && r.run.pageQueue == []
          else r.run.currentPage == Some(jobs[0]) && r.run.pageQueue == jobs[1..])
  {
    if |qs| == 0 then s
    else
      var bs := Booklets(qs, nb, draws);
      var jobs := PageJobs(measure, details, bs);
      var run := s.run.(generating := true, doc := [], answerKeyData := Some(bs));
      if |jobs| == 0 then Session(run.(pageQueue := [], currentPage := None), s.saved)
      else Session(run.(currentPage := Some(jobs[0]), pageQueue := jobs[1..]), s.saved)
  }

  /** A string is falsy in JavaScript exactly when it is empty. */
  predicate Truthy(o: Option<string>)
  {
    o.Some? && o.value != ""
  }

  /** `course.replace(/\s/g, '_')`. */
  function Underscored(course: string): (r: string)
    ensures |r| == |course|
    ensures forall i :: 0 <= i < |course| ==> r[i] == (if IsSpace(course[i]) then '_' else course[i])
  {
    seq(|course|, i requires 0 <= i < |course| => if IsSpace(course[i]) then '_' else course[i])
  }

  /** The name of the PDF saved when the answer key is the last sheet. */
  function AnswerKeyFileName(course: string): string
  {
    "test_" + Underscored(course) + "_cevapli.pdf"
  }

  /** The name of the PDF saved after the last optical form. */
  function OpticalFileName(course: string): string
  {
    "test_" + Underscored(course) + "_cevapli_optik.pdf"
  }

  /** A generating run with something left to render: the step that follows
      either renders it or, if the capture throws, resets the run. */
  predicate Busy(run: Run)
  {
    run.generating && (Truthy(run.currentOpticalForm) || run.currentPage.Some? || run.answerKeyData.Some?)
  }

  /** `after` is `before` with one more file saved. */
  predicate SavedOneMore(before: seq<SavedFile>, after: seq<SavedFile>)
  {
    |after| == |before| + 1 && after[..|before|] == before
  }

  /** The optical-form effect after a successful capture: the form joins the
      document, then the next queued form is taken, or, when the queue is
      exhausted, the document is saved and the run reset. */
  function RenderOpticalForm(course: string, s: Session): (r: Session)
    requires Truthy(s.run.currentOpticalForm)
    ensures r.saved == s.saved || (SavedOneMore(s.saved, r.saved) && r.run == Idle)
  {
    var run := s.run;
    var doc := run.doc + [OpticalFormSheet(run.currentOpticalForm.value)];
    if |run.opticalQueue| > 0 && run.opticalQueue[0] != "" then
      Session(run.(doc := doc, currentOpticalForm := Some(run.opticalQueue[0]),
                   opticalQueue := run.opticalQueue[1..]), s.saved)
    else
      Session(Idle, s.saved + [SavedFile(OpticalFileName(course), doc)])
  }

  /** The page effect after a successful capture: the page joins the
      document and the next queued page, if any, becomes current. */
  function RenderPage(s: Session): (r: Session)
    requires s.run.currentPage.Some?
    ensures r.saved == s.saved
  {
    var run := s.run;
    var doc := run.doc + [TestPage(run.currentPage.value)];
    if |run.pageQueue| > 0 then
      Session(run.(doc := doc, currentPage := Some(run.pageQueue[0]), pageQueue := run.pageQueue[1..]), s.saved)
    else
      Session(run.(doc := doc, currentPage := None, pageQueue := []), s.saved)
  }

  /** The same effect with no page left: the answer key joins the document
      and the booklet letters become the optical-form queue, whose first
      letter is taken; with no letter the document is saved as it is. */
  function RenderAnswerKey(course: string, s: Session): (r: Session)
    requires s.run.answerKeyData.Some?
    ensures r.saved == s.saved || (SavedOneMore(s.saved, r.saved) && r.run == Idle)
  {
    var run := s.run;
    var doc := run.doc + [AnswerKeySheet(run.answerKeyData.value)];
    var queue := BookletTypes(run.answerKeyData.value);
    if |queue| > 0 && queue[0] != "" then
      Session(run.(doc := doc, currentOpticalForm := Some(queue[0]), opticalQueue := queue[1..]), s.saved)
    else
      Session(Idle, s.saved + [SavedFile(AnswerKeyFileName(course), doc)])
  }

  /** One firing of a render effect; `ok` is false when the capture throws,
      which resets the run. The optical-form effect is listed first. Steps
      run one after another, once pagination has finished; the program's
      timers can interleave the effects differently. A step saves at most one file, only when its capture succeeded,
      and the run is idle afterwards. */
  function Step(course: string, s: Session, ok: bool): (r: Session)
    ensures !Busy(s.run) ==> r == s
    ensures Busy(s.run) && !ok ==> r == Session(Idle, s.saved)
    ensures r.saved == s.saved || (SavedOneMore(s.saved, r.saved) && ok && r.run == Idle)
  {
    if !Busy(s.run) then s
    else if !ok then Session(Idle, s.saved)
    else if Truthy(s.run.currentOpticalForm) then RenderOpticalForm(course, s)
    else if s.run.currentPage.Some? then RenderPage(s)
    else RenderAnswerKey(course, s)
  }

  /** Successive steps, one per outcome in `oks`. A run that is no longer
      busy stays as it is, so a drive saves at most one file, and the run is
      idle after it. */
  function Drive(course: string, s: Session, oks: seq<bool>): (r: Session)
    ensures !Busy(s.run) ==> r == s
    ensures r.saved == s.saved || (SavedOneMore(s.saved, r.saved) && r.run == Idle)
    decreases |oks|
  {
    if |oks| == 0 then s else Drive(course, Step(course, s, oks[0]), oks[1..])
  }

  function AllOk(n: nat): (oks: seq<bool>)
    ensures |oks| == n && forall i :: 0 <= i < n ==> oks[i]
  {
    seq(n, _ => true)
  }

  lemma AllOkAppend(m: nat, n: nat)
    ensures AllOk(m + n) == AllOk(m) + AllOk(n)
  {
  }

  lemma {:induction false} DriveAppend(course: string, s: Session, a: seq<bool>, b: seq<bool>)
    ensures Drive(course, s, a + b) == Drive(course, Drive(course, s, a), b)
    decreases |a|
  {
    if |a| > 0 {
      assert (a + b)[0] == a[0] && (a + b)[1..] == a[1..] + b;
      DriveAppend(course, Step(course, s, a[0]), a[1..], b);
    } else {
      assert a + b == b;
    }
  }

  lemma DriveOneMore(course: string, s: Session, n: nat)
    ensures Drive(course, s, AllOk(n + 1)) == Drive(course, Step(course, s, true), AllOk(n))
  {
    assert AllOk(n + 1)[1..] == AllOk(n);
  }

  function Pages(jobs: seq<PageJob>): (sheets: seq<Sheet>)
    ensures |sheets| == |jobs|
    ensures forall k :: 0 <= k < |jobs| ==> sheets[k] == TestPage(jobs[k])
  {
    seq(|jobs|, k requires 0 <= k < |jobs| => TestPage(jobs[k]))
  }

  function Forms(types: seq<string>): (sheets: seq<Sheet>)
    ensures |sheets| == |types|
    ensures forall k :: 0 <= k < |types| ==> sheets[k] == OpticalFormSheet(types[k])
  {
    seq(|types|, k requires 0 <= k < |types| => OpticalFormSheet(types[k]))
  }

  /** A successful step on a current page with no optical form pending. */
  lemma PageStep(course: string, s: Session)
    requires s.run.generating && !Truthy(s.run.currentOpticalForm) && s.run.currentPage.Some?
    ensures var doc := s.run.doc + [TestPage(s.run.currentPage.value)];
      Step(course, s, true)
      == if |s.run.pageQueue| > 0
         then Session(s.run.(doc := doc, currentPage := Some(s.run.pageQueue[0]), pageQueue := s.run.pageQueue[1..]), s.saved)
         else Session(s.run.(doc := doc, currentPage := None, pageQueue := []), s.saved)
  {
  }

  lemma PagesCons(doc: seq<Sheet>, job: PageJob, queue: seq<PageJob>)
    ensures doc + Pages([job] + queue) == (doc + [TestPage(job)]) + Pages(queue)
  {
    assert Pages([job] + queue) == [TestPage(job)] + Pages(queue);
  }

  /** The page phase: with no optical form pending, the current page and the
      queue are rendered in order, one step each. */
  lemma {:induction false} PagePhase(course: string, s: Session, job: PageJob, queue: seq<PageJob>)
    requires s.run.generating && !Truthy(s.run.currentOpticalForm)
    requires s.run.currentPage == Some(job) && s.run.pageQueue == queue
    ensures Drive(course, s, AllOk(|queue| + 1))
         == Session(s.run.(doc := s.run.doc + Pages([job] + queue), currentPage := None, pageQueue := []), s.saved)
    decreases |queue|
  {
    DriveOneMore(course, s, |queue|);
    PageStep(course, s);
    PagesCons(s.run.doc, job, queue);
    if |queue| == 0 {
      assert AllOk(0) == [];
    } else {
      var s' := Step(course, s, true);
      PagePhase(course, s', queue[0], queue[1..]);
      assert [queue[0]] + queue[1..] == queue;
    }
  }

  /** Throughout the page phase the run stays busy and nothing is saved. */
  lemma {:induction false} PagePhaseBusy(course: string, s: Session, job: PageJob, queue: seq<PageJob>, k: nat)
    requires s.run.generating && !Truthy(s.run.currentOpticalForm)
    requires s.run.currentPage == Some(job) && s.run.pageQueue == queue
    requires k <= |queue|
    ensures Busy(Drive(course, s, AllOk(k)).run) && Drive(course, s, AllOk(k)).saved == s.saved
    decreases k
  {
    if k == 0 {
      assert AllOk(0) == [];
    } else {
      DriveOneMore(course, s, k - 1);
      PageStep(course, s);
      var s' := Step(course, s, true);
      PagePhaseBusy(course, s', queue[0], queue[1..], k - 1);
    }
  }

  /** A successful step on a current optical form. */
  lemma OpticalStep(course: string, s: Session)
    requires s.run.generating && Truthy(s.run.currentOpticalForm)
    ensures var doc := s.run.doc + [OpticalFormSheet(s.run.currentOpticalForm.value)];
      var queue := s.run.opticalQueue;
      Step(course, s, true)
      == if |queue| > 0 && queue[0] != ""
         then Session(s.run.(doc := doc, currentOpticalForm := Some(queue[0]), opticalQueue := queue[1..]), s.saved)
         else Session(Idle, s.saved + [SavedFile(OpticalFileName(course), doc)])
  {
  }

  lemma FormsCons(doc: seq<Sheet>, b: string, queue: seq<string>)
    ensures doc + Forms([b] + queue) == (doc + [OpticalFormSheet(b)]) + Forms(queue)
  {
    assert Forms([b] + queue) == [OpticalFormSheet(b)] + Forms(queue);
  }

  /** The optical-form phase: the current form and the queued ones are
      rendered in order, one step each, and the last one saves the document
      and resets the run. */
  lemma {:induction false} OpticalPhase(course: string, s: Session, b: string, queue: seq<string>)
    requires s.run.generating && b != "" && s.run.currentOpticalForm == Some(b)
    requires s.run.opticalQueue == queue && forall k :: 0 <= k < |queue| ==> queue[k] != ""
    ensures Drive(course, s, AllOk(|queue| + 1))
         == Session(Idle, s.saved + [SavedFile(OpticalFileName(course), s.run.doc + Forms([b] + queue))])
    decreases |queue|
  {
    DriveOneMore(course, s, |queue|);
    OpticalStep(course, s);
    FormsCons(s.run.doc, b, queue);
    if |queue| == 0 {
      assert AllOk(0) == [];
      assert (s.run.doc + [OpticalFormSheet(b)]) + Forms(queue) == s.run.doc + [OpticalFormSheet(b)];
    } else {
      var s' := Step(course, s, true);
      OpticalPhase(course, s', queue[0], queue[1..]);
      assert [queue[0]] + queue[1..] == queue;
    }
  }

  /** Throughout the optical-form phase the run stays busy and nothing is saved. */
  lemma {:induction false} OpticalPhaseBusy(course: string, s: Session, b: string, queue: seq<string>, k: nat)
    requires s.run.generating && b != "" && s.run.currentOpticalForm == Some(b)
    requires s.run.opticalQueue == queue && forall k :: 0 <= k < |queue| ==> queue[k] != ""
    requires k <= |queue|
    ensures Busy(Drive(course, s, AllOk(k)).run) && Drive(course, s, AllOk(k)).saved == s.saved
    decreases k
  {
    if k == 0 {
      assert AllOk(0) == [];
    } else {
      DriveOneMore(course, s, k - 1);
      OpticalStep(course, s);
      var s' := Step(course, s, true);
      OpticalPhaseBusy(course, s', queue[0], queue[1..], k - 1);
    }
  }

  /** A successful step when the pages are done: the answer key is added and
      the first booklet letter becomes the current optical form. */
  lemma AnswerKeyStep(course: string, s: Session, bs: seq<Booklet>)
    requires s.run.generating && !Truthy(s.run.currentOpticalForm) && s.run.currentPage == None
    requires s.run.answerKeyData == Some(bs)
    requires |bs| > 0 && bs[0].bookletType != ""
    ensures Step(course, s, true)
         == Session(s.run.(doc := s.run.doc + [AnswerKeySheet(bs)], currentOpticalForm := Some(bs[0].bookletType),
                           opticalQueue := BookletTypes(bs)[1..]), s.saved)
  {
  }

  /** The run state `handleGeneratePdf` leaves behind when it started from idle. */
  predicate Started(run: Run, jobs: seq<PageJob>, bs: seq<Booklet>)
  {
    |jobs| > 0 && run == Run(true, Some(jobs[0]), None, Some(bs), [], jobs[1..], [])
  }

  /** Booklet letters that are all non-empty, so none ends the form queue early. */
  predicate NonEmptyTypes(bs: seq<Booklet>)
  {
    forall i :: 0 <= i < |bs| ==> bs[i].bookletType != ""
  }

  /** From a started run, all captures succeeding: the pages, the answer
      key and the optical forms, then one save and an idle run. */
  lemma RunFromStart(course: string, g: Session, jobs: seq<PageJob>, bs: seq<Booklet>)
    requires Started(g.run, jobs, bs) && |bs| > 0 && NonEmptyTypes(bs)
    ensures Drive(course, g, AllOk(|jobs| + 1 + |bs|))
         == Session(Idle, g.saved + [SavedFile(OpticalFileName(course),
                                               Pages(jobs) + [AnswerKeySheet(bs)] + Forms(BookletTypes(bs)))])
  {
    var types := BookletTypes(bs);
    PagePhase(course, g, jobs[0], jobs[1..]);
    assert [jobs[0]] + jobs[1..] == jobs;
    var afterPages := Drive(course, g, AllOk(|jobs|));
    assert [] + Pages(jobs) == Pages(jobs);
    assert afterPages.run.doc == Pages(jobs) && afterPages.saved == g.saved;
    AnswerKeyStep(course, afterPages, bs);
    var afterKey := Step(course, afterPages, true);
    assert afterKey.run.doc == Pages(jobs) + [AnswerKeySheet(bs)] && afterKey.saved == g.saved;
    DriveAppend(course, g, AllOk(|jobs|), [true]);
    assert AllOk(|jobs| + 1) == AllOk(|jobs|) + [true];
    assert Drive(course, afterPages, [true]) == afterKey;
    OpticalPhase(course, afterKey, types[0], types[1..]);
    assert [types[0]] + types[1..] == types;
    AllOkAppend(|jobs| + 1, |bs|);
    DriveAppend(course, g, AllOk(|jobs| + 1), AllOk(|bs|));
  }

  /** From a started run, a capture that throws before the last step resets
      the run and nothing has been saved. */
  lemma RunFromStartFailure(course: string, g: Session, jobs: seq<PageJob>, bs: seq<Booklet>, k: nat)
    requires Started(g.run, jobs, bs) && |bs| > 0 && NonEmptyTypes(bs)
    requires k < |jobs| + 1 + |bs|
    ensures Drive(course, g, AllOk(k)).saved == g.saved
    ensures Drive(course, g, AllOk(k) + [false]) == Session(Idle, g.saved)
  {
    var x := Drive(course, g, AllOk(k));
    RunFromStartBusy(course, g, jobs, bs, k);
    DriveAppend(course, g, AllOk(k), [false]);
    assert Drive(course, x, [false]) == Step(course, x, false);
  }

  /** From a started run, before the last step the run is busy and nothing is saved. */
  lemma RunFromStartBusy(course: string, g: Session, jobs: seq<PageJob>, bs: seq<Booklet>, k: nat)
    requires Started(g.run, jobs, bs) && |bs| > 0 && NonEmptyTypes(bs)
    requires k < |jobs| + 1 + |bs|
    ensures Busy(Drive(course, g, AllOk(k)).run) && Drive(course, g, AllOk(k)).saved == g.saved
  {
    var types := BookletTypes(bs);
    if k < |jobs| {
      PagePhaseBusy(course, g, jobs[0], jobs[1..], k);
    } else {
      PagePhase(course, g, jobs[0], jobs[1..]);
      assert [jobs[0]] + jobs[1..] == jobs;
      var afterPages := Drive(course, g, AllOk(|jobs|));
      if k > |jobs| {
        AnswerKeyStep(course, afterPages, bs);
        var afterKey := Step(course, afterPages, true);
        DriveAppend(course, g, AllOk(|jobs|), [true]);
        assert AllOk(|jobs| + 1) == AllOk(|jobs|) + [true];
        assert Drive(course, afterPages, [true]) == afterKey;
        OpticalPhaseBusy(course, afterKey, types[0], types[1..], k - |jobs| - 1);
        AllOkAppend(|jobs| + 1, k - |jobs| - 1);
        DriveAppend(course, g, AllOk(|jobs| + 1), AllOk(k - |jobs| - 1));
      }
    }
  }

  /** From an idle run and a non-empty bank, `handleGeneratePdf` leaves a
      started run and saves nothing. */
  lemma GenerateStarts(s: Session, qs: seq<Question>, details: TestDetails, nb: nat,
                       measure: (TestDetails, seq<Question>) -> int, draws: seq<VariantDraw>)
    requires s.run == Idle && |qs| > 0
    requires 1 <= nb <= 4 && BookletDraws(qs, nb, draws)
    ensures var bs := Booklets(qs, nb, draws);
      && Started(Generate(s, qs, details, nb, measure, draws).run, PageJobs(measure, details, bs), bs)
      && Generate(s, qs, details, nb, measure, draws).saved == s.saved
  {
    var bs := Booklets(qs, nb, draws);
    PageJobsNonEmpty(measure, details, bs);
  }

  /** The booklets carry the letters A, B, ... in order, none of them empty. */
  lemma BookletLetters(qs: seq<Question>, nb: nat, draws: seq<VariantDraw>)
    requires 1 <= nb <= 4 && BookletDraws(qs, nb, draws)
    ensures NonEmptyTypes(Booklets(qs, nb, draws)) && BookletTypes(Booklets(qs, nb, draws)) == Labels(nb)
  {
    assert BookletTypes(Booklets(qs, nb, draws)) == Labels(nb);
  }

  /** Every capture succeeding, `n` steps take the run from `g` to an idle
      run having saved `file`; before the last of them nothing is saved, and
      a capture that throws at any of them resets the run without saving. */
  predicate RunsToSave(course: string, g: Session, n: nat, file: SavedFile)
  {
    && Drive(course, g, AllOk(n)) == Session(Idle, g.saved + [file])
    && forall k :: 0 <= k < n ==>
         && Drive(course, g, AllOk(k)).saved == g.saved
         && Drive(course, g, AllOk(k) + [false]) == Session(Idle, g.saved)
  }

  lemma StartedRunsToSave(course: string, g: Session, jobs: seq<PageJob>, bs: seq<Booklet>, n: nat, file: SavedFile)
    requires Started(g.run, jobs, bs) && |bs| > 0 && NonEmptyTypes(bs)
    requires n == |jobs| + 1 + |bs|
    requires file == SavedFile(OpticalFileName(course), Pages(jobs) + [AnswerKeySheet(bs)] + Forms(BookletTypes(bs)))
    ensures RunsToSave(course, g, n, file)
  {
    RunFromStart(course, g, jobs, bs);
    forall k | 0 <= k < |jobs| + 1 + |bs|
      ensures Drive(course, g, AllOk(k)).saved == g.saved
      ensures Drive(course, g, AllOk(k) + [false]) == Session(Idle, g.saved)
    {
      RunFromStartFailure(course, g, jobs, bs, k);
    }
  }

  /** The document a complete run should save: every booklet's pages in
      letter order, the answer key, one optical form per letter. */
  function ExpectedSheets(qs: seq<Question>, details: TestDetails, nb: nat,
                          measure: (TestDetails, seq<Question>) -> int, draws: seq<VariantDraw>): seq<Sheet>
    requires 1 <= nb <= 4 && BookletDraws(qs, nb, draws)
  {
    var bs := Booklets(qs, nb, draws);
    Pages(PageJobs(measure, details, bs)) + [AnswerKeySheet(bs)] + Forms(Labels(nb))
  }

  /** The number of render steps of a complete run: pages, answer key, forms. */
  function StepCount(qs: seq<Question>, details: TestDetails, nb: nat,
                     measure: (TestDetails, seq<Question>) -> int, draws: seq<VariantDraw>): nat
    requires 1 <= nb <= 4 && BookletDraws(qs, nb, draws)
  {
    |PageJobs(measure, details, Booklets(qs, nb, draws))| + 1 + nb
  }

  /** A generation started from an idle run, every capture succeeding, takes
      one step per page, one for the answer key and one per optical form. It
      saves exactly one file: all pages of booklet A, then of B, and so on,
      then the answer-key sheet, then one optical form per booklet in the
      same letter order. Before that nothing is saved, and a capture that
      throws at any of those steps resets the run without saving. */
  lemma GenerationRun(course: string, s: Session, qs: seq<Question>, details: TestDetails, nb: nat,
                      measure: (TestDetails, seq<Question>) -> int, draws: seq<VariantDraw>)
    requires s.run == Idle && |qs| > 0
    requires 1 <= nb <= 4 && BookletDraws(qs, nb, draws)
    ensures Generate(s, qs, details, nb, measure, draws).saved == s.saved
    ensures RunsToSave(course, Generate(s, qs, details, nb, measure, draws), StepCount(qs, details, nb, measure, draws),
                       SavedFile(OpticalFileName(course), ExpectedSheets(qs, details, nb, measure, draws)))
  {
    var g := Generate(s, qs, details, nb, measure, draws);
    var bs := Booklets(qs, nb, draws);
    var jobs := PageJobs(measure, details, bs);
    GenerateStarts(s, qs, details, nb, measure, draws);
    BookletLetters(qs, nb, draws);
    assert StepCount(qs, details, nb, measure, draws) == |jobs| + 1 + |bs|;
    assert ExpectedSheets(qs, details, nb, measure, draws) == Pages(jobs) + [AnswerKeySheet(bs)] + Forms(BookletTypes(bs));
    StartedRunsToSave(course, g, jobs, bs, StepCount(qs, details, nb, measure, draws),
                      SavedFile(OpticalFileName(course), ExpectedSheets(qs, details, nb, measure, draws)));
  }
}
