/** `paginate` (App.tsx): greedy packing of a booklet's questions into pages.
    The off-screen render-and-measure round trip is the function `measure`,
    which gives the content height of a candidate page; it is fixed for the
    booklet being paginated. */
module Pagination {
  import opened Common
  import opened Model

  /** `A4_CONTENT_HEIGHT_PX`. */
  const ContentHeightLimit: int := 900

  type Page = seq<Question>

  /** A page as the loop builds it: whenever a question joined a page that
      already held one, the page with it measured within the limit. */
  ghost predicate PageFits(measure: seq<Question> -> int, page: Page)
  {
    forall k :: 2 <= k <= |page| ==> measure(page[..k]) <= ContentHeightLimit
  }

  /** `page` was closed because adding `next` made it too tall. */
  ghost predicate Overflows(measure: seq<Question> -> int, page: Page, next: Question)
  {
    measure(page + [next]) > ContentHeightLimit
  }

  /** The pagination the loop promises, stated without the loop: the pages
      concatenate to the input, none is empty, every page fits (or holds a
      single question), and every page but the last was closed only because
      the next question overflowed it. */
  ghost predicate IsGreedyPagination(measure: seq<Question> -> int, qs: seq<Question>, pages: seq<Page>)
  {
    && Flatten(pages) == qs
    && (forall i :: 0 <= i < |pages| ==> |pages[i]| > 0 && PageFits(measure, pages[i]))
    && (forall i :: 0 <= i < |pages| - 1 ==> Overflows(measure, pages[i], pages[i + 1][0]))
  }

  /** One turn of `processQuestion` per remaining question, then the final flush. */
  function PaginateFrom(measure: seq<Question> -> int, pages: seq<Page>, current: Page, remaining: seq<Question>): seq<Page>
    decreases |remaining|
  {
    if |remaining| == 0 then
      if |current| > 0 then pages + [current] else pages
    else
      var next := remaining[0];
      var candidate := current + [next];
      if measure(candidate) > ContentHeightLimit && |current| > 0 then
        PaginateFrom(measure, pages + [current], [next], remaining[1..])
      else
        PaginateFrom(measure, pages, candidate, remaining[1..])
  }

  function Paginate(measure: seq<Question> -> int, qs: seq<Question>): seq<Page>
  {
    PaginateFrom(measure, [], [], qs)
  }

  lemma FlattenSnoc(pages: seq<Page>, page: Page)
    ensures Flatten(pages + [page]) == Flatten(pages) + page
  {
    FlattenAppend(pages, [page]);
    assert Flatten([page]) == page + Flatten([page][1..]);
    assert page + [] == page;
  }

  lemma {:induction false} PaginateFromIsGreedy(measure: seq<Question> -> int, qs: seq<Question>,
                                              pages: seq<Page>, current: Page, remaining: seq<Question>)
    requires Flatten(pages) + current + remaining == qs
    requires forall i :: 0 <= i < |pages| ==> |pages[i]| > 0 && PageFits(measure, pages[i])
    requires forall i :: 0 <= i < |pages| - 1 ==> Overflows(measure, pages[i], pages[i + 1][0])
    requires PageFits(measure, current)
    requires |pages| > 0 ==> |current| > 0 && Overflows(measure, pages[|pages| - 1], current[0])
    ensures IsGreedyPagination(measure, qs, PaginateFrom(measure, pages, current, remaining))
    decreases |remaining|
  {
    if |remaining| == 0 {
      if |current| > 0 {
        FlattenSnoc(pages, current);
      }
    } else {
      var next := remaining[0];
      var candidate := current + [next];
      if measure(candidate) > ContentHeightLimit && |current| > 0 {
        FlattenSnoc(pages, current);
        assert Flatten(pages + [current]) + [next] + remaining[1..] == qs;
        PaginateFromIsGreedy(measure, qs, pages + [current], [next], remaining[1..]);
      } else {
        assert PageFits(measure, candidate) by {
          forall k | 2 <= k <= |candidate|
            ensures measure(candidate[..k]) <= ContentHeightLimit
          {
            if k < |candidate| {
              assert candidate[..k] == current[..k];
            } else {
              assert candidate[..k] == candidate;
            }
          }
        }
        assert Flatten(pages) + candidate + remaining[1..] == qs;
        PaginateFromIsGreedy(measure, qs, pages, candidate, remaining[1..]);
      }
    }
  }

  /** `paginate` meets the greedy-pagination characterisation. */
  lemma PaginateIsGreedy(measure: seq<Question> -> int, qs: seq<Question>)
    ensures IsGreedyPagination(measure, qs, Paginate(measure, qs))
  {
    assert Flatten<Question>([]) + [] + qs == qs;
    PaginateFromIsGreedy(measure, qs, [], [], qs);
  }

  /** The pages, concatenated, are the input in order; no page is empty; the
      empty list gives no page and any other list at least one; a page with
      more than one question measures within the limit, and an over-tall
      question is kept alone on its own page rather than dropped. */
  lemma PaginateProperties(measure: seq<Question> -> int, qs: seq<Question>)
    ensures var pages := Paginate(measure, qs);
      && Flatten(pages) == qs
      && (|qs| == 0 <==> |pages| == 0)
      && forall i :: 0 <= i < |pages| ==>
           |pages[i]| > 0 && (|pages[i]| == 1 || measure(pages[i]) <= ContentHeightLimit)
  {
    var pages := Paginate(measure, qs);
    PaginateIsGreedy(measure, qs);
    forall i | 0 <= i < |pages|
      ensures |pages[i]| == 1 || measure(pages[i]) <= ContentHeightLimit
    {
      assert pages[i][..|pages[i]|] == pages[i];
    }
    if |pages| > 0 {
      assert Flatten(pages) == pages[0] + Flatten(pages[1..]);
    }
  }

  /** If a page longer than `p` starts with `p + [next]`, that extension fitted. */
  lemma LongerPageFitsExtension(measure: seq<Question> -> int, p: Page, p': Page, next: Question)
    requires PageFits(measure, p') && |p| > 0 && |p'| > |p|
    requires p'[..|p| + 1] == p + [next]
    ensures !Overflows(measure, p, next)
  {
    assert measure(p'[..|p| + 1]) <= ContentHeightLimit;
  }

  /** A greedy pagination has pages exactly when there are questions. */
  lemma GreedyPagesIffQuestions(measure: seq<Question> -> int, qs: seq<Question>, pages: seq<Page>)
    requires IsGreedyPagination(measure, qs, pages)
    ensures |pages| > 0 <==> |qs| > 0
  {
    if |pages| > 0 {
      assert Flatten(pages) == pages[0] + Flatten(pages[1..]);
    }
  }

  /** The characterisation has exactly one solution: any greedy pagination of
      the input is the one `paginate` computes. */
  lemma {:induction false} GreedyPaginationUnique(measure: seq<Question> -> int, qs: seq<Question>,
                                                  pages1: seq<Page>, pages2: seq<Page>)
    requires IsGreedyPagination(measure, qs, pages1) && IsGreedyPagination(measure, qs, pages2)
    ensures pages1 == pages2
    decreases |qs|
  {
    GreedyPagesIffQuestions(measure, qs, pages1);
    GreedyPagesIffQuestions(measure, qs, pages2);
    if |qs| > 0 {
      var p1, p2 := pages1[0], pages2[0];
      FirstPagesAgree(measure, qs, pages1, pages2);
      FirstPagesAgree(measure, qs, pages2, pages1);
      assert Flatten(pages1) == p1 + Flatten(pages1[1..]);
      assert Flatten(pages2) == p2 + Flatten(pages2[1..]);
      assert p1 == qs[..|p1|] && p2 == qs[..|p2|];
      var rest := qs[|p1|..];
      assert Flatten(pages1[1..]) == rest && Flatten(pages2[1..]) == rest;
      GreedyPaginationUnique(measure, rest, pages1[1..], pages2[1..]);
      assert pages1 == [p1] + pages1[1..];
      assert pages2 == [p2] + pages2[1..];
    }
  }

  /** The first page of one greedy pagination is not shorter than that of another. */
  lemma FirstPagesAgree(measure: seq<Question> -> int, qs: seq<Question>, pages1: seq<Page>, pages2: seq<Page>)
    requires IsGreedyPagination(measure, qs, pages1) && IsGreedyPagination(measure, qs, pages2)
    requires |pages1| > 0 && |pages2| > 0
    ensures |pages2[0]| <= |pages1[0]|
  {
    var p1, p2 := pages1[0], pages2[0];
    assert Flatten(pages1) == p1 + Flatten(pages1[1..]);
    assert Flatten(pages2) == p2 + Flatten(pages2[1..]);
    assert p1 == qs[..|p1|] && p2 == qs[..|p2|];
    if |pages1| > 1 {
      var next := pages1[1][0];
      assert Flatten(pages1[1..]) == pages1[1] + Flatten(pages1[2..]);
      assert qs[|p1|] == next;
      if |p2| > |p1| {
        assert p2[..|p1| + 1] == qs[..|p1| + 1] == p1 + [next];
        LongerPageFitsExtension(measure, p1, p2, next);
      }
    } else {
      assert Flatten(pages1[1..]) == [];
    }
  }

  /** Hence `paginate` is the only greedy pagination of its input. */
  lemma GreedyPaginationIsPaginate(measure: seq<Question> -> int, qs: seq<Question>, pages: seq<Page>)
    ensures IsGreedyPagination(measure, qs, pages) <==> pages == Paginate(measure, qs)
  {
    PaginateIsGreedy(measure, qs);
    if IsGreedyPagination(measure, qs, pages) {
      GreedyPaginationUnique(measure, qs, pages, Paginate(measure, qs));
    }
  }
}
