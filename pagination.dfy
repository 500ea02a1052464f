/** `paginate_questions`: one page of ten rows, cut with a Python slice. */
module Pagination {
  import opened TriviaModel

  const QuestionsPerPage: nat := 10

  /** Where Python puts a slice bound `i` on a list of length `n`: a negative bound counts
      from the end, and every bound is clamped into `0..n`. */
  function PyIndex(i: int, n: nat): (k: nat)
    ensures k <= n
  {
    if i < 0 then (if i + n < 0 then 0 else i + n)
    else if i > n then n
    else i
  }

  /** Normalising two bounds never widens the gap between them. */
  lemma PyIndexSpan(i: int, j: int, n: nat)
    ensures i <= j ==> PyIndex(j, n) - PyIndex(i, n) <= j - i
  {
  }

  /** Python's `s[start:end]`: the run of `s` from the normalised start; for
      `start <= end` never longer than the requested span `end - start`. */
  function PySlice(s: seq<Question>, start: int, end: int): (r: seq<Question>)
    ensures PyIndex(start, |s|) + |r| <= |s|
    ensures |r| == Max(PyIndex(end, |s|) - PyIndex(start, |s|), 0)
    ensures start <= end ==> |r| <= end - start
    ensures forall i :: 0 <= i < |r| ==> r[i] == s[PyIndex(start, |s|) + i]
  {
    var a, b := PyIndex(start, |s|), PyIndex(end, |s|);
    PyIndexSpan(start, end, |s|);
    if a < b then s[a..b] else []
  }

  /** The first row of a page, as the source computes it. */
  function PageStart(page: int): int {
    (page - 1) * QuestionsPerPage
  }

  /** `paginate_questions(request, selection)` for the `page` query argument. */
  function Paginate(selection: seq<Question>, page: int): (r: seq<Question>)
    ensures |r| <= QuestionsPerPage
    ensures forall q :: q in r ==> q in selection
  {
    var start := PageStart(page);
    var end := start + QuestionsPerPage;
    PySlice(selection, start, end)
  }

  function Min(a: int, b: int): int { if a < b then a else b }

  function Max(a: int, b: int): int { if a < b then b else a }

  /** For a page numbered from 1, the page is the rows `(page-1)*10 .. page*10`, cut short at the end. */
  lemma PaginatePositive(s: seq<Question>, page: int)
    requires page >= 1
    ensures Min(PageStart(page), |s|) <= Min(PageStart(page) + QuestionsPerPage, |s|)
    ensures Paginate(s, page) == s[Min(PageStart(page), |s|)..Min(PageStart(page) + QuestionsPerPage, |s|)]
  {
  }

  /** Page 0 is always empty: its slice `[-10:0]` ends at 0. */
  lemma PaginateZero(s: seq<Question>)
    ensures Paginate(s, 0) == []
  {
  }

  /** A negative page counts pages back from the end of the list: page -1 is the ten rows
      before the last ten. */
  lemma PaginateNegative(s: seq<Question>, page: int)
    requires page < 0
    ensures Max(|s| + PageStart(page), 0) <= Max(|s| + PageStart(page) + QuestionsPerPage, 0) <= |s|
    ensures Paginate(s, page) == s[Max(|s| + PageStart(page), 0)..Max(|s| + PageStart(page) + QuestionsPerPage, 0)]
  {
  }

  /** Which pages hold rows at all. */
  predicate PageHasRows(n: nat, page: int) {
    (page >= 1 && PageStart(page) < n) || (page < 0 && -page * QuestionsPerPage < n)
  }

  lemma PaginateEmptyIff(s: seq<Question>, page: int)
    ensures Paginate(s, page) != [] <==> PageHasRows(|s|, page)
  {
    if page >= 1 {
      PaginatePositive(s, page);
    } else if page < 0 {
      PaginateNegative(s, page);
    }
  }

  /** Every page is a contiguous run of the selection, in its order, beginning at the
      slice's (normalised) start. */
  lemma PaginateIsWindow(s: seq<Question>, page: int)
    ensures PyIndex(PageStart(page), |s|) + |Paginate(s, page)| <= |s|
    ensures forall i :: 0 <= i < |Paginate(s, page)| ==>
              Paginate(s, page)[i] == s[PyIndex(PageStart(page), |s|) + i]
  {
  }

  /** Pages of a list sorted by id are sorted by id. */
  lemma PaginateSorted(s: seq<Question>, page: int)
    requires SortedById(s)
    ensures SortedById(Paginate(s, page))
  {
    PaginateIsWindow(s, page);
    var r := Paginate(s, page);
    var a := PyIndex(PageStart(page), |s|);
    forall i, j | 0 <= i < j < |r| ensures r[i].id < r[j].id {
      assert r[i] == s[a + i] && r[j] == s[a + j];
    }
  }
}
