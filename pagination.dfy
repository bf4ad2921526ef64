/** Page-number pagination of an ordered result list, with the index rules of a
    Python slice `items[start:end]`. */
module Pagination {

  /** QUESTIONS_PER_PAGE of the backend. */
  const QuestionsPerPage: nat := 10

  function Min(a: int, b: int): int { if a <= b then a else b }

  function Max(a: int, b: int): int { if a <= b then b else a }

  /** How Python turns a slice bound into an index of a list of length `n`: a
      negative bound counts from the end, and the index is clamped into [0, n]. */
  function SliceBound(i: int, n: nat): (k: nat)
    ensures k <= n
  {
    if i < 0 then Max(0, i + n) else Min(i, n)
  }

  /** Python's `s[start:end]`; an empty list when the bounds cross. */
  function PySlice<T>(s: seq<T>, start: int, end: int): seq<T>
  {
    var lo, hi := SliceBound(start, |s|), SliceBound(end, |s|);
    if lo < hi then s[lo..hi] else []
  }

  /** `paginate_questions`: page `page` of `items`, ten to a page, numbered from 1.
      A page past the end is empty rather than an error; page 0 is empty too, and a
      negative page is, as Python's negative slice bounds make it, a window counted
      back from the end of the list. */
  function Paginate<T>(items: seq<T>, page: int): (r: seq<T>)
    ensures |r| <= QuestionsPerPage
    ensures page >= 1 ==>
      r == items[Min((page - 1) * QuestionsPerPage, |items|)..Min(page * QuestionsPerPage, |items|)]
    ensures page >= 1 && (page - 1) * QuestionsPerPage >= |items| ==> r == []
    ensures page == 0 ==> r == []
    ensures page < 0 ==>
      r == items[Max(0, |items| + (page - 1) * QuestionsPerPage)..Max(0, |items| + page * QuestionsPerPage)]
  {
    var start := (page - 1) * QuestionsPerPage;
    PySlice(items, start, start + QuestionsPerPage)
  }

  /** Pages 1 to `n`, one after the other. */
  function Pages<T>(items: seq<T>, n: nat): seq<T>
  {
    if n == 0 then [] else Pages(items, n - 1) + Paginate(items, n)
  }

  /** Reading the pages in order from page 1 reproduces the list: the first `n`
      pages are exactly its first `10 * n` items (all of it once the pages run out),
      so no item is skipped or shown twice. */
  lemma {:induction false} PagesCover<T>(items: seq<T>, n: nat)
    ensures Pages(items, n) == items[..Min(n * QuestionsPerPage, |items|)]
  {
    if n > 0 {
      PagesCover(items, n - 1);
      var a := Min((n - 1) * QuestionsPerPage, |items|);
      var b := Min(n * QuestionsPerPage, |items|);
      assert items[..a] + items[a..b] == items[..b];
    }
  }

  /** Item `i` of the list is item `i % 10` of page `i / 10 + 1`. */
  lemma ItemOnItsPage<T>(items: seq<T>, i: nat)
    requires i < |items|
    ensures i % QuestionsPerPage < |Paginate(items, i / QuestionsPerPage + 1)|
    ensures Paginate(items, i / QuestionsPerPage + 1)[i % QuestionsPerPage] == items[i]
  {
  }
}
