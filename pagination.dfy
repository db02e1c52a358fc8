/** `paginated_questions`: a fixed page size and a Python slice of the
    ordered selection. */
module Pagination {

  const QuestionsPerPage: int := 10

  function Min(a: int, b: int): int {
    if a <= b then a else b
  }

  /** Python's normalisation of one bound of `s[start:stop]` against a
      sequence of length `n`: a negative bound counts from the end, and the
      result is clamped into `0..n`. */
  function SliceBound(i: int, n: nat): (b: nat)
    ensures b <= n
    ensures 0 <= i ==> b == Min(i, n)
  {
    if i < 0 then (if i + n < 0 then 0 else i + n)
    else if i > n then n
    else i
  }

  /** Python's `s[start:stop]`; with non-negative bounds in order it is the
      run from `start` to `stop`, both cut at the end of `s`. */
  function Slice<T>(s: seq<T>, start: int, stop: int): (r: seq<T>)
    ensures 0 <= start <= stop ==> r == s[Min(start, |s|)..Min(stop, |s|)]
  {
    var lo, hi := SliceBound(start, |s|), SliceBound(stop, |s|);
    if lo < hi then s[lo..hi] else []
  }

  /** The page `page` of `selection`: the slice from `(page - 1) * 10` to
      ten past it, with Python's slice rules for every integer page. */
  function Paginate<T>(selection: seq<T>, page: int): (r: seq<T>)
    ensures |r| <= QuestionsPerPage
  {
    var start := (page - 1) * QuestionsPerPage;
    Slice(selection, start, start + QuestionsPerPage)
  }

  /** For a page numbered from 1, the page is exactly the items from index
      `(page - 1) * 10` up to `page * 10`, cut at the end of the selection. */
  lemma PageSlice<T>(selection: seq<T>, page: int)
    requires page >= 1
    ensures (page - 1) * QuestionsPerPage >= 0
    ensures Paginate(selection, page) ==
      selection[Min((page - 1) * QuestionsPerPage, |selection|)..Min(page * QuestionsPerPage, |selection|)]
  {
  }

  /** Every page, whatever its number, is one contiguous run of the
      selection, so it keeps the selection's order. */
  lemma PageIsRun<T>(selection: seq<T>, page: int)
    ensures exists lo, hi :: 0 <= lo <= hi <= |selection| && Paginate(selection, page) == selection[lo..hi]
  {
    var start := (page - 1) * QuestionsPerPage;
    var lo, hi := SliceBound(start, |selection|), SliceBound(start + QuestionsPerPage, |selection|);
    if lo < hi {
      assert Paginate(selection, page) == selection[lo..hi];
    } else {
      assert Paginate(selection, page) == selection[0..0];
    }
  }

  /** A page numbered from 1 is empty exactly when it starts at or past the
      end of the selection. */
  lemma PageEmptyIff<T>(selection: seq<T>, page: int)
    requires page >= 1
    ensures Paginate(selection, page) == [] <==> (page - 1) * QuestionsPerPage >= |selection|
  {
  }

  /** Python's negative indices in action: over 24 items page 0 is empty and
      page -1 is the items 4 to 13. */
  lemma NegativePages<T>(selection: seq<T>)
    requires |selection| == 24
    ensures Paginate(selection, 0) == []
    ensures Paginate(selection, -1) == selection[4..14]
  {
  }

  /** Pages 1 to `k` laid end to end. */
  function Pages<T>(selection: seq<T>, k: nat): seq<T> {
    if k == 0 then [] else Pages(selection, k - 1) + Paginate(selection, k)
  }

  /** Pages 1 to `k` reproduce the selection up to index `k * 10`. */
  lemma {:induction false} PagesPrefix<T>(selection: seq<T>, k: nat)
    ensures Pages(selection, k) == selection[..Min(k * QuestionsPerPage, |selection|)]
  {
    if k > 0 {
      PagesPrefix(selection, k - 1);
      PageSlice(selection, k);
    }
  }

  /** Once `k` pages reach the end of the selection, pages 1 to `k`
      concatenated are the whole ordered selection. */
  lemma PagesCoverSelection<T>(selection: seq<T>, k: nat)
    requires k * QuestionsPerPage >= |selection|
    ensures Pages(selection, k) == selection
  {
    PagesPrefix(selection, k);
  }
}
