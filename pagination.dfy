/** Pagination of the filtered rows: the page count (Math.ceil of the row
    count over the page size) and the rows of one page (Array.prototype.slice). */
module Pagination {

  /** rowsPerPage of the table. */
  const RowsPerPage: nat := 20

  /** totalPages: the least number of 20-row pages that hold `count` rows,
      written in integers as (count + 19) / 20; it is 0 for no rows. */
  function TotalPages(count: nat): (t: nat)
    ensures t * RowsPerPage >= count
    ensures t > 0 ==> (t - 1) * RowsPerPage < count
    ensures t == 0 <==> count == 0
  {
    (count + RowsPerPage - 1) / RowsPerPage
  }

  /** The index normalisation of slice: a negative index counts back from the
      end, and the result is clamped to [0, len]. */
  function SliceIndex(i: int, len: nat): (r: nat)
    ensures r <= len
    ensures 0 <= i <= len ==> r == i
  {
    if i < 0 then (if len + i < 0 then 0 else len + i)
    else if i > len then len
    else i
  }

  /** slice(start, end): the elements between the normalised indices, or none
      when the normalised start is not before the normalised end. */
  function Slice<T>(s: seq<T>, start: int, end: int): (r: seq<T>)
    ensures 0 <= start <= end ==> r == s[Min(start, |s|)..Min(end, |s|)]
    ensures end <= start && (0 <= end || start < 0) ==> r == []
  {
    var from := SliceIndex(start, |s|);
    var to := SliceIndex(end, |s|);
    if from < to then s[from..to] else []
  }

  function Min(a: int, b: int): int {
    if a < b then a else b
  }

  /** currentRows: the rows of page `page` (pages are numbered from 1). */
  function PageRows<T>(s: seq<T>, page: int): (r: seq<T>)
    ensures page >= 1 ==> |r| <= RowsPerPage
    ensures page >= 1 ==> r == s[Min((page - 1) * RowsPerPage, |s|)..Min(page * RowsPerPage, |s|)]
    ensures (page - 1) * RowsPerPage >= |s| ==> r == []
    ensures page >= 1 ==> (r != [] <==> page <= TotalPages(|s|))
  {
    Slice(s, (page - 1) * RowsPerPage, page * RowsPerPage)
  }

  /** Pages 1 to `k`, one after the other. */
  function Pages<T>(s: seq<T>, k: nat): seq<T> {
    if k == 0 then [] else Pages(s, k - 1) + PageRows(s, k)
  }

  /** The first `k` pages are the first `k * 20` rows (or all of them). */
  lemma {:induction false} PagesPrefix<T>(s: seq<T>, k: nat)
    ensures Pages(s, k) == s[..Min(k * RowsPerPage, |s|)]
  {
    if k > 0 {
      PagesPrefix(s, k - 1);
      var a, b := Min((k - 1) * RowsPerPage, |s|), Min(k * RowsPerPage, |s|);
      assert s[..a] + s[a..b] == s[..b];
    }
  }

  /** Pages 1 to totalPages, concatenated, give back every row exactly once and in order. */
  lemma PagesCoverAll<T>(s: seq<T>)
    ensures Pages(s, TotalPages(|s|)) == s
  {
    PagesPrefix(s, TotalPages(|s|));
  }
}
