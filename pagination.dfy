/** The pagination of the filtered list: fixed pages of three records, the
    page count, the window shown for the current page and the enabled state
    of the Previous and Next buttons. */
module Pagination {

  const EmployeesPerPage: nat := 3

  function Min(a: int, b: int): int
  {
    if a <= b then a else b
  }

  /** `Math.ceil(n / employeesPerPage)`: the fewest pages of three that hold
      `n` records; no page at all for an empty list. */
  function TotalPages(n: nat): (t: nat)
    ensures t * EmployeesPerPage >= n
    ensures t == 0 || (t - 1) * EmployeesPerPage < n
  {
    (n + EmployeesPerPage - 1) / EmployeesPerPage
  }

  lemma TotalPagesZero(n: nat)
    ensures TotalPages(n) == 0 <==> n == 0
  {
  }

  /** How `slice` reads one of its arguments: a negative index counts back
      from the end, and the result is clamped to `0 .. len`. */
  function RelativeIndex(k: int, len: nat): (r: nat)
    ensures r <= len
    ensures 0 <= k <= len ==> r == k
    ensures k > len ==> r == len
    ensures k < 0 ==> r == if len + k < 0 then 0 else len + k
  {
    if k < 0 then (if len + k < 0 then 0 else len + k)
    else if k > len then len
    else k
  }

  /** `s.slice(start, end)`: the run of `s` from the first index up to,
      not including, the second, or nothing when the second does not come
      after the first. */
  function Slice<T>(s: seq<T>, start: int, end: int): (r: seq<T>)
    ensures |r| <= |s|
    ensures RelativeIndex(start, |s|) < RelativeIndex(end, |s|) ==>
              |r| == RelativeIndex(end, |s|) - RelativeIndex(start, |s|)
    ensures RelativeIndex(start, |s|) >= RelativeIndex(end, |s|) ==> r == []
    ensures forall k :: 0 <= k < |r| ==> r[k] == s[RelativeIndex(start, |s|) + k]
    ensures forall x :: x in r ==> x in s
  {
    var from, to := RelativeIndex(start, |s|), RelativeIndex(end, |s|);
    if from < to then s[from..to] else []
  }

  /** The rows of page `currentPage`:
      `filtered.slice(currentPage * 3 - 3, currentPage * 3)`. */
  function PageRows<T>(filtered: seq<T>, currentPage: int): (r: seq<T>)
    ensures |r| <= EmployeesPerPage
    ensures forall x :: x in r ==> x in filtered
  {
    var indexOfLast := currentPage * EmployeesPerPage;
    var indexOfFirst := indexOfLast - EmployeesPerPage;
    Slice(filtered, indexOfFirst, indexOfLast)
  }

  /** For a page number of one or more, the page is the window of three
      records that starts at the page's first record, cut off at the end of
      the list; it is empty exactly past the last page. */
  lemma PageWindow<T>(filtered: seq<T>, p: int)
    requires p >= 1
    ensures PageRows(filtered, p)
         == filtered[Min((p - 1) * EmployeesPerPage, |filtered|)..Min(p * EmployeesPerPage, |filtered|)]
    ensures |PageRows(filtered, p)| <= EmployeesPerPage
    ensures PageRows(filtered, p) == [] <==> p > TotalPages(|filtered|)
  {
  }

  /** Page 0 is empty (`slice(-3, 0)`). */
  lemma PageZeroEmpty<T>(filtered: seq<T>)
    ensures PageRows(filtered, 0) == []
  {
  }

  /** Pages 1 to `k`, one after the other. */
  function PagesUpTo<T>(filtered: seq<T>, k: nat): seq<T>
  {
    if k == 0 then [] else PagesUpTo(filtered, k - 1) + PageRows(filtered, k)
  }

  lemma {:induction false} PagesUpToPrefix<T>(filtered: seq<T>, k: nat)
    ensures PagesUpTo(filtered, k) == filtered[..Min(k * EmployeesPerPage, |filtered|)]
  {
    if k > 0 {
      PagesUpToPrefix(filtered, k - 1);
      PageWindow(filtered, k);
      var a := Min((k - 1) * EmployeesPerPage, |filtered|);
      var b := Min(k * EmployeesPerPage, |filtered|);
      assert filtered[..b] == filtered[..a] + filtered[a..b];
    }
  }

  /** Concatenating pages 1 to `totalPages` gives back the filtered list. */
  lemma PagesCoverList<T>(filtered: seq<T>)
    ensures PagesUpTo(filtered, TotalPages(|filtered|)) == filtered
  {
    PagesUpToPrefix(filtered, TotalPages(|filtered|));
  }

  /** The record at position `k` is shown on page `k / 3 + 1`, which is one
      of the pages 1 to `totalPages`. */
  lemma RecordOnItsPage<T>(filtered: seq<T>, k: nat)
    requires k < |filtered|
    ensures 1 <= k / EmployeesPerPage + 1 <= TotalPages(|filtered|)
    ensures filtered[k] in PageRows(filtered, k / EmployeesPerPage + 1)
  {
    var p := k / EmployeesPerPage + 1;
    PageWindow(filtered, p);
    var from := Min((p - 1) * EmployeesPerPage, |filtered|);
    var to := Min(p * EmployeesPerPage, |filtered|);
    assert filtered[from..to][k - from] == filtered[k];
  }

  /** `disabled={currentPage === 1}`. */
  predicate PreviousDisabled(currentPage: int)
  {
    currentPage == 1
  }

  /** `disabled={currentPage === totalPages}`. */
  predicate NextDisabled(currentPage: int, totalPages: nat)
  {
    currentPage == totalPages
  }

  /** Past the last page (in particular on any page of an empty list, which
      has no pages) the window is empty and Next stays enabled. */
  lemma PastLastPage<T>(filtered: seq<T>, p: int)
    requires p > TotalPages(|filtered|)
    ensures PageRows(filtered, p) == []
    ensures !NextDisabled(p, TotalPages(|filtered|))
  {
    PageWindow(filtered, p);
  }

  /** Seven records: three pages, the first holds records 1 to 3 and the
      third holds record 7 alone. */
  lemma SevenRecords<T>(filtered: seq<T>)
    requires |filtered| == 7
    ensures TotalPages(|filtered|) == 3
    ensures PageRows(filtered, 1) == filtered[0..3]
    ensures PageRows(filtered, 3) == [filtered[6]]
  {
  }
}
