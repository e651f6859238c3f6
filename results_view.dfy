/** The derivations of the results table (src/components/ResultsTable.tsx):
    the page count, the rows of the current page, the number of distinct
    indexes among the results and the enablement of the page buttons. The
    column union is `Records.CollectKeys` and a cell is `Records.Cell`. */
module ResultsView {
  import opened Ordered
  import opened Records

  /** `Math.max(1, Math.ceil(n / pageSize))`. */
  function TotalPages(n: nat, pageSize: nat): (total: nat)
    requires pageSize >= 1
    ensures total >= 1
    ensures n == 0 ==> total == 1
    ensures n > 0 ==> (total - 1) * pageSize < n <= total * pageSize
  {
    if n == 0 then 1
    else
      var q := (n - 1) / pageSize;
      DivBounds(n - 1, pageSize);
      q + 1
  }

  /** `q = (m / d)` brackets `m` between `q * d` and `(q + 1) * d`. */
  lemma DivBounds(m: nat, d: nat)
    requires d >= 1
    ensures (m / d) * d <= m < (m / d + 1) * d
  {
    assert m == (m / d) * d + m % d;
  }

  /** Where JavaScript's `slice` puts one bound: negative bounds count from
      the end, and every bound is clamped to `[0, n]`. */
  function SliceBound(k: int, n: nat): (b: nat)
    ensures b <= n
    ensures 0 <= k ==> b == if k <= n then k else n
    ensures k < 0 ==> b == if n + k >= 0 then n + k else 0
  {
    if k < 0 then (if n + k >= 0 then n + k else 0)
    else if k <= n then k else n
  }

  /** `s.slice(start, end)`. */
  function Slice<T>(s: seq<T>, start: int, end: int): (r: seq<T>)
    ensures |r| <= |s|
  {
    var a, b := SliceBound(start, |s|), SliceBound(end, |s|);
    if a < b then s[a..b] else []
  }

  function Min(a: int, b: int): int {
    if a <= b then a else b
  }

  /** `results.slice((currentPage - 1) * pageSize, currentPage * pageSize)`. */
  function Page<T>(results: seq<T>, page: int, pageSize: nat): seq<T> {
    Slice(results, (page - 1) * pageSize, page * pageSize)
  }

  /** From the first page on, a page is the run of at most `pageSize`
      results starting at `(page - 1) * pageSize`, and it is empty past the
      last page. */
  lemma PageShape<T>(results: seq<T>, page: int, pageSize: nat)
    requires page >= 1 && pageSize >= 1
    ensures (page - 1) * pageSize <= page * pageSize
    ensures Page(results, page, pageSize) ==
      results[Min((page - 1) * pageSize, |results|)..Min(page * pageSize, |results|)]
    ensures |Page(results, page, pageSize)| <= pageSize
    ensures page > TotalPages(|results|, pageSize) ==> Page(results, page, pageSize) == []
  {
    PageBounds(page, pageSize);
    var lo, hi := (page - 1) * pageSize, page * pageSize;
    SliceNatural(results, lo, hi);
    if page > TotalPages(|results|, pageSize) {
      PastLastPage(|results|, page, pageSize);
    }
  }

  /** Page `page` starts `pageSize` before it ends, at a non-negative offset. */
  lemma PageBounds(page: int, pageSize: nat)
    requires page >= 1
    ensures 0 <= (page - 1) * pageSize
    ensures page * pageSize == (page - 1) * pageSize + pageSize
  {
    var p: nat := page - 1;
    assert p * pageSize >= 0;
    assert (p + 1) * pageSize == p * pageSize + pageSize;
  }

  /** With non-negative bounds in order, `slice` is clamping to the length. */
  lemma SliceNatural<T>(s: seq<T>, a: nat, b: nat)
    requires a <= b
    ensures Slice(s, a, b) == s[Min(a, |s|)..Min(b, |s|)]
    ensures |Slice(s, a, b)| <= b - a
  {
  }

  /** Past the last page the start offset is beyond the results. */
  lemma PastLastPage(n: nat, page: int, pageSize: nat)
    requires pageSize >= 1 && page > TotalPages(n, pageSize)
    ensures n <= (page - 1) * pageSize
  {
    var total := TotalPages(n, pageSize);
    MulMono(total, page - 1, pageSize);
  }

  lemma MulMono(a: nat, b: nat, c: nat)
    requires a <= b
    ensures a * c <= b * c
  {
  }

  /** Pages `1` to `k`, one after the other. */
  function Pages<T>(results: seq<T>, k: nat, pageSize: nat): seq<T> {
    if k == 0 then [] else Pages(results, k - 1, pageSize) + Page(results, k, pageSize)
  }

  lemma {:induction false} PagesPrefix<T>(results: seq<T>, k: nat, pageSize: nat)
    requires pageSize >= 1
    ensures Pages(results, k, pageSize) == results[..Min(k * pageSize, |results|)]
  {
    if k > 0 {
      PagesPrefix(results, k - 1, pageSize);
      PageShape(results, k, pageSize);
      assert (k - 1) * pageSize == k * pageSize - pageSize;
      var a, b := Min((k - 1) * pageSize, |results|), Min(k * pageSize, |results|);
      assert results[..a] + results[a..b] == results[..b];
    }
  }

  /** Paging partitions the results: pages `1` to `totalPages` put back
      together are the results, in order. */
  lemma PagesCover<T>(results: seq<T>, pageSize: nat)
    requires pageSize >= 1
    ensures Pages(results, TotalPages(|results|, pageSize), pageSize) == results
  {
    var total := TotalPages(|results|, pageSize);
    PagesPrefix(results, total, pageSize);
    MulMono(1, total, pageSize);
    assert |results| <= total * pageSize;
  }

  /** `new Set(results.map(r => r.index))` in insertion order. */
  function IndexNames(results: seq<SearchResult>): (names: seq<string>)
    ensures |names| == |results|
    ensures forall i :: 0 <= i < |results| ==> names[i] == results[i].index
  {
    seq(|results|, i requires 0 <= i < |results| => results[i].index)
  }

  /** `uniqueIndexes.size`. */
  function IndexCount(results: seq<SearchResult>): nat {
    |Dedup(IndexNames(results))|
  }

  /** The count is the number of distinct index names among the results. */
  lemma IndexCountIsDistinctNames(results: seq<SearchResult>)
    ensures IndexCount(results) == |set r | r in results :: r.index|
  {
    var names := IndexNames(results);
    DedupSize(names);
    forall x ensures x in names <==> x in set r | r in results :: r.index {
      if x in names {
        var i :| 0 <= i < |names| && names[i] == x;
        assert results[i] in results;
      }
      if x in set r | r in results :: r.index {
        var r :| r in results && r.index == x;
        var i :| 0 <= i < |results| && results[i] == r;
        assert names[i] == x;
      }
    }
    assert (set x | x in names) == (set r | r in results :: r.index);
  }

  /** `disabled={currentPage <= 1}` on the previous-page button. */
  predicate PrevDisabled(page: int) {
    page <= 1
  }

  /** `disabled={currentPage >= totalPages}` on the next-page button. */
  predicate NextDisabled(page: int, total: int) {
    page >= total
  }

  /** From a page in `[1, total]`, a button is enabled exactly when the page
      it moves to is in `[1, total]` too, so clicking keeps the page in range. */
  lemma NavigationInRange(page: int, total: int)
    requires 1 <= page <= total
    ensures !PrevDisabled(page) <==> 1 <= page - 1 <= total
    ensures !NextDisabled(page, total) <==> 1 <= page + 1 <= total
  {
  }
}
