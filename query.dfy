/** The query evaluator (`getSearchResults`, src/lib/csv-store.ts:168-211).
    The query is trimmed; an empty query returns every row of every index.
    A query matching `/^index=(\S+)\s*(.*)?$/i` keeps the indexes whose
    lower-cased name is the lower-cased token and, when the trimmed and
    lower-cased remainder is non-empty, only their rows that match it.
    Any other query is a free-text term. A row matches a term when the lower
    case of one of its values, or of one of its index's column names,
    contains the term. Results keep the order of the indexes and of the rows. */
module Query {
  import opened Text
  import opened Ordered
  import opened Records

  // ------------------------------------------------------------- results

  /** `rows.map((row) => ({ index: name, row }))`. */
  function TagRows(name: string, rows: seq<Row>): (r: seq<SearchResult>)
    ensures |r| == |rows|
    ensures forall j :: 0 <= j < |rows| ==> r[j] == SearchResult(name, rows[j])
  {
    seq(|rows|, j requires 0 <= j < |rows| => SearchResult(name, rows[j]))
  }

  /** Every row of every index, tagged with its index name, indexes in order. */
  function AllRows(idxs: seq<CsvIndex>): seq<SearchResult> {
    if idxs == [] then []
    else TagRows(idxs[0].name, idxs[0].rows) + AllRows(idxs[1..])
  }

  /** Some element of `vs`, lower-cased, contains `term` (`vs.some((v) => v.toLowerCase().includes(term))`). */
  predicate AnyContains(vs: seq<string>, term: string) {
    exists i :: 0 <= i < |vs| && Contains(Lower(vs[i]), term)
  }

  /** The row filter of both filtered modes. */
  predicate RowMatches(columns: seq<string>, row: Row, term: string) {
    AnyContains(Values(row), term) || AnyContains(columns, term)
  }

  /** `rows.filter((row) => RowMatches(...))`. */
  function MatchingRows(columns: seq<string>, rows: seq<Row>, term: string): (r: seq<Row>)
    ensures forall row :: row in r <==> row in rows && RowMatches(columns, row, term)
  {
    if rows == [] then []
    else (if RowMatches(columns, rows[0], term) then [rows[0]] else []) + MatchingRows(columns, rows[1..], term)
  }

  /** The matching rows of every index, tagged, indexes in order. */
  function FilteredRows(idxs: seq<CsvIndex>, term: string): seq<SearchResult> {
    if idxs == [] then []
    else TagRows(idxs[0].name, MatchingRows(idxs[0].columns, idxs[0].rows, term)) + FilteredRows(idxs[1..], term)
  }

  /** `allIndexes.filter((idx) => idx.name.toLowerCase() === target)`. */
  function Named(idxs: seq<CsvIndex>, target: string): (r: seq<CsvIndex>)
    ensures forall idx :: idx in r <==> idx in idxs && Lower(idx.name) == target
  {
    if idxs == [] then []
    else (if Lower(idxs[0].name) == target then [idxs[0]] else []) + Named(idxs[1..], target)
  }

  // ---------------------------------------------------------------- regex

  predicate NoLineTerminator(s: string) {
    forall i :: 0 <= i < |s| ==> !IsLineTerminator(s[i])
  }

  /** Length of the longest run without whitespace in `s` from offset `k`
      on (`\S+` taken greedily there). */
  function NonWhitespaceRun(s: string, k: nat): (n: nat)
    requires k <= |s|
    ensures k + n <= |s|
    ensures forall i :: k <= i < k + n ==> !IsWhitespace(s[i])
    ensures k + n == |s| || IsWhitespace(s[k + n])
    decreases |s| - k
  {
    if k == |s| || IsWhitespace(s[k]) then 0
    else 1 + NonWhitespaceRun(s, k + 1)
  }

  const IndexPrefix := "index="

  /** `query.match(/^index=(\S+)\s*(.*)?$/i)`: the first capture and the second
      (`""` when it does not participate), or `None` when there is no match.
      The token ends at `a`, the whitespace after it at `b`. */
  function IndexFilter(q: string): Option<(string, string)> {
    if |q| >= 6 && Lower(q[..6]) == IndexPrefix then
      var a := 6 + NonWhitespaceRun(q, 6);
      var b := a + WhitespaceRun(q, a);
      if a > 6 && NoLineTerminator(q[b..]) then Some((q[6..a], q[b..])) else None
    else None
  }

  /** The captures are what the backtracking matcher picks: the longest token,
      the longest run of whitespace after it, and the rest of the query. */
  lemma IndexFilterSound(q: string)
    requires IndexFilter(q).Some?
    ensures var (tok, rest) := IndexFilter(q).value;
      exists ws :: q == q[..6] + tok + ws + rest && Lower(q[..6]) == IndexPrefix
        && tok != [] && NoWhitespace(tok) && AllWhitespace(ws) && NoLineTerminator(rest)
        && (rest == [] || !IsWhitespace(rest[0]))
  {
    var a := 6 + NonWhitespaceRun(q, 6);
    var b := a + WhitespaceRun(q, a);
    CutInFour(q, 6, a, b);
    SliceNoWhitespace(q, 6, a);
    SliceAllWhitespace(q, a, b);
    SliceHead(q, b);
  }

  lemma CutInFour<T>(s: seq<T>, a: nat, b: nat, c: nat)
    requires a <= b <= c <= |s|
    ensures s == s[..a] + s[a..b] + s[b..c] + s[c..]
  {
  }

  lemma SliceNoWhitespace(s: string, lo: nat, hi: nat)
    requires lo <= hi <= |s| && forall i :: lo <= i < hi ==> !IsWhitespace(s[i])
    ensures NoWhitespace(s[lo..hi])
  {
    assert forall i :: 0 <= i < hi - lo ==> s[lo..hi][i] == s[lo + i];
  }

  lemma SliceAllWhitespace(s: string, lo: nat, hi: nat)
    requires lo <= hi <= |s| && forall i :: lo <= i < hi ==> IsWhitespace(s[i])
    ensures AllWhitespace(s[lo..hi])
  {
    assert forall i :: 0 <= i < hi - lo ==> s[lo..hi][i] == s[lo + i];
  }

  lemma SliceHead(s: string, k: nat)
    requires k <= |s|
    ensures s[k..] == [] || s[k..][0] == s[k]
  {
  }

  /** Whenever some split fits the pattern, the pattern matches. */
  lemma IndexFilterComplete(q: string, p: string, t: string, w: string, d: string)
    requires q == p + t + w + d && Lower(p) == IndexPrefix
    requires t != [] && NoWhitespace(t) && AllWhitespace(w) && NoLineTerminator(d)
    ensures IndexFilter(q).Some?
  {
    var a := 6 + NonWhitespaceRun(q, 6);
    var b := a + WhitespaceRun(q, a);
    SplitPositions(q, p, t, w, d);
    GreedyCoversSplit(q, |t|, |w|);
    SuffixOfRest(q, p + t + w, d, b);
  }

  /** Where the pieces of a fitting split sit in the query. */
  lemma SplitPositions(q: string, p: string, t: string, w: string, d: string)
    requires q == p + t + w + d && |p| == 6 && NoWhitespace(t) && AllWhitespace(w)
    ensures q[..6] == p
    ensures forall i :: 6 <= i < 6 + |t| ==> !IsWhitespace(q[i])
    ensures forall i :: 6 + |t| <= i < 6 + |t| + |w| ==> IsWhitespace(q[i])
    ensures q == (p + t + w) + d
  {
    assert forall i :: 6 <= i < 6 + |t| ==> q[i] == t[i - 6];
    assert forall i :: 6 + |t| <= i < 6 + |t| + |w| ==> q[i] == w[i - 6 - |t|];
  }

  /** The greedy runs from offset 6 end no earlier than the pieces of any fitting split. */
  lemma GreedyCoversSplit(q: string, m: nat, v: nat)
    requires 6 + m + v <= |q|
    requires forall i :: 6 <= i < 6 + m ==> !IsWhitespace(q[i])
    requires forall i :: 6 + m <= i < 6 + m + v ==> IsWhitespace(q[i])
    ensures m <= NonWhitespaceRun(q, 6)
    ensures 6 + m + v <= 6 + NonWhitespaceRun(q, 6) + WhitespaceRun(q, 6 + NonWhitespaceRun(q, 6))
  {
    LongestRun(q, 6, m);
    if v > 0 {
      RunStopsAtWhitespace(q, 6, 6 + m);
      LongestWhitespace(q, 6 + m, v);
    }
  }

  /** No run without whitespace from `k` is longer than the greedy one. */
  lemma {:induction false} LongestRun(s: string, k: nat, m: nat)
    requires k + m <= |s| && forall i :: k <= i < k + m ==> !IsWhitespace(s[i])
    ensures m <= NonWhitespaceRun(s, k)
    decreases m
  {
    if m > 0 {
      LongestRun(s, k + 1, m - 1);
    }
  }

  /** The greedy run from `k` stops at the first whitespace. */
  lemma {:induction false} RunStopsAtWhitespace(s: string, k: nat, j: nat)
    requires k <= j < |s| && IsWhitespace(s[j])
    ensures k + NonWhitespaceRun(s, k) <= j
    decreases j - k
  {
    if j > k && !IsWhitespace(s[k]) {
      RunStopsAtWhitespace(s, k + 1, j);
    }
  }

  /** No run of whitespace from `k` is longer than the greedy one. */
  lemma {:induction false} LongestWhitespace(s: string, k: nat, m: nat)
    requires k + m <= |s| && forall i :: k <= i < k + m ==> IsWhitespace(s[i])
    ensures m <= WhitespaceRun(s, k)
    decreases m
  {
    if m > 0 {
      LongestWhitespace(s, k + 1, m - 1);
    }
  }

  /** Past the pieces before the rest, what is left is a suffix of the rest. */
  lemma SuffixOfRest(q: string, front: string, d: string, k: nat)
    requires q == front + d && NoLineTerminator(d) && |front| <= k <= |q|
    ensures NoLineTerminator(q[k..])
  {
    assert q[k..] == d[k - |front|..];
  }

  // --------------------------------------------------------------- search

  /** `getSearchResults` over the indexes in map order. */
  function Search(idxs: seq<CsvIndex>, searchQuery: string): seq<SearchResult> {
    var query := Trim(searchQuery);
    if query == "" then AllRows(idxs)
    else match IndexFilter(query)
      case Some((tok, rest)) =>
        var remainder := Lower(Trim(rest));
        var matched := Named(idxs, Lower(tok));
        if remainder == "" then AllRows(matched) else FilteredRows(matched, remainder)
      case None => FilteredRows(idxs, Lower(query))
  }

  /** Whether the query selects `row` of `idx`, stated row by row. */
  predicate Selects(searchQuery: string, idx: CsvIndex, row: Row) {
    var query := Trim(searchQuery);
    if query == "" then true
    else match IndexFilter(query)
      case Some((tok, rest)) =>
        Lower(idx.name) == Lower(tok) &&
        (Lower(Trim(rest)) == "" || RowMatches(idx.columns, row, Lower(Trim(rest))))
      case None => RowMatches(idx.columns, row, Lower(query))
  }

  /** `r` is a row of `idx`, tagged with its name. */
  predicate RowOf(idx: CsvIndex, r: SearchResult) {
    r.index == idx.name && r.row in idx.rows
  }

  lemma TagRowsMembers(name: string, rows: seq<Row>, r: SearchResult)
    ensures r in TagRows(name, rows) <==> r.index == name && r.row in rows
  {
    if r.index == name && r.row in rows {
      var j :| 0 <= j < |rows| && rows[j] == r.row;
      assert TagRows(name, rows)[j] == r;
    }
  }

  /** A result of the unfiltered listing is a row of some index, tagged with its name, and every such row is listed. */
  lemma {:induction false} AllRowsMembers(idxs: seq<CsvIndex>, r: SearchResult)
    ensures r in AllRows(idxs) <==> exists idx :: idx in idxs && RowOf(idx, r)
  {
    if idxs != [] {
      AllRowsMembers(idxs[1..], r);
      TagRowsMembers(idxs[0].name, idxs[0].rows, r);
      if r in AllRows(idxs) {
        if r in TagRows(idxs[0].name, idxs[0].rows) {
          assert idxs[0] in idxs;
        } else {
          var idx :| idx in idxs[1..] && RowOf(idx, r);
          assert idx in idxs;
        }
      }
      if exists idx :: idx in idxs && RowOf(idx, r) {
        var idx :| idx in idxs && RowOf(idx, r);
        assert idx == idxs[0] || idx in idxs[1..];
      }
    }
  }

  /** A filtered result is a matching row of some index, and every matching row is listed. */
  lemma {:induction false} FilteredRowsMembers(idxs: seq<CsvIndex>, term: string, r: SearchResult)
    ensures r in FilteredRows(idxs, term) <==>
      exists idx :: idx in idxs && RowOf(idx, r) && RowMatches(idx.columns, r.row, term)
  {
    if idxs != [] {
      FilteredRowsMembers(idxs[1..], term, r);
      var head := MatchingRows(idxs[0].columns, idxs[0].rows, term);
      TagRowsMembers(idxs[0].name, head, r);
      if r in FilteredRows(idxs, term) {
        if r in TagRows(idxs[0].name, head) {
          assert idxs[0] in idxs;
        } else {
          var idx :| idx in idxs[1..] && RowOf(idx, r) && RowMatches(idx.columns, r.row, term);
          assert idx in idxs;
        }
      }
      if exists idx :: idx in idxs && RowOf(idx, r) && RowMatches(idx.columns, r.row, term) {
        var idx :| idx in idxs && RowOf(idx, r) && RowMatches(idx.columns, r.row, term);
        assert idx == idxs[0] || idx in idxs[1..];
      }
    }
  }

  /** When a column name of the index contains the term, every row of the index matches. */
  lemma {:induction false} ColumnHitKeepsAll(columns: seq<string>, rows: seq<Row>, term: string)
    requires AnyContains(columns, term)
    ensures MatchingRows(columns, rows, term) == rows
  {
    if rows != [] {
      ColumnHitKeepsAll(columns, rows[1..], term);
    }
  }

  // ---------------------------------------------------------- multiplicity

  /** How many times the query returns row `r.row` tagged `r.index`: every
      copy of the row in every selected index counts, so repeated records are
      all returned. */
  function Selected(idxs: seq<CsvIndex>, searchQuery: string, r: SearchResult): nat
    decreases |idxs|
  {
    if idxs == [] then 0
    else
      var here := if idxs[0].name == r.index && Selects(searchQuery, idxs[0], r.row) then multiset(idxs[0].rows)[r.row] else 0;
      here + Selected(idxs[1..], searchQuery, r)
  }

  lemma TagRowsCons(name: string, rows: seq<Row>)
    requires rows != []
    ensures TagRows(name, rows) == [SearchResult(name, rows[0])] + TagRows(name, rows[1..])
  {
  }

  /** Tagging keeps every copy of every row. */
  lemma {:induction false} TagRowsCount(name: string, rows: seq<Row>, r: SearchResult)
    ensures multiset(TagRows(name, rows))[r] == if r.index == name then multiset(rows)[r.row] else 0
  {
    if rows != [] {
      TagRowsCount(name, rows[1..], r);
      TagRowsCons(name, rows);
      MultisetCons(SearchResult(name, rows[0]), TagRows(name, rows[1..]), r);
      MultisetCons(rows[0], rows[1..], r.row);
      assert rows == [rows[0]] + rows[1..];
    }
  }

  lemma MultisetCons<T>(x: T, t: seq<T>, y: T)
    ensures multiset([x] + t)[y] == (if x == y then 1 else 0) + multiset(t)[y]
  {
  }

  lemma MultisetAppend<T>(a: seq<T>, b: seq<T>, y: T)
    ensures multiset(a + b)[y] == multiset(a)[y] + multiset(b)[y]
  {
  }

  /** The filter keeps every copy of a matching row and no copy of another. */
  lemma {:induction false} MatchingRowsCount(columns: seq<string>, rows: seq<Row>, term: string, row: Row)
    ensures multiset(MatchingRows(columns, rows, term))[row] ==
      if RowMatches(columns, row, term) then multiset(rows)[row] else 0
  {
    if rows != [] {
      var tail := MatchingRows(columns, rows[1..], term);
      MatchingRowsCount(columns, rows[1..], term, row);
      MultisetCons(rows[0], rows[1..], row);
      assert [rows[0]] + rows[1..] == rows;
      if RowMatches(columns, rows[0], term) {
        assert MatchingRows(columns, rows, term) == [rows[0]] + tail;
        MultisetCons(rows[0], tail, row);
      } else {
        assert MatchingRows(columns, rows, term) == tail;
      }
    }
  }

  /** The tagged matching rows of one index, counted. */
  lemma TaggedMatchCount(idx: CsvIndex, term: string, r: SearchResult)
    ensures multiset(TagRows(idx.name, MatchingRows(idx.columns, idx.rows, term)))[r] ==
      if idx.name == r.index && RowMatches(idx.columns, r.row, term) then multiset(idx.rows)[r.row] else 0
  {
    TagRowsCount(idx.name, MatchingRows(idx.columns, idx.rows, term), r);
    MatchingRowsCount(idx.columns, idx.rows, term, r.row);
  }

  /** An empty query returns every copy of every row. */
  lemma {:induction false} AllRowsCount(idxs: seq<CsvIndex>, searchQuery: string, r: SearchResult)
    requires Trim(searchQuery) == ""
    ensures multiset(AllRows(idxs))[r] == Selected(idxs, searchQuery, r)
    decreases |idxs|
  {
    if idxs != [] {
      AllRowsCount(idxs[1..], searchQuery, r);
      TagRowsCount(idxs[0].name, idxs[0].rows, r);
      MultisetAppend(TagRows(idxs[0].name, idxs[0].rows), AllRows(idxs[1..]), r);
    }
  }

  /** A free-text query returns every copy of every matching row. */
  lemma {:induction false} FreeTextCount(idxs: seq<CsvIndex>, searchQuery: string, r: SearchResult)
    requires Trim(searchQuery) != "" && IndexFilter(Trim(searchQuery)).None?
    ensures multiset(FilteredRows(idxs, Lower(Trim(searchQuery))))[r] == Selected(idxs, searchQuery, r)
    decreases |idxs|
  {
    if idxs != [] {
      var term := Lower(Trim(searchQuery));
      FreeTextCount(idxs[1..], searchQuery, r);
      TaggedMatchCount(idxs[0], term, r);
      MultisetAppend(TagRows(idxs[0].name, MatchingRows(idxs[0].columns, idxs[0].rows, term)), FilteredRows(idxs[1..], term), r);
    }
  }

  /** In `index=` mode the query selects the rows of the named indexes, filtered by the remainder if any. */
  lemma SelectsNamed(searchQuery: string, tok: string, rest: string, idx: CsvIndex, row: Row)
    requires Trim(searchQuery) != "" && IndexFilter(Trim(searchQuery)) == Some((tok, rest))
    ensures Selects(searchQuery, idx, row) <==>
      Lower(idx.name) == Lower(tok) && (Lower(Trim(rest)) == "" || RowMatches(idx.columns, row, Lower(Trim(rest))))
  {
  }

  /** `index=<tok>` alone returns every copy of every row of the named indexes. */
  lemma {:induction false} NamedAllCount(idxs: seq<CsvIndex>, searchQuery: string, tok: string, rest: string, r: SearchResult)
    requires Trim(searchQuery) != "" && IndexFilter(Trim(searchQuery)) == Some((tok, rest))
    requires Lower(Trim(rest)) == ""
    ensures multiset(AllRows(Named(idxs, Lower(tok))))[r] == Selected(idxs, searchQuery, r)
    decreases |idxs|
  {
    var target := Lower(tok);
    if idxs == [] {
      assert Named(idxs, target) == [];
    } else {
      var idx, named := idxs[0], Named(idxs[1..], target);
      NamedAllCount(idxs[1..], searchQuery, tok, rest, r);
      SelectsNamed(searchQuery, tok, rest, idx, r.row);
      SelectedCons(idxs, searchQuery, r);
      if Lower(idx.name) == target {
        NamedCons(idxs, target);
        AllRowsCons(idx, named);
        TagRowsCount(idx.name, idx.rows, r);
        MultisetAppend(TagRows(idx.name, idx.rows), AllRows(named), r);
      } else {
        NamedSkip(idxs, target);
      }
    }
  }

  /** `index=<tok> <text>` returns every copy of every matching row of the named indexes. */
  lemma {:induction false} NamedFilteredCount(idxs: seq<CsvIndex>, searchQuery: string, tok: string, rest: string, r: SearchResult)
    requires Trim(searchQuery) != "" && IndexFilter(Trim(searchQuery)) == Some((tok, rest))
    requires Lower(Trim(rest)) != ""
    ensures multiset(FilteredRows(Named(idxs, Lower(tok)), Lower(Trim(rest))))[r] == Selected(idxs, searchQuery, r)
    decreases |idxs|
  {
    var target, term := Lower(tok), Lower(Trim(rest));
    if idxs == [] {
      assert Named(idxs, target) == [];
    } else {
      var idx, named := idxs[0], Named(idxs[1..], target);
      NamedFilteredCount(idxs[1..], searchQuery, tok, rest, r);
      SelectsNamed(searchQuery, tok, rest, idx, r.row);
      SelectedCons(idxs, searchQuery, r);
      if Lower(idx.name) == target {
        NamedCons(idxs, target);
        FilteredRowsCons(idx, named, term);
        TaggedMatchCount(idx, term, r);
        MultisetAppend(TagRows(idx.name, MatchingRows(idx.columns, idx.rows, term)), FilteredRows(named, term), r);
      } else {
        NamedSkip(idxs, target);
      }
    }
  }

  lemma SelectedCons(idxs: seq<CsvIndex>, searchQuery: string, r: SearchResult)
    requires idxs != []
    ensures Selected(idxs, searchQuery, r) ==
      (if idxs[0].name == r.index && Selects(searchQuery, idxs[0], r.row) then multiset(idxs[0].rows)[r.row] else 0)
      + Selected(idxs[1..], searchQuery, r)
  {
  }

  lemma NamedCons(idxs: seq<CsvIndex>, target: string)
    requires idxs != [] && Lower(idxs[0].name) == target
    ensures Named(idxs, target) == [idxs[0]] + Named(idxs[1..], target)
  {
  }

  lemma NamedSkip(idxs: seq<CsvIndex>, target: string)
    requires idxs != [] && Lower(idxs[0].name) != target
    ensures Named(idxs, target) == Named(idxs[1..], target)
  {
  }

  lemma AllRowsCons(idx: CsvIndex, idxs: seq<CsvIndex>)
    ensures AllRows([idx] + idxs) == TagRows(idx.name, idx.rows) + AllRows(idxs)
  {
    assert ([idx] + idxs)[1..] == idxs;
  }

  lemma FilteredRowsCons(idx: CsvIndex, idxs: seq<CsvIndex>, term: string)
    ensures FilteredRows([idx] + idxs, term) == TagRows(idx.name, MatchingRows(idx.columns, idx.rows, term)) + FilteredRows(idxs, term)
  {
    assert ([idx] + idxs)[1..] == idxs;
  }

  /** Every mode returns each selected row once per copy of it in the indexes. */
  lemma SearchCount(idxs: seq<CsvIndex>, searchQuery: string, r: SearchResult)
    ensures multiset(Search(idxs, searchQuery))[r] == Selected(idxs, searchQuery, r)
  {
    var query := Trim(searchQuery);
    if query == "" {
      AllRowsCount(idxs, searchQuery, r);
    } else {
      match IndexFilter(query)
      case Some((tok, rest)) =>
        if Lower(Trim(rest)) == "" {
          NamedAllCount(idxs, searchQuery, tok, rest, r);
        } else {
          NamedFilteredCount(idxs, searchQuery, tok, rest, r);
        }
      case None =>
        FreeTextCount(idxs, searchQuery, r);
    }
  }

  // ---------------------------------------------------------- subsequence

  /** `a` is `b` with some elements left out. */
  predicate Subseq<T(==)>(a: seq<T>, b: seq<T>)
    decreases |b|
  {
    a == [] || (b != [] && ((a[0] == b[0] && Subseq(a[1..], b[1..])) || Subseq(a, b[1..])))
  }

  lemma {:induction false} SubseqExtend<T>(a: seq<T>, b1: seq<T>, b2: seq<T>)
    requires Subseq(a, b2)
    ensures Subseq(a, b1 + b2)
    decreases |b1|
  {
    if a != [] && b1 != [] {
      assert (b1 + b2)[1..] == b1[1..] + b2;
      SubseqExtend(a, b1[1..], b2);
    } else if b1 == [] {
      assert b1 + b2 == b2;
    }
  }

  lemma {:induction false} SubseqAppend<T>(a1: seq<T>, a2: seq<T>, b1: seq<T>, b2: seq<T>)
    requires Subseq(a1, b1) && Subseq(a2, b2)
    ensures Subseq(a1 + a2, b1 + b2)
    decreases |b1|
  {
    if a1 == [] {
      assert a1 + a2 == a2;
      SubseqExtend(a2, b1, b2);
    } else {
      assert (b1 + b2)[1..] == b1[1..] + b2;
      if a1[0] == b1[0] && Subseq(a1[1..], b1[1..]) {
        SubseqAppend(a1[1..], a2, b1[1..], b2);
        assert (a1 + a2)[1..] == a1[1..] + a2;
      } else {
        SubseqAppend(a1, a2, b1[1..], b2);
      }
    }
  }

  lemma {:induction false} SubseqRefl<T>(a: seq<T>)
    ensures Subseq(a, a)
  {
    if a != [] {
      SubseqRefl(a[1..]);
    }
  }

  lemma {:induction false} MatchingRowsSubseq(columns: seq<string>, rows: seq<Row>, term: string, name: string)
    ensures Subseq(TagRows(name, MatchingRows(columns, rows, term)), TagRows(name, rows))
  {
    if rows != [] {
      var rest := MatchingRows(columns, rows[1..], term);
      MatchingRowsSubseq(columns, rows[1..], term, name);
      assert TagRows(name, rows) == [SearchResult(name, rows[0])] + TagRows(name, rows[1..]);
      if RowMatches(columns, rows[0], term) {
        assert TagRows(name, [rows[0]] + rest) == [SearchResult(name, rows[0])] + TagRows(name, rest);
        SubseqAppend([SearchResult(name, rows[0])], TagRows(name, rest), [SearchResult(name, rows[0])], TagRows(name, rows[1..]));
      } else {
        assert MatchingRows(columns, rows, term) == rest;
        SubseqExtend(TagRows(name, rest), [SearchResult(name, rows[0])], TagRows(name, rows[1..]));
      }
    }
  }

  /** Filtering keeps the listing's order: indexes in order, rows in order. */
  lemma {:induction false} FilteredRowsSubseq(idxs: seq<CsvIndex>, term: string)
    ensures Subseq(FilteredRows(idxs, term), AllRows(idxs))
  {
    if idxs != [] {
      FilteredRowsSubseq(idxs[1..], term);
      MatchingRowsSubseq(idxs[0].columns, idxs[0].rows, term, idxs[0].name);
      SubseqAppend(
        TagRows(idxs[0].name, MatchingRows(idxs[0].columns, idxs[0].rows, term)), FilteredRows(idxs[1..], term),
        TagRows(idxs[0].name, idxs[0].rows), AllRows(idxs[1..]));
    }
  }

  /** Keeping only some indexes keeps the listing's order. */
  lemma {:induction false} NamedSubseq(idxs: seq<CsvIndex>, target: string)
    ensures Subseq(AllRows(Named(idxs, target)), AllRows(idxs))
  {
    if idxs != [] {
      var rest := Named(idxs[1..], target);
      NamedSubseq(idxs[1..], target);
      var head := TagRows(idxs[0].name, idxs[0].rows);
      if Lower(idxs[0].name) == target {
        assert AllRows([idxs[0]] + rest) == head + AllRows(rest) by {
          assert ([idxs[0]] + rest)[1..] == rest;
        }
        SubseqRefl(head);
        SubseqAppend(head, AllRows(rest), head, AllRows(idxs[1..]));
      } else {
        assert Named(idxs, target) == rest;
        SubseqExtend(AllRows(rest), head, AllRows(idxs[1..]));
      }
    }
  }

  lemma {:induction false} SubseqTrans<T>(a: seq<T>, b: seq<T>, c: seq<T>)
    requires Subseq(a, b) && Subseq(b, c)
    ensures Subseq(a, c)
    decreases |c|
  {
    if a != [] {
      if b[0] == c[0] && Subseq(b[1..], c[1..]) {
        if a[0] == b[0] && Subseq(a[1..], b[1..]) {
          SubseqTrans(a[1..], b[1..], c[1..]);
        } else {
          SubseqTrans(a, b[1..], c[1..]);
        }
      } else {
        SubseqTrans(a, b, c[1..]);
      }
    }
  }

  /** Every mode returns the rows of the indexes in map order, rows in file order, some left out. */
  lemma SearchSubseq(idxs: seq<CsvIndex>, searchQuery: string)
    ensures Subseq(Search(idxs, searchQuery), AllRows(idxs))
  {
    var query := Trim(searchQuery);
    if query == "" {
      SubseqRefl(AllRows(idxs));
    } else {
      match IndexFilter(query)
      case Some((tok, rest)) =>
        var matched := Named(idxs, Lower(tok));
        NamedSubseq(idxs, Lower(tok));
        if Lower(Trim(rest)) != "" {
          FilteredRowsSubseq(matched, Lower(Trim(rest)));
          SubseqTrans(FilteredRows(matched, Lower(Trim(rest))), AllRows(matched), AllRows(idxs));
        }
      case None =>
        FilteredRowsSubseq(idxs, Lower(query));
    }
  }

  /** A row is in the result exactly when the query selects it. */
  lemma SearchMembers(idxs: seq<CsvIndex>, searchQuery: string, r: SearchResult)
    ensures r in Search(idxs, searchQuery) <==>
      exists idx :: idx in idxs && RowOf(idx, r) && Selects(searchQuery, idx, r.row)
  {
    var query := Trim(searchQuery);
    if query == "" {
      AllRowsMembers(idxs, r);
    } else {
      match IndexFilter(query)
      case Some((tok, rest)) =>
        var matched := Named(idxs, Lower(tok));
        if Lower(Trim(rest)) == "" {
          AllRowsMembers(matched, r);
        } else {
          FilteredRowsMembers(matched, Lower(Trim(rest)), r);
        }
      case None =>
        FilteredRowsMembers(idxs, Lower(query), r);
    }
  }

  /** `index=` naming no index, in any letter case, gives no results. */
  lemma NoSuchIndex(idxs: seq<CsvIndex>, searchQuery: string)
    requires Trim(searchQuery) != "" && IndexFilter(Trim(searchQuery)).Some?
    requires forall idx :: idx in idxs ==> Lower(idx.name) != Lower(IndexFilter(Trim(searchQuery)).value.0)
    ensures Search(idxs, searchQuery) == []
  {
    NamedNone(idxs, Lower(IndexFilter(Trim(searchQuery)).value.0));
  }

  lemma {:induction false} NamedNone(idxs: seq<CsvIndex>, target: string)
    requires forall idx :: idx in idxs ==> Lower(idx.name) != target
    ensures Named(idxs, target) == []
  {
    if idxs != [] {
      assert idxs[0] in idxs;
      NamedNone(idxs[1..], target);
    }
  }
}
