/** The store's record types (src/lib/csv-store.ts) and the column union
    that both result views compute from a list of search results. */
module Records {
  import opened Ordered

  /** One parsed record: column name to value, keys in header order. */
  type Row = seq<(string, string)>

  /** One ingested file: its canonical name, header, records and origin. */
  datatype CsvIndex = CsvIndex(name: string, columns: seq<string>, rows: seq<Row>, fileName: string)

  datatype FieldValue = FieldValue(value: string, count: nat)

  /** A column and its most frequent values. */
  datatype FieldInfo = FieldInfo(name: string, topValues: seq<FieldValue>)

  /** A record together with the name of the index it belongs to. */
  datatype SearchResult = SearchResult(index: string, row: Row)

  /** `row[col] ?? ""`. */
  function Cell(row: Row, col: string): string {
    GetOr(row, col, "")
  }

  /** A column the row lacks renders as `""`; a column it has renders as
      the value stored under it. */
  lemma CellShape(row: Row, col: string)
    ensures col !in Keys(row) ==> Cell(row, col) == ""
    ensures col in Keys(row) ==> (col, Cell(row, col)) in row
  {
    GetMembers(row, col);
  }

  /** The keys of every result row, row after row, repeats kept. */
  function AllKeys(results: seq<SearchResult>): seq<string> {
    if results == [] then []
    else AllKeys(results[..|results| - 1]) + Keys(results[|results| - 1].row)
  }

  /** Some result row has key `k`. */
  predicate SomeRowHasKey(results: seq<SearchResult>, k: string) {
    exists i :: 0 <= i < |results| && k in Keys(results[i].row)
  }

  lemma {:induction false} AllKeysMembers(results: seq<SearchResult>, k: string)
    ensures k in AllKeys(results) <==> SomeRowHasKey(results, k)
  {
    if results != [] {
      var init := results[..|results| - 1];
      AllKeysMembers(init, k);
      if SomeRowHasKey(results, k) {
        var i :| 0 <= i < |results| && k in Keys(results[i].row);
        if i < |results| - 1 {
          assert init[i] == results[i];
          assert SomeRowHasKey(init, k);
        }
      }
      if SomeRowHasKey(init, k) {
        var i :| 0 <= i < |init| && k in Keys(init[i].row);
        assert results[i] == init[i];
      }
    }
  }

  /** The columns of a list of results: every key of every row, once, first-seen order. */
  function KeyUnion(results: seq<SearchResult>): seq<string> {
    Dedup(AllKeys(results))
  }

  lemma AllKeysSnoc(results: seq<SearchResult>, i: nat)
    requires i < |results|
    ensures AllKeys(results[..i + 1]) == AllKeys(results[..i]) + Keys(results[i].row)
  {
    assert results[..i + 1][..i] == results[..i];
  }

  /** The key union lists every key of some row, once, in first-seen order. */
  lemma KeyUnionShape(results: seq<SearchResult>)
    ensures Distinct(KeyUnion(results))
    ensures forall k :: k in KeyUnion(results) <==> SomeRowHasKey(results, k)
    ensures forall i, j :: 0 <= i < j < |KeyUnion(results)| ==>
      FirstIndex(AllKeys(results), KeyUnion(results)[i]) < FirstIndex(AllKeys(results), KeyUnion(results)[j])
  {
    forall k ensures k in KeyUnion(results) <==> SomeRowHasKey(results, k) {
      AllKeysMembers(results, k);
    }
    DedupFirstSeen(AllKeys(results));
  }

  /** The inner loop: `Object.keys(r.row).forEach(k => colSet.add(k))`. */
  method AddKeys(cols: seq<string>, seen: seq<string>, keys: seq<string>) returns (cols': seq<string>)
    requires cols == Dedup(seen)
    ensures cols' == Dedup(seen + keys)
  {
    cols' := cols;
    var j := 0;
    assert seen + keys[..0] == seen;
    while j < |keys|
      invariant 0 <= j <= |keys|
      invariant cols' == Dedup(seen + keys[..j])
    {
      var prefix := seen + keys[..j];
      assert seen + keys[..j + 1] == prefix + [keys[j]];
      DedupSnoc(prefix, keys[j]);
      if keys[j] !in cols' {
        cols' := cols' + [keys[j]];
      }
      j := j + 1;
    }
    assert keys[..j] == keys;
  }

  /** The loop that fills a `Set` with `Object.keys(r.row)` for every result `r`
      (src/components/ResultsTable.tsx:26-30; the same loop fills `allCols` in
      src/components/SearchBar.tsx:15-16). */
  method CollectKeys(results: seq<SearchResult>) returns (cols: seq<string>)
    ensures cols == KeyUnion(results)
    ensures Distinct(cols)
    ensures forall k :: k in cols <==> SomeRowHasKey(results, k)
    ensures forall i, j :: 0 <= i < j < |cols| ==>
      FirstIndex(AllKeys(results), cols[i]) < FirstIndex(AllKeys(results), cols[j])
  {
    cols := [];
    var i := 0;
    while i < |results|
      invariant 0 <= i <= |results|
      invariant cols == Dedup(AllKeys(results[..i]))
    {
      AllKeysSnoc(results, i);
      cols := AddKeys(cols, AllKeys(results[..i]), Keys(results[i].row));
      i := i + 1;
    }
    assert results[..i] == results;
    KeyUnionShape(results);
  }
}
