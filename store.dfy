/** The store (src/lib/csv-store.ts:139-221): the map of indexes keyed by
    canonical name, the search query, the current page and the page size,
    with its mutators and queries. The map is an insertion-ordered object:
    adding under an existing name replaces that entry where it stands. */
module CsvStore {
  import opened Ordered
  import opened Records
  import opened IndexNames
  import opened CsvParse
  import opened FieldStats
  import opened Query

  type Indexes = seq<(string, CsvIndex)>

  const DefaultPageSize := 100

  /** Every index is stored under its own name, and every name once. */
  predicate WellFormed(indexes: Indexes) {
    DistinctKeys(indexes) && forall i :: 0 <= i < |indexes| ==> indexes[i].1.name == indexes[i].0
  }

  /** The index that `addCsv(fileName, content)` builds. */
  function IndexOf(fileName: string, content: string): (idx: CsvIndex)
    ensures idx.name == NormalizeIndexName(fileName) && idx.fileName == fileName
  {
    var t := Parse(content);
    CsvIndex(NormalizeIndexName(fileName), t.columns, t.rows, fileName)
  }

  /** The map after `addCsv(fileName, content)`. */
  function Ingest(indexes: Indexes, fileName: string, content: string): Indexes {
    Put(indexes, NormalizeIndexName(fileName), IndexOf(fileName, content))
  }

  /** Adding a file sets the entry of its canonical name and no other; a new
      name goes last, a present one keeps its place. */
  lemma IngestGet(indexes: Indexes, fileName: string, content: string, k: string)
    ensures Get(Ingest(indexes, fileName, content), k) ==
      if k == NormalizeIndexName(fileName) then Some(IndexOf(fileName, content)) else Get(indexes, k)
    ensures Keys(Ingest(indexes, fileName, content)) ==
      if NormalizeIndexName(fileName) in Keys(indexes) then Keys(indexes) else Keys(indexes) + [NormalizeIndexName(fileName)]
  {
    PutGet(indexes, NormalizeIndexName(fileName), IndexOf(fileName, content), k);
    PutKeys(indexes, NormalizeIndexName(fileName), IndexOf(fileName, content));
  }

  /** Adding the same file twice is adding it once. */
  lemma IngestTwice(indexes: Indexes, fileName: string, content: string)
    ensures Ingest(Ingest(indexes, fileName, content), fileName, content) == Ingest(indexes, fileName, content)
  {
    PutTwice(indexes, NormalizeIndexName(fileName), IndexOf(fileName, content));
  }

  /** Adding keeps every index under its own name. */
  lemma IngestWellFormed(indexes: Indexes, fileName: string, content: string)
    requires WellFormed(indexes)
    ensures WellFormed(Ingest(indexes, fileName, content))
  {
    var name, idx := NormalizeIndexName(fileName), IndexOf(fileName, content);
    var r := Ingest(indexes, fileName, content);
    PutDistinct(indexes, name, idx);
    PutKeys(indexes, name, idx);
    forall i | 0 <= i < |r| ensures r[i].1.name == r[i].0 {
      assert r[i] in r;
      if r[i] != (name, idx) {
        var j :| 0 <= j < |indexes| && indexes[j] == r[i];
      }
    }
  }

  /** Deleting keeps every index under its own name. */
  lemma RemoveWellFormed(indexes: Indexes, name: string)
    requires WellFormed(indexes)
    ensures WellFormed(Remove(indexes, name))
  {
    var r := Remove(indexes, name);
    WithoutDistinct(Keys(indexes), name);
    forall i | 0 <= i < |r| ensures r[i].1.name == r[i].0 {
      assert r[i] in r;
      var j :| 0 <= j < |indexes| && indexes[j] == r[i];
    }
  }

  class Store {
    var indexes: Indexes
    var searchQuery: string
    var currentPage: int
    var pageSize: int

    predicate Valid()
      reads this
    {
      WellFormed(indexes)
    }

    /** The initial state. */
    constructor()
      ensures Valid()
      ensures indexes == [] && searchQuery == "" && currentPage == 1 && pageSize == DefaultPageSize
    {
      indexes := [];
      searchQuery := "";
      currentPage := 1;
      pageSize := DefaultPageSize;
    }

    /** `addCsv`: parse the text and store it under the file's canonical name. */
    method AddCsv(fileName: string, content: string)
      requires Valid()
      modifies this
      ensures Valid()
      ensures indexes == Ingest(old(indexes), fileName, content)
      ensures searchQuery == old(searchQuery) && currentPage == old(currentPage) && pageSize == old(pageSize)
    {
      var indexName := NormalizeIndexName(fileName);
      var table := ParseCsv(content);
      var idx := CsvIndex(indexName, table.columns, table.rows, fileName);
      assert idx == IndexOf(fileName, content);
      IngestWellFormed(indexes, fileName, content);
      indexes := Put(indexes, indexName, idx);
    }

    /** `removeIndex`: drop one name, leave the rest in order. */
    method RemoveIndex(name: string)
      requires Valid()
      modifies this
      ensures Valid()
      ensures indexes == Remove(old(indexes), name)
      ensures searchQuery == old(searchQuery) && currentPage == old(currentPage) && pageSize == old(pageSize)
    {
      RemoveWellFormed(indexes, name);
      indexes := Remove(indexes, name);
    }

    /** `clearAll`: no indexes, empty query, first page; the page size stays. */
    method ClearAll()
      modifies this
      ensures Valid()
      ensures indexes == [] && searchQuery == "" && currentPage == 1 && pageSize == old(pageSize)
    {
      indexes := [];
      searchQuery := "";
      currentPage := 1;
    }

    /** `setSearchQuery`: the query as typed, untrimmed, and back to the first page. */
    method SetSearchQuery(q: string)
      modifies this
      ensures searchQuery == q && currentPage == 1
      ensures indexes == old(indexes) && pageSize == old(pageSize)
    {
      searchQuery := q;
      currentPage := 1;
    }

    /** `setCurrentPage`: stores the page as given, without clamping. */
    method SetCurrentPage(p: int)
      modifies this
      ensures currentPage == p
      ensures indexes == old(indexes) && searchQuery == old(searchQuery) && pageSize == old(pageSize)
    {
      currentPage := p;
    }

    /** `getSearchResults` on the current state: rows of the stored indexes in
        map order, each one selected by the query. */
    function SearchResults(): (r: seq<SearchResult>)
      reads this
      ensures Subseq(r, AllRows(Values(indexes)))
    {
      SearchSubseq(Values(indexes), searchQuery);
      Search(Values(indexes), searchQuery)
    }

    /** `getFieldsForIndex`: the statistics of a stored index, `[]` for an unknown name. */
    method GetFieldsForIndex(indexName: string) returns (fields: seq<FieldInfo>)
      ensures Get(indexes, indexName).None? ==> fields == []
      ensures Get(indexes, indexName).Some? ==>
        fields == FieldsOf(Get(indexes, indexName).value.columns, Get(indexes, indexName).value.rows)
    {
      match Get(indexes, indexName)
      case None =>
        fields := [];
      case Some(idx) =>
        fields := ExtractFields(idx.columns, idx.rows);
    }

    /** `getActiveIndexes`: the stored names in map order, each once. */
    function ActiveIndexes(): (names: seq<string>)
      requires Valid()
      reads this
      ensures Distinct(names)
      ensures forall k :: k in names <==> Get(indexes, k).Some?
    {
      KeysGet(indexes);
      Keys(indexes)
    }
  }

  /** The result of a search names only stored indexes, and each result row
      belongs to the index it names. */
  lemma ResultsBelong(indexes: Indexes, searchQuery: string, r: SearchResult)
    requires WellFormed(indexes)
    requires r in Search(Values(indexes), searchQuery)
    ensures Get(indexes, r.index).Some? && r.row in Get(indexes, r.index).value.rows
  {
    SearchMembers(Values(indexes), searchQuery, r);
    var idx :| idx in Values(indexes) && RowOf(idx, r) && Selects(searchQuery, idx, r.row);
    var i :| 0 <= i < |indexes| && Values(indexes)[i] == idx;
    GetAt(indexes, i);
  }
}
