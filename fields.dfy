/** Per-column value statistics (`extractFields`, src/lib/csv-store.ts:122-137):
    for every header column, the non-empty values of that column are counted
    in a dictionary (keys in first-seen order), the dictionary's entries are
    stably sorted by descending count and the first ten are kept. */
module FieldStats {
  import opened Ordered
  import opened Records

  /** A dictionary entry of `counts`: value and number of occurrences. */
  type Entry = (string, nat)

  /** The rows whose cell in `col` is `v`. */
  function Occurrences(col: string, rows: seq<Row>, v: string): nat {
    if rows == [] then 0
    else Occurrences(col, rows[..|rows| - 1], v) + (if Cell(rows[|rows| - 1], col) == v then 1 else 0)
  }

  /** The non-empty cells of `col`, row after row. */
  function NonEmptyCells(col: string, rows: seq<Row>): seq<string> {
    if rows == [] then []
    else
      var v := Cell(rows[|rows| - 1], col);
      NonEmptyCells(col, rows[..|rows| - 1]) + (if v != "" then [v] else [])
  }

  /** One step of the counting loop: `counts[val] = (counts[val] || 0) + 1` for a non-empty `val`. */
  function Bump(counts: seq<Entry>, val: string): seq<Entry> {
    if val == "" then counts
    else
      var n: nat := GetOr(counts, val, 0) + 1;
      Put(counts, val, n)
  }

  /** The `counts` dictionary after the loop has seen every row. */
  function Tally(col: string, rows: seq<Row>): seq<Entry> {
    if rows == [] then []
    else Bump(Tally(col, rows[..|rows| - 1]), Cell(rows[|rows| - 1], col))
  }

  /** A value is among the non-empty cells exactly when it is non-empty and occurs. */
  lemma {:induction false} NonEmptyCellsMembers(col: string, rows: seq<Row>, v: string)
    ensures v in NonEmptyCells(col, rows) <==> v != "" && Occurrences(col, rows, v) > 0
  {
    if rows != [] {
      NonEmptyCellsMembers(col, rows[..|rows| - 1], v);
    }
  }

  /** The dictionary's keys are the non-empty values in first-seen order. */
  lemma {:induction false} TallyKeys(col: string, rows: seq<Row>)
    ensures Keys(Tally(col, rows)) == Dedup(NonEmptyCells(col, rows))
  {
    if rows != [] {
      var init := rows[..|rows| - 1];
      var val := Cell(rows[|rows| - 1], col);
      TallyKeys(col, init);
      var cells := NonEmptyCells(col, init);
      if val != "" {
        var prev := Tally(col, init);
        var n: nat := GetOr(prev, val, 0) + 1;
        assert Tally(col, rows) == Put(prev, val, n);
        PutKeys(prev, val, n);
        assert NonEmptyCells(col, rows) == cells + [val];
        DedupSnoc(cells, val);
      } else {
        assert NonEmptyCells(col, rows) == cells;
      }
    }
  }

  /** Each non-empty value is counted exactly as often as it occurs. */
  lemma {:induction false} TallyGet(col: string, rows: seq<Row>, v: string)
    requires v != ""
    ensures GetOr(Tally(col, rows), v, 0) == Occurrences(col, rows, v)
  {
    if rows != [] {
      var init := rows[..|rows| - 1];
      var val := Cell(rows[|rows| - 1], col);
      TallyGet(col, init, v);
      BumpGet(Tally(col, init), val, v);
    }
  }

  /** One step of the loop adds one to the count of the value it sees, and only to that one. */
  lemma BumpGet(counts: seq<Entry>, val: string, v: string)
    requires v != ""
    ensures GetOr(Bump(counts, val), v, 0) == GetOr(counts, v, 0) + (if val == v then 1 else 0)
  {
    if val != "" {
      var n: nat := GetOr(counts, val, 0) + 1;
      assert Bump(counts, val) == Put(counts, val, n);
      PutGetCount(counts, val, v, n);
    }
  }

  lemma PutGetCount(counts: seq<Entry>, val: string, v: string, n: nat)
    requires n == GetOr(counts, val, 0) + 1
    ensures GetOr(Put(counts, val, n), v, 0) == GetOr(counts, v, 0) + (if val == v then 1 else 0)
  {
    PutGet(counts, val, n, v);
  }

  /** The dictionary holds every non-empty value once, in first-seen order,
      with its exact number of occurrences. */
  lemma TallyCounts(col: string, rows: seq<Row>)
    ensures Keys(Tally(col, rows)) == Dedup(NonEmptyCells(col, rows))
    ensures DistinctKeys(Tally(col, rows))
    ensures forall v :: v != "" ==> GetOr(Tally(col, rows), v, 0) == Occurrences(col, rows, v)
  {
    TallyKeys(col, rows);
    forall v | v != "" ensures GetOr(Tally(col, rows), v, 0) == Occurrences(col, rows, v) {
      TallyGet(col, rows, v);
    }
  }

  /** Every entry of the dictionary is a non-empty value paired with its number of occurrences. */
  lemma TallyEntries(col: string, rows: seq<Row>)
    ensures forall e :: e in Tally(col, rows) ==>
      e.0 != "" && e.1 == Occurrences(col, rows, e.0) && e.1 > 0
    ensures forall v :: v != "" && Occurrences(col, rows, v) > 0 ==> v in Keys(Tally(col, rows))
  {
    var t := Tally(col, rows);
    TallyCounts(col, rows);
    forall e | e in t ensures e.0 != "" && e.1 == Occurrences(col, rows, e.0) && e.1 > 0 {
      var i :| 0 <= i < |t| && t[i] == e;
      GetAt(t, i);
      assert Keys(t)[i] == e.0;
      NonEmptyCellsMembers(col, rows, e.0);
    }
    forall v | v != "" && Occurrences(col, rows, v) > 0 ensures v in Keys(t) {
      NonEmptyCellsMembers(col, rows, v);
    }
  }

  // ------------------------------------------------------------- sorting

  predicate NonIncreasing(s: seq<Entry>) {
    forall i, j :: 0 <= i < j < |s| ==> s[i].1 >= s[j].1
  }

  /** Places `x`, which came before every entry of `t`, ahead of the first
      entry whose count does not exceed its own: the step of a stable sort. */
  function Insert(x: Entry, t: seq<Entry>): (r: seq<Entry>)
    ensures multiset(r) == multiset(t) + multiset{x}
  {
    if t == [] || t[0].1 <= x.1 then [x] + t
    else
      var rest := Insert(x, t[1..]);
      assert t == [t[0]] + t[1..];
      forall e | e in rest ensures e == x || e in t[1..] {
        assert e in multiset(rest);
      }
      [t[0]] + rest
  }

  /** `Object.entries(counts).sort((a, b) => b[1] - a[1])`: a stable sort by descending count. */
  function SortByCount(s: seq<Entry>): (r: seq<Entry>)
    ensures multiset(r) == multiset(s)
    ensures NonIncreasing(r)
  {
    if s == [] then []
    else
      assert s == [s[0]] + s[1..];
      InsertSorted(s[0], SortByCount(s[1..]));
      Insert(s[0], SortByCount(s[1..]))
  }

  /** Inserting into a list sorted by descending count keeps it sorted. */
  lemma {:induction false} InsertSorted(x: Entry, t: seq<Entry>)
    requires NonIncreasing(t)
    ensures NonIncreasing(Insert(x, t))
  {
    if !(t == [] || t[0].1 <= x.1) {
      var rest := Insert(x, t[1..]);
      InsertSorted(x, t[1..]);
      var r := [t[0]] + rest;
      forall i, j | 0 <= i < j < |r| ensures r[i].1 >= r[j].1 {
        if i == 0 {
          assert r[j] in multiset(rest);
          assert r[j] == x || r[j] in t[1..];
        }
      }
    }
  }

  /** The entries of `s` with count `c`, in order. */
  function WithCount(s: seq<Entry>, c: nat): seq<Entry> {
    if s == [] then []
    else (if s[0].1 == c then [s[0]] else []) + WithCount(s[1..], c)
  }

  lemma {:induction false} InsertWithCount(x: Entry, t: seq<Entry>, c: nat)
    ensures WithCount(Insert(x, t), c) == (if x.1 == c then [x] else []) + WithCount(t, c)
  {
    if t == [] || t[0].1 <= x.1 {
      assert ([x] + t)[1..] == t;
    } else {
      InsertWithCount(x, t[1..], c);
      assert ([t[0]] + Insert(x, t[1..]))[1..] == Insert(x, t[1..]);
    }
  }

  /** The sort is stable: entries of equal count keep their relative order. */
  lemma {:induction false} SortStable(s: seq<Entry>, c: nat)
    ensures WithCount(SortByCount(s), c) == WithCount(s, c)
  {
    if s != [] {
      SortStable(s[1..], c);
      InsertWithCount(s[0], SortByCount(s[1..]), c);
    }
  }

  /** Sorting keeps the keys of a dictionary distinct. */
  lemma {:induction false} SortDistinct(s: seq<Entry>)
    requires DistinctKeys(s)
    ensures DistinctKeys(SortByCount(s))
  {
    if s != [] {
      var rest := s[1..];
      TailDistinct(s);
      SortDistinct(rest);
      var t := SortByCount(rest);
      forall e | e in t ensures e.0 != s[0].0 {
        assert e in multiset(rest);
      }
      InsertDistinct(s[0], t);
    }
  }

  /** Inserting an entry whose key is new keeps the keys distinct. */
  lemma {:induction false} InsertDistinct(x: Entry, t: seq<Entry>)
    requires DistinctKeys(t)
    requires forall e :: e in t ==> e.0 != x.0
    ensures DistinctKeys(Insert(x, t))
  {
    if t == [] || t[0].1 <= x.1 {
      ConsDistinct(x, t);
    } else {
      TailDistinct(t);
      InsertDistinct(x, t[1..]);
      var r := Insert(x, t[1..]);
      forall e | e in r ensures e.0 != t[0].0 {
        assert e in multiset(r);
      }
      ConsDistinct(t[0], r);
    }
  }

  /** The tail of a dictionary with distinct keys has distinct keys, none of them the head's. */
  lemma TailDistinct(t: seq<Entry>)
    requires t != [] && DistinctKeys(t)
    ensures DistinctKeys(t[1..])
    ensures forall e :: e in t[1..] ==> e.0 != t[0].0
  {
    var rest := t[1..];
    forall i, j | 0 <= i < j < |rest| ensures Keys(rest)[i] != Keys(rest)[j] {
      assert Keys(t)[i + 1] != Keys(t)[j + 1];
    }
    forall e | e in rest ensures e.0 != t[0].0 {
      var k :| 0 <= k < |rest| && rest[k] == e;
      assert Keys(t)[0] != Keys(t)[k + 1];
    }
  }

  /** An entry with a new key can go in front. */
  lemma ConsDistinct(y: Entry, r: seq<Entry>)
    requires DistinctKeys(r)
    requires forall e :: e in r ==> e.0 != y.0
    ensures DistinctKeys([y] + r)
  {
    var full := [y] + r;
    forall i, j | 0 <= i < j < |full| ensures Keys(full)[i] != Keys(full)[j] {
      if i == 0 {
        assert full[j] in r;
      } else {
        assert Keys(r)[i - 1] != Keys(r)[j - 1];
      }
    }
  }

  // ---------------------------------------------------------- top values

  const TopCount := 10

  function AsFieldValues(s: seq<Entry>): (r: seq<FieldValue>)
    ensures |r| == |s|
    ensures forall i :: 0 <= i < |s| ==> r[i] == FieldValue(s[i].0, s[i].1)
  {
    seq(|s|, i requires 0 <= i < |s| => FieldValue(s[i].0, s[i].1))
  }

  /** `.slice(0, 10)`. */
  function Head(s: seq<Entry>): (h: seq<Entry>)
    ensures |h| <= TopCount && h <= s
    ensures |h| < TopCount ==> h == s
  {
    s[..if |s| < TopCount then |s| else TopCount]
  }

  /** `.sort(...).slice(0, 10).map(([value, count]) => ({ value, count }))`. */
  function TopValues(counts: seq<Entry>): seq<FieldValue> {
    AsFieldValues(Head(SortByCount(counts)))
  }

  /** The `FieldInfo` of one column. */
  function FieldInfoOf(col: string, rows: seq<Row>): FieldInfo {
    FieldInfo(col, TopValues(Tally(col, rows)))
  }

  /** What `extractFields` returns: one entry per header position, in order. */
  function FieldsOf(columns: seq<string>, rows: seq<Row>): (fields: seq<FieldInfo>)
    ensures |fields| == |columns|
    ensures forall i :: 0 <= i < |columns| ==> fields[i] == FieldInfoOf(columns[i], rows)
  {
    seq(|columns|, i requires 0 <= i < |columns| => FieldInfoOf(columns[i], rows))
  }

  /** Sorting neither adds nor loses entries. */
  lemma SortMembers(s: seq<Entry>)
    ensures forall e :: e in SortByCount(s) <==> e in s
  {
    var r := SortByCount(s);
    forall e ensures e in r <==> e in s {
      assert e in r <==> e in multiset(r);
      assert e in s <==> e in multiset(s);
    }
  }

  /** `s` holds every non-empty value of `col` once, each with its exact
      number of occurrences, and nothing else. */
  ghost predicate Counted(col: string, rows: seq<Row>, s: seq<Entry>) {
    && DistinctKeys(s)
    && (forall e :: e in s ==> e.0 != "" && e.1 == Occurrences(col, rows, e.0) && e.1 > 0)
    && (forall v :: v != "" && Occurrences(col, rows, v) > 0 ==> v in Keys(s))
  }

  /** Sorting a complete count keeps it complete. */
  lemma SortCounted(col: string, rows: seq<Row>, s: seq<Entry>)
    requires Counted(col, rows, s)
    ensures Counted(col, rows, SortByCount(s))
  {
    var sorted := SortByCount(s);
    SortDistinct(s);
    SortMembers(s);
    forall v | v != "" && Occurrences(col, rows, v) > 0 ensures v in Keys(sorted) {
      var p :| 0 <= p < |s| && Keys(s)[p] == v;
      assert s[p] in sorted;
      var k :| 0 <= k < |sorted| && sorted[k] == s[p];
      assert Keys(sorted)[k] == v;
    }
  }

  /** The sorted dictionary: distinct non-empty values with their exact counts, all of them. */
  lemma SortedTally(col: string, rows: seq<Row>)
    ensures Counted(col, rows, SortByCount(Tally(col, rows)))
  {
    TallyCounts(col, rows);
    TallyEntries(col, rows);
    SortCounted(col, rows, Tally(col, rows));
  }

  /** At most ten distinct non-empty values with their exact counts, by
      non-increasing count; a value left out occurs at most as often as the
      tenth. */
  ghost predicate IsTopValues(col: string, rows: seq<Row>, t: seq<FieldValue>) {
    && |t| <= TopCount
    && (forall i :: 0 <= i < |t| ==>
          t[i].value != "" && t[i].count > 0 && t[i].count == Occurrences(col, rows, t[i].value))
    && (forall i, j :: 0 <= i < j < |t| ==> t[i].value != t[j].value && t[i].count >= t[j].count)
    && (forall v :: v != "" && Occurrences(col, rows, v) > 0 && (forall i :: 0 <= i < |t| ==> t[i].value != v) ==>
          |t| == TopCount && Occurrences(col, rows, v) <= t[TopCount - 1].count)
  }

  /** The head of a complete count holds exact counts of non-empty values. */
  lemma TopExact(col: string, rows: seq<Row>, s: seq<Entry>)
    requires Counted(col, rows, s)
    ensures var t := AsFieldValues(Head(s));
      forall i :: 0 <= i < |t| ==>
        t[i].value != "" && t[i].count > 0 && t[i].count == Occurrences(col, rows, t[i].value)
  {
    var t := AsFieldValues(Head(s));
    forall i | 0 <= i < |t|
      ensures t[i].value != "" && t[i].count > 0 && t[i].count == Occurrences(col, rows, t[i].value)
    {
      assert s[i] in s;
    }
  }

  /** The head of a dictionary sorted by descending count lists distinct
      values by non-increasing count. */
  lemma TopOrdered(s: seq<Entry>)
    requires NonIncreasing(s) && DistinctKeys(s)
    ensures var t := AsFieldValues(Head(s));
      forall i, j :: 0 <= i < j < |t| ==> t[i].value != t[j].value && t[i].count >= t[j].count
  {
    var t := AsFieldValues(Head(s));
    forall i, j | 0 <= i < j < |t| ensures t[i].value != t[j].value && t[i].count >= t[j].count {
      assert Keys(s)[i] != Keys(s)[j];
    }
  }

  /** A value of a complete sorted count that missed the head occurs at most
      as often as the tenth value, and the head is full. */
  lemma TopCutoff(col: string, rows: seq<Row>, s: seq<Entry>)
    requires Counted(col, rows, s) && NonIncreasing(s)
    ensures var t := AsFieldValues(Head(s));
      forall v :: v != "" && Occurrences(col, rows, v) > 0 && (forall i :: 0 <= i < |t| ==> t[i].value != v) ==>
        |t| == TopCount && Occurrences(col, rows, v) <= t[TopCount - 1].count
  {
    var t := AsFieldValues(Head(s));
    forall v | v != "" && Occurrences(col, rows, v) > 0 && (forall i :: 0 <= i < |t| ==> t[i].value != v)
      ensures |t| == TopCount && Occurrences(col, rows, v) <= t[TopCount - 1].count
    {
      var k :| 0 <= k < |s| && Keys(s)[k] == v;
      assert s[k] in s;
      assert forall i :: 0 <= i < |t| ==> s[i].0 != s[k].0;
      assert k >= |t|;
    }
  }

  /** The head of a complete count sorted by descending count is its top values. */
  lemma TopOfCounted(col: string, rows: seq<Row>, s: seq<Entry>)
    requires Counted(col, rows, s) && NonIncreasing(s)
    ensures IsTopValues(col, rows, AsFieldValues(Head(s)))
  {
    TopExact(col, rows, s);
    TopOrdered(s);
    TopCutoff(col, rows, s);
  }

  /** The top values the panel shows for a column. */
  lemma TopValuesSpec(col: string, rows: seq<Row>)
    ensures IsTopValues(col, rows, FieldInfoOf(col, rows).topValues)
  {
    SortedTally(col, rows);
    TopOfCounted(col, rows, SortByCount(Tally(col, rows)));
  }

  lemma TallyStep(col: string, rows: seq<Row>, i: nat)
    requires i < |rows|
    ensures var prev, val := Tally(col, rows[..i]), Cell(rows[i], col);
      Tally(col, rows[..i + 1]) == if val == "" then prev else Put(prev, val, GetOr(prev, val, 0) + 1)
  {
    assert rows[..i + 1][..i] == rows[..i];
  }

  /** `counts` for one column: the loop over the rows (src/lib/csv-store.ts:124-130). */
  method CountValues(col: string, rows: seq<Row>) returns (counts: seq<Entry>)
    ensures counts == Tally(col, rows)
    ensures DistinctKeys(counts)
    ensures forall v :: v != "" ==> GetOr(counts, v, 0) == Occurrences(col, rows, v)
  {
    counts := [];
    var i := 0;
    while i < |rows|
      invariant 0 <= i <= |rows|
      invariant counts == Tally(col, rows[..i])
    {
      TallyStep(col, rows, i);
      var val := Cell(rows[i], col);
      if val != "" {
        var n: nat := GetOr(counts, val, 0) + 1;
        counts := Put(counts, val, n);
      }
      i := i + 1;
    }
    assert rows[..i] == rows;
    TallyCounts(col, rows);
  }

  /** `extractFields`: `columns.map` over the counting loop. */
  method ExtractFields(columns: seq<string>, rows: seq<Row>) returns (fields: seq<FieldInfo>)
    ensures fields == FieldsOf(columns, rows)
    ensures |fields| == |columns|
    ensures forall i :: 0 <= i < |columns| ==> fields[i].name == columns[i] && |fields[i].topValues| <= TopCount
  {
    fields := [];
    var i := 0;
    while i < |columns|
      invariant 0 <= i <= |columns|
      invariant fields == FieldsOf(columns[..i], rows)
    {
      var counts := CountValues(columns[i], rows);
      fields := fields + [FieldInfo(columns[i], TopValues(counts))];
      assert columns[..i + 1][..i] == columns[..i];
      i := i + 1;
    }
    assert columns[..i] == columns;
  }
}
