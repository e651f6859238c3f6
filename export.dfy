/** The CSV export of the search results (src/components/SearchBar.tsx:11-36):
    nothing for an empty result list; otherwise a header of `_index` and
    every key of every result row in first-seen order, then one line per
    result, lines joined with `\n` and cells with `,`. A value is quoted,
    with its quotes doubled, when it contains a comma, a quote or a line feed
    (section 2, rules 6 and 7, of RFC 4180, with `\n` as the record separator
    and a lone `\r` left unquoted). */
module Export {
  import opened Text
  import opened Ordered
  import opened Records
  import opened CsvParse

  /** `v.replace(/"/g, '""')`. */
  function DoubleQuotes(v: string): (r: string)
    ensures |r| >= |v|
  {
    if v == [] then []
    else if v[0] == '"' then "\"\"" + DoubleQuotes(v[1..])
    else [v[0]] + DoubleQuotes(v[1..])
  }

  predicate NeedsQuoting(v: string) {
    ',' in v || '"' in v || '\n' in v
  }

  /** `escape`. */
  function Escape(v: string): (e: string)
    ensures NeedsQuoting(v) ==> |e| >= |v| + 2 && e[0] == '"' && e[|e| - 1] == '"'
    ensures !NeedsQuoting(v) ==> e == v
  {
    if NeedsQuoting(v) then "\"" + DoubleQuotes(v) + "\"" else v
  }

  /** A value comes out of `escape` unchanged exactly when it holds no comma,
      quote or line feed; otherwise it is wrapped in quotes. */
  lemma EscapeUnchangedIff(v: string)
    ensures Escape(v) == v <==> !NeedsQuoting(v)
  {
  }

  function EscapeAll(vs: seq<string>): (es: seq<string>)
    ensures |es| == |vs|
    ensures forall i :: 0 <= i < |vs| ==> es[i] == Escape(vs[i])
  {
    seq(|vs|, i requires 0 <= i < |vs| => Escape(vs[i]))
  }

  /** One CSV line: the escaped values joined with `,`. */
  function Line(vs: seq<string>): string {
    Join(EscapeAll(vs), ",")
  }

  // ----------------------------------------------------------- round trip

  /** The reader copies a run without quotes and commas into the current field. */
  lemma {:induction false} ScanPlain(v: string, x: string, current: string, acc: seq<string>)
    requires '"' !in v && ',' !in v
    ensures Scan(v + x, false, current, acc) == Scan(x, false, current + v, acc)
    decreases |v|
  {
    if v == [] {
      assert v + x == x;
      assert current + v == current;
    } else {
      var rest := v[1..];
      assert (v + x)[0] == v[0];
      assert (v + x)[1..] == rest + x;
      assert '"' !in rest && ',' !in rest;
      ScanPlain(rest, x, current + [v[0]], acc);
      assert current + [v[0]] + rest == current + v;
    }
  }

  /** One step of the reader inside quotes over a doubled quote. */
  lemma ScanDoubledQuote(s: string, current: string, acc: seq<string>)
    requires |s| >= 2 && s[0] == '"' && s[1] == '"'
    ensures Scan(s, true, current, acc) == Scan(s[2..], true, current + "\"", acc)
  {
  }

  /** One step of the reader inside quotes over a closing quote. */
  lemma ScanClosingQuote(s: string, current: string, acc: seq<string>)
    requires |s| >= 1 && s[0] == '"' && (|s| == 1 || s[1] != '"')
    ensures Scan(s, true, current, acc) == Scan(s[1..], false, current, acc)
  {
  }

  /** One step of the reader inside quotes over any other character. */
  lemma ScanQuotedChar(s: string, current: string, acc: seq<string>)
    requires |s| >= 1 && s[0] != '"'
    ensures Scan(s, true, current, acc) == Scan(s[1..], true, current + [s[0]], acc)
  {
  }

  /** Inside quotes the reader turns every doubled quote back into one and stops at the closing quote. */
  lemma {:induction false} ScanQuoted(v: string, x: string, current: string, acc: seq<string>)
    requires x == [] || x[0] != '"'
    ensures Scan(DoubleQuotes(v) + "\"" + x, true, current, acc) == Scan(x, false, current + v, acc)
    decreases |v|
  {
    if v == [] {
      ScanClosing(x, current, acc);
    } else if v[0] == '"' {
      ScanQuoted(v[1..], x, current + "\"", acc);
      ScanQuotedQuote(v, x, current, acc);
    } else {
      ScanQuoted(v[1..], x, current + [v[0]], acc);
      ScanQuotedPlain(v, x, current, acc);
    }
  }

  lemma ScanClosing(x: string, current: string, acc: seq<string>)
    requires x == [] || x[0] != '"'
    ensures Scan(DoubleQuotes([]) + "\"" + x, true, current, acc) == Scan(x, false, current + [], acc)
  {
    var s := DoubleQuotes([]) + "\"" + x;
    assert s == "\"" + x;
    assert s[1..] == x;
    ScanClosingQuote(s, current, acc);
    assert current + [] == current;
  }

  /** A quote in the value comes back from its doubled form. */
  lemma ScanQuotedQuote(v: string, x: string, current: string, acc: seq<string>)
    requires v != [] && v[0] == '"'
    requires Scan(DoubleQuotes(v[1..]) + "\"" + x, true, current + "\"", acc)
      == Scan(x, false, current + "\"" + v[1..], acc)
    ensures Scan(DoubleQuotes(v) + "\"" + x, true, current, acc) == Scan(x, false, current + v, acc)
  {
    var rest := DoubleQuotes(v[1..]) + "\"" + x;
    calc {
      Scan(DoubleQuotes(v) + "\"" + x, true, current, acc);
      { assert DoubleQuotes(v) + "\"" + x == "\"\"" + rest; }
      Scan("\"\"" + rest, true, current, acc);
      { assert ("\"\"" + rest)[2..] == rest;
        ScanDoubledQuote("\"\"" + rest, current, acc); }
      Scan(rest, true, current + "\"", acc);
      Scan(x, false, current + "\"" + v[1..], acc);
      { assert current + "\"" + v[1..] == current + v; }
      Scan(x, false, current + v, acc);
    }
  }

  /** Any other character of the value is copied. */
  lemma ScanQuotedPlain(v: string, x: string, current: string, acc: seq<string>)
    requires v != [] && v[0] != '"'
    requires Scan(DoubleQuotes(v[1..]) + "\"" + x, true, current + [v[0]], acc)
      == Scan(x, false, current + [v[0]] + v[1..], acc)
    ensures Scan(DoubleQuotes(v) + "\"" + x, true, current, acc) == Scan(x, false, current + v, acc)
  {
    var rest := DoubleQuotes(v[1..]) + "\"" + x;
    calc {
      Scan(DoubleQuotes(v) + "\"" + x, true, current, acc);
      { assert DoubleQuotes(v) + "\"" + x == [v[0]] + rest; }
      Scan([v[0]] + rest, true, current, acc);
      { assert ([v[0]] + rest)[1..] == rest;
        ScanQuotedChar([v[0]] + rest, current, acc); }
      Scan(rest, true, current + [v[0]], acc);
      Scan(x, false, current + [v[0]] + v[1..], acc);
      { assert current + [v[0]] + v[1..] == current + v; }
      Scan(x, false, current + v, acc);
    }
  }

  /** An escaped value followed by a comma or the end of the line is read back
      into the current field unchanged. */
  lemma ScanEscaped(v: string, x: string, acc: seq<string>)
    requires x == [] || x[0] == ','
    ensures Scan(Escape(v) + x, false, [], acc) == Scan(x, false, v, acc)
  {
    if NeedsQuoting(v) {
      var s := Escape(v) + x;
      var body := DoubleQuotes(v) + "\"" + x;
      assert s == "\"" + body;
      assert s[0] == '"' && s[1..] == body;
      assert Scan(s, false, [], acc) == Scan(body, true, [], acc);
      ScanQuoted(v, x, [], acc);
      assert [] + v == v;
    } else {
      ScanPlain(v, x, [], acc);
      assert [] + v == v;
    }
  }

  /** Reading the field after a comma. */
  lemma ScanComma(x: string, current: string, acc: seq<string>)
    ensures Scan("," + x, false, current, acc) == Scan(x, false, [], acc + [current])
  {
    assert ("," + x)[0] == ',' && ("," + x)[1..] == x;
  }

  /** A line of several values is the first escaped value, a comma and the rest. */
  lemma LineCons(vs: seq<string>)
    requires |vs| >= 2
    ensures Line(vs) == Escape(vs[0]) + ("," + Line(vs[1..]))
  {
    var es := EscapeAll(vs);
    assert EscapeAll(vs[1..]) == es[1..];
    assert es[0] + "," + Join(es[1..], ",") == es[0] + ("," + Join(es[1..], ","));
  }

  /** The reader splits an exported line back into exactly the values it
      was made of. */
  lemma {:induction false} ScanLine(vs: seq<string>, acc: seq<string>)
    requires |vs| >= 1
    ensures Scan(Line(vs), false, [], acc) == acc + vs
    decreases |vs|
  {
    if |vs| == 1 {
      ScanLineOne(vs, acc);
    } else {
      var rest := vs[1..];
      ScanLine(rest, acc + [vs[0]]);
      ScanLineStep(vs, acc);
    }
  }

  lemma ScanLineOne(vs: seq<string>, acc: seq<string>)
    requires |vs| == 1
    ensures Scan(Line(vs), false, [], acc) == acc + vs
  {
    var v := vs[0];
    assert Line(vs) == Escape(v) + [];
    ScanEscaped(v, [], acc);
    assert vs == [v];
  }

  lemma ScanLineStep(vs: seq<string>, acc: seq<string>)
    requires |vs| >= 2
    requires Scan(Line(vs[1..]), false, [], acc + [vs[0]]) == acc + [vs[0]] + vs[1..]
    ensures Scan(Line(vs), false, [], acc) == acc + vs
  {
    var v, rest := vs[0], vs[1..];
    var tail := Line(rest);
    LineCons(vs);
    ScanEscaped(v, "," + tail, acc);
    ScanComma(tail, v, acc);
    ConsAssoc(acc, v, rest);
    assert [v] + rest == vs;
  }

  lemma ConsAssoc<T>(a: seq<T>, x: T, b: seq<T>)
    ensures a + [x] + b == a + ([x] + b)
  {
  }

  /** Reading an exported line gives one field per value, each the trimmed
      value: commas, quotes and line feeds inside values survive. */
  lemma ReadLine(vs: seq<string>)
    requires |vs| >= 1
    ensures RowFields(Line(vs)) == TrimAll(vs)
  {
    ScanLine(vs, []);
    assert [] + vs == vs;
  }

  /** Values without surrounding whitespace come back exactly. */
  lemma ReadLineTrimmed(vs: seq<string>)
    requires |vs| >= 1
    requires forall i :: 0 <= i < |vs| ==> IsTrimmed(vs[i])
    ensures RowFields(Line(vs)) == vs
  {
    ReadLine(vs);
    forall i | 0 <= i < |vs| ensures TrimAll(vs)[i] == vs[i] {
      TrimOfTrimmed(vs[i]);
    }
  }

  // --------------------------------------------------------------- export

  const IndexColumn := "_index"

  /** `["_index", ...Array.from(allCols)]`. */
  function ExportColumns(results: seq<SearchResult>): seq<string> {
    [IndexColumn] + KeyUnion(results)
  }

  /** The unescaped cells of one result: its index name under `_index`
      (shadowing a data column of that name), `row[c] ?? ""` elsewhere. */
  function RawCells(r: SearchResult, columns: seq<string>): (cells: seq<string>)
    ensures |cells| == |columns|
    ensures forall i :: 0 <= i < |columns| ==>
      cells[i] == if columns[i] == IndexColumn then r.index else Cell(r.row, columns[i])
  {
    seq(|columns|, i requires 0 <= i < |columns| =>
      if columns[i] == IndexColumn then r.index else Cell(r.row, columns[i]))
  }

  /** `columns.map(c => ...).join(",")` for one result. */
  function DataLine(r: SearchResult, columns: seq<string>): string {
    Line(RawCells(r, columns))
  }

  /** One line per result, in result order. */
  function DataLines(results: seq<SearchResult>, columns: seq<string>): (lines: seq<string>)
    ensures |lines| == |results|
    ensures forall i :: 0 <= i < |results| ==> lines[i] == DataLine(results[i], columns)
  {
    if results == [] then []
    else DataLines(results[..|results| - 1], columns) + [DataLine(results[|results| - 1], columns)]
  }

  /** The lines of the file: the header, then one line per result. */
  function ExportLines(results: seq<SearchResult>): (lines: seq<string>)
    ensures |lines| == |results| + 1
  {
    var columns := ExportColumns(results);
    [Line(columns)] + DataLines(results, columns)
  }

  /** The exported text, or `None` when there is nothing to export. */
  function ExportText(results: seq<SearchResult>): (csv: Option<string>)
    ensures csv.None? <==> results == []
  {
    if |results| == 0 then None else Some(Join(ExportLines(results), "\n"))
  }

  /** The header reads back as `_index` and the key union; every data line
      reads back as one field per column holding the trimmed cell. */
  lemma ExportReadsBack(results: seq<SearchResult>, i: int)
    requires 0 <= i < |results|
    ensures RowFields(ExportLines(results)[0]) == TrimAll(ExportColumns(results))
    ensures RowFields(ExportLines(results)[i + 1]) == TrimAll(RawCells(results[i], ExportColumns(results)))
    ensures |RowFields(ExportLines(results)[i + 1])| == |ExportColumns(results)|
  {
    ReadLine(ExportColumns(results));
    ReadLine(RawCells(results[i], ExportColumns(results)));
  }

  /** `exportResults` up to the download: the key union is collected by the
      nested loop, then the lines are assembled. */
  method ExportResults(results: seq<SearchResult>) returns (csv: Option<string>)
    ensures csv == ExportText(results)
  {
    if |results| == 0 {
      return None;
    }
    var keys := CollectKeys(results);
    var columns := [IndexColumn] + keys;
    var data: seq<string> := [];
    var i := 0;
    while i < |results|
      invariant 0 <= i <= |results|
      invariant data == DataLines(results[..i], columns)
    {
      assert results[..i + 1][..i] == results[..i];
      data := data + [DataLine(results[i], columns)];
      i := i + 1;
    }
    assert results[..i] == results;
    csv := Some(Join([Line(columns)] + data, "\n"));
  }
}
