/** The CSV reader of the store (src/lib/csv-store.ts:73-120): the text is
    cut into lines at `\n` or `\r\n`, blank lines are dropped, the first
    line is the header and every further line becomes one record keyed by
    the header's column names. A line is cut into fields by a two-state
    scanner: outside quotes a comma ends a field and a `"` (anywhere in a
    field) enters quoted mode; inside quotes `""` stands for one `"` and a
    lone `"` leaves quoted mode. Every field is trimmed. */
module CsvParse {
  import opened Text
  import opened Ordered
  import opened Records

  // ---------------------------------------------------------------- lines

  /** Drops the `\r` of a `\r\n` separator. */
  function DropCR(p: string): (r: string)
    ensures r == p || (p == r + "\r")
  {
    if |p| > 0 && p[|p| - 1] == '\r' then p[..|p| - 1] else p
  }

  /** `content.split(/\r?\n/)`. */
  function SplitLines(s: string): (lines: seq<string>)
    ensures |lines| >= 1
    ensures forall l :: l in lines ==> '\n' !in l
    decreases |s|
  {
    if '\n' in s then
      var i := FirstIndex(s, '\n');
      assert s[..i] == DropCR(s[..i]) || s[..i] == DropCR(s[..i]) + "\r";
      [DropCR(s[..i])] + SplitLines(s[i + 1..])
    else [s]
  }

  /** Without `\r`, joining the lines with `\n` gives the text back. */
  lemma {:induction false} JoinSplitLines(s: string)
    requires '\r' !in s
    ensures Join(SplitLines(s), "\n") == s
    decreases |s|
  {
    if '\n' in s {
      var i := FirstIndex(s, '\n');
      var a, b := s[..i], s[i + 1..];
      assert '\r' !in a;
      assert '\r' !in b;
      assert DropCR(a) == a;
      assert SplitLines(s) == [a] + SplitLines(b);
      JoinCons(a, SplitLines(b), "\n");
      JoinSplitLines(b);
      assert s == a + "\n" + b;
    }
  }

  /** Lines without `\n` and without a final `\r`, joined with `\n`, split back into themselves. */
  lemma {:induction false} SplitJoinedLines(lines: seq<string>)
    requires |lines| >= 1
    requires forall l :: l in lines ==> '\n' !in l && DropCR(l) == l
    ensures SplitLines(Join(lines, "\n")) == lines
    decreases |lines|
  {
    if |lines| > 1 {
      var head, rest := lines[0], Join(lines[1..], "\n");
      var s := Join(lines, "\n");
      assert s == head + "\n" + rest;
      assert s[|head|] == '\n';
      assert s[..|head|] == head;
      assert FirstIndex(s, '\n') == |head| by {
        FirstIndexOfLast(head, '\n');
        FirstIndexOfPrefix(head + "\n", rest, '\n');
        assert head + "\n" + rest == (head + "\n") + rest;
      }
      assert s[|head| + 1..] == rest;
      SplitJoinedLines(lines[1..]);
    }
  }

  /** Lines without `\n`, joined with `\r\n`, split back into themselves: the
      `\r` of every separator is dropped, and only that one. */
  lemma {:induction false} SplitCrlfJoinedLines(lines: seq<string>)
    requires |lines| >= 1
    requires forall l :: l in lines ==> '\n' !in l
    ensures SplitLines(Join(lines, "\r\n")) == lines
    decreases |lines|
  {
    if |lines| == 1 {
      assert lines[0] in lines;
    } else {
      var head, rest := lines[0], Join(lines[1..], "\r\n");
      var s := Join(lines, "\r\n");
      var hr := head + "\r";
      assert head in lines;
      assert s == (hr + "\n") + rest;
      assert '\n' !in hr;
      assert FirstIndex(s, '\n') == |hr| by {
        FirstIndexOfLast(hr, '\n');
        FirstIndexOfPrefix(hr + "\n", rest, '\n');
      }
      assert s[..|hr|] == hr;
      assert DropCR(hr) == head;
      assert s[|hr| + 1..] == rest;
      SplitCrlfJoinedLines(lines[1..]);
    }
  }

  /** `lines.filter((l) => l.trim() !== "")`. */
  function NonBlank(lines: seq<string>): seq<string> {
    if lines == [] then []
    else if Trim(lines[0]) != "" then [lines[0]] + NonBlank(lines[1..])
    else NonBlank(lines[1..])
  }

  /** A line is kept exactly when it is not blank, and nothing is added. */
  lemma {:induction false} NonBlankMembers(lines: seq<string>)
    ensures forall l :: l in NonBlank(lines) <==> l in lines && Trim(l) != ""
    ensures |NonBlank(lines)| <= |lines|
  {
    if lines != [] {
      var x, rest := lines[0], lines[1..];
      NonBlankMembers(rest);
      assert lines == [x] + rest;
      NonBlankCons(x, rest);
      forall l ensures l in NonBlank(lines) <==> l in lines && Trim(l) != "" {
        assert l in lines <==> l == x || l in rest;
      }
    }
  }

  /** The filter looks at one line at a time: a line is kept, in place, exactly when it is not blank. */
  lemma NonBlankCons(l: string, lines: seq<string>)
    ensures NonBlank([l] + lines) == (if Trim(l) != "" then [l] else []) + NonBlank(lines)
  {
    assert ([l] + lines)[1..] == lines;
  }

  /** Filtering two runs of lines is filtering each: kept lines keep their order and their repeats. */
  lemma {:induction false} NonBlankAppend(a: seq<string>, b: seq<string>)
    ensures NonBlank(a + b) == NonBlank(a) + NonBlank(b)
    decreases |a|
  {
    if a == [] {
      assert a + b == b;
    } else {
      var x, t := a[0], a[1..];
      var keep := if Trim(x) != "" then [x] else [];
      assert a + b == [x] + (t + b);
      assert a == [x] + t;
      NonBlankCons(x, t + b);
      NonBlankAppend(t, b);
      NonBlankCons(x, t);
      ConcatAssoc(keep, NonBlank(t), NonBlank(b));
    }
  }

  lemma ConcatAssoc<T>(p: seq<T>, q: seq<T>, r: seq<T>)
    ensures p + (q + r) == (p + q) + r
  {
  }

  /** Nothing is kept of a run of blank lines. */
  lemma {:induction false} NonBlankOfBlank(a: seq<string>)
    requires forall i :: 0 <= i < |a| ==> Trim(a[i]) == ""
    ensures NonBlank(a) == []
    decreases |a|
  {
    if a != [] {
      NonBlankOfBlank(a[1..]);
    }
  }

  /** The lines the reader keeps. */
  function RetainedLines(content: string): seq<string> {
    NonBlank(SplitLines(content))
  }

  // --------------------------------------------------------------- fields

  /** The field scanner, as a function of the unread rest `s` of the line, the
      quote state, the field read so far and the fields already ended. The
      fields come out as read; `RowFields` trims them. */
  function Scan(s: string, inQuotes: bool, current: string, acc: seq<string>): seq<string>
    decreases |s|
  {
    if s == [] then acc + [current]
    else if inQuotes then
      if s[0] == '"' then
        if |s| > 1 && s[1] == '"' then Scan(s[2..], true, current + "\"", acc)
        else Scan(s[1..], false, current, acc)
      else Scan(s[1..], true, current + [s[0]], acc)
    else if s[0] == '"' then Scan(s[1..], true, current, acc)
    else if s[0] == ',' then Scan(s[1..], false, "", acc + [current])
    else Scan(s[1..], false, current + [s[0]], acc)
  }

  /** `vs.map(v => v.trim())`. */
  function TrimAll(vs: seq<string>): (r: seq<string>)
    ensures |r| == |vs|
    ensures forall i :: 0 <= i < |vs| ==> r[i] == Trim(vs[i])
  {
    seq(|vs|, i requires 0 <= i < |vs| => Trim(vs[i]))
  }

  /** Trimming one more field. */
  lemma TrimAllSnoc(vs: seq<string>, v: string)
    ensures TrimAll(vs + [v]) == TrimAll(vs) + [Trim(v)]
  {
  }

  /** The fields of one line, each trimmed as it is pushed. */
  function RowFields(line: string): (fields: seq<string>)
    ensures forall f :: f in fields ==> IsTrimmed(f)
  {
    TrimAll(Scan(line, false, "", []))
  }

  /** `parseRow`: the character loop with its `current` buffer, `inQuotes` flag
      and the extra step over the second `"` of a doubled quote. */
  method ParseRow(line: string) returns (result: seq<string>)
    ensures result == RowFields(line)
    ensures |result| == 1 + UnquotedCommas(line, false)
  {
    result := [];
    var current := "";
    var inQuotes := false;
    var i := 0;
    ghost var read: seq<string> := [];
    while i < |line|
      invariant 0 <= i <= |line|
      invariant result == TrimAll(read)
      invariant Scan(line[i..], inQuotes, current, read) == Scan(line, false, "", [])
    {
      var ch := line[i];
      assert line[i..][0] == ch && line[i..][1..] == line[i + 1..];
      if inQuotes {
        if ch == '"' {
          if i + 1 < |line| && line[i + 1] == '"' {
            assert line[i..][2..] == line[i + 2..];
            current := current + "\"";
            i := i + 1;
          } else {
            inQuotes := false;
          }
        } else {
          current := current + [ch];
        }
      } else {
        if ch == '"' {
          inQuotes := true;
        } else if ch == ',' {
          TrimAllSnoc(read, current);
          result := result + [Trim(current)];
          read := read + [current];
          current := "";
        } else {
          current := current + [ch];
        }
      }
      i := i + 1;
    }
    TrimAllSnoc(read, current);
    result := result + [Trim(current)];
    FieldCount(line, false, "", []);
  }

  /** The commas the scanner meets outside quoted mode. */
  function UnquotedCommas(s: string, inQuotes: bool): nat
    decreases |s|
  {
    if s == [] then 0
    else if inQuotes then
      if s[0] == '"' then
        if |s| > 1 && s[1] == '"' then UnquotedCommas(s[2..], true)
        else UnquotedCommas(s[1..], false)
      else UnquotedCommas(s[1..], true)
    else if s[0] == '"' then UnquotedCommas(s[1..], true)
    else if s[0] == ',' then 1 + UnquotedCommas(s[1..], false)
    else UnquotedCommas(s[1..], false)
  }

  /** One field per comma outside quotes, plus the last one. */
  lemma {:induction false} FieldCount(s: string, inQuotes: bool, current: string, acc: seq<string>)
    ensures |Scan(s, inQuotes, current, acc)| == |acc| + 1 + UnquotedCommas(s, inQuotes)
    decreases |s|
  {
    if s == [] {
    } else if inQuotes {
      if s[0] == '"' {
        if |s| > 1 && s[1] == '"' { FieldCount(s[2..], true, current + "\"", acc); }
        else { FieldCount(s[1..], false, current, acc); }
      } else {
        FieldCount(s[1..], true, current + [s[0]], acc);
      }
    } else if s[0] == '"' {
      FieldCount(s[1..], true, current, acc);
    } else if s[0] == ',' {
      FieldCount(s[1..], false, "", acc + [current]);
    } else {
      FieldCount(s[1..], false, current + [s[0]], acc);
    }
  }

  /** A quote that is never closed takes the rest of the line, commas included. */
  lemma {:induction false} UnterminatedQuote(s: string, current: string, acc: seq<string>)
    requires '"' !in s
    ensures Scan(s, true, current, acc) == acc + [current + s]
    decreases |s|
  {
    if s != [] {
      assert '"' !in s[1..];
      UnterminatedQuote(s[1..], current + [s[0]], acc);
      assert current + [s[0]] + s[1..] == current + s;
    } else {
      assert current + s == current;
    }
  }

  // ----------------------------------------------------------------- rows

  /** `values[i] ?? ""`. */
  function ValueAt(values: seq<string>, i: nat): string {
    if i < |values| then values[i] else ""
  }

  /** The record after the first `i` steps of
      `columns.forEach((col, i) => { row[col] = values[i] ?? "" })`. */
  function Assigned(columns: seq<string>, values: seq<string>, i: nat): Row
    requires i <= |columns|
  {
    if i == 0 then []
    else Put(Assigned(columns, values, i - 1), columns[i - 1], ValueAt(values, i - 1))
  }

  /** The record that the whole `forEach` leaves behind. */
  function MakeRow(columns: seq<string>, values: seq<string>): Row {
    Assigned(columns, values, |columns|)
  }

  /** `j` is the last of the first `i` header positions carrying its name. */
  predicate LastBefore(columns: seq<string>, i: nat, j: int) {
    0 <= j < i <= |columns| && forall k :: j < k < i ==> columns[k] != columns[j]
  }

  /** `j` is the last position of its column name. */
  predicate LastOccurrence(columns: seq<string>, j: int) {
    LastBefore(columns, |columns|, j)
  }

  /** After `i` steps the keys are the distinct names among the first `i` columns, first-seen order. */
  lemma {:induction false} AssignedKeys(columns: seq<string>, values: seq<string>, i: nat)
    requires i <= |columns|
    ensures Keys(Assigned(columns, values, i)) == Dedup(columns[..i])
  {
    if i > 0 {
      AssignedKeys(columns, values, i - 1);
      PutKeys(Assigned(columns, values, i - 1), columns[i - 1], ValueAt(values, i - 1));
      assert columns[..i] == columns[..i - 1] + [columns[i - 1]];
      DedupSnoc(columns[..i - 1], columns[i - 1]);
    }
  }

  /** After `i` steps a name reads the value of its last position so far. */
  lemma {:induction false} AssignedLast(columns: seq<string>, values: seq<string>, i: nat, j: int)
    requires LastBefore(columns, i, j)
    ensures Get(Assigned(columns, values, i), columns[j]) == Some(ValueAt(values, j))
  {
    var prev := Assigned(columns, values, i - 1);
    var c, v, col := columns[i - 1], ValueAt(values, i - 1), columns[j];
    assert Assigned(columns, values, i) == Put(prev, c, v);
    if j < i - 1 {
      assert LastBefore(columns, i - 1, j);
      AssignedLast(columns, values, i - 1, j);
      PutOther(prev, c, v, col, ValueAt(values, j));
    } else {
      PutGet(prev, c, v, col);
    }
  }

  /** A record's keys are the distinct column names in first-seen order; a
      column reads the value at the last header position carrying its name,
      or `""` past the end of the line; a name not in the header is absent. */
  lemma RowShape(columns: seq<string>, values: seq<string>)
    ensures Keys(MakeRow(columns, values)) == Dedup(columns)
    ensures DistinctKeys(MakeRow(columns, values))
    ensures forall j :: LastOccurrence(columns, j) ==>
      Get(MakeRow(columns, values), columns[j]) == Some(ValueAt(values, j))
    ensures forall col :: col !in columns ==> Get(MakeRow(columns, values), col) == None
  {
    AssignedKeys(columns, values, |columns|);
    assert columns[..|columns|] == columns;
    forall col | col !in columns ensures Get(MakeRow(columns, values), col) == None {
      GetMembers(MakeRow(columns, values), col);
    }
    forall j | LastOccurrence(columns, j)
      ensures Get(MakeRow(columns, values), columns[j]) == Some(ValueAt(values, j))
    {
      AssignedLast(columns, values, |columns|, j);
    }
  }

  lemma AssignedStep(columns: seq<string>, values: seq<string>, i: nat)
    requires i < |columns|
    ensures Assigned(columns, values, i + 1) ==
      Put(Assigned(columns, values, i), columns[i], if i < |values| then values[i] else "")
  {
  }

  /** The row builder: one assignment per header position. */
  method BuildRow(columns: seq<string>, values: seq<string>) returns (row: Row)
    ensures row == MakeRow(columns, values)
  {
    row := [];
    var i := 0;
    while i < |columns|
      invariant 0 <= i <= |columns|
      invariant row == Assigned(columns, values, i)
    {
      AssignedStep(columns, values, i);
      row := Put(row, columns[i], if i < |values| then values[i] else "");
      i := i + 1;
    }
  }

  // ---------------------------------------------------------------- table

  /** What `parseCsv` returns. */
  datatype Table = Table(columns: seq<string>, rows: seq<Row>)

  /** One record per line, each keyed by `columns`. */
  function RowsOf(columns: seq<string>, lines: seq<string>): (rows: seq<Row>)
    ensures |rows| == |lines|
    ensures forall k :: 0 <= k < |lines| ==> rows[k] == MakeRow(columns, RowFields(lines[k]))
  {
    seq(|lines|, k requires 0 <= k < |lines| => MakeRow(columns, RowFields(lines[k])))
  }

  lemma RowsOfSnoc(columns: seq<string>, lines: seq<string>, line: string)
    ensures RowsOf(columns, lines + [line]) == RowsOf(columns, lines) + [MakeRow(columns, RowFields(line))]
  {
  }

  lemma RowsOfStep(columns: seq<string>, lines: seq<string>, k: nat)
    requires 1 <= k < |lines|
    ensures RowsOf(columns, lines[1..k + 1]) == RowsOf(columns, lines[1..k]) + [MakeRow(columns, RowFields(lines[k]))]
  {
    assert lines[1..k + 1] == lines[1..k] + [lines[k]];
    RowsOfSnoc(columns, lines[1..k], lines[k]);
  }

  /** The meaning of `parseCsv`. */
  function Parse(content: string): Table {
    var lines := RetainedLines(content);
    if lines == [] then Table([], [])
    else
      var columns := RowFields(lines[0]);
      Table(columns, RowsOf(columns, lines[1..]))
  }

  /** Blank input gives an empty table; otherwise the header has at least one
      column, there is one record per retained line after the header, and each
      record carries exactly the header's names as keys. */
  lemma ParseShape(content: string)
    ensures Parse(content) == Table([], []) <==> RetainedLines(content) == []
    ensures RetainedLines(content) != [] ==>
      |Parse(content).columns| >= 1 &&
      |Parse(content).rows| == |RetainedLines(content)| - 1
    ensures forall row :: row in Parse(content).rows ==>
      Keys(row) == Dedup(Parse(content).columns) && DistinctKeys(row)
  {
    var lines := RetainedLines(content);
    if lines != [] {
      FieldCount(lines[0], false, "", []);
      var columns := RowFields(lines[0]);
      var rows := RowsOf(columns, lines[1..]);
      forall row | row in rows ensures Keys(row) == Dedup(columns) && DistinctKeys(row) {
        var k :| 0 <= k < |rows| && rows[k] == row;
        RowShape(columns, RowFields(lines[1..][k]));
      }
    }
  }

  /** The header is the first non-blank line, and the records come from the
      non-blank lines after it, in order and with repeats. */
  lemma HeaderIsFirstNonBlank(content: string, j: nat)
    requires j < |SplitLines(content)| && Trim(SplitLines(content)[j]) != ""
    requires forall i :: 0 <= i < j ==> Trim(SplitLines(content)[i]) == ""
    ensures Parse(content).columns == RowFields(SplitLines(content)[j])
    ensures Parse(content).rows == RowsOf(Parse(content).columns, NonBlank(SplitLines(content)[j + 1..]))
  {
    var ls := SplitLines(content);
    FirstNonBlank(ls, j);
    ParseOfRetained(content, ls[j], NonBlank(ls[j + 1..]));
  }

  lemma FirstNonBlank(ls: seq<string>, j: nat)
    requires j < |ls| && Trim(ls[j]) != ""
    requires forall i :: 0 <= i < j ==> Trim(ls[i]) == ""
    ensures NonBlank(ls) == [ls[j]] + NonBlank(ls[j + 1..])
  {
    var before, after := ls[..j], ls[j + 1..];
    CutAt(ls, j);
    assert forall i :: 0 <= i < |before| ==> before[i] == ls[i];
    NonBlankOfBlank(before);
    calc {
      NonBlank(ls);
      NonBlank(before + ([ls[j]] + after));
      { NonBlankAppend(before, [ls[j]] + after); }
      NonBlank(before) + NonBlank([ls[j]] + after);
      { NonBlankCons(ls[j], after); }
      [] + ([ls[j]] + NonBlank(after));
    }
  }

  lemma CutAt<T>(s: seq<T>, j: nat)
    requires j < |s|
    ensures s == s[..j] + ([s[j]] + s[j + 1..])
  {
  }

  lemma ParseOfRetained(content: string, header: string, rest: seq<string>)
    requires RetainedLines(content) == [header] + rest
    ensures Parse(content).columns == RowFields(header)
    ensures Parse(content).rows == RowsOf(RowFields(header), rest)
  {
    assert RetainedLines(content)[1..] == rest;
  }

  /** One record line: its fields, then the row built from them. */
  method ReadRecord(columns: seq<string>, line: string) returns (row: Row)
    ensures row == MakeRow(columns, RowFields(line))
  {
    var values := ParseRow(line);
    row := BuildRow(columns, values);
  }

  /** `parseCsv`: the header is read once and every further line is turned into a record. */
  method ParseCsv(content: string) returns (table: Table)
    ensures table == Parse(content)
  {
    var lines := RetainedLines(content);
    if |lines| == 0 {
      return Table([], []);
    }
    var columns := ParseRow(lines[0]);
    var rows: seq<Row> := [];
    var k := 1;
    while k < |lines|
      invariant 1 <= k <= |lines|
      invariant rows == RowsOf(columns, lines[1..k])
    {
      RowsOfStep(columns, lines, k);
      var row := ReadRecord(columns, lines[k]);
      rows := rows + [row];
      k := k + 1;
    }
    assert lines[1..k] == lines[1..];
    table := Table(columns, rows);
  }
}
