/** `carquet export --format csv` (src/cli/commands.c), and a parser that undoes it. */
module Csv {
  import opened Bytes
  import opened Modulo
  import opened Rows

  // ---- the format: section 2 of RFC 4180, with LF at the end of every record ----

  predicate NeedsQuote(v: string)
  {
    exists i | 0 <= i < |v| :: v[i] == ',' || v[i] == '"' || v[i] == '\n' || v[i] == '\r'
  }

  /** Every quote written twice. */
  function Doubled(v: string): string
  {
    if v == "" then "" else (if v[0] == '"' then "\"\"" else [v[0]]) + Doubled(v[1..])
  }

  function Field(v: string): string
  {
    if NeedsQuote(v) then "\"" + Doubled(v) + "\"" else v
  }

  function Record(fields: seq<string>): string
    requires fields != []
  {
    if |fields| == 1 then Field(fields[0]) + "\n" else Field(fields[0]) + "," + Record(fields[1..])
  }

  predicate IsTable(table: seq<seq<string>>)
  {
    forall r | 0 <= r < |table| :: table[r] != []
  }

  function Text(table: seq<seq<string>>): string
    requires IsTable(table)
  {
    if table == [] then "" else Record(table[0]) + Text(table[1..])
  }

  /** A value without a comma, a quote or a line end stands as it is, and only such a value. */
  lemma FieldForms(v: string)
    ensures (forall c | c in v :: c != ',' && c != '"' && c != '\n' && c != '\r') ==> Field(v) == v
    ensures (exists c | c in v :: c == ',' || c == '"' || c == '\n' || c == '\r') ==>
              Field(v) == "\"" + Doubled(v) + "\""
  {
    hide Doubled;
    if NeedsQuote(v) {
      var i :| 0 <= i < |v| && (v[i] == ',' || v[i] == '"' || v[i] == '\n' || v[i] == '\r');
      assert v[i] in v;
    }
  }

  /** Doubling goes character by character, and changes only quotes. */
  lemma {:induction false} DoubledJoins(v: string, w: string)
    ensures Doubled(v + w) == Doubled(v) + Doubled(w)
    decreases |v|
  {
    if v == "" {
      assert v + w == w && "" + Doubled(w) == Doubled(w);
    } else {
      DoubledJoins(v[1..], w);
      assert (v + w)[1..] == v[1..] + w;
      Concat3(if v[0] == '"' then "\"\"" else [v[0]], Doubled(v[1..]), Doubled(w));
    }
  }

  lemma DoubledOne(c: char)
    ensures Doubled("") == ""
    ensures Doubled([c]) == if c == '"' then "\"\"" else [c]
  {
    assert [c][1..] == "";
  }

  /** Fields are separated by commas, and every record ends with a line feed. */
  lemma RecordJoins(field: string, more: seq<string>)
    ensures Record([field]) == Field(field) + "\n"
    ensures more != [] ==> Record([field] + more) == Field(field) + "," + Record(more)
  {
    hide Field;
    assert ([field] + more)[1..] == more;
  }

  lemma TextJoins(record: seq<string>, more: seq<seq<string>>)
    requires record != [] && IsTable(more)
    ensures Text([]) == "" && Text([record] + more) == Record(record) + Text(more)
  {
    hide Record;
    assert ([record] + more)[1..] == more;
  }

  // ---- a parser for it ----

  /** The rest of a quoted field, after its opening quote, and what follows the closing one. */
  function ParseQuoted(s: string): (r: Option<(string, string)>)
    ensures r.Some? ==> |r.value.1| < |s|
  {
    if s == "" then None
    else if s[0] != '"' then
      match ParseQuoted(s[1..])
      case None => None
      case Some((v, rest)) => Some(([s[0]] + v, rest))
    else if |s| > 1 && s[1] == '"' then
      match ParseQuoted(s[2..])
      case None => None
      case Some((v, rest)) => Some((['"'] + v, rest))
    else Some(("", s[1..]))
  }

  /** An unquoted field ends before the next comma or line end. */
  function ParsePlain(s: string): (r: Option<(string, string)>)
    ensures r.Some? ==> |r.value.1| <= |s|
  {
    if s == "" || s[0] == '"' || s[0] == '\r' then None
    else if s[0] == ',' || s[0] == '\n' then Some(("", s))
    else
      match ParsePlain(s[1..])
      case None => None
      case Some((v, rest)) => Some(([s[0]] + v, rest))
  }

  function ParseField(s: string): (r: Option<(string, string)>)
    ensures r.Some? ==> |r.value.1| <= |s|
  {
    if s != "" && s[0] == '"' then ParseQuoted(s[1..]) else ParsePlain(s)
  }

  function ParseRecord(s: string): (r: Option<(seq<string>, string)>)
    ensures r.Some? ==> |r.value.1| < |s|
    decreases |s|
  {
    match ParseField(s)
    case None => None
    case Some((v, rest)) =>
      if rest == "" then None
      else if rest[0] == '\n' then Some(([v], rest[1..]))
      else if rest[0] != ',' then None
      else
        match ParseRecord(rest[1..])
        case None => None
        case Some((vs, rest')) => Some(([v] + vs, rest'))
  }

  function Parse(s: string): (r: Option<seq<seq<string>>>)
    decreases |s|
  {
    if s == "" then Some([]) else
    match ParseRecord(s)
    case None => None
    case Some((vs, rest)) =>
      match Parse(rest)
      case None => None
      case Some(table) => Some([vs] + table)
  }

  // ---- the round trip ----

  lemma ParseQuotedChar(c: char, tail: string)
    requires c != '"' && ParseQuoted(tail).Some?
    ensures ParseQuoted([c] + tail) == Some(([c] + ParseQuoted(tail).value.0, ParseQuoted(tail).value.1))
  {
    assert ([c] + tail)[1..] == tail;
  }

  lemma ParseQuotedPair(tail: string)
    requires ParseQuoted(tail).Some?
    ensures ParseQuoted("\"\"" + tail) == Some((['"'] + ParseQuoted(tail).value.0, ParseQuoted(tail).value.1))
  {
    assert ("\"\"" + tail)[2..] == tail;
  }

  lemma ParseQuotedEnd(rest: string)
    requires rest != "" && rest[0] != '"'
    ensures ParseQuoted("" + "\"" + rest) == Some(("", rest))
  {
    assert ("" + "\"" + rest)[1..] == rest;
  }

  lemma DoubledStep(v: string, end: string)
    requires v != ""
    ensures Doubled(v) + end == (if v[0] == '"' then "\"\"" else [v[0]]) + (Doubled(v[1..]) + end)
    ensures [v[0]] + v[1..] == v
  {
    DoubledFirst(v);
    hide Doubled;
    Concat3(if v[0] == '"' then "\"\"" else [v[0]], Doubled(v[1..]), end);
  }

  lemma DoubledFirst(v: string)
    requires v != ""
    ensures Doubled(v) == (if v[0] == '"' then "\"\"" else [v[0]]) + Doubled(v[1..])
  {
  }

  lemma {:induction false} QuotedRoundTrip(v: string, rest: string)
    requires rest != "" && rest[0] != '"'
    ensures ParseQuoted(Doubled(v) + "\"" + rest) == Some((v, rest))
  {
    hide ParseQuoted;
    if v == "" {
      ParseQuotedEnd(rest);
    } else {
      QuotedRoundTrip(v[1..], rest);
      hide Doubled;
      DoubledStep(v, "\"" + rest);
      Concat3(Doubled(v), "\"", rest);
      Concat3(Doubled(v[1..]), "\"", rest);
      var tail := Doubled(v[1..]) + "\"" + rest;
      if v[0] == '"' {
        ParseQuotedPair(tail);
      } else {
        ParseQuotedChar(v[0], tail);
      }
    }
  }

  lemma Concat3(a: string, b: string, c: string)
    ensures a + b + c == a + (b + c)
  {
  }

  lemma {:induction false} PlainRoundTrip(v: string, rest: string)
    requires !NeedsQuote(v) && rest != "" && (rest[0] == ',' || rest[0] == '\n')
    ensures ParsePlain(v + rest) == Some((v, rest))
  {
    if v == "" {
      assert v + rest == rest;
    } else {
      forall i | 0 <= i < |v[1..]| ensures v[1..][i] == v[i + 1] {}
      PlainRoundTrip(v[1..], rest);
      assert (v + rest)[1..] == v[1..] + rest && [v[0]] + v[1..] == v;
    }
  }

  lemma FieldRoundTrip(v: string, rest: string)
    requires rest != "" && (rest[0] == ',' || rest[0] == '\n')
    ensures ParseField(Field(v) + rest) == Some((v, rest))
  {
    hide ParseQuoted, ParsePlain, Doubled;
    if NeedsQuote(v) {
      QuotedRoundTrip(v, rest);
      assert (Field(v) + rest)[1..] == Doubled(v) + "\"" + rest;
    } else {
      PlainRoundTrip(v, rest);
      assert v != "" ==> (v + rest)[0] == v[0];
    }
  }

  lemma ParseRecordLast(s: string, v: string, rest: string)
    requires ParseField(s) == Some((v, "\n" + rest))
    ensures ParseRecord(s) == Some(([v], rest))
  {
    hide ParseField;
    assert ("\n" + rest)[1..] == rest;
  }

  lemma ParseRecordMore(s: string, v: string, more: string)
    requires ParseField(s) == Some((v, "," + more)) && ParseRecord(more).Some?
    ensures ParseRecord(s) == Some(([v] + ParseRecord(more).value.0, ParseRecord(more).value.1))
  {
    hide ParseField;
    assert ("," + more)[1..] == more;
  }

  lemma RecordBefore(fields: seq<string>, rest: string)
    requires fields != []
    ensures |fields| == 1 ==> Record(fields) + rest == Field(fields[0]) + ("\n" + rest)
    ensures |fields| > 1 ==> Record(fields) + rest == Field(fields[0]) + ("," + (Record(fields[1..]) + rest))
  {
    hide Field;
    if |fields| == 1 {
      Concat3(Field(fields[0]), "\n", rest);
    } else {
      Concat4(Field(fields[0]), ",", Record(fields[1..]), rest);
      Concat3(",", Record(fields[1..]), rest);
    }
  }

  lemma {:induction false} RecordRoundTrip(fields: seq<string>, rest: string)
    requires fields != []
    ensures ParseRecord(Record(fields) + rest) == Some((fields, rest))
    decreases |fields|
  {
    hide ParseField, Field, Record, ParseRecord;
    var s, v := Record(fields) + rest, fields[0];
    RecordBefore(fields, rest);
    if |fields| == 1 {
      FieldRoundTrip(v, "\n" + rest);
      ParseRecordLast(s, v, rest);
      assert [v] == fields;
    } else {
      var more := Record(fields[1..]) + rest;
      RecordRoundTrip(fields[1..], rest);
      FieldRoundTrip(v, "," + more);
      ParseRecordMore(s, v, more);
      assert [v] + fields[1..] == fields;
    }
  }

  /** The text of a table of at least one column is parsed back to the table. */
  lemma {:induction false} TextRoundTrip(table: seq<seq<string>>)
    requires IsTable(table)
    ensures Parse(Text(table)) == Some(table)
    decreases |table|
  {
    hide ParseRecord;
    if table != [] {
      TextRoundTrip(table[1..]);
      RecordRoundTrip(table[0], Text(table[1..]));
      RecordNotEmpty(table[0]);
      assert [table[0]] + table[1..] == table;
    }
  }

  lemma {:induction false} RecordNotEmpty(fields: seq<string>)
    requires fields != []
    ensures Record(fields) != ""
  {
  }

  // ---- the exporter ----

  /** A cell that was never filled prints as the empty string. */
  function Shown(cell: Option<string>): string
  {
    if cell.None? then "" else cell.value
  }

  /** Whether a field must be quoted, up to the first character that says so. */
  method ScanField(v: string) returns (needsQuote: bool)
    ensures needsQuote == NeedsQuote(v)
  {
    needsQuote := false;
    for p := 0 to |v|
      invariant !NeedsQuote(v[..p])
    {
      if v[p] == ',' || v[p] == '"' || v[p] == '\n' || v[p] == '\r' {
        return true;
      }
    }
    assert v[..|v|] == v;
  }

  /** emit_csv_field, onto the end of what is printed. */
  method EmitCsvField(out0: string, cell: Option<string>) returns (out: string)
    ensures out == out0 + Field(Shown(cell))
    ensures cell == None ==> out == out0
    ensures cell.Some? && (forall c | c in cell.value :: c != ',' && c != '"' && c != '\n' && c != '\r') ==>
              out == out0 + cell.value
    ensures cell.Some? && (exists c | c in cell.value :: c == ',' || c == '"' || c == '\n' || c == '\r') ==>
              out == out0 + ("\"" + Doubled(cell.value) + "\"")
  {
    hide NeedsQuote, Doubled;
    FieldForms(if cell.None? then "" else cell.value);
    assert out0 + "" == out0;
    var v := if cell.None? then "" else cell.value;
    var needsQuote := ScanField(v);
    if !needsQuote {
      return out0 + v;
    }
    out := EmitDoubled(out0 + "\"", v);
    out := out + "\"";
    Concat4(out0, "\"", Doubled(v), "\"");
  }

  lemma Concat4(a: string, b: string, c: string, d: string)
    ensures a + b + c + d == a + (b + c + d)
  {
  }

  method EmitDoubled(out0: string, v: string) returns (out: string)
    ensures out == out0 + Doubled(v)
  {
    out := out0;
    assert v[0..] == v;
    for i := 0 to |v|
      invariant out + Doubled(v[i..]) == out0 + Doubled(v)
    {
      assert v[i..][1..] == v[i + 1..];
      ghost var rest := Doubled(v[i + 1..]);
      assert out + ("\"\"" + rest) == out + "\"" + "\"" + rest && out + ([v[i]] + rest) == out + [v[i]] + rest;
      if v[i] == '"' { out := out + "\""; }
      out := out + [v[i]];
    }
    assert v[|v|..] == "" && out + "" == out;
  }

  /** The fields of a record that are still to come. */
  function RecordFrom(fields: seq<string>, c: nat): string
    requires c <= |fields|
    decreases |fields| - c
  {
    if c == |fields| then "" else (if c > 0 then "," else "") + Field(fields[c]) + RecordFrom(fields, c + 1)
  }

  lemma {:induction false} RecordFromStart(fields: seq<string>, c: nat)
    requires c < |fields|
    ensures RecordFrom(fields, c) + "\n" == (if c > 0 then "," else "") + Record(fields[c..])
    decreases |fields| - c
  {
    RecordSplit(fields, c);
    RecordFromSplit(fields, c);
    hide Field, Record, RecordFrom;
    var comma, f := if c > 0 then "," else "", Field(fields[c]);
    if c + 1 < |fields| {
      RecordFromStart(fields, c + 1);
      JoinFields(comma, f, RecordFrom(fields, c + 1), Record(fields[c + 1..]));
    } else {
      RecordDone(fields);
      JoinLast(comma, f, RecordFrom(fields, c + 1));
    }
  }

  lemma RecordFromSplit(fields: seq<string>, c: nat)
    requires c < |fields|
    ensures RecordFrom(fields, c) == (if c > 0 then "," else "") + Field(fields[c]) + RecordFrom(fields, c + 1)
  {
    hide Field;
  }

  lemma JoinFields(comma: string, f: string, next: string, rest: string)
    requires next + "\n" == "," + rest
    ensures comma + f + next + "\n" == comma + (f + "," + rest)
  {
    Concat4(comma, f, next, "\n");
    Concat3(f, next, "\n");
    Concat3(f, ",", rest);
  }

  lemma JoinLast(comma: string, f: string, next: string)
    requires next == ""
    ensures comma + f + next + "\n" == comma + (f + "\n")
  {
    assert comma + f + next == comma + f;
    Concat3(comma, f, "\n");
  }

  lemma RecordSplit(fields: seq<string>, c: nat)
    requires c < |fields|
    ensures Record(fields[c..]) ==
            if c + 1 == |fields| then Field(fields[c]) + "\n"
            else Field(fields[c]) + "," + Record(fields[c + 1..])
  {
    hide Field;
    assert fields[c..][1..] == fields[c + 1..];
  }

  lemma RecordWhole(fields: seq<string>)
    requires fields != []
    ensures Record(fields) == RecordFrom(fields, 0) + "\n"
  {
    RecordFromStart(fields, 0);
    assert fields[0..] == fields && "" + Record(fields) == Record(fields);
  }

  /** One field of a record, after its comma. */
  method EmitNext(out0: string, ghost fields: seq<string>, c: nat, cell: Option<string>) returns (out: string)
    requires c < |fields| && Shown(cell) == fields[c]
    ensures out + RecordFrom(fields, c + 1) == out0 + RecordFrom(fields, c)
  {
    hide Field;
    out := out0;
    if c > 0 { out := out + ","; }
    out := EmitCsvField(out, cell);
    Concat4(out0, if c > 0 then "," else "", Field(fields[c]), RecordFrom(fields, c + 1));
    assert out0 + "" == out0;
  }

  /** The header line; without columns there is only its end. */
  method ExportHeader(names: seq<string>) returns (out: string)
    ensures out == if names == [] then "\n" else Record(names)
  {
    hide RecordFrom, Record, Field;
    out := "";
    NothingBefore(RecordFrom(names, 0));
    for c := 0 to |names|
      invariant out + RecordFrom(names, c) == RecordFrom(names, 0)
    {
      out := EmitNext(out, names, c, Some(names[c]));
    }
    HeaderWhole(names, out);
    out := out + "\n";
  }

  lemma NothingBefore(s: string)
    ensures "" + s == s
  {
  }

  lemma HeaderWhole(names: seq<string>, out: string)
    requires out + RecordFrom(names, |names|) == RecordFrom(names, 0)
    ensures out + "\n" == if names == [] then "\n" else Record(names)
  {
    hide RecordFrom, Record, Field;
    RecordDone(names);
    assert out + "" == out;
    if names == [] {
      assert "" + "\n" == "\n";
    } else {
      RecordWhole(names);
    }
  }

  lemma RecordDone(fields: seq<string>)
    ensures RecordFrom(fields, |fields|) == ""
  {
  }

  /** Row `r` of the flat matrix, as it prints. */
  function RowOf(cells: seq<Option<string>>, r: nat, n: nat): (row: seq<string>)
    requires (r + 1) * n <= |cells|
    ensures |row| == n
  {
    seq(n, c requires 0 <= c < n => (CellUnique(r, c, n, r + 1); Shown(cells[CellAt(r, c, n)])))
  }

  method ExportRow(out0: string, cells: array<Option<string>>, r: nat, n: nat) returns (out: string)
    requires n > 0 && (r + 1) * n <= cells.Length
    ensures out == out0 + Record(RowOf(cells[..], r, n))
  {
    hide RecordFrom, CellAt;
    ghost var row := RowOf(cells[..], r, n);
    RecordWhole(row);
    out := out0;
    for c := 0 to n
      invariant out + RecordFrom(row, c) == out0 + RecordFrom(row, 0)
    {
      CellUnique(r, c, n, r + 1);
      out := EmitNext(out, row, c, cells[CellAt(r, c, n)]);
    }
    RecordDone(row);
    assert out + "" == out;
    assert out0 + RecordFrom(row, 0) + "\n" == out0 + (RecordFrom(row, 0) + "\n");
    out := out + "\n";
  }

  /** The first `k` rows of the matrix. */
  function RowsOf(cells: seq<Option<string>>, k: nat, n: nat): (rows: seq<seq<string>>)
    requires k * n <= |cells|
    ensures |rows| == k && forall r | 0 <= r < k :: |rows[r]| == n
  {
    if k == 0 then []
    else
      MulMonotone(k - 1, k, n);
      RowsOf(cells, k - 1, n) + [RowOf(cells, k - 1, n)]
  }

  lemma {:induction false} TextAppend(table: seq<seq<string>>, row: seq<string>)
    requires IsTable(table) && row != []
    ensures Text(table + [row]) == Text(table) + Record(row)
    decreases |table|
  {
    hide Record;
    if table == [] {
      assert [] + [row] == [row] && [row][1..] == [] && Text([]) == "";
      assert Record(row) + "" == Record(row) == "" + Record(row);
    } else {
      assert (table + [row])[1..] == table[1..] + [row];
      TextAppend(table[1..], row);
      assert Record(table[0]) + (Text(table[1..]) + Record(row)) == Record(table[0]) + Text(table[1..]) + Record(row);
    }
  }

  /** The row loop of cmd_export. */
  method ExportRows(out0: string, cells: array<Option<string>>, numRows: nat, n: nat, ghost header: seq<string>)
    returns (out: string)
    requires n > 0 && numRows * n <= cells.Length && header != [] && out0 == Text([header])
    ensures out == Text([header] + RowsOf(cells[..], numRows, n))
  {
    hide Record, RowOf, Text;
    out := out0;
    MulMonotone(0, numRows, n);
    assert [header] + RowsOf(cells[..], 0, n) == [header];
    for r := 0 to numRows
      invariant r * n <= cells.Length && out == Text([header] + RowsOf(cells[..], r, n))
    {
      MulMonotone(r + 1, numRows, n);
      ghost var above := [header] + RowsOf(cells[..], r, n);
      out := ExportRow(out, cells, r, n);
      TextAppend(above, RowOf(cells[..], r, n));
      assert above + [RowOf(cells[..], r, n)] == [header] + RowsOf(cells[..], r + 1, n);
    }
  }

  /** A record with cell `k` of every column. */
  ghost predicate IsRow(row: seq<string>, columns: seq<seq<Option<string>>>, k: nat)
    requires forall c | 0 <= c < |columns| :: k < |columns[c]|
  {
    |row| == |columns| && forall c | 0 <= c < |columns| :: row[c] == Shown(columns[c][k])
  }

  /** The header, and then the rows of columns of one length. */
  ghost predicate IsExport(table: seq<seq<string>>, names: seq<string>, columns: seq<seq<Option<string>>>)
  {
    && table != [] && table[0] == names
    && (forall c | 0 <= c < |columns| :: |columns[c]| == |table| - 1)
    && forall i | 1 <= i < |table| :: IsRow(table[i], columns, i - 1)
  }

  /** What the options ask for of every column. */
  ghost function AskedOf(columns: seq<seq<seq<Option<string>>>>, optOffset: int, optLimit: int):
    (r: seq<seq<Option<string>>>)
    ensures |r| == |columns|
    ensures forall c | 0 <= c < |r| :: r[c] == Asked(Flatten(columns[c]), optOffset, optLimit)
  {
    seq(|columns|, c requires 0 <= c < |columns| => Asked(Flatten(columns[c]), optOffset, optLimit))
  }

  lemma {:induction false} RowsOfAt(cells: seq<Option<string>>, k: nat, n: nat, r: nat)
    requires k * n <= |cells| && r < k
    ensures (r + 1) * n <= |cells| && RowsOf(cells, k, n)[r] == RowOf(cells, r, n)
    decreases k
  {
    hide RowOf;
    MulMonotone(k - 1, k, n);
    if r < k - 1 {
      RowsOfAt(cells, k - 1, n, r);
    }
  }

  /** A matrix that holds the columns, of `count` cells each. */
  ghost predicate HoldsColumns(cells: seq<Option<string>>, columns: seq<seq<Option<string>>>, count: nat)
  {
    forall c | 0 <= c < |columns| :: |columns[c]| == count && ColumnHolds(cells, c, |columns|, columns[c])
  }

  lemma MatrixRow(cells: seq<Option<string>>, columns: seq<seq<Option<string>>>, count: nat, r: nat)
    requires r < count && (r + 1) * |columns| <= |cells| && HoldsColumns(cells, columns, count)
    ensures IsRow(RowOf(cells, r, |columns|), columns, r)
  {
    hide CellAt;
    var n := |columns|;
    forall c | 0 <= c < n ensures RowOf(cells, r, n)[c] == Shown(columns[c][r]) {
      CellUnique(r, c, n, r + 1);
    }
  }

  lemma MatrixIsExport(cells: seq<Option<string>>, names: seq<string>, columns: seq<seq<Option<string>>>, count: nat)
    requires count * |columns| <= |cells| && HoldsColumns(cells, columns, count)
    ensures IsExport([names] + RowsOf(cells, count, |columns|), names, columns)
  {
    hide RowOf, RowsOf, IsRow, ColumnHolds;
    var n, table := |columns|, [names] + RowsOf(cells, count, |columns|);
    forall i | 1 <= i < 1 + count ensures IsRow(table[i], columns, i - 1) {
      RowsOfAt(cells, count, n, i - 1);
      MatrixRow(cells, columns, count, i - 1);
      assert table[i] == RowOf(cells, i - 1, n);
    }
  }

  /** cmd_export. Parsing what it prints gives the header and exactly the rows asked for, cell by
      cell, for any row groups, any options and any characters in the cells. Without any column it
      prints an empty line. */
  method Export(names: seq<string>, columns: seq<seq<seq<Option<string>>>>, total: nat, optOffset: int, optLimit: int)
    returns (out: string)
    requires |names| == |columns| && forall c | 0 <= c < |columns| :: |Flatten(columns[c])| == total
    ensures names == [] ==> out == "\n"
    ensures names != [] ==> Parse(out).Some? && Parse(out).value != [] && Parse(out).value[0] == names
    ensures names != [] ==> IsTable(Parse(out).value) && out == Text(Parse(out).value)
    ensures names != [] ==>
              forall c | 0 <= c < |columns| ::
                |Asked(Flatten(columns[c]), optOffset, optLimit)| == |Parse(out).value| - 1
    ensures names != [] ==>
              forall i, c | 1 <= i < |Parse(out).value| && 0 <= c < |columns| ::
                |Parse(out).value[i]| == |columns| &&
                Parse(out).value[i][c] == Shown(Asked(Flatten(columns[c]), optOffset, optLimit)[i - 1])
  {
    hide Record, Parse, Text, Flatten, Asked, ColumnHolds, RowsOf;
    out := ExportHeader(names);
    if |names| == 0 { return; }
    HeaderText(names);
    var cells, numRows := ReadSelected(columns, total, optOffset, optLimit);
    out := ExportRows(out, cells, numRows, |columns|, names);
    TextRoundTrip([names] + RowsOf(cells[..], numRows, |columns|));
    MatrixIsExport(cells[..], names, AskedOf(columns, optOffset, optLimit), numRows);
  }

  lemma HeaderText(names: seq<string>)
    requires names != []
    ensures Text([names]) == Record(names)
  {
    hide Record;
    assert [names][1..] == [] && Text([]) == "";
    assert Record(names) + "" == Record(names);
  }

  // ---- an example ----

  /** A table with a plain cell and one that has to be quoted. */
  function Example(): seq<seq<string>>
  {
    [["city", "note"], ["New York", "a,\""]]
  }

  lemma ExampleQuoted()
    ensures Field("a,\"") == "\"a,\"\"\""
  {
    ExampleDoubled();
    hide Doubled;
    assert "a,\""[1] == ',';
  }

  lemma ExampleDoubled()
    ensures Doubled("a,\"") == "a,\"\""
  {
    var v := "a,\"";
    DoubledFirst(v);
    DoubledFirst(v[1..]);
    DoubledOne('"');
    hide Doubled;
    assert v[1..] == ",\"" && v[1..][1..] == "\"";
  }

  lemma ExamplePlain()
    ensures Field("city") == "city" && Field("note") == "note" && Field("New York") == "New York"
  {
    assert !NeedsQuote("city");
    assert !NeedsQuote("note");
    assert !NeedsQuote("New York");
    hide NeedsQuote;
  }

  lemma ExampleRecords()
    ensures Record(["city"] + ["note"]) == "city,note\n"
    ensures Record(["New York"] + ["a,\""]) == "New York,\"a,\"\"\"\n"
  {
    ExamplePlain();
    ExampleQuoted();
    hide Field;
    RecordJoins("city", ["note"]);
    RecordJoins("note", []);
    RecordJoins("New York", ["a,\""]);
    RecordJoins("a,\"", []);
    hide Record;
  }

  /** How it is printed. */
  lemma ExampleText()
    ensures Text(Example()) == "city,note\n" + "New York,\"a,\"\"\"\n"
  {
    var t := Example();
    ExampleRecords();
    hide Record;
    assert t[0] == ["city"] + ["note"] && t[1] == ["New York"] + ["a,\""];
    assert t == [t[0]] + ([t[1]] + []);
    TextJoins(t[0], [t[1]] + []);
    TextJoins(t[1], []);
  }
}
