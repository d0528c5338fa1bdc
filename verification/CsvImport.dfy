/** Parsing an uploaded CSV of GL codes: header, rows and row errors (glCodes.parseCsvContent). */
module CsvImport {
  import opened Text
  import opened Wrappers
  import opened Csv

  const BREAKS: set<char> := {'\r', '\n'}
  const NEWLINE: set<char> := {'\n'}

  /** CRLF and lone CR become LF. */
  function Unify(s: string): string
    decreases |s|
  {
    if s == "" then "" else [if s[0] == '\r' then '\n' else s[0]] + Unify(s[UnitLength(s)..])
  }

  /** CRLF goes as one. */
  function UnitLength(s: string): (n: nat)
    requires s != ""
    ensures 1 <= n <= |s|
  {
    if s[0] == '\r' && |s| > 1 && s[1] == '\n' then 2 else 1
  }

  function Lines(raw: string): seq<string> {
    Split(Unify(raw), NEWLINE)
  }

  datatype Row = Row(code: string, name: string, category: Option<string>, tdsSection: Option<string>,
                     costCenter: Option<string>)

  datatype RowError = MissingColumns | MissingField(row: nat, field: string)

  datatype Entry = Imported(row: Row) | Rejected(error: RowError)

  datatype Columns = Columns(code: nat, name: nat, category: Option<nat>, tdsSection: Option<nat>,
                             costCenter: Option<nat>)

  function FieldAt(fields: seq<string>, at: nat): string {
    if at < |fields| then Trim(fields[at], JS_SPACE) else ""
  }

  function OptionalAt(fields: seq<string>, at: Option<nat>): Option<string> {
    if at.None? || FieldAt(fields, at.value) == "" then None else Some(FieldAt(fields, at.value))
  }

  /** What one record comes to; `number` is its line number. */
  function EntryOf(cols: Columns, fields: seq<string>, number: nat): Entry {
    var code, name := FieldAt(fields, cols.code), FieldAt(fields, cols.name);
    if code == "" then Rejected(MissingField(number, "code"))
    else if name == "" then Rejected(MissingField(number, "name"))
    else Imported(Row(code, name, OptionalAt(fields, cols.category), OptionalAt(fields, cols.tdsSection),
                      OptionalAt(fields, cols.costCenter)))
  }

  function LineEntry(cols: Columns, line: string, number: nat): seq<Entry> {
    var trimmed := Trim(line, JS_SPACE);
    if trimmed == "" then [] else [EntryOf(cols, Scan(trimmed, "", false), number)]
  }

  function Entries(cols: Columns, lines: seq<string>, number: nat): seq<Entry> {
    if lines == [] then [] else LineEntry(cols, lines[0], number) + Entries(cols, lines[1..], number + 1)
  }

  function RowsIn(entries: seq<Entry>): seq<Row> {
    if entries == [] then []
    else
      var last := entries[|entries| - 1];
      RowsIn(entries[..|entries| - 1]) + match last case Imported(row) => [row] case Rejected(_) => []
  }

  function ErrorsIn(entries: seq<Entry>): seq<RowError> {
    if entries == [] then []
    else
      var last := entries[|entries| - 1];
      ErrorsIn(entries[..|entries| - 1]) + match last case Imported(_) => [] case Rejected(error) => [error]
  }

  // ---------- the header ----------

  predicate IsQuoteMark(c: char) { c == '"' || c == '\'' }

  function StripQuotes(h: string): string {
    var tail := if h != "" && IsQuoteMark(h[0]) then h[1..] else h;
    if tail != "" && IsQuoteMark(tail[|tail| - 1]) then tail[..|tail| - 1] else tail
  }

  function Headers(line: string, lower: string -> string): seq<string> {
    StripAll(Split(lower(Trim(line, JS_SPACE)), {','}))
  }

  function StripAll(parts: seq<string>): seq<string> {
    if parts == [] then [] else [StripQuotes(Trim(parts[0], JS_SPACE))] + StripAll(parts[1..])
  }

  function IndexIn(headers: seq<string>, names: set<string>): (at: Option<nat>)
    ensures at.Some? ==> at.value < |headers| && headers[at.value] in names
    ensures forall k :: 0 <= k < |headers| && (at.None? || k < at.value) ==> headers[k] !in names
  {
    if headers == [] then None
    else if headers[0] in names then Some(0)
    else
      match IndexIn(headers[1..], names)
      case None => None
      case Some(k) => Some(k + 1)
  }

  function ColumnsOf(headers: seq<string>): Option<Columns> {
    var code, name := IndexIn(headers, {"code"}), IndexIn(headers, {"name"});
    if code.None? || name.None? then None
    else Some(Columns(code.value, name.value, IndexIn(headers, {"category"}),
                      IndexIn(headers, {"tdssection", "tds_section", "tds section"}),
                      IndexIn(headers, {"costcenter", "cost_center", "cost center"})))
  }

  /** All entries of a file; a file without the two required columns has one error instead. */
  function Parsed(raw: string, lower: string -> string): seq<Entry> {
    var lines := Lines(raw);
    if Trim(lines[0], JS_SPACE) == "" then []
    else
      var cols := ColumnsOf(Headers(lines[0], lower));
      if cols.None? then [Rejected(MissingColumns)] else Entries(cols.value, lines[1..], 2)
  }

  /** One more line. */
  lemma EntriesSnoc(cols: Columns, lines: seq<string>, i: nat, number: nat)
    requires i < |lines|
    ensures Entries(cols, lines[..i + 1], number) ==
      Entries(cols, lines[..i], number) + LineEntry(cols, lines[i], number + i)
  {
    EntriesAppend(cols, lines[..i], [lines[i]], number);
    assert lines[..i + 1] == lines[..i] + [lines[i]];
    assert Entries(cols, [lines[i]], number + i) ==
      LineEntry(cols, lines[i], number + i) + Entries(cols, [], number + i + 1);
  }

  lemma {:induction false} EntriesAppend(cols: Columns, a: seq<string>, b: seq<string>, number: nat)
    ensures Entries(cols, a + b, number) == Entries(cols, a, number) + Entries(cols, b, number + |a|)
  {
    if a == [] {
      assert a + b == b;
    } else {
      assert (a + b)[1..] == a[1..] + b;
      EntriesAppend(cols, a[1..], b, number + 1);
    }
  }

  lemma SortedOut(before: seq<Entry>, e: Entry)
    ensures RowsIn(before + [e]) == RowsIn(before) + match e case Imported(row) => [row] case Rejected(_) => []
    ensures ErrorsIn(before + [e]) == ErrorsIn(before) + match e case Imported(_) => [] case Rejected(error) => [error]
  {
    assert (before + [e])[..|before|] == before;
  }

  method ParseRecord(cols: Columns, fields: seq<string>, number: nat) returns (entry: Entry)
    ensures entry == EntryOf(cols, fields, number)
  {
    var code, name := FieldAt(fields, cols.code), FieldAt(fields, cols.name);
    if code == "" || name == "" {
      return Rejected(MissingField(number, if code == "" then "code" else "name"));
    }
    entry := Imported(Row(code, name, OptionalAt(fields, cols.category), OptionalAt(fields, cols.tdsSection),
                          OptionalAt(fields, cols.costCenter)));
  }

  method ParseLine(cols: Columns, raw: string, number: nat) returns (entry: Option<Entry>)
    ensures LineEntry(cols, raw, number) == if entry.None? then [] else [entry.value]
  {
    var line := Trim(raw, JS_SPACE);
    if line == "" {
      return None;
    }
    var fields := SplitCsvLine(line);
    var e := ParseRecord(cols, fields, number);
    entry := Some(e);
  }

  method ParseRows(cols: Columns, data: seq<string>) returns (rows: seq<Row>, errors: seq<RowError>)
    ensures rows == RowsIn(Entries(cols, data, 2)) && errors == ErrorsIn(Entries(cols, data, 2))
  {
    rows, errors := [], [];
    ghost var done: seq<Entry> := [];
    for i := 0 to |data|
      invariant done == Entries(cols, data[..i], 2)
      invariant rows == RowsIn(done) && errors == ErrorsIn(done)
    {
      EntriesSnoc(cols, data, i, 2);
      var entry := ParseLine(cols, data[i], i + 2);
      if entry.None? {
        continue;
      }
      SortedOut(done, entry.value);
      done := done + [entry.value];
      match entry.value
      case Imported(row) => rows := rows + [row];
      case Rejected(error) => errors := errors + [error];
    }
    assert data[..|data|] == data;
  }

  method ParseCsvContent(raw: string, lower: string -> string) returns (rows: seq<Row>, errors: seq<RowError>)
    ensures rows == RowsIn(Parsed(raw, lower)) && errors == ErrorsIn(Parsed(raw, lower))
  {
    var lines := Lines(raw);
    if Trim(lines[0], JS_SPACE) == "" {
      return [], [];
    }
    var columns := ColumnsOf(Headers(lines[0], lower));
    if columns.None? {
      SortedOut([], Rejected(MissingColumns));
      assert [] + [Rejected(MissingColumns)] == [Rejected(MissingColumns)];
      return [], [MissingColumns];
    }
    rows, errors := ParseRows(columns.value, lines[1..]);
  }

  lemma {:induction false} EveryEntryCounted(entries: seq<Entry>)
    ensures |RowsIn(entries)| + |ErrorsIn(entries)| == |entries|
  {
    if entries != [] { EveryEntryCounted(entries[..|entries| - 1]); }
  }
}
