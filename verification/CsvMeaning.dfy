/** What an import file comes to, from its header and its records (glCodes.parseCsvContent). */
module CsvMeaning {
  import opened Text
  import opened Wrappers
  import opened Csv
  import opened CsvImport
  import opened CsvRoundTrip

  /** A column name that trimming and quote stripping leave alone. */
  predicate PlainName(name: string) {
    name != "" && Free(name, {','}) && Tight(name, JS_SPACE) && !IsQuoteMark(name[0]) && !IsQuoteMark(name[|name| - 1])
  }

  /** A header cell: the name, or the name in single or double quotes, with white space around. */
  ghost predicate CellOf(cell: string, name: string) {
    exists a: string, q: string, b: string ::
      Blank(a, JS_SPACE) && Blank(b, JS_SPACE) && q in {"", "\"", "'"} && cell == a + (q + name + q) + b
  }

  /** `at` is the first place of `list` that holds one of `names`. */
  ghost predicate FirstOf(list: seq<string>, names: set<string>, at: Option<nat>) {
    && (at.Some? ==> at.value < |list| && list[at.value] in names)
    && forall k :: 0 <= k < |list| && (at.None? || k < at.value) ==> list[k] !in names
  }

  lemma IndexIsFirst(list: seq<string>, names: set<string>, at: Option<nat>)
    requires FirstOf(list, names, at)
    ensures IndexIn(list, names) == at
  {
    var found := IndexIn(list, names);
    assert found.Some? ==> list[found.value] in names;
  }

  lemma MarksAreTight(q: string, name: string)
    requires PlainName(name) && q in {"", "\"", "'"}
    ensures var core := q + name + q; core != "" && Tight(core, JS_SPACE) && StripQuotes(core) == name
  {
    assert '"' !in JS_SPACE && '\'' !in JS_SPACE;
    var core := q + name + q;
    if q == "" {
      assert core == name;
    } else {
      assert core[0] == q[0] && core[|core| - 1] == q[0] && core[1..] == name + q;
      assert core[1..][..|core| - 2] == name;
    }
  }

  lemma CellRead(cell: string, name: string)
    requires PlainName(name) && CellOf(cell, name)
    ensures StripQuotes(Trim(cell, JS_SPACE)) == name
  {
    var a, q, b :| Blank(a, JS_SPACE) && Blank(b, JS_SPACE) && q in {"", "\"", "'"} && cell == a + (q + name + q) + b;
    MarksAreTight(q, name);
    TrimOfCore(a, q + name + q, b, JS_SPACE);
  }

  lemma {:induction false} CellsRead(cells: seq<string>, names: seq<string>)
    requires |cells| == |names| && forall k :: 0 <= k < |names| ==> PlainName(names[k]) && CellOf(cells[k], names[k])
    ensures StripAll(cells) == names
  {
    if cells != [] {
      CellRead(cells[0], names[0]);
      CellsRead(cells[1..], names[1..]);
      assert names == [names[0]] + names[1..];
    }
  }

  lemma CellFree(cell: string, name: string)
    requires PlainName(name) && CellOf(cell, name)
    ensures Free(cell, {','})
  {
    var a, q, b :| Blank(a, JS_SPACE) && Blank(b, JS_SPACE) && q in {"", "\"", "'"} && cell == a + (q + name + q) + b;
    assert ',' !in JS_SPACE;
    assert Free(a, {','}) && Free(b, {','}) && Free(q, {','}) && Free(q + name + q, {','});
  }

  /** The header line, in lower case, joins cells that show these names. */
  ghost predicate HeaderShows(header: string, lower: string -> string, names: seq<string>) {
    && Free(header, BREAKS) && Trim(header, JS_SPACE) != "" && names != []
    && (forall k :: 0 <= k < |names| ==> PlainName(names[k]))
    && exists cells: seq<string> ::
         |cells| == |names| && (forall k :: 0 <= k < |names| ==> CellOf(cells[k], names[k]))
         && lower(Trim(header, JS_SPACE)) == Join(cells, ',')
  }

  lemma HeaderRead(header: string, lower: string -> string, names: seq<string>)
    requires HeaderShows(header, lower, names)
    ensures Headers(header, lower) == names
  {
    var cells :|
      |cells| == |names| && (forall k :: 0 <= k < |names| ==> CellOf(cells[k], names[k]))
      && lower(Trim(header, JS_SPACE)) == Join(cells, ',');
    forall k | 0 <= k < |cells|
      ensures Free(cells[k], {','})
    {
      CellFree(cells[k], names[k]);
    }
    SplitJoin(cells, ',');
    CellsRead(cells, names);
  }

  // ---------- the entries ----------

  /** The trimmed field, empty when the record is too short. */
  function Field(r: Record, at: nat): string {
    if at < |r.fields| then Trim(r.fields[at], JS_SPACE) else ""
  }

  /** The entry names the missing field, or it carries the fields under their headers. */
  ghost predicate EntryShows(e: Entry, r: Record, number: nat, code: nat, name: nat,
                             category: Option<nat>, tds: Option<nat>, cost: Option<nat>) {
    if Field(r, code) == "" then e == Rejected(MissingField(number, "code"))
    else if Field(r, name) == "" then e == Rejected(MissingField(number, "name"))
    else
      && e.Imported? && e.row.code == Field(r, code) && e.row.name == Field(r, name)
      && OptionShows(e.row.category, r, category) && OptionShows(e.row.tdsSection, r, tds)
      && OptionShows(e.row.costCenter, r, cost)
  }

  ghost predicate OptionShows(value: Option<string>, r: Record, at: Option<nat>) {
    if at.Some? && Field(r, at.value) != "" then value == Some(Field(r, at.value)) else value == None
  }

  lemma EntryIsShown(cols: Columns, r: Record, number: nat)
    ensures EntryShows(EntryOf(cols, r.fields, number), r, number, cols.code, cols.name,
                       cols.category, cols.tdsSection, cols.costCenter)
  {
  }

  lemma {:induction false} ExpectedAt(cols: Columns, records: seq<Record>, number: nat, k: nat)
    requires k < |records|
    ensures |Expected(cols, records, number)| == |records|
    ensures Expected(cols, records, number)[k] == EntryOf(cols, records[k].fields, number + k)
  {
    if k > 0 {
      ExpectedAt(cols, records[1..], number + 1, k - 1);
    } else {
      ExpectedLength(cols, records, number);
    }
  }

  /** One entry for each record, in order and numbered by line from 2. */
  ghost predicate AllShow(entries: seq<Entry>, records: seq<Record>, code: nat, name: nat,
                          category: Option<nat>, tds: Option<nat>, cost: Option<nat>) {
    |entries| == |records|
    && forall k :: 0 <= k < |records| ==> EntryShows(entries[k], records[k], k + 2, code, name, category, tds, cost)
  }

  lemma ExpectedShows(cols: Columns, records: seq<Record>)
    ensures AllShow(Expected(cols, records, 2), records, cols.code, cols.name, cols.category, cols.tdsSection,
                    cols.costCenter)
  {
    ExpectedLength(cols, records, 2);
    forall k | 0 <= k < |records|
      ensures EntryShows(Expected(cols, records, 2)[k], records[k], k + 2, cols.code, cols.name,
                         cols.category, cols.tdsSection, cols.costCenter)
    {
      ExpectedAt(cols, records, 2, k);
      EntryIsShown(cols, records[k], k + 2);
    }
  }

  lemma ColumnsRead(names: seq<string>, code: nat, name: nat, category: Option<nat>, tds: Option<nat>,
                    cost: Option<nat>)
    requires FirstOf(names, {"code"}, Some(code)) && FirstOf(names, {"name"}, Some(name))
    requires FirstOf(names, {"category"}, category)
    requires FirstOf(names, {"tdssection", "tds_section", "tds section"}, tds)
    requires FirstOf(names, {"costcenter", "cost_center", "cost center"}, cost)
    ensures ColumnsOf(names) == Some(Columns(code, name, category, tds, cost))
  {
    IndexIsFirst(names, {"code"}, Some(code));
    IndexIsFirst(names, {"name"}, Some(name));
    IndexIsFirst(names, {"category"}, category);
    IndexIsFirst(names, {"tdssection", "tds_section", "tds section"}, tds);
    IndexIsFirst(names, {"costcenter", "cost_center", "cost center"}, cost);
  }

  /** Main result: a file whose header shows the two required columns and whose fields hold no line break comes to one
      entry for each record, in order and numbered by line: an error that names a missing field, or the row whose code
      and name stand under "code" and "name" and whose options stand under their headers. */
  lemma FileMeans(header: string, lower: string -> string, names: seq<string>, records: seq<Record>, eol: string,
                  code: nat, name: nat, category: Option<nat>, tds: Option<nat>, cost: Option<nat>)
    requires HeaderShows(header, lower, names) && records != [] && Eol(eol)
    requires forall k :: 0 <= k < |records| ==> Writable(records[k]) && Unbroken(records[k])
    requires FirstOf(names, {"code"}, Some(code)) && FirstOf(names, {"name"}, Some(name))
    requires FirstOf(names, {"category"}, category)
    requires FirstOf(names, {"tdssection", "tds_section", "tds section"}, tds)
    requires FirstOf(names, {"costcenter", "cost_center", "cost center"}, cost)
    ensures AllShow(Parsed(header + eol + Body(records, eol), lower), records, code, name, category, tds, cost)
  {
    HeaderRead(header, lower, names);
    ColumnsRead(names, code, name, category, tds, cost);
    var cols := Columns(code, name, category, tds, cost);
    ReadAsExpected(header, lower, cols, records, eol);
    ExpectedShows(cols, records);
  }

  lemma ReadAsExpected(header: string, lower: string -> string, cols: Columns, records: seq<Record>, eol: string)
    requires records != [] && Eol(eol) &&
      forall k :: 0 <= k < |records| ==> Writable(records[k]) && Unbroken(records[k])
    requires Free(header, BREAKS) && Trim(header, JS_SPACE) != "" && ColumnsOf(Headers(header, lower)) == Some(cols)
    ensures Parsed(header + eol + Body(records, eol), lower) == Expected(cols, records, 2)
  {
    FileRoundTripExactly(header, lower, cols, records, eol);
  }

  /** Without one of the two required columns there is one error and no row, whatever follows. */
  lemma MissingColumn(header: string, lower: string -> string, names: seq<string>, body: string, eol: string)
    requires HeaderShows(header, lower, names) && Eol(eol)
    requires FirstOf(names, {"code"}, None) || FirstOf(names, {"name"}, None)
    ensures Parsed(header + eol + body, lower) == [Rejected(MissingColumns)]
  {
    HeaderRead(header, lower, names);
    if FirstOf(names, {"code"}, None) { IndexIsFirst(names, {"code"}, None); }
    if FirstOf(names, {"name"}, None) { IndexIsFirst(names, {"name"}, None); }
    UnifyFree(header);
    SplitFree(header, NEWLINE);
    LinesAppend(header, eol, body);
  }

  /** Rows and errors are listed in the order of their entries. */
  lemma {:induction false} ListedInOrder(a: seq<Entry>, b: seq<Entry>)
    ensures RowsIn(a + b) == RowsIn(a) + RowsIn(b) && ErrorsIn(a + b) == ErrorsIn(a) + ErrorsIn(b)
  {
    if b == [] {
      assert a + b == a;
    } else {
      assert (a + b)[..|a| + |b| - 1] == a + b[..|b| - 1];
      ListedInOrder(a, b[..|b| - 1]);
    }
  }

  lemma ListedAlone(e: Entry)
    ensures e.Imported? ==> RowsIn([e]) == [e.row] && ErrorsIn([e]) == []
    ensures e.Rejected? ==> RowsIn([e]) == [] && ErrorsIn([e]) == [e.error]
  {
    assert [e][..0] == [];
  }
}
