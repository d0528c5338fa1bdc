/** Reading back a written CSV file, and exactly when that works (glCodes.parseCsvContent against RFC 4180 section
    2). */
module CsvRoundTrip {
  import opened Text
  import opened Csv
  import opened CsvImport
  import opened Wrappers

  datatype Record = Record(fields: seq<string>, quoted: seq<bool>)

  predicate Writable(r: Record) {
    |r.fields| == |r.quoted| >= 2
  }

  predicate Eol(eol: string) {
    eol == "\n" || eol == "\r\n"
  }

  function Encode(r: Record): string
    requires Writable(r)
  {
    EncodeRecord(r.fields, r.quoted)
  }

  /** The body of a file: one record a line. */
  function Body(records: seq<Record>, eol: string): string
    requires records != [] && forall k :: 0 <= k < |records| ==> Writable(records[k])
  {
    if |records| == 1 then Encode(records[0]) else Encode(records[0]) + eol + Body(records[1..], eol)
  }

  predicate Unbroken(r: Record) {
    forall k :: 0 <= k < |r.fields| ==> Free(r.fields[k], BREAKS)
  }

  /** What the records come to when every one stands on its own line. */
  function Expected(cols: Columns, records: seq<Record>, number: nat): seq<Entry> {
    if records == [] then [] else [EntryOf(cols, records[0].fields, number)] + Expected(cols, records[1..], number + 1)
  }

  // ---------- line ends ----------

  lemma {:induction false} UnifyFree(s: string)
    requires Free(s, {'\r'})
    ensures Unify(s) == s
  {
    if s != "" {
      UnifyFree(s[1..]);
      assert s == [s[0]] + s[1..];
    }
  }

  lemma {:induction false} UnifyAppend(a: string, b: string)
    requires a != "" ==> a[|a| - 1] != '\r'
    ensures Unify(a + b) == Unify(a) + Unify(b)
    decreases |a|
  {
    if a == "" {
      assert a + b == b;
    } else {
      var n := UnitLength(a);
      assert UnitLength(a + b) == n && (a + b)[n..] == a[n..] + b;
      UnifyAppend(a[n..], b);
    }
  }

  lemma UnifyEol(eol: string, b: string)
    requires Eol(eol)
    ensures Unify(eol + b) == ['\n'] + Unify(b)
  {
    if eol == "\n" {
      assert (eol + b)[1..] == b;
    } else {
      assert (eol + b)[0] == '\r' && (eol + b)[1] == '\n' && (eol + b)[2..] == b;
    }
  }

  lemma LinesAppend(a: string, eol: string, b: string)
    requires Eol(eol) && (a != "" ==> a[|a| - 1] != '\r')
    ensures Lines(a + eol + b) == Lines(a) + Lines(b)
  {
    assert a + eol + b == a + (eol + b);
    UnifyAppend(a, eol + b);
    UnifyEol(eol, b);
    assert Unify(a + eol + b) == Unify(a) + ['\n'] + Unify(b);
    SplitAt(Unify(a), '\n', Unify(b), NEWLINE);
  }

  // ---------- breaks stand inside quotes ----------

  lemma EncodeFieldEnds(field: string, quoted: bool)
    ensures var e := EncodeField(field, quoted);
      if quoted || !Free(field, SPECIAL) then |e| >= 2 && e[0] == '"' && e[|e| - 1] == '"' else e == field
  {
  }

  lemma {:induction false} RecordEnd(fields: seq<string>, quoted: seq<bool>)
    requires |fields| == |quoted| > 0
    ensures var e := EncodeRecord(fields, quoted); e != "" ==> e[|e| - 1] != '\r'
  {
    EncodeFieldEnds(fields[0], quoted[0]);
    if |fields| > 1 { RecordEnd(fields[1..], quoted[1..]); }
  }

  /** The character at `i` has a quote before it and one after it. */
  ghost predicate Enclosed(e: string, i: nat) {
    (exists j :: 0 <= j < i && j < |e| && e[j] == '"') && (exists j :: i < j < |e| && e[j] == '"')
  }

  lemma EnclosedBehind(head: string, tail: string, i: nat)
    requires Enclosed(tail, i)
    ensures Enclosed(head + tail, |head| + i)
  {
    var e := head + tail;
    var j :| 0 <= j < i && j < |tail| && tail[j] == '"';
    var k :| i < k < |tail| && tail[k] == '"';
    assert e[|head| + j] == '"' && e[|head| + k] == '"';
  }

  lemma EnclosedWithin(head: string, tail: string, i: nat)
    requires 0 < i < |head| - 1 && head[0] == '"' && head[|head| - 1] == '"'
    ensures Enclosed(head + tail, i)
  {
    var e := head + tail;
    assert e[0] == '"' && e[|head| - 1] == '"';
  }

  /** A line break in an encoded record has a quotation mark before it and one behind it. */
  lemma {:induction false} BreakIsQuoted(fields: seq<string>, quoted: seq<bool>, i: nat)
    requires |fields| == |quoted| > 0
    requires i < |EncodeRecord(fields, quoted)| && EncodeRecord(fields, quoted)[i] in BREAKS
    ensures Enclosed(EncodeRecord(fields, quoted), i)
  {
    var e, head := EncodeRecord(fields, quoted), EncodeField(fields[0], quoted[0]);
    EncodeFieldEnds(fields[0], quoted[0]);
    if |fields| == 1 {
      assert e == head + "";
      EnclosedWithin(head, "", i);
    } else {
      var tail := EncodeRecord(fields[1..], quoted[1..]);
      EncodeCons(fields, quoted);
      if i < |head| {
        assert e == head + ([','] + tail) && e[i] == head[i];
        EnclosedWithin(head, [','] + tail, i);
      } else {
        assert e == (head + [',']) + tail;
        BreakIsQuoted(fields[1..], quoted[1..], i - |head| - 1);
        EnclosedBehind(head + [','], tail, i - |head| - 1);
      }
    }
  }

  lemma {:induction false} DoubledKeeps(s: string, c: char)
    ensures c in s ==> c in Doubled(s)
    ensures c in Doubled(s) && c != '"' ==> c in s
  {
    if s != "" {
      DoubledKeeps(s[1..], c);
    }
  }

  lemma {:induction false} EncodedBreaks(fields: seq<string>, quoted: seq<bool>)
    requires |fields| == |quoted| > 0
    ensures Free(EncodeRecord(fields, quoted), BREAKS) <==> forall k :: 0 <= k < |fields| ==> Free(fields[k], BREAKS)
  {
    var head := EncodeField(fields[0], quoted[0]);
    FieldBreaks(fields[0], quoted[0]);
    if |fields| > 1 {
      var tail := EncodeRecord(fields[1..], quoted[1..]);
      EncodedBreaks(fields[1..], quoted[1..]);
      FreeAppend(head + [','], tail);
      FreeAppend(head, [',']);
      assert forall k :: 1 <= k < |fields| ==> fields[k] == fields[1..][k - 1];
    }
  }

  lemma FreeAppend(a: string, b: string)
    ensures Free(a + b, BREAKS) <==> Free(a, BREAKS) && Free(b, BREAKS)
  {
    assert forall i :: 0 <= i < |a| ==> (a + b)[i] == a[i];
    assert forall i :: 0 <= i < |b| ==> (a + b)[|a| + i] == b[i];
  }

  lemma FreeIsNoMember(s: string)
    ensures Free(s, BREAKS) <==> '\r' !in s && '\n' !in s
  {
  }

  lemma FieldBreaks(field: string, quoted: bool)
    ensures Free(EncodeField(field, quoted), BREAKS) <==> Free(field, BREAKS)
  {
    FreeIsNoMember(field);
    FreeIsNoMember(Doubled(field));
    DoubledKeeps(field, '\r');
    DoubledKeeps(field, '\n');
    FreeAppend(['"'], Doubled(field));
    FreeAppend(['"'] + Doubled(field), ['"']);
  }

  // ---------- trimming a line trims its outer fields ----------

  lemma FieldStart(field: string, quoted: bool) returns (f: string)
    ensures TrimStart(EncodeField(field, quoted), JS_SPACE) == EncodeField(f, quoted)
    ensures Trim(f, JS_SPACE) == Trim(field, JS_SPACE)
  {
    if quoted || !Free(field, SPECIAL) {
      f := field;
    } else {
      f := TrimStart(field, JS_SPACE);
      var head := TrimStartShape(field, JS_SPACE);
      TrimAfterStart(field, JS_SPACE);
      assert forall i :: 0 <= i < |f| ==> f[i] == field[|head| + i];
    }
  }

  lemma QuotedEnd(field: string, quoted: bool)
    requires quoted || !Free(field, SPECIAL)
    ensures TrimEnd(EncodeField(field, quoted), JS_SPACE) == EncodeField(field, quoted)
  {
    var e := EncodeField(field, quoted);
    EncodeFieldEnds(field, quoted);
    assert e[|e| - 1] !in JS_SPACE;
  }

  lemma FieldEnd(field: string, quoted: bool) returns (f: string)
    ensures TrimEnd(EncodeField(field, quoted), JS_SPACE) == EncodeField(f, quoted)
    ensures Trim(f, JS_SPACE) == Trim(field, JS_SPACE)
  {
    if quoted || !Free(field, SPECIAL) {
      f := field;
      QuotedEnd(field, quoted);
    } else {
      f := TrimEnd(field, JS_SPACE);
      var tail := TrimEndShape(field, JS_SPACE);
      TrimAfterEnd(field, JS_SPACE);
      assert forall i :: 0 <= i < |f| ==> f[i] == field[i];
    }
  }

  ghost predicate SameTrimmed(a: seq<string>, b: seq<string>) {
    |a| == |b| && forall k :: 0 <= k < |a| ==> Trim(a[k], JS_SPACE) == Trim(b[k], JS_SPACE)
  }

  lemma {:induction false} RecordTrimEnd(fields: seq<string>, quoted: seq<bool>) returns (fields': seq<string>)
    requires |fields| == |quoted| > 0
    ensures SameTrimmed(fields', fields)
    ensures TrimEnd(EncodeRecord(fields, quoted), JS_SPACE) == EncodeRecord(fields', quoted)
  {
    if |fields| == 1 {
      var f := FieldEnd(fields[0], quoted[0]);
      fields' := [f];
    } else {
      var rest := RecordTrimEnd(fields[1..], quoted[1..]);
      fields' := [fields[0]] + rest;
      assert fields'[1..] == rest;
      TrimEndAppend(EncodeField(fields[0], quoted[0]) + [','], EncodeRecord(fields[1..], quoted[1..]), JS_SPACE);
    }
  }

  lemma RecordTrimStart(fields: seq<string>, quoted: seq<bool>) returns (fields': seq<string>)
    requires |fields| == |quoted| >= 2
    ensures SameTrimmed(fields', fields)
    ensures TrimStart(EncodeRecord(fields, quoted), JS_SPACE) == EncodeRecord(fields', quoted)
  {
    var f := FieldStart(fields[0], quoted[0]);
    fields' := [f] + fields[1..];
    assert fields'[1..] == fields[1..];
    var head, tail := EncodeField(fields[0], quoted[0]), [','] + EncodeRecord(fields[1..], quoted[1..]);
    EncodeCons(fields, quoted);
    EncodeCons(fields', quoted);
    assert ',' !in JS_SPACE;
    TrimStartAppend(head, tail, JS_SPACE);
  }

  /** The line of a record gives the record's entry, whatever white space its outer fields have. */
  lemma RecordLine(cols: Columns, r: Record, number: nat)
    requires Writable(r)
    ensures LineEntry(cols, Encode(r), number) == [EntryOf(cols, r.fields, number)]
  {
    var a := RecordTrimStart(r.fields, r.quoted);
    var b := RecordTrimEnd(a, r.quoted);
    SplitInvertsEncode(b, r.quoted);
    CommaInRecord(b, r.quoted);
    SameEntry(cols, b, r.fields, number);
  }

  lemma CommaInRecord(fields: seq<string>, quoted: seq<bool>)
    requires |fields| == |quoted| >= 2
    ensures EncodeRecord(fields, quoted) != ""
  {
  }

  lemma SameEntry(cols: Columns, a: seq<string>, b: seq<string>, number: nat)
    requires SameTrimmed(a, b)
    ensures EntryOf(cols, a, number) == EntryOf(cols, b, number)
  {
    assert forall at: nat :: FieldAt(a, at) == FieldAt(b, at);
  }

  // ---------- counting lines ----------

  lemma {:induction false} OneLineCounts(cols: Columns, lines: seq<string>, k: nat, number: nat)
    requires k < |lines| && '"' in lines[k]
    ensures |Entries(cols, lines, number)| >= 1
  {
    if k == 0 {
      QuoteIsText(lines[0]);
    } else {
      OneLineCounts(cols, lines[1..], k - 1, number + 1);
    }
  }

  lemma QuoteIsText(s: string)
    requires '"' in s
    ensures Trim(s, JS_SPACE) != ""
  {
    var _, _ := TrimShape(s, JS_SPACE);
    var i :| 0 <= i < |s| && s[i] == '"';
    assert s[i] !in JS_SPACE;
  }

  lemma {:induction false} QuoteInSplit(s: string) returns (k: nat)
    requires '"' in s
    ensures k < |Split(s, NEWLINE)| && '"' in Split(s, NEWLINE)[k]
  {
    if s[0] == '"' {
      k := 0;
    } else {
      var j := QuoteInSplit(s[1..]);
      k := if s[0] in NEWLINE then j + 1 else j;
    }
  }

  lemma {:induction false} QuoteInUnify(s: string)
    requires '"' in s
    ensures '"' in Unify(s)
    decreases |s|
  {
    if s[0] == '\r' && |s| > 1 && s[1] == '\n' {
      assert s == ['\r', '\n'] + s[2..];
      QuoteInUnify(s[2..]);
    } else if s[0] != '"' {
      QuoteInUnify(s[1..]);
    }
  }

  lemma QuotedLineCounts(cols: Columns, s: string, number: nat)
    requires '"' in s
    ensures |Entries(cols, Lines(s), number)| >= 1
  {
    QuoteInUnify(s);
    var k := QuoteInSplit(Unify(s));
    OneLineCounts(cols, Lines(s), k, number);
  }

  /** The first line break of a text stands at `i`, and what it counts for ends before `from`. */
  ghost predicate BreaksAt(s: string, i: nat, from: nat) {
    && i < from <= |s| && s[i] in BREAKS && Free(s[..i], BREAKS)
    && (forall j :: i < j < from ==> s[j] == '\n')
    && Unify(s) == s[..i] + ['\n'] + Unify(s[from..])
  }

  lemma BreakHere(s: string) returns (from: nat)
    requires s != "" && s[0] in BREAKS
    ensures BreaksAt(s, 0, from)
  {
    from := if s[0] == '\r' && |s| > 1 && s[1] == '\n' then 2 else 1;
  }

  lemma UnifyCons(s: string)
    requires s != "" && s[0] !in BREAKS
    ensures Unify(s) == [s[0]] + Unify(s[1..])
  {
    assert s[0] != '\r';
  }

  lemma PlaceLater(s: string, i: nat, from: nat)
    requires s != "" && s[0] !in BREAKS && i < from <= |s[1..]|
    requires Free(s[1..][..i], BREAKS) && forall j :: i < j < from ==> s[1..][j] == '\n'
    ensures s[i + 1] == s[1..][i] && s[1..][from..] == s[from + 1..] && s[..i + 1] == [s[0]] + s[1..][..i]
    ensures Free(s[..i + 1], BREAKS) && forall j :: i + 1 < j < from + 1 ==> s[j] == '\n'
  {
    assert forall j :: 0 < j < |s| ==> s[j] == s[1..][j - 1];
    assert s[..i + 1] == [s[0]] + s[1..][..i];
    FreeCons(s[0], s[1..][..i]);
  }

  lemma BreakLater(s: string, i: nat, from: nat)
    requires s != "" && s[0] !in BREAKS && BreaksAt(s[1..], i, from)
    ensures BreaksAt(s, i + 1, from + 1)
  {
    PlaceLater(s, i, from);
    UnifyCons(s);
    Regroup([s[0]], s[1..][..i], ['\n'], Unify(s[1..][from..]));
  }

  lemma Regroup(a: string, b: string, c: string, d: string)
    ensures a + (b + c + d) == (a + b) + c + d
  {
  }

  lemma FreeCons(c: char, s: string)
    requires c !in BREAKS && Free(s, BREAKS)
    ensures Free([c] + s, BREAKS)
  {
  }

  /** Up to the first line break, and what comes behind it. */
  lemma {:induction false} FirstBreak(s: string) returns (i: nat, from: nat)
    requires !Free(s, BREAKS)
    ensures BreaksAt(s, i, from)
  {
    if s[0] in BREAKS {
      i := 0;
      from := BreakHere(s);
    } else {
      BreakInTail(s);
      i, from := FirstBreak(s[1..]);
      BreakLater(s, i, from);
      i, from := i + 1, from + 1;
    }
  }

  lemma BreakInTail(s: string)
    requires !Free(s, BREAKS) && s[0] !in BREAKS
    ensures !Free(s[1..], BREAKS)
  {
    var k :| 0 <= k < |s| && s[k] in BREAKS;
    assert s[1..][k - 1] == s[k];
  }

  /** A record with a line break in a field falls apart into more than one entry. */
  lemma BrokenRecord(cols: Columns, r: Record, number: nat)
    requires Writable(r) && !Unbroken(r)
    ensures |Entries(cols, Lines(Encode(r)), number)| >= 2
  {
    var e := Encode(r);
    EncodedBreaks(r.fields, r.quoted);
    var i, from := FirstBreak(e);
    BreakIsQuoted(r.fields, r.quoted, i);
    var head, tail := e[..i], e[from..];
    var j :| 0 <= j < i && e[j] == '"';
    assert head[j] == '"';
    var k :| i < k < |e| && e[k] == '"';
    assert k >= from && tail[k - from] == '"';
    SplitAt(head, '\n', Unify(tail), NEWLINE);
    SplitFree(head, NEWLINE);
    assert Lines(e) == [head] + Lines(tail);
    EntriesAppend(cols, [head], Lines(tail), number);
    QuotedLineCounts(cols, tail, number + 1);
    OneLineCounts(cols, [head], 0, number);
  }

  lemma UnbrokenRecord(cols: Columns, r: Record, number: nat)
    requires Writable(r) && Unbroken(r)
    ensures Lines(Encode(r)) == [Encode(r)]
    ensures Entries(cols, Lines(Encode(r)), number) == [EntryOf(cols, r.fields, number)]
  {
    EncodedBreaks(r.fields, r.quoted);
    UnifyFree(Encode(r));
    SplitFree(Encode(r), NEWLINE);
    RecordLine(cols, r, number);
    assert Entries(cols, [], number + 1) == [];
  }

  // ---------- whole files ----------

  lemma BodyLines(records: seq<Record>, eol: string)
    requires |records| > 1 && Eol(eol) && forall k :: 0 <= k < |records| ==> Writable(records[k])
    ensures Lines(Body(records, eol)) == Lines(Encode(records[0])) + Lines(Body(records[1..], eol))
  {
    RecordEnd(records[0].fields, records[0].quoted);
    LinesAppend(Encode(records[0]), eol, Body(records[1..], eol));
  }

  lemma BodyEntries(cols: Columns, records: seq<Record>, eol: string, number: nat)
    requires |records| > 1 && Eol(eol) && forall k :: 0 <= k < |records| ==> Writable(records[k])
    ensures var first := Lines(Encode(records[0]));
      Entries(cols, Lines(Body(records, eol)), number) ==
        Entries(cols, first, number) + Entries(cols, Lines(Body(records[1..], eol)), number + |first|)
  {
    BodyLines(records, eol);
    EntriesAppend(cols, Lines(Encode(records[0])), Lines(Body(records[1..], eol)), number);
  }

  lemma ExpectedOfOne(cols: Columns, records: seq<Record>, number: nat)
    requires |records| == 1
    ensures Expected(cols, records, number) == [EntryOf(cols, records[0].fields, number)]
  {
    assert Expected(cols, records[1..], number + 1) == [];
  }

  lemma UnbrokenFirst(cols: Columns, records: seq<Record>, eol: string, number: nat)
    requires |records| > 1 && Eol(eol) && Unbroken(records[0]) &&
      forall k :: 0 <= k < |records| ==> Writable(records[k])
    ensures Entries(cols, Lines(Body(records, eol)), number) ==
      [EntryOf(cols, records[0].fields, number)] + Entries(cols, Lines(Body(records[1..], eol)), number + 1)
  {
    UnbrokenRecord(cols, records[0], number);
    BodyEntries(cols, records, eol, number);
  }

  lemma {:induction false} UnbrokenBody(cols: Columns, records: seq<Record>, eol: string, number: nat)
    requires records != [] && Eol(eol)
    requires forall k :: 0 <= k < |records| ==> Writable(records[k]) && Unbroken(records[k])
    ensures Entries(cols, Lines(Body(records, eol)), number) == Expected(cols, records, number)
  {
    if |records| > 1 {
      UnbrokenFirst(cols, records, eol, number);
      UnbrokenBody(cols, records[1..], eol, number + 1);
    } else {
      UnbrokenRecord(cols, records[0], number);
      assert Body(records, eol) == Encode(records[0]);
      ExpectedOfOne(cols, records, number);
    }
  }

  lemma RecordCount(cols: Columns, r: Record, number: nat)
    requires Writable(r)
    ensures |Entries(cols, Lines(Encode(r)), number)| >= if Unbroken(r) then 1 else 2
  {
    if Unbroken(r) {
      UnbrokenRecord(cols, r, number);
    } else {
      BrokenRecord(cols, r, number);
    }
  }

  /** Every record leaves at least one entry, and a broken one more. */
  lemma FirstCount(cols: Columns, records: seq<Record>, eol: string, number: nat)
    requires |records| > 1 && Eol(eol) && forall k :: 0 <= k < |records| ==> Writable(records[k])
    ensures |Entries(cols, Lines(Body(records, eol)), number)| >=
      (if Unbroken(records[0]) then 1 else 2)
      + |Entries(cols, Lines(Body(records[1..], eol)), number + |Lines(Encode(records[0]))|)|
  {
    RecordCount(cols, records[0], number);
    BodyEntries(cols, records, eol, number);
  }

  lemma {:induction false} BodyCount(cols: Columns, records: seq<Record>, eol: string, number: nat)
    requires records != [] && Eol(eol) && forall k :: 0 <= k < |records| ==> Writable(records[k])
    ensures |Entries(cols, Lines(Body(records, eol)), number)| >= |records| + if SomeBroken(records) then 1 else 0
  {
    if |records| > 1 {
      FirstCount(cols, records, eol, number);
      SomeBrokenTail(records);
      BodyCount(cols, records[1..], eol, number + |Lines(Encode(records[0]))|);
    } else {
      RecordCount(cols, records[0], number);
    }
  }

  ghost predicate SomeBroken(records: seq<Record>) {
    exists k :: 0 <= k < |records| && !Unbroken(records[k])
  }

  lemma SomeBrokenTail(records: seq<Record>)
    requires records != []
    ensures SomeBroken(records) <==> !Unbroken(records[0]) || SomeBroken(records[1..])
  {
    if k :| 0 <= k < |records| && !Unbroken(records[k]) {
      if k > 0 { assert records[1..][k - 1] == records[k]; }
    }
    if k :| 0 <= k < |records[1..]| && !Unbroken(records[1..][k]) {
      assert records[k + 1] == records[1..][k];
    }
  }

  lemma {:induction false} ExpectedLength(cols: Columns, records: seq<Record>, number: nat)
    ensures |Expected(cols, records, number)| == |records|
  {
    if records != [] { ExpectedLength(cols, records[1..], number + 1); }
  }

  /** Main result: a written file is read back record by record exactly when no field holds a line break. */
  lemma FileRoundTripExactly(header: string, lower: string -> string, cols: Columns, records: seq<Record>, eol: string)
    requires records != [] && Eol(eol) && forall k :: 0 <= k < |records| ==> Writable(records[k])
    requires Free(header, BREAKS) && Trim(header, JS_SPACE) != "" && ColumnsOf(Headers(header, lower)) == Some(cols)
    ensures Parsed(header + eol + Body(records, eol), lower) == Expected(cols, records, 2)
      <==> forall k :: 0 <= k < |records| ==> Unbroken(records[k])
  {
    var body := Body(records, eol);
    UnifyFree(header);
    SplitFree(header, NEWLINE);
    LinesAppend(header, eol, body);
    assert Lines(header + eol + body)[0] == header && Lines(header + eol + body)[1..] == Lines(body);
    ExpectedLength(cols, records, 2);
    BodyCount(cols, records, eol, 2);
    if forall k :: 0 <= k < |records| ==> Unbroken(records[k]) {
      UnbrokenBody(cols, records, eol, 2);
    }
  }
}
