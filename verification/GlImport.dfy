/** Importing the parsed rows into the GL code master: duplicates, failures and the numbers reported (glCodes.ts). */
module GlImport {
  import opened Text
  import opened Wrappers
  import opened CsvImport

  const MAX_CSV_ROWS: nat := 5000

  datatype GlCode = GlCode(name: string, category: string, linkedTdsSection: Option<string>)

  /** The codes of one client organisation; the unique index makes them a map. */
  type Master = map<string, GlCode>

  /** What happens around the creation for row `i`: codes that other writers bring first, and whether the database
      fails. */
  datatype World = World(others: nat -> Master, fails: nat -> bool)

  datatype ImportError = InFile(error: RowError) | Database(row: nat, code: string)

  datatype Refusal = NoFile | NothingInFile | TooManyRows(count: nat)

  datatype Response = BadRequest(refusal: Refusal) | Report(imported: nat, skipped: nat, errors: seq<ImportError>)

  /** The collection, the counters and the codes created so far. */
  datatype State = State(codes: Master, imported: nat, skipped: nat, seen: set<string>, failed: seq<ImportError>)

  function DocumentOf(row: Row): GlCode {
    GlCode(row.name, if row.category.Some? then row.category.value else "Other", row.tdsSection)
  }

  /** One row, given the codes known before the import. */
  function Tried(s: State, existing: set<string>, row: Row, i: nat, fails: bool): State {
    if row.code in existing || row.code in s.seen then s.(skipped := s.skipped + 1)
    else if fails then s.(failed := s.failed + [Database(i + 2, row.code)])
    else if row.code in s.codes then s.(skipped := s.skipped + 1)
    else State(s.codes[row.code := DocumentOf(row)], s.imported + 1, s.skipped, s.seen + {row.code}, s.failed)
  }

  /** Other writers first; the unique index lets nobody replace a code. */
  function Taken(s: State, existing: set<string>, row: Row, i: nat, world: World): State {
    Tried(s.(codes := world.others(i) + s.codes), existing, row, i, world.fails(i))
  }

  /** The state after the first `n` rows. */
  function Run(before: Master, rows: seq<Row>, n: nat, world: World): State
    requires n <= |rows|
  {
    if n == 0 then State(before, 0, 0, {}, [])
    else Taken(Run(before, rows, n - 1, world), before.Keys, rows[n - 1], n - 1, world)
  }

  function InFileAll(errors: seq<RowError>): (r: seq<ImportError>)
    ensures |r| == |errors| && forall k :: 0 <= k < |r| ==> r[k] == InFile(errors[k])
  {
    seq(|errors|, k requires 0 <= k < |errors| => InFile(errors[k]))
  }

  /** Why a file is not imported at all. */
  function Refused(file: Option<string>, lower: string -> string): Option<Refusal> {
    if file.None? || file.value == "" then Some(NoFile)
    else
      var entries := Parsed(file.value, lower);
      if RowsIn(entries) == [] && ErrorsIn(entries) == [] then Some(NothingInFile)
      else if |RowsIn(entries)| > MAX_CSV_ROWS then Some(TooManyRows(|RowsIn(entries)|))
      else None
  }

  datatype Creation = Created | Duplicate | Failure

  class GlCodeMaster {
    var codes: Master

    /** Model.create under the unique index, after whatever other writers did. */
    method Create(row: Row, i: nat, world: World) returns (result: Creation)
      modifies this
      ensures var present := world.others(i) + old(codes);
        && result == (if world.fails(i) then Failure else if row.code in present then Duplicate else Created)
        && codes == if result.Created? then present[row.code := DocumentOf(row)] else present
    {
      codes := world.others(i) + codes;
      if world.fails(i) {
        return Failure;
      }
      if row.code in codes {
        return Duplicate;
      }
      codes := codes[row.code := DocumentOf(row)];
      result := Created;
    }

    /** The loop over the rows. */
    method ImportRows(rows: seq<Row>, world: World) returns (imported: nat, skipped: nat, failed: seq<ImportError>)
      modifies this
      ensures var end := Run(old(codes), rows, |rows|, world);
        codes == end.codes && imported == end.imported && skipped == end.skipped && failed == end.failed
    {
      var existingCodes := codes.Keys;
      var seenInBatch: set<string> := {};
      imported, skipped, failed := 0, 0, [];
      for i := 0 to |rows|
        invariant State(codes, imported, skipped, seenInBatch, failed) == Run(old(codes), rows, i, world)
      {
        var row := rows[i];
        if row.code in existingCodes || row.code in seenInBatch {
          codes := world.others(i) + codes;
          skipped := skipped + 1;
          continue;
        }
        var result := Create(row, i, world);
        match result {
          case Created =>
            imported := imported + 1;
            seenInBatch := seenInBatch + {row.code};
          case Duplicate =>
            skipped := skipped + 1;
          case Failure =>
            failed := failed + [Database(i + 2, row.code)];
        }
      }
    }

    /** The import route: a refused file changes nothing. */
    method ImportCsv(file: Option<string>, lower: string -> string, world: World) returns (response: Response)
      modifies this
      ensures Refused(file, lower).Some? ==> response == BadRequest(Refused(file, lower).value) && codes == old(codes)
      ensures Refused(file, lower).None? ==>
        var entries := Parsed(file.value, lower);
        var end := Run(old(codes), RowsIn(entries), |RowsIn(entries)|, world);
        codes == end.codes && response == Report(end.imported, end.skipped, InFileAll(ErrorsIn(entries)) + end.failed)
    {
      if file.None? || file.value == "" {
        return BadRequest(NoFile);
      }
      var rows, errors := ParseCsvContent(file.value, lower);
      if rows == [] && errors == [] {
        return BadRequest(NothingInFile);
      }
      if |rows| > MAX_CSV_ROWS {
        return BadRequest(TooManyRows(|rows|));
      }
      var imported, skipped, failed := ImportRows(rows, world);
      response := Report(imported, skipped, InFileAll(errors) + failed);
    }
  }

  // ---------- what an import keeps and what it stores ----------

  /** One of the first `n` rows with this code comes through to the database. */
  ghost predicate Comes(rows: seq<Row>, n: nat, world: World, c: string)
    requires n <= |rows|
  {
    exists i :: 0 <= i < n && rows[i].code == c && !world.fails(i)
  }

  ghost predicate Arrives(n: nat, world: World, c: string) {
    exists i: nat :: i < n && c in world.others(i)
  }

  /** Main result: whatever else is written meanwhile, an import replaces no code, and afterwards exactly those codes
      are stored that were there, that others brought, or that some row brought without a failure. */
  lemma {:induction false} StoredExactly(before: Master, rows: seq<Row>, n: nat, world: World, c: string)
    requires n <= |rows|
    ensures var end := Run(before, rows, n, world);
      && (c in before ==> c in end.codes && end.codes[c] == before[c])
      && (c in end.seen ==> c in end.codes)
      && (c in end.codes <==> c in before || Arrives(n, world, c) || Comes(rows, n, world, c))
  {
    if n > 0 {
      StoredExactly(before, rows, n - 1, world, c);
      assert Arrives(n, world, c) <==> Arrives(n - 1, world, c) || c in world.others(n - 1);
    }
  }

  ghost predicate Counted(s: State, before: Master, n: nat) {
    && s.imported + s.skipped + |s.failed| == n
    && |s.seen| == s.imported && s.seen !! before.Keys && s.seen <= s.codes.Keys
  }

  lemma TriedCounts(s: State, before: Master, row: Row, i: nat, fails: bool)
    requires Counted(s, before, i)
    ensures Counted(Tried(s, before.Keys, row, i, fails), before, i + 1)
  {
  }

  lemma TakenCounts(s: State, before: Master, row: Row, i: nat, world: World)
    requires Counted(s, before, i)
    ensures Counted(Taken(s, before.Keys, row, i, world), before, i + 1)
  {
    TriedCounts(s.(codes := world.others(i) + s.codes), before, row, i, world.fails(i));
  }

  /** Main result: every row is counted once, as imported, skipped or failed, and each imported one is a new code. */
  lemma {:induction false} EveryRowCounted(before: Master, rows: seq<Row>, n: nat, world: World)
    requires n <= |rows|
    ensures Counted(Run(before, rows, n, world), before, n)
  {
    if n > 0 {
      EveryRowCounted(before, rows, n - 1, world);
      TakenCounts(Run(before, rows, n - 1, world), before, rows[n - 1], n - 1, world);
    }
  }

  // ---------- without other writers ----------

  ghost predicate Alone(n: nat, world: World) {
    forall i: nat :: i < n ==> world.others(i) == map[]
  }

  /** The codes are the earlier ones and the new ones. */
  ghost predicate Grown(s: State, before: Master) {
    forall c :: c in s.codes <==> c in before || c in s.seen
  }

  /** A row on its own: it creates its code, fails, or changes nothing. */
  lemma TriedAlone(s: State, before: Master, row: Row, i: nat, fails: bool)
    requires Grown(s, before)
    ensures var t := Tried(s, before.Keys, row, i, fails);
      && Grown(t, before)
      && t.codes == (if row.code in s.codes || fails then s.codes else s.codes[row.code := DocumentOf(row)])
      && t.imported == (if row.code in s.codes || fails then s.imported else s.imported + 1)
      && t.failed == (if row.code !in s.codes && fails then s.failed + [Database(i + 2, row.code)] else s.failed)
  {
  }

  /** One step of the run, without other writers. */
  lemma RunStep(before: Master, rows: seq<Row>, n: nat, world: World)
    requires n < |rows| && world.others(n) == map[]
    ensures Run(before, rows, n + 1, world) ==
      Tried(Run(before, rows, n, world), before.Keys, rows[n], n, world.fails(n))
  {
    var codes := Run(before, rows, n, world).codes;
    assert world.others(n) + codes == codes;
  }

  lemma {:induction false} RunGrows(before: Master, rows: seq<Row>, n: nat, world: World)
    requires n <= |rows| && Alone(n, world)
    ensures Grown(Run(before, rows, n, world), before)
  {
    if n > 0 {
      RunGrows(before, rows, n - 1, world);
      RunStep(before, rows, n - 1, world);
      TriedAlone(Run(before, rows, n - 1, world), before, rows[n - 1], n - 1, world.fails(n - 1));
    }
  }

  lemma SizeOfGrown(s: State, before: Master)
    requires Grown(s, before) && s.seen !! before.Keys
    ensures |s.codes| == |before| + |s.seen|
  {
    assert s.codes.Keys == before.Keys + s.seen;
    assert |s.codes.Keys| == |s.codes| && |before.Keys| == |before|;
  }

  /** Main result: without other writers the collection grows by the imported codes and nothing else. */
  lemma AddsWhatItCounts(before: Master, rows: seq<Row>, n: nat, world: World)
    requires n <= |rows| && Alone(n, world)
    ensures var end := Run(before, rows, n, world);
      && (forall c :: c in end.codes <==> c in before || c in end.seen)
      && |end.codes| == |before| + end.imported
  {
    RunGrows(before, rows, n, world);
    EveryRowCounted(before, rows, n, world);
    SizeOfGrown(Run(before, rows, n, world), before);
  }

  lemma TakenStays(s: State, existing: set<string>, row: Row, i: nat, world: World, c: string)
    requires c in s.codes
    ensures c in Taken(s, existing, row, i, world).codes && Taken(s, existing, row, i, world).codes[c] == s.codes[c]
  {
  }

  lemma TakenStores(s: State, existing: set<string>, row: Row, i: nat, world: World)
    requires row.code !in existing && row.code !in s.seen && row.code !in s.codes && row.code !in world.others(i)
    requires !world.fails(i)
    ensures var codes := Taken(s, existing, row, i, world).codes;
      row.code in codes && codes[row.code] == DocumentOf(row)
  {
  }

  /** Main result: a new code is stored with the data of the first of its rows that does not fail, unless another writer
      brought it before. */
  lemma {:induction false} FirstRowWins(before: Master, rows: seq<Row>, n: nat, world: World, i: nat)
    requires i < n <= |rows| && rows[i].code !in before && !world.fails(i)
    requires !Comes(rows, i, world, rows[i].code) && !Arrives(i + 1, world, rows[i].code)
    ensures var end := Run(before, rows, n, world);
      && rows[i].code in end.codes
      && end.codes[rows[i].code].name == rows[i].name
      && end.codes[rows[i].code].category == (if rows[i].category.Some? then rows[i].category.value else "Other")
      && end.codes[rows[i].code].linkedTdsSection == rows[i].tdsSection
  {
    if i < n - 1 {
      FirstRowWins(before, rows, n - 1, world, i);
      TakenStays(Run(before, rows, n - 1, world), before.Keys, rows[n - 1], n - 1, world, rows[i].code);
    } else {
      StoredExactly(before, rows, i, world, rows[i].code);
      assert !Arrives(i, world, rows[i].code) && rows[i].code !in world.others(i);
      TakenStores(Run(before, rows, i, world), before.Keys, rows[i], i, world);
    }
  }

  /** Row `i` finds its code new, not created by an earlier row, and the database failing. */
  ghost predicate FailsAnew(before: Master, rows: seq<Row>, world: World, i: nat)
    requires i < |rows|
  {
    world.fails(i) && rows[i].code !in before && rows[i].code !in Run(before, rows, i, world).seen
  }

  /** One of the first `n` rows fails anew with this report. */
  ghost predicate Reported(before: Master, rows: seq<Row>, n: nat, world: World, e: ImportError)
    requires n <= |rows|
  {
    exists i :: 0 <= i < n && FailsAnew(before, rows, world, i) && e == Database(i + 2, rows[i].code)
  }

  lemma ReportedSnoc(before: Master, rows: seq<Row>, n: nat, world: World, e: ImportError)
    requires n < |rows|
    ensures Reported(before, rows, n + 1, world, e) <==>
      Reported(before, rows, n, world, e) || (FailsAnew(before, rows, world, n) && e == Database(n + 2, rows[n].code))
  {
  }

  /** Main result: exactly the rows that fail anew are reported, under the number `i + 2`, whatever others write. */
  lemma {:induction false} FailedExactly(before: Master, rows: seq<Row>, n: nat, world: World, e: ImportError)
    requires n <= |rows|
    ensures e in Run(before, rows, n, world).failed <==> Reported(before, rows, n, world, e)
  {
    if n > 0 {
      FailedExactly(before, rows, n - 1, world, e);
      FailedSnoc(before, rows, n - 1, world, e);
      ReportedSnoc(before, rows, n - 1, world, e);
    }
  }

  lemma FailedSnoc(before: Master, rows: seq<Row>, n: nat, world: World, e: ImportError)
    requires n < |rows|
    ensures e in Run(before, rows, n + 1, world).failed <==>
      e in Run(before, rows, n, world).failed ||
        (FailsAnew(before, rows, world, n) && e == Database(n + 2, rows[n].code))
  {
    TakenFailed(Run(before, rows, n, world), before.Keys, rows[n], n, world);
  }

  lemma TakenFailed(s: State, existing: set<string>, row: Row, i: nat, world: World)
    ensures Taken(s, existing, row, i, world).failed ==
      if world.fails(i) && row.code !in existing && row.code !in s.seen then s.failed + [Database(i + 2, row.code)]
      else s.failed
  {
  }

  /** Without other writers a new code was created exactly if some row brought it. */
  lemma SeenAlone(before: Master, rows: seq<Row>, n: nat, world: World, c: string)
    requires n <= |rows| && Alone(n, world) && c !in before
    ensures c in Run(before, rows, n, world).seen <==> Comes(rows, n, world, c)
  {
    StoredExactly(before, rows, n, world, c);
    RunGrows(before, rows, n, world);
  }

  // ---------- importing again ----------

  lemma {:induction false} KnownCodesSkipped(before: Master, rows: seq<Row>, n: nat, world: World)
    requires n <= |rows| && forall k :: 0 <= k < |rows| ==> rows[k].code in before
    ensures var end := Run(before, rows, n, world);
      && end.imported == 0 && end.skipped == n && end.failed == [] && end.seen == {}
      && (Alone(n, world) ==> end.codes == before)
  {
    if n > 0 {
      KnownCodesSkipped(before, rows, n - 1, world);
      assert map[] + before == before;
    }
  }

  /** Main result: after an import without failures the same rows are all skipped, even by a failing database. */
  lemma ImportTwice(before: Master, rows: seq<Row>, world: World, again: World)
    requires forall i: nat :: i < |rows| ==> !world.fails(i)
    ensures var first := Run(before, rows, |rows|, world);
      var second := Run(first.codes, rows, |rows|, again);
      && second.imported == 0 && second.skipped == |rows| && second.failed == []
      && (Alone(|rows|, again) ==> second.codes == first.codes)
  {
    var codes := Run(before, rows, |rows|, world).codes;
    forall k | 0 <= k < |rows|
      ensures rows[k].code in codes
    {
      StoredExactly(before, rows, |rows|, world, rows[k].code);
    }
    KnownCodesSkipped(codes, rows, |rows|, again);
  }

  // ---------- the numbers in failure reports ----------

  /** What each line of a file comes to: an entry, or nothing. */
  function PerLine(cols: Columns, lines: seq<string>, number: nat): (parts: seq<seq<Entry>>)
    ensures |parts| == |lines| && AtMostOne(parts)
    ensures forall k :: 0 <= k < |lines| ==> parts[k] == LineEntry(cols, lines[k], number + k)
  {
    seq(|lines|, k requires 0 <= k < |lines| => LineEntry(cols, lines[k], number + k))
  }

  predicate AtMostOne(parts: seq<seq<Entry>>) {
    forall k :: 0 <= k < |parts| ==> |parts[k]| <= 1
  }

  predicate IsRow(part: seq<Entry>) {
    part != [] && part[0].Imported?
  }

  /** The line numbers of the rows. */
  function RowNumbers(parts: seq<seq<Entry>>, number: nat): seq<nat> {
    if parts == [] then []
    else if IsRow(parts[0]) then [number] + RowNumbers(parts[1..], number + 1)
    else RowNumbers(parts[1..], number + 1)
  }

  function RowsOf(parts: seq<seq<Entry>>): seq<Row> {
    if parts == [] then []
    else if IsRow(parts[0]) then [parts[0][0].row] + RowsOf(parts[1..])
    else RowsOf(parts[1..])
  }

  lemma {:induction false} RowsAppend(a: seq<Entry>, b: seq<Entry>)
    ensures RowsIn(a + b) == RowsIn(a) + RowsIn(b)
  {
    if b == [] {
      assert a + b == a;
    } else {
      var n := |b| - 1;
      assert (a + b)[..|a| + n] == a + b[..n];
      RowsAppend(a, b[..n]);
    }
  }

  lemma RowsOfOne(part: seq<Entry>)
    requires |part| <= 1
    ensures RowsIn(part) == if IsRow(part) then [part[0].row] else []
  {
    assert part != [] ==> part[..0] == [] && RowsIn(part[..0]) == [];
  }

  lemma {:induction false} RowsPerLine(cols: Columns, lines: seq<string>, number: nat)
    ensures RowsIn(Entries(cols, lines, number)) == RowsOf(PerLine(cols, lines, number))
  {
    if lines != [] {
      var first := LineEntry(cols, lines[0], number);
      RowsPerLine(cols, lines[1..], number + 1);
      assert PerLine(cols, lines, number)[1..] == PerLine(cols, lines[1..], number + 1);
      RowsAppend(first, Entries(cols, lines[1..], number + 1));
      RowsOfOne(first);
    }
  }

  predicate HoldsRow(part: seq<Entry>, row: Row) {
    IsRow(part) && part[0].row == row
  }

  /** Row `i` is the one on line `RowNumbers[i]`. */
  lemma {:induction false} RowStandsThere(parts: seq<seq<Entry>>, number: nat, i: nat)
    requires i < |RowsOf(parts)|
    ensures i < |RowNumbers(parts, number)|
    ensures number <= RowNumbers(parts, number)[i] < number + |parts|
    ensures HoldsRow(parts[RowNumbers(parts, number)[i] - number], RowsOf(parts)[i])
  {
    var tail := parts[1..];
    if !IsRow(parts[0]) {
      RowStandsThere(tail, number + 1, i);
      assert tail[RowNumbers(tail, number + 1)[i] - number - 1] == parts[RowNumbers(parts, number)[i] - number];
    } else if i > 0 {
      RowStandsThere(tail, number + 1, i - 1);
      assert tail[RowNumbers(tail, number + 1)[i - 1] - number - 1] == parts[RowNumbers(parts, number)[i] - number];
    }
  }

  /** The first `m` lines are rows. */
  ghost predicate AllRows(parts: seq<seq<Entry>>, m: nat)
    requires m <= |parts|
  {
    forall k :: 0 <= k < m ==> IsRow(parts[k])
  }

  lemma AllRowsCons(parts: seq<seq<Entry>>, m: nat)
    requires m < |parts|
    ensures AllRows(parts, m + 1) <==> IsRow(parts[0]) && AllRows(parts[1..], m)
  {
    assert forall k :: 0 <= k < m ==> parts[1..][k] == parts[k + 1];
    assert forall k :: 1 <= k < m + 1 ==> parts[k] == parts[1..][k - 1];
  }

  lemma {:induction false} NumbersWithoutGap(parts: seq<seq<Entry>>, number: nat, i: nat)
    requires i < |RowNumbers(parts, number)|
    ensures number + i <= RowNumbers(parts, number)[i] < number + |parts|
    ensures RowNumbers(parts, number)[i] == number + i <==> AllRows(parts, RowNumbers(parts, number)[i] - number)
  {
    var k: nat := if IsRow(parts[0]) then 1 else 0;
    if i >= k {
      NumbersWithoutGap(parts[1..], number + 1, i - k);
      AllRowsCons(parts, RowNumbers(parts[1..], number + 1)[i - k] - number - 1);
    }
  }

  lemma LineOfRow(parts: seq<seq<Entry>>, number: nat, i: nat) returns (line: nat)
    requires i < |RowsOf(parts)|
    ensures i <= line < |parts| && HoldsRow(parts[line], RowsOf(parts)[i])
    ensures |RowsOf(parts[..line])| == i
    ensures line == i <==> AllRows(parts, line)
  {
    RowStandsThere(parts, number, i);
    NumbersWithoutGap(parts, number, i);
    line := RowNumbers(parts, number)[i] - number;
    RowsAbove(parts, number, i);
  }

  /** Row `i` has `i` rows above it. */
  lemma {:induction false} RowsAbove(parts: seq<seq<Entry>>, number: nat, i: nat)
    requires i < |RowNumbers(parts, number)|
    ensures number <= RowNumbers(parts, number)[i] < number + |parts|
    ensures |RowsOf(parts[..RowNumbers(parts, number)[i] - number])| == i
  {
    var tail := parts[1..];
    var k: nat := if IsRow(parts[0]) then 1 else 0;
    if i >= k {
      RowsAbove(tail, number + 1, i - k);
      var m := RowNumbers(tail, number + 1)[i - k] - number - 1;
      assert RowNumbers(parts, number)[i] == number + 1 + m;
      OneMoreLine(parts, m);
    }
  }

  lemma OneMoreLine(parts: seq<seq<Entry>>, m: nat)
    requires m < |parts|
    ensures |RowsOf(parts[..m + 1])| == |RowsOf(parts[1..][..m])| + if IsRow(parts[0]) then 1 else 0
  {
    assert parts[..m + 1][1..] == parts[1..][..m];
  }

  /** Main result: row `i` of a file was read from some data line, and the number `i + 2` that is reported for it is the
      number of that line if and only if every data line above it is a row as well. */
  lemma ReportedNumberExactly(cols: Columns, data: seq<string>, i: nat) returns (line: nat)
    requires i < |RowsIn(Entries(cols, data, 2))|
    ensures i <= line < |data| && HoldsRow(PerLine(cols, data, 2)[line], RowsIn(Entries(cols, data, 2))[i])
    ensures |RowsOf(PerLine(cols, data, 2)[..line])| == i
    ensures line == i <==> AllRows(PerLine(cols, data, 2), line)
  {
    RowsPerLine(cols, data, 2);
    line := LineOfRow(PerLine(cols, data, 2), 2, i);
  }

  // ---------- refused files ----------

  /** Main result: a file is refused exactly if there is none, if it has neither rows nor errors, or more than 5000
      rows. */
  lemma RefusedExactly(file: Option<string>, lower: string -> string)
    ensures Refused(file, lower) == Some(NoFile) <==> file.None? || file.value == ""
    ensures file.Some? && file.value != "" ==>
      var rows, errors := RowsIn(Parsed(file.value, lower)), ErrorsIn(Parsed(file.value, lower));
      && (Refused(file, lower) == Some(NothingInFile) <==> rows == [] && errors == [])
      && (Refused(file, lower) == Some(TooManyRows(|rows|)) <==> |rows| > 5000)
      && (Refused(file, lower) == None <==> (rows != [] || errors != []) && |rows| <= 5000)
  {
  }
}
