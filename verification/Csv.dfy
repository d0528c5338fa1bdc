/** The quote machine that splits one CSV line, against the record format of RFC 4180 section 2
    (glCodes.splitCsvLine). */
module Csv {
  import opened Text

  const SPECIAL: set<char> := {'"', ',', '\r', '\n'}

  /** The fields still to come, given the field under way and the quote state. */
  function Scan(s: string, current: string, inQuotes: bool): (fields: seq<string>)
    ensures |fields| >= 1
    decreases |s|
  {
    if s == "" then [current]
    else if inQuotes then
      if s[0] == '"' && |s| > 1 && s[1] == '"' then Scan(s[2..], current + ['"'], true)
      else if s[0] == '"' then Scan(s[1..], current, false)
      else Scan(s[1..], current + [s[0]], true)
    else
      if s[0] == '"' then Scan(s[1..], current, true)
      else if s[0] == ',' then [current] + Scan(s[1..], "", false)
      else Scan(s[1..], current + [s[0]], false)
  }

  method SplitCsvLine(line: string) returns (fields: seq<string>)
    ensures fields == Scan(line, "", false)
  {
    fields := [];
    var current, inQuotes, i := "", false, 0;
    while i < |line|
      invariant 0 <= i <= |line|
      invariant fields + Scan(line[i..], current, inQuotes) == Scan(line, "", false)
    {
      var ch := line[i];
      assert line[i..][0] == ch && line[i..][1..] == line[i + 1..];
      if inQuotes {
        if ch == '"' && i + 1 < |line| && line[i + 1] == '"' {
          assert line[i..][1] == line[i + 1] && line[i..][2..] == line[i + 2..];
          current := current + ['"'];
          i := i + 1;
        } else if ch == '"' {
          inQuotes := false;
        } else {
          current := current + [ch];
        }
      } else {
        if ch == '"' {
          inQuotes := true;
        } else if ch == ',' {
          assert fields + ([current] + Scan(line[i + 1..], "", false)) ==
            fields + [current] + Scan(line[i + 1..], "", false);
          fields := fields + [current];
          current := "";
        } else {
          current := current + [ch];
        }
      }
      i := i + 1;
    }
    fields := fields + [current];
  }

  // ---------- the encoder of RFC 4180 section 2 ----------

  function Doubled(s: string): string {
    if s == "" then "" else (if s[0] == '"' then ['"', '"'] else [s[0]]) + Doubled(s[1..])
  }

  /** A field is quoted when the writer chooses to, and always when it holds a special character. */
  function EncodeField(field: string, quoted: bool): string {
    if quoted || !Free(field, SPECIAL) then ['"'] + Doubled(field) + ['"'] else field
  }

  function EncodeRecord(fields: seq<string>, quoted: seq<bool>): string
    requires |fields| == |quoted| > 0
  {
    if |fields| == 1 then EncodeField(fields[0], quoted[0])
    else EncodeField(fields[0], quoted[0]) + [','] + EncodeRecord(fields[1..], quoted[1..])
  }

  lemma {:induction false} ScanQuoted(field: string, rest: string, current: string)
    requires rest == "" || rest[0] != '"'
    ensures Scan(Doubled(field) + ['"'] + rest, current, true) == Scan(rest, current + field, false)
    decreases |field|
  {
    var s := Doubled(field) + ['"'] + rest;
    if field == "" {
      assert s == ['"'] + rest && s[1..] == rest;
      assert current + field == current;
    } else {
      var tail := Doubled(field[1..]) + ['"'] + rest;
      ScanQuoted(field[1..], rest, current + [field[0]]);
      assert current + [field[0]] + field[1..] == current + field;
      if field[0] == '"' {
        assert s == ['"', '"'] + tail && s[2..] == tail;
      } else {
        assert s == [field[0]] + tail && s[1..] == tail;
      }
    }
  }

  lemma {:induction false} ScanPlain(field: string, rest: string, current: string)
    requires Free(field, SPECIAL)
    ensures Scan(field + rest, current, false) == Scan(rest, current + field, false)
    decreases |field|
  {
    if field == "" {
      assert field + rest == rest && current + field == current;
    } else {
      ScanPlain(field[1..], rest, current + [field[0]]);
      assert (field + rest)[1..] == field[1..] + rest && (field + rest)[0] == field[0];
      assert current + [field[0]] + field[1..] == current + field;
    }
  }

  lemma ScanField(field: string, quoted: bool, rest: string)
    requires rest == "" || rest[0] == ','
    ensures Scan(EncodeField(field, quoted) + rest, "", false) == Scan(rest, field, false)
  {
    if quoted || !Free(field, SPECIAL) {
      var s := EncodeField(field, quoted) + rest;
      var body := Doubled(field) + ['"'] + rest;
      assert s == ['"'] + body && s[1..] == body;
      ScanQuoted(field, rest, "");
      assert "" + field == field;
    } else {
      ScanPlain(field, rest, "");
      assert "" + field == field;
    }
  }

  lemma EncodeCons(fields: seq<string>, quoted: seq<bool>)
    requires |fields| == |quoted| > 1
    ensures EncodeRecord(fields, quoted) ==
      EncodeField(fields[0], quoted[0]) + ([','] + EncodeRecord(fields[1..], quoted[1..]))
  {
  }

  /** A comma behind a field ends it. */
  lemma ScanComma(field: string, tail: string)
    ensures Scan([','] + tail, field, false) == [field] + Scan(tail, "", false)
  {
    assert ([','] + tail)[1..] == tail;
  }

  /** Main result: splitting an encoded record gives its fields back, whichever fields the writer quoted. */
  lemma {:induction false} SplitInvertsEncode(fields: seq<string>, quoted: seq<bool>)
    requires |fields| == |quoted| > 0
    ensures Scan(EncodeRecord(fields, quoted), "", false) == fields
  {
    var head := EncodeField(fields[0], quoted[0]);
    if |fields| == 1 {
      ScanField(fields[0], quoted[0], "");
      assert head + "" == head;
    } else {
      var tail := EncodeRecord(fields[1..], quoted[1..]);
      EncodeCons(fields, quoted);
      ScanField(fields[0], quoted[0], [','] + tail);
      ScanComma(fields[0], tail);
      SplitInvertsEncode(fields[1..], quoted[1..]);
      assert fields == [fields[0]] + fields[1..];
    }
  }
}
