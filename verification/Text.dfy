/** Strings as the source's split, join and trim see them. */
module Text {

  /** Characters that String.prototype.trim removes: white space and line terminators. */
  const JS_SPACE: set<char> :=
    {'\t', '\n', '\U{000B}', '\U{000C}', '\r', ' ', '\U{00A0}', '\U{1680}',
     '\U{2000}', '\U{2001}', '\U{2002}', '\U{2003}', '\U{2004}', '\U{2005}', '\U{2006}', '\U{2007}',
     '\U{2008}', '\U{2009}', '\U{200A}', '\U{2028}', '\U{2029}', '\U{202F}', '\U{205F}', '\U{3000}', '\U{FEFF}'}

  /** Characters that Python's str.strip removes. */
  const PY_SPACE: set<char> :=
    {'\t', '\n', '\U{000B}', '\U{000C}', '\r', '\U{001C}', '\U{001D}', '\U{001E}', '\U{001F}', ' ',
     '\U{0085}', '\U{00A0}', '\U{1680}',
     '\U{2000}', '\U{2001}', '\U{2002}', '\U{2003}', '\U{2004}', '\U{2005}', '\U{2006}', '\U{2007}',
     '\U{2008}', '\U{2009}', '\U{200A}', '\U{2028}', '\U{2029}', '\U{202F}', '\U{205F}', '\U{3000}'}

  function TrimStart(s: string, space: set<char>): string {
    if s != "" && s[0] in space then TrimStart(s[1..], space) else s
  }

  function TrimEnd(s: string, space: set<char>): string {
    if s != "" && s[|s| - 1] in space then TrimEnd(s[..|s| - 1], space) else s
  }

  function Trim(s: string, space: set<char>): string {
    TrimEnd(TrimStart(s, space), space)
  }

  /** A string that trims to nothing. */
  predicate Blank(s: string, space: set<char>) {
    forall i :: 0 <= i < |s| ==> s[i] in space
  }

  /** Neither end is white space. */
  predicate Tight(s: string, space: set<char>) {
    s != "" ==> s[0] !in space && s[|s| - 1] !in space
  }

  lemma {:induction false} TrimStartShape(s: string, space: set<char>) returns (head: string)
    ensures s == head + TrimStart(s, space) && Blank(head, space)
    ensures TrimStart(s, space) != "" ==> TrimStart(s, space)[0] !in space
  {
    if s != "" && s[0] in space {
      var rest := TrimStartShape(s[1..], space);
      head := [s[0]] + rest;
      assert s == [s[0]] + s[1..];
    } else {
      head := "";
    }
  }

  lemma {:induction false} TrimEndShape(s: string, space: set<char>) returns (tail: string)
    ensures s == TrimEnd(s, space) + tail && Blank(tail, space)
    ensures TrimEnd(s, space) != "" ==> TrimEnd(s, space)[|TrimEnd(s, space)| - 1] !in space
  {
    if s != "" && s[|s| - 1] in space {
      var rest := TrimEndShape(s[..|s| - 1], space);
      tail := rest + [s[|s| - 1]];
      assert s == s[..|s| - 1] + [s[|s| - 1]];
    } else {
      tail := "";
    }
  }

  /** Trimming drops a blank head and a blank tail and leaves a tight core. */
  lemma TrimShape(s: string, space: set<char>) returns (head: string, tail: string)
    ensures s == head + Trim(s, space) + tail && Blank(head, space) && Blank(tail, space)
    ensures Tight(Trim(s, space), space)
    ensures Trim(s, space) == "" <==> Blank(s, space)
  {
    var t := TrimStart(s, space);
    head := TrimStartShape(s, space);
    tail := TrimEndShape(t, space);
    var core := TrimEnd(t, space);
    assert s == head + core + tail;
    if core != "" {
      assert core[0] == t[0];
      assert s[|head|] == t[0];
    } else {
      assert t == tail;
      assert t == "";
    }
  }

  /** Text that is tight already is left alone. */
  lemma TrimTight(s: string, space: set<char>)
    requires Tight(s, space)
    ensures Trim(s, space) == s
  {
  }

  lemma {:induction false} TrimStartAppend(a: string, b: string, space: set<char>)
    requires b != "" && b[0] !in space
    ensures TrimStart(a + b, space) == TrimStart(a, space) + b
  {
    if a == "" {
      assert a + b == b;
    } else if a[0] in space {
      assert (a + b)[1..] == a[1..] + b;
      TrimStartAppend(a[1..], b, space);
    }
  }

  lemma {:induction false} TrimEndAppend(a: string, b: string, space: set<char>)
    requires a != "" && a[|a| - 1] !in space
    ensures TrimEnd(a + b, space) == a + TrimEnd(b, space)
  {
    if b == "" {
      assert a + b == a;
    } else if b[|b| - 1] in space {
      assert (a + b)[..|a + b| - 1] == a + b[..|b| - 1];
      TrimEndAppend(a, b[..|b| - 1], space);
    }
  }

  lemma {:induction false} BlankTrims(s: string, space: set<char>)
    requires Blank(s, space)
    ensures TrimStart(s, space) == ""
  {
    if s != "" { BlankTrims(s[1..], space); }
  }

  lemma {:induction false} BlankTrimsEnd(s: string, space: set<char>)
    requires Blank(s, space)
    ensures TrimEnd(s, space) == ""
  {
    if s != "" { BlankTrimsEnd(s[..|s| - 1], space); }
  }

  lemma TrimOfCore(head: string, core: string, tail: string, space: set<char>)
    requires Blank(head, space) && Blank(tail, space)
    requires core != "" && Tight(core, space)
    ensures Trim(head + core + tail, space) == core
  {
    assert head + core + tail == head + (core + tail);
    TrimStartAppend(head, core + tail, space);
    BlankTrims(head, space);
    BlankTrimsEnd(tail, space);
    TrimEndAppend(core, tail, space);
    assert "" + (core + tail) == core + tail && core + "" == core;
  }

  /** Trimming one side first does not change what trimming leaves. */
  lemma TrimAfterStart(s: string, space: set<char>)
    ensures Trim(TrimStart(s, space), space) == Trim(s, space)
  {
    var _ := TrimStartShape(s, space);
  }

  lemma TrimAfterEnd(s: string, space: set<char>)
    ensures Trim(TrimEnd(s, space), space) == Trim(s, space)
  {
    var tail := TrimEndShape(s, space);
    var t := TrimEnd(s, space);
    var left, right := TrimShape(t, space);
    var core := Trim(t, space);
    BlankAppend(right, tail, space);
    if core != "" {
      assert s == left + core + (right + tail);
      TrimOfCore(left, core, right + tail, space);
    } else {
      BlankAppend(t, tail, space);
      var _, _ := TrimShape(s, space);
    }
  }

  lemma BlankAppend(a: string, b: string, space: set<char>)
    ensures Blank(a, space) && Blank(b, space) ==> Blank(a + b, space)
  {
  }

  /** One character in front of split text: a cut, or the first character of the first piece. */
  function Glue(c: char, cut: bool, parts: seq<string>): (r: seq<string>)
    requires parts != []
    ensures |r| >= 1
  {
    if cut then [""] + parts else [[c] + parts[0]] + parts[1..]
  }

  lemma GlueAppend(c: char, cut: bool, a: seq<string>, b: seq<string>)
    requires a != []
    ensures Glue(c, cut, a + b) == Glue(c, cut, a) + b
  {
    if !cut {
      assert (a + b)[1..] == a[1..] + b;
    }
  }

  /** The pieces between the characters of `seps`; splitting the empty string gives one empty piece. */
  function Split(s: string, seps: set<char>): (parts: seq<string>)
    ensures |parts| >= 1
  {
    if s == "" then [""] else Glue(s[0], s[0] in seps, Split(s[1..], seps))
  }

  function Join(parts: seq<string>, sep: char): string {
    if parts == [] then ""
    else if |parts| == 1 then parts[0]
    else parts[0] + [sep] + Join(parts[1..], sep)
  }

  predicate Free(s: string, seps: set<char>) {
    forall i :: 0 <= i < |s| ==> s[i] !in seps
  }

  lemma {:induction false} SplitFree(s: string, seps: set<char>)
    requires Free(s, seps)
    ensures Split(s, seps) == [s]
  {
    if s != "" {
      SplitFree(s[1..], seps);
      assert s == [s[0]] + s[1..];
    }
  }

  /** A separator character cuts a string into two independent halves. */
  lemma {:induction false} SplitAt(a: string, c: char, b: string, seps: set<char>)
    requires c in seps
    ensures Split(a + [c] + b, seps) == Split(a, seps) + Split(b, seps)
  {
    var s := a + [c] + b;
    if a == "" {
      assert s[0] == c && s[1..] == b;
      assert [""] + Split(b, seps) == Split(a, seps) + Split(b, seps);
    } else {
      SplitAt(a[1..], c, b, seps);
      assert s[0] == a[0] && s[1..] == a[1..] + [c] + b;
      GlueAppend(a[0], a[0] in seps, Split(a[1..], seps), Split(b, seps));
    }
  }

  /** Splitting a join gives the parts back when none of them holds the separator. */
  lemma {:induction false} SplitJoin(parts: seq<string>, sep: char)
    requires |parts| >= 1
    requires forall k :: 0 <= k < |parts| ==> Free(parts[k], {sep})
    ensures Split(Join(parts, sep), {sep}) == parts
  {
    SplitFree(parts[0], {sep});
    if |parts| > 1 {
      SplitJoin(parts[1..], sep);
      SplitAt(parts[0], sep, Join(parts[1..], sep), {sep});
    }
  }

  lemma {:induction false} JoinAppend(a: seq<string>, b: seq<string>, sep: char)
    requires a != [] && b != []
    ensures Join(a + b, sep) == Join(a, sep) + [sep] + Join(b, sep)
  {
    if |a| == 1 {
      assert (a + b)[1..] == b;
    } else {
      assert (a + b)[1..] == a[1..] + b;
      JoinAppend(a[1..], b, sep);
    }
  }

  function Flatten<T>(parts: seq<seq<T>>): seq<T> {
    if parts == [] then [] else parts[0] + Flatten(parts[1..])
  }

  lemma {:induction false} FlattenAppend<T>(a: seq<seq<T>>, b: seq<seq<T>>)
    ensures Flatten(a + b) == Flatten(a) + Flatten(b)
  {
    if a == [] {
      assert a + b == b;
    } else {
      assert (a + b)[1..] == a[1..] + b;
      FlattenAppend(a[1..], b);
    }
  }

  lemma {:induction false} FlattenMember<T>(parts: seq<seq<T>>, x: T)
    ensures x in Flatten(parts) <==> exists k :: 0 <= k < |parts| && x in parts[k]
  {
    if parts != [] {
      var rest := parts[1..];
      FlattenMember(rest, x);
      assert forall k :: 0 <= k < |rest| ==> rest[k] == parts[k + 1];
      assert forall k :: 1 <= k < |parts| ==> parts[k] == rest[k - 1];
      assert x in Flatten(parts) <==> x in parts[0] || x in Flatten(rest);
    }
  }

  /** The parts that do not trim to nothing. */
  function NonBlank(parts: seq<string>): seq<string> {
    if parts == [] then []
    else (if Trim(parts[0], JS_SPACE) != "" then [parts[0]] else []) + NonBlank(parts[1..])
  }

  /** The non-blank pieces of a text, in order. */
  function Content(s: string, seps: set<char>): seq<string> {
    NonBlank(Split(s, seps))
  }

  lemma {:induction false} NonBlankAppend(a: seq<string>, b: seq<string>)
    ensures NonBlank(a + b) == NonBlank(a) + NonBlank(b)
  {
    if a == [] {
      assert a + b == b;
    } else {
      assert (a + b)[1..] == a[1..] + b;
      NonBlankAppend(a[1..], b);
    }
  }

  lemma {:induction false} BlankSplits(s: string, seps: set<char>)
    requires Blank(s, JS_SPACE)
    ensures Content(s, seps) == []
    ensures forall k :: 0 <= k < |Split(s, seps)| ==> Blank(Split(s, seps)[k], JS_SPACE)
  {
    if s != "" {
      BlankSplits(s[1..], seps);
    }
    AllBlank(Split(s, seps));
  }

  lemma {:induction false} AllBlank(parts: seq<string>)
    requires forall k :: 0 <= k < |parts| ==> Blank(parts[k], JS_SPACE)
    ensures NonBlank(parts) == []
  {
    if parts != [] {
      var _, _ := TrimShape(parts[0], JS_SPACE);
      AllBlank(parts[1..]);
    }
  }

  /** Content on the two sides of a separator. */
  lemma ContentAt(a: string, c: char, b: string, seps: set<char>)
    requires c in seps
    ensures Content(a + [c] + b, seps) == Content(a, seps) + Content(b, seps)
  {
    SplitAt(a, c, b, seps);
    NonBlankAppend(Split(a, seps), Split(b, seps));
  }
}
