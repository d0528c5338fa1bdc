/** The greedy splitter of long document text into prompt-sized chunks (DocumentProcessingEngine). */
module Chunker {
  import opened Text

  const FORM_FEED: char := '\U{000C}'
  const LINE_SEPS: set<char> := {'\n'}
  const PIECE_SEPS: set<char> := {'\n', FORM_FEED}

  /** Three quarters of the largest chunk, rounded down. */
  function TargetSize(maxChunkChars: nat): nat {
    maxChunkChars * 3 / 4
  }

  /** `current` with one more unit: a newline goes between, but only after text. */
  function Extend(current: string, u: string): string {
    if current == "" then u else current + ['\n'] + u
  }

  /** The chunks the loop still emits when it holds `current` and sees `units`. */
  function Greedy(units: seq<string>, limit: nat, current: string): seq<string> {
    if units == [] then
      if Trim(current, JS_SPACE) != "" then [current] else []
    else if current != "" && |current| + 1 + |units[0]| > limit then
      [current] + Greedy(units[1..], limit, units[0])
    else
      Greedy(units[1..], limit, Extend(current, units[0]))
  }

  /** The page pieces of a text: cut at each form feed and at a newline touching one. */
  function PagePieces(s: string, afterFeed: bool): (parts: seq<string>)
    ensures |parts| >= 1
  {
    if s == "" then [""] else Glue(s[0], IsPageBreak(s, afterFeed), PagePieces(s[1..], s[0] == FORM_FEED))
  }

  predicate IsPageBreak(s: string, afterFeed: bool)
    requires s != ""
  {
    s[0] == FORM_FEED || (s[0] == '\n' && (afterFeed || (|s| > 1 && s[1] == FORM_FEED)))
  }

  function Pages(text: string): seq<string> {
    var pieces := PagePieces(text, false);
    if |pieces| > 1 then NonBlank(pieces) else [text]
  }

  /** The units the splitter packs and the longest joined chunk it allows. */
  function Units(text: string): (units: seq<string>)
    ensures units != []
  {
    if |Pages(text)| > 1 then Pages(text) else Split(text, LINE_SEPS)
  }

  function Limit(text: string, maxChunkChars: nat): nat {
    TargetSize(maxChunkChars) + if |Pages(text)| > 1 then 1 else 0
  }

  function Chunks(text: string, maxChunkChars: nat): seq<string> {
    var chunks := Greedy(Units(text), Limit(text, maxChunkChars), "");
    if chunks == [] then [text] else chunks
  }

  /** One turn of the packing loop. */
  lemma GreedyStep(chunks: seq<string>, units: seq<string>, k: nat, limit: nat, current: string)
    requires k < |units|
    ensures chunks + Greedy(units[k..], limit, current) ==
      if current != "" && |current| + 1 + |units[k]| > limit
      then chunks + [current] + Greedy(units[k + 1..], limit, units[k])
      else chunks + Greedy(units[k + 1..], limit, Extend(current, units[k]))
  {
    assert units[k..][0] == units[k] && units[k..][1..] == units[k + 1..];
    var next := Greedy(units[k + 1..], limit, units[k]);
    assert chunks + ([current] + next) == chunks + [current] + next;
  }

  /** The loop over pages: the newline put between two pages is not counted. */
  method PackPages(pages: seq<string>, target: nat) returns (chunks: seq<string>, current: string)
    ensures chunks + Greedy([], target + 1, current) == Greedy(pages, target + 1, "")
  {
    chunks, current := [], "";
    for k := 0 to |pages|
      invariant chunks + Greedy(pages[k..], target + 1, current) == Greedy(pages, target + 1, "")
    {
      var page := pages[k];
      GreedyStep(chunks, pages, k, target + 1, current);
      if |current| + |page| > target && |current| > 0 {
        chunks := chunks + [current];
        current := page;
      } else {
        current := Extend(current, page);
      }
    }
  }

  method PackLines(lines: seq<string>, target: nat) returns (chunks: seq<string>, current: string)
    ensures chunks + Greedy([], target, current) == Greedy(lines, target, "")
  {
    chunks, current := [], "";
    for k := 0 to |lines|
      invariant chunks + Greedy(lines[k..], target, current) == Greedy(lines, target, "")
    {
      var line := lines[k];
      GreedyStep(chunks, lines, k, target, current);
      if |current| + |line| + 1 > target && |current| > 0 {
        chunks := chunks + [current];
        current := line;
      } else {
        current := Extend(current, line);
      }
    }
  }

  method SplitTextIntoChunks(text: string, maxChunkChars: nat) returns (chunks: seq<string>)
    ensures chunks == Chunks(text, maxChunkChars)
  {
    var target := maxChunkChars * 3 / 4;
    var pageBreaks := PagePieces(text, false);
    var pages := if |pageBreaks| > 1 then NonBlank(pageBreaks) else [text];
    var current;
    if |pages| > 1 {
      chunks, current := PackPages(pages, target);
    } else {
      chunks, current := PackLines(Split(text, LINE_SEPS), target);
    }
    assert chunks + Greedy([], Limit(text, maxChunkChars), current) ==
      Greedy(Units(text), Limit(text, maxChunkChars), "");
    if Trim(current, JS_SPACE) != "" {
      chunks := chunks + [current];
    }
    if chunks == [] {
      chunks := [text];
    }
  }

  // ---------- conservation of content ----------

  function ContentOfAll(parts: seq<string>, seps: set<char>): seq<string> {
    if parts == [] then [] else Content(parts[0], seps) + ContentOfAll(parts[1..], seps)
  }

  lemma ContentExtend(current: string, u: string, seps: set<char>)
    requires '\n' in seps
    ensures Content(Extend(current, u), seps) == Content(current, seps) + Content(u, seps)
  {
    if current == "" {
      BlankSplits("", seps);
    } else {
      ContentAt(current, '\n', u, seps);
    }
  }

  lemma {:induction false} GreedyKeepsContent(units: seq<string>, limit: nat, current: string, seps: set<char>)
    requires '\n' in seps
    ensures ContentOfAll(Greedy(units, limit, current), seps) == Content(current, seps) + ContentOfAll(units, seps)
  {
    if units == [] {
      if Trim(current, JS_SPACE) == "" {
        var _, _ := TrimShape(current, JS_SPACE);
        BlankSplits(current, seps);
      }
    } else if current != "" && |current| + 1 + |units[0]| > limit {
      GreedyKeepsContent(units[1..], limit, units[0], seps);
    } else {
      GreedyKeepsContent(units[1..], limit, Extend(current, units[0]), seps);
      ContentExtend(current, units[0], seps);
    }
  }

  /** Cutting the pieces of a coarser split again gives the fine split. */
  function SplitAll(parts: seq<string>, seps: set<char>): seq<string> {
    if parts == [] then [] else Split(parts[0], seps) + SplitAll(parts[1..], seps)
  }

  lemma {:induction false} LinesRefine(s: string, seps: set<char>)
    requires '\n' in seps
    ensures SplitAll(Split(s, LINE_SEPS), seps) == Split(s, seps)
  {
    if s != "" {
      LinesRefine(s[1..], seps);
      Prepend(s, Split(s[1..], LINE_SEPS), s[0] in LINE_SEPS, seps);
    }
  }

  lemma {:induction false} PagesRefine(s: string, afterFeed: bool, seps: set<char>)
    requires PIECE_SEPS <= seps
    ensures SplitAll(PagePieces(s, afterFeed), seps) == Split(s, seps)
  {
    if s != "" {
      PagesRefine(s[1..], s[0] == FORM_FEED, seps);
      Prepend(s, PagePieces(s[1..], s[0] == FORM_FEED), IsPageBreak(s, afterFeed), seps);
    }
  }

  /** One more character in front of a coarse split, as a separator or as text. */
  lemma Prepend(s: string, rest: seq<string>, cut: bool, seps: set<char>)
    requires s != "" && rest != []
    requires SplitAll(rest, seps) == Split(s[1..], seps)
    requires cut ==> s[0] in seps
    ensures SplitAll(Glue(s[0], cut, rest), seps) == Split(s, seps)
  {
    var r := Glue(s[0], cut, rest);
    if cut {
      assert r[1..] == rest;
      assert Split("", seps) == [""];
    } else {
      assert r[1..] == rest[1..];
      PrependPiece(s[0], rest[0], SplitAll(rest[1..], seps), seps);
    }
  }

  lemma PrependPiece(c: char, s: string, tail: seq<string>, seps: set<char>)
    ensures Split([c] + s, seps) + tail == Glue(c, c in seps, Split(s, seps) + tail)
  {
    assert ([c] + s)[1..] == s;
    GlueAppend(c, c in seps, Split(s, seps), tail);
  }

  lemma {:induction false} ContentSplitAll(parts: seq<string>, seps: set<char>)
    ensures ContentOfAll(parts, seps) == NonBlank(SplitAll(parts, seps))
  {
    if parts != [] {
      ContentSplitAll(parts[1..], seps);
      NonBlankAppend(Split(parts[0], seps), SplitAll(parts[1..], seps));
    }
  }

  lemma {:induction false} DropBlankPages(parts: seq<string>, seps: set<char>)
    ensures ContentOfAll(NonBlank(parts), seps) == ContentOfAll(parts, seps)
  {
    if parts != [] {
      DropBlankPages(parts[1..], seps);
      if Trim(parts[0], JS_SPACE) == "" {
        var _, _ := TrimShape(parts[0], JS_SPACE);
        BlankSplits(parts[0], seps);
        assert NonBlank(parts) == NonBlank(parts[1..]);
      } else {
        assert NonBlank(parts)[1..] == NonBlank(parts[1..]);
      }
    }
  }

  lemma UnitsKeepContent(text: string, seps: set<char>)
    requires '\n' in seps
    requires |Pages(text)| > 1 ==> FORM_FEED in seps
    ensures ContentOfAll(Units(text), seps) == Content(text, seps)
  {
    if |Pages(text)| > 1 {
      var pieces := PagePieces(text, false);
      DropBlankPages(pieces, seps);
      ContentSplitAll(pieces, seps);
      PagesRefine(text, false, seps);
    } else {
      ContentSplitAll(Split(text, LINE_SEPS), seps);
      LinesRefine(text, seps);
    }
  }

  /** Main result: the chunks hold exactly the non-blank pieces of the text, in order. */
  lemma ChunksConserveContent(text: string, maxChunkChars: nat, seps: set<char>)
    requires '\n' in seps
    requires |Pages(text)| > 1 ==> FORM_FEED in seps
    ensures ContentOfAll(Chunks(text, maxChunkChars), seps) == Content(text, seps)
  {
    UnitsKeepContent(text, seps);
    PackedContent(Units(text), Limit(text, maxChunkChars), seps);
    if Greedy(Units(text), Limit(text, maxChunkChars), "") == [] {
      ContentOfOne(text, seps);
    }
  }

  lemma PackedContent(units: seq<string>, limit: nat, seps: set<char>)
    requires '\n' in seps
    ensures ContentOfAll(Greedy(units, limit, ""), seps) == ContentOfAll(units, seps)
  {
    GreedyKeepsContent(units, limit, "", seps);
    BlankSplits("", seps);
  }

  lemma ContentOfOne(text: string, seps: set<char>)
    ensures ContentOfAll([text], seps) == Content(text, seps)
  {
    assert [text][1..] == [];
  }

  // ---------- the length bound ----------

  lemma {:induction false} GreedyBounded(units: seq<string>, all: seq<string>, limit: nat, current: string, k: nat)
    requires forall u :: u in units ==> u in all
    requires current == "" || current in all || 2 <= |current| <= limit
    requires k < |Greedy(units, limit, current)|
    ensures var c := Greedy(units, limit, current)[k]; c in all || 2 <= |c| <= limit
  {
    if units == [] {
      assert Greedy(units, limit, current) == [current];
      assert current != "";
    } else if current != "" && |current| + 1 + |units[0]| > limit {
      if k > 0 { GreedyBounded(units[1..], all, limit, units[0], k - 1); }
    } else {
      GreedyBounded(units[1..], all, limit, Extend(current, units[0]), k);
    }
  }

  lemma {:induction false} GreedyEmpty(units: seq<string>, limit: nat, current: string)
    requires Greedy(units, limit, current) == []
    ensures Blank(current, JS_SPACE) && forall k :: 0 <= k < |units| ==> Blank(units[k], JS_SPACE)
  {
    if units == [] {
      var _, _ := TrimShape(current, JS_SPACE);
    } else {
      var next := Extend(current, units[0]);
      GreedyEmpty(units[1..], limit, next);
      assert forall i :: 0 <= i < |current| ==> current[i] == next[i];
      assert forall i :: 0 <= i < |units[0]| ==> units[0][i] == next[|next| - |units[0]| + i];
      assert forall k :: 1 <= k < |units| ==> units[k] == units[1..][k - 1];
    }
  }

  lemma {:induction false} BlankLines(s: string)
    requires forall k :: 0 <= k < |Split(s, LINE_SEPS)| ==> Blank(Split(s, LINE_SEPS)[k], JS_SPACE)
    ensures Blank(s, JS_SPACE)
  {
    if s != "" {
      var parts, rest := Split(s, LINE_SEPS), Split(s[1..], LINE_SEPS);
      assert forall k :: 1 <= k < |rest| ==> rest[k] == parts[if s[0] in LINE_SEPS then k + 1 else k];
      assert if s[0] in LINE_SEPS then rest[0] == parts[1] else rest[0] == parts[0][1..] && s[0] == parts[0][0];
      BlankLines(s[1..]);
    }
  }

  lemma {:induction false} NonBlankKeeps(parts: seq<string>, k: nat)
    requires k < |NonBlank(parts)|
    ensures NonBlank(parts)[k] in parts && Trim(NonBlank(parts)[k], JS_SPACE) != ""
  {
    if Trim(parts[0], JS_SPACE) == "" {
      NonBlankKeeps(parts[1..], k);
    } else if k > 0 {
      NonBlankKeeps(parts[1..], k - 1);
    }
  }

  /** Main result: a chunk is one whole unit, or fits the limit and so maxChunkChars; only blank text is passed on
      whole. */
  lemma ChunksBounded(text: string, maxChunkChars: nat, k: nat)
    requires k < |Chunks(text, maxChunkChars)|
    ensures var c := Chunks(text, maxChunkChars)[k];
      || c in Units(text)
      || |c| <= Limit(text, maxChunkChars) <= maxChunkChars
      || (Blank(text, JS_SPACE) && Chunks(text, maxChunkChars) == [text])
  {
    var units, limit := Units(text), Limit(text, maxChunkChars);
    if Greedy(units, limit, "") == [] {
      GreedyEmpty(units, limit, "");
      if |Pages(text)| > 1 {
        NonBlankKeeps(PagePieces(text, false), 0);
        var _, _ := TrimShape(units[0], JS_SPACE);
        assert false;
      } else {
        BlankLines(text);
      }
    } else {
      GreedyBounded(units, units, limit, "", k);
    }
  }

  // ---------- optimality ----------

  /** One run of units that may become one chunk. */
  predicate Fits(run: seq<string>, limit: nat) {
    |run| == 1 || (|run| > 1 && |Join(run, '\n')| <= limit)
  }

  /** A split of `units` into consecutive runs, each of which fits. */
  predicate IsSplit(units: seq<string>, runs: seq<seq<string>>, limit: nat) {
    Flatten(runs) == units && forall k :: 0 <= k < |runs| ==> Fits(runs[k], limit)
  }

  /** `current` and then all of `rest` still go into one chunk. */
  predicate Room(current: string, rest: seq<string>, limit: nat) {
    || rest == []
    || (current == "" && Fits(rest, limit))
    || (current != "" && |current| + 1 + |Join(rest, '\n')| <= limit)
  }

  lemma RoomShrinks(current: string, rest: seq<string>, limit: nat)
    requires rest != [] && Room(current, rest, limit)
    ensures Room(Extend(current, rest[0]), rest[1..], limit)
    ensures current != "" ==> |current| + 1 + |rest[0]| <= limit
  {
  }

  lemma SuffixFits(run: seq<string>, limit: nat)
    requires |run| > 1 && Fits(run, limit)
    ensures Fits(run[1..], limit) && Room(run[0], run[1..], limit)
  {
  }

  /** Where a split stands after one more unit, when its next run begins with that unit. */
  lemma OpenRun(units: seq<string>, limit: nat, current: string, runs: seq<seq<string>>)
    returns (rest: seq<string>, runs': seq<seq<string>>)
    requires units != [] && units == Flatten(runs)
    requires forall k :: 0 <= k < |runs| ==> Fits(runs[k], limit)
    ensures units[1..] == rest + Flatten(runs')
    ensures forall k :: 0 <= k < |runs'| ==> Fits(runs'[k], limit)
    ensures var reject := current != "" && |current| + 1 + |units[0]| > limit;
      if reject then |runs'| == |runs| - 1 && Room(units[0], rest, limit) else |runs'| <= |runs| && rest == []
  {
    var run, tail := runs[0], runs[1..];
    assert units[0] == run[0] && units[1..] == run[1..] + Flatten(tail);
    if |run| > 1 { SuffixFits(run, limit); }
    if current != "" && |current| + 1 + |units[0]| > limit {
      rest, runs' := run[1..], tail;
    } else if |run| == 1 {
      rest, runs' := [], tail;
      assert run[1..] == [];
    } else {
      rest, runs' := [], [run[1..]] + tail;
      assert runs'[1..] == tail;
    }
  }

  lemma HeadOfRest(units: seq<string>, rest: seq<string>, tail: seq<string>)
    requires units == rest + tail && rest != []
    ensures units[0] == rest[0] && units[1..] == rest[1..] + tail
  {
  }

  lemma GreedyCount(units: seq<string>, limit: nat, current: string)
    requires units != []
    ensures |Greedy(units, limit, current)| ==
      if current != "" && |current| + 1 + |units[0]| > limit then 1 + |Greedy(units[1..], limit, units[0])|
      else |Greedy(units[1..], limit, Extend(current, units[0]))|
  {
  }

  /** The greedy loop never falls behind a split: `rest` is what is left of the split's open run. */
  lemma {:induction false} GreedyStaysAhead(units: seq<string>, limit: nat, current: string, rest: seq<string>,
                                            runs: seq<seq<string>>)
    requires units == rest + Flatten(runs)
    requires Room(current, rest, limit)
    requires forall k :: 0 <= k < |runs| ==> Fits(runs[k], limit)
    ensures |Greedy(units, limit, current)| <= 1 + |runs|
    decreases |units|
  {
    if units == [] {
    } else if rest != [] {
      RoomShrinks(current, rest, limit);
      HeadOfRest(units, rest, Flatten(runs));
      GreedyCount(units, limit, current);
      GreedyStaysAhead(units[1..], limit, Extend(current, rest[0]), rest[1..], runs);
    } else {
      assert units == Flatten(runs);
      var rest', runs' := OpenRun(units, limit, current, runs);
      GreedyCount(units, limit, current);
      var reject := current != "" && |current| + 1 + |units[0]| > limit;
      GreedyStaysAhead(units[1..], limit, if reject then units[0] else Extend(current, units[0]), rest', runs');
    }
  }

  /** Main result: no split of the lines (or pages) into fitting runs uses fewer runs than there are chunks. */
  lemma ChunksOptimal(text: string, maxChunkChars: nat, runs: seq<seq<string>>)
    requires IsSplit(Units(text), runs, Limit(text, maxChunkChars))
    ensures |Chunks(text, maxChunkChars)| <= |runs|
  {
    var limit := Limit(text, maxChunkChars);
    assert runs != [];
    assert Room("", runs[0], limit);
    GreedyStaysAhead(Units(text), limit, "", runs[0], runs[1..]);
  }

  /** The runs behind the greedy chunks, with `open` the run being filled. */
  function GreedyRuns(units: seq<string>, limit: nat, open: seq<string>): seq<seq<string>> {
    if units == [] then
      if open != [] then [open] else []
    else if open != [] && |Join(open, '\n')| + 1 + |units[0]| > limit then
      [open] + GreedyRuns(units[1..], limit, [units[0]])
    else
      GreedyRuns(units[1..], limit, open + [units[0]])
  }

  function JoinEach(runs: seq<seq<string>>): seq<string> {
    if runs == [] then [] else [Join(runs[0], '\n')] + JoinEach(runs[1..])
  }

  lemma JoinSnoc(run: seq<string>, u: string)
    ensures Join(run + [u], '\n') == if run == [] then u else Join(run, '\n') + ['\n'] + u
  {
    if run != [] { JoinAppend(run, [u], '\n'); }
  }

  lemma ExtendNonBlank(current: string, u: string)
    requires Trim(u, JS_SPACE) != ""
    ensures Trim(Extend(current, u), JS_SPACE) != ""
  {
    var _, _ := TrimShape(u, JS_SPACE);
    var _, _ := TrimShape(Extend(current, u), JS_SPACE);
    var i :| 0 <= i < |u| && u[i] !in JS_SPACE;
    assert Extend(current, u)[|Extend(current, u)| - |u| + i] == u[i];
  }

  lemma {:induction false} GreedyRunsSplit(units: seq<string>, limit: nat, open: seq<string>)
    requires open == [] || Fits(open, limit)
    ensures IsSplit(open + units, GreedyRuns(units, limit, open), limit)
  {
    if units == [] {
      if open != [] { assert Flatten([open]) == open + Flatten([]); }
    } else {
      var u, rest := units[0], units[1..];
      if open != [] && |Join(open, '\n')| + 1 + |u| > limit {
        GreedyRunsSplit(rest, limit, [u]);
        assert open + units == open + ([u] + rest);
      } else {
        JoinSnoc(open, u);
        GreedyRunsSplit(rest, limit, open + [u]);
        assert open + units == open + [u] + rest;
      }
    }
  }

  lemma {:induction false} GreedyRunsJoin(units: seq<string>, limit: nat, open: seq<string>)
    requires open != [] ==> Trim(Join(open, '\n'), JS_SPACE) != ""
    requires forall k :: 0 <= k < |units| ==> Trim(units[k], JS_SPACE) != ""
    ensures JoinEach(GreedyRuns(units, limit, open)) == Greedy(units, limit, Join(open, '\n'))
  {
    if units != [] {
      var current, u, rest := Join(open, '\n'), units[0], units[1..];
      if open != [] && |current| + 1 + |u| > limit {
        GreedyRunsJoin(rest, limit, [u]);
      } else {
        JoinSnoc(open, u);
        ExtendNonBlank(current, u);
        GreedyRunsJoin(rest, limit, open + [u]);
      }
    }
  }

  /** Main result: without blank lines the greedy chunks are themselves such a split, so their number is the least. */
  lemma ChunksAttainOptimum(text: string, maxChunkChars: nat)
    requires forall k :: 0 <= k < |Units(text)| ==> Trim(Units(text)[k], JS_SPACE) != ""
    ensures var runs := GreedyRuns(Units(text), Limit(text, maxChunkChars), []);
      IsSplit(Units(text), runs, Limit(text, maxChunkChars)) && Chunks(text, maxChunkChars) == JoinEach(runs)
  {
    var units, limit := Units(text), Limit(text, maxChunkChars);
    GreedyRunsSplit(units, limit, []);
    GreedyRunsJoin(units, limit, []);
    assert [] + units == units;
    assert GreedyRuns(units, limit, []) != [];
  }
}
