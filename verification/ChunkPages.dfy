/** What the pages of a text are, and when chunks are cut along them (DocumentProcessingEngine.splitTextIntoChunks). */
module ChunkPages {
  import opened Text
  import opened Chunker

  const FEED: set<char> := {'\U{000C}'}

  /** A piece between form feeds without the newline that touches one: at its head behind a feed, at its end before
      one. */
  function Stripped(s: string, behind: bool, before: bool): string {
    var t := if behind && s != "" && s[0] == '\n' then s[1..] else s;
    if before && t != "" && t[|t| - 1] == '\n' then t[..|t| - 1] else t
  }

  function StrippedAll(parts: seq<string>, behind: bool): seq<string> {
    if parts == [] then []
    else [Stripped(parts[0], behind, |parts| > 1)] + StrippedAll(parts[1..], true)
  }

  // ---------- the pieces around one form feed ----------

  /** The page pieces of text without feeds that stands before one. */
  function BeforeFeed(a: string, afterFeed: bool): (parts: seq<string>)
    ensures parts != []
  {
    if a == "" then [""]
    else Glue(a[0], a[0] == '\n' && (afterFeed || |a| == 1), BeforeFeed(a[1..], false))
  }

  lemma {:induction false} PiecesAtFeed(a: string, b: string, afterFeed: bool)
    requires Free(a, FEED)
    ensures PagePieces(a + [FORM_FEED] + b, afterFeed) == BeforeFeed(a, afterFeed) + PagePieces(b, true)
  {
    var s := a + [FORM_FEED] + b;
    if a == "" {
      assert s[0] == FORM_FEED && s[1..] == b;
    } else {
      assert s[0] == a[0] && s[1..] == a[1..] + [FORM_FEED] + b;
      assert s[1] == if |a| == 1 then FORM_FEED else a[1];
      assert a[0] != FORM_FEED;
      PiecesAtFeed(a[1..], b, false);
      GlueAppend(a[0], IsPageBreak(s, afterFeed), BeforeFeed(a[1..], false), PagePieces(b, true));
    }
  }

  lemma {:induction false} PiecesWithoutFeed(a: string)
    requires Free(a, FEED)
    ensures PagePieces(a, false) == [a]
  {
    if a != "" {
      assert a[0] != FORM_FEED;
      PiecesWithoutFeed(a[1..]);
      assert a == [a[0]] + a[1..];
    }
  }

  lemma PiecesAfterFeed(a: string)
    requires Free(a, FEED)
    ensures PagePieces(a, true) == if a != "" && a[0] == '\n' then ["", a[1..]] else [a]
  {
    if a != "" {
      assert a[0] != FORM_FEED;
      PiecesWithoutFeed(a[1..]);
      assert a == [a[0]] + a[1..];
    }
  }

  lemma {:induction false} BeforeFeedPlain(a: string)
    ensures BeforeFeed(a, false) == if a != "" && a[|a| - 1] == '\n' then [a[..|a| - 1], ""] else [a]
  {
    if a != "" {
      BeforeFeedPlain(a[1..]);
      assert a == [a[0]] + a[1..];
      if |a| > 1 && a[|a| - 1] == '\n' { assert a[..|a| - 1] == [a[0]] + a[1..][..|a| - 2]; }
    }
  }

  lemma BlankIsNone(parts: seq<string>)
    ensures NonBlank([""] + parts) == NonBlank(parts) && NonBlank(parts + [""]) == NonBlank(parts)
  {
    assert Trim("", JS_SPACE) == "";
    assert ([""] + parts)[1..] == parts;
    NonBlankAppend(parts, [""]);
    assert [""][1..] == [];
  }

  lemma BeforeFeedStripped(a: string, afterFeed: bool)
    ensures NonBlank(BeforeFeed(a, afterFeed)) == NonBlank([Stripped(a, afterFeed, true)])
  {
    if afterFeed && a != "" && a[0] == '\n' {
      var t := a[1..];
      BeforeFeedPlain(t);
      BlankIsNone(BeforeFeed(t, false));
      EndStripped(t);
      assert Stripped(a, afterFeed, true) == Stripped(t, false, true);
    } else {
      FirstKept(a, afterFeed);
      BeforeFeedPlain(a);
      EndStripped(a);
    }
  }

  lemma FirstKept(a: string, afterFeed: bool)
    requires !(afterFeed && a != "" && a[0] == '\n')
    ensures BeforeFeed(a, afterFeed) == BeforeFeed(a, false)
  {
  }

  lemma EndStripped(a: string)
    ensures NonBlank(if a != "" && a[|a| - 1] == '\n' then [a[..|a| - 1], ""] else [a]) ==
      NonBlank([Stripped(a, false, true)])
  {
    if a != "" && a[|a| - 1] == '\n' {
      var t := a[..|a| - 1];
      assert Stripped(a, false, true) == t;
      BlankIsNone([t]);
      assert [t] + [""] == [t, ""];
    } else {
      assert Stripped(a, false, true) == a;
    }
  }

  // ---------- all pieces ----------

  /** The text up to its first form feed, and the text behind it. */
  lemma {:induction false} FirstFeed(s: string) returns (a: string, b: string)
    requires !Free(s, FEED)
    ensures s == a + [FORM_FEED] + b && Free(a, FEED)
  {
    if s[0] == FORM_FEED {
      a, b := "", s[1..];
      assert s == [s[0]] + s[1..];
    } else {
      a, b := FirstFeed(s[1..]);
      a := [s[0]] + a;
      assert s == [s[0]] + s[1..];
    }
  }

  /** The pages are the pieces between the form feeds, stripped, as far as they are not blank. */
  lemma {:induction false} PiecesStripped(s: string, afterFeed: bool)
    ensures NonBlank(PagePieces(s, afterFeed)) == NonBlank(StrippedAll(Split(s, FEED), afterFeed))
    decreases |s|
  {
    if Free(s, FEED) {
      SplitFree(s, FEED);
      LastPiece(s, afterFeed);
      assert StrippedAll([s], afterFeed) == [Stripped(s, afterFeed, false)] + StrippedAll([s][1..], true);
    } else {
      var a, b := FirstFeed(s);
      PiecesAtFeed(a, b, afterFeed);
      SplitAt(a, FORM_FEED, b, FEED);
      SplitFree(a, FEED);
      PiecesStripped(b, true);
      NonBlankAppend(BeforeFeed(a, afterFeed), PagePieces(b, true));
      BeforeFeedStripped(a, afterFeed);
      StrippedFirst(a, Split(b, FEED), afterFeed);
    }
  }

  lemma LastPiece(s: string, afterFeed: bool)
    requires Free(s, FEED)
    ensures NonBlank(PagePieces(s, afterFeed)) == NonBlank([Stripped(s, afterFeed, false)])
  {
    if afterFeed {
      PiecesAfterFeed(s);
      if s != "" && s[0] == '\n' {
        BlankIsNone([s[1..]]);
        assert [""] + [s[1..]] == ["", s[1..]];
      }
    } else {
      PiecesWithoutFeed(s);
    }
  }

  lemma StrippedFirst(a: string, rest: seq<string>, behind: bool)
    requires rest != []
    ensures NonBlank(StrippedAll([a] + rest, behind)) ==
      NonBlank([Stripped(a, behind, true)]) + NonBlank(StrippedAll(rest, true))
  {
    assert ([a] + rest)[1..] == rest;
    NonBlankAppend([Stripped(a, behind, true)], StrippedAll(rest, true));
  }

  // ---------- when text is cut by pages ----------

  lemma BlankBehind(s: string)
    requires s != "" && s[0] == '\n'
    ensures Blank(s[1..], JS_SPACE) <==> Blank(s, JS_SPACE)
  {
    assert '\n' in JS_SPACE;
    assert forall i :: 0 < i < |s| ==> s[i] == s[1..][i - 1];
    assert forall i :: 0 <= i < |s| - 1 ==> s[1..][i] == s[i + 1];
  }

  lemma BlankBefore(s: string)
    requires s != "" && s[|s| - 1] == '\n'
    ensures Blank(s[..|s| - 1], JS_SPACE) <==> Blank(s, JS_SPACE)
  {
    assert '\n' in JS_SPACE;
    assert forall i :: 0 <= i < |s| - 1 ==> s[..|s| - 1][i] == s[i];
  }

  lemma StrippedBlank(s: string, behind: bool, before: bool)
    ensures Trim(Stripped(s, behind, before), JS_SPACE) == "" <==> Trim(s, JS_SPACE) == ""
  {
    var t := if behind && s != "" && s[0] == '\n' then s[1..] else s;
    if behind && s != "" && s[0] == '\n' { BlankBehind(s); }
    if before && t != "" && t[|t| - 1] == '\n' { BlankBefore(t); }
    var _, _ := TrimShape(s, JS_SPACE);
    var _, _ := TrimShape(Stripped(s, behind, before), JS_SPACE);
  }

  lemma {:induction false} SameNumber(parts: seq<string>, behind: bool)
    ensures |NonBlank(StrippedAll(parts, behind))| == |NonBlank(parts)|
  {
    if parts != [] {
      StrippedBlank(parts[0], behind, |parts| > 1);
      SameNumber(parts[1..], true);
    }
  }

  /** Main result: with two or more pieces between form feeds that are not blank, these are the units, each without the
      newlines that touch a feed, and a chunk may be one longer than three quarters; with fewer the units are the
      lines. */
  lemma UnitsMean(text: string, maxChunkChars: nat)
    ensures var pieces := Split(text, {'\U{000C}'});
      if |NonBlank(pieces)| >= 2
      then
        Units(text) == NonBlank(StrippedAll(pieces, false)) && Limit(text, maxChunkChars) == maxChunkChars * 3 / 4 + 1
      else Units(text) == Split(text, {'\n'}) && Limit(text, maxChunkChars) == maxChunkChars * 3 / 4
  {
    var pieces := Split(text, FEED);
    PiecesStripped(text, false);
    SameNumber(pieces, false);
    if |PagePieces(text, false)| <= 1 {
      assert NonBlank(PagePieces(text, false)[1..]) == [];
    }
  }

  // ---------- no feed in a chunk ----------

  lemma {:induction false} PiecesFree(s: string)
    ensures forall k :: 0 <= k < |Split(s, FEED)| ==> Free(Split(s, FEED)[k], FEED)
  {
    if s != "" { PiecesFree(s[1..]); }
  }

  lemma {:induction false} StrippedFree(parts: seq<string>, behind: bool)
    requires forall k :: 0 <= k < |parts| ==> Free(parts[k], FEED)
    ensures forall u :: u in NonBlank(StrippedAll(parts, behind)) ==> Free(u, FEED)
  {
    if parts != [] {
      assert Free(parts[0], FEED) && Free(Stripped(parts[0], behind, |parts| > 1), FEED);
      StrippedFree(parts[1..], true);
    }
  }

  lemma {:induction false} GreedyFree(units: seq<string>, limit: nat, current: string, k: nat)
    requires Free(current, FEED) && forall u :: u in units ==> Free(u, FEED)
    requires k < |Greedy(units, limit, current)|
    ensures Free(Greedy(units, limit, current)[k], FEED)
  {
    if units != [] {
      assert Free(units[0], FEED) && Free(Extend(current, units[0]), FEED);
      if current != "" && |current| + 1 + |units[0]| > limit {
        if k > 0 { GreedyFree(units[1..], limit, units[0], k - 1); }
      } else {
        GreedyFree(units[1..], limit, Extend(current, units[0]), k);
      }
    }
  }

  /** Main result: a text with two or more pages is cut along its form feeds: no chunk holds one, and a chunk is one
      page or at most three quarters of the maximum, plus one, long. */
  lemma ChunksAlongPages(text: string, maxChunkChars: nat, k: nat)
    requires |NonBlank(Split(text, {'\U{000C}'}))| >= 2 && k < |Chunks(text, maxChunkChars)|
    ensures var c := Chunks(text, maxChunkChars)[k];
      && (forall i :: 0 <= i < |c| ==> c[i] != '\U{000C}')
      && (c in NonBlank(StrippedAll(Split(text, {'\U{000C}'}), false)) || |c| <= maxChunkChars * 3 / 4 + 1)
  {
    UnitsMean(text, maxChunkChars);
    PiecesFree(text);
    StrippedFree(Split(text, FEED), false);
    NotAllBlank(text);
    ChunksBounded(text, maxChunkChars, k);
    GreedyFree(Units(text), Limit(text, maxChunkChars), "", k);
  }

  lemma NotAllBlank(text: string)
    requires |NonBlank(Split(text, {'\U{000C}'}))| >= 2
    ensures !Blank(text, JS_SPACE) && forall m: nat :: Greedy(Units(text), Limit(text, m), "") != []
  {
    if Blank(text, JS_SPACE) { BlankSplits(text, FEED); }
    UnitsMean(text, 0);
    NonBlankKeeps(StrippedAll(Split(text, FEED), false), 0);
    forall m: nat
      ensures Greedy(Units(text), Limit(text, m), "") != []
    {
      if Greedy(Units(text), Limit(text, m), "") == [] {
        GreedyEmpty(Units(text), Limit(text, m), "");
        var _, _ := TrimShape(Units(text)[0], JS_SPACE);
      }
    }
  }
}
