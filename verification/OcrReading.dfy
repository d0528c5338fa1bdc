/** The reading order that merged blocks and lines give to words (ocrPostProcessor.ts). */
module OcrReading {
  import opened Text
  import opened Sorting
  import opened OcrMerge
  import opened OcrPartition
  import opened Paging
  import opened OcrLines

  /** The words of a text. */
  function Words(s: string): seq<string> {
    Content(s, JS_SPACE)
  }

  lemma WordsOfBlank(s: string)
    requires Blank(s, JS_SPACE)
    ensures Words(s) == []
  {
    BlankSplits(s, JS_SPACE);
  }

  lemma {:induction false} WordsAfterBlank(head: string, s: string)
    requires Blank(head, JS_SPACE)
    ensures Words(head + s) == Words(s)
  {
    if head == "" {
      assert head + s == s;
    } else {
      WordsAfterBlank(head[1..], s);
      assert head + s == "" + [head[0]] + (head[1..] + s);
      ContentAt("", head[0], head[1..] + s, JS_SPACE);
      WordsOfBlank("");
    }
  }

  lemma {:induction false} WordsBeforeBlank(s: string, tail: string)
    requires Blank(tail, JS_SPACE)
    ensures Words(s + tail) == Words(s)
  {
    if tail == "" {
      assert s + tail == s;
    } else {
      var t := tail[..|tail| - 1];
      WordsBeforeBlank(s, t);
      assert s + tail == (s + t) + [tail[|tail| - 1]] + "";
      ContentAt(s + t, tail[|tail| - 1], "", JS_SPACE);
      WordsOfBlank("");
    }
  }

  lemma WordsTrim(s: string)
    ensures Words(Trim(s, JS_SPACE)) == Words(s)
  {
    var head, tail := TrimShape(s, JS_SPACE);
    WordsBeforeBlank(head + Trim(s, JS_SPACE), tail);
    WordsAfterBlank(head, Trim(s, JS_SPACE));
  }

  lemma WordsSpaced(a: string, b: string)
    ensures Words(a + " " + b) == Words(a) + Words(b)
  {
    assert ' ' in JS_SPACE;
    ContentAt(a, ' ', b, JS_SPACE);
  }

  /** Main result: a merged block reads as its left block and then its right one. */
  lemma CombineReadsLeftToRight(a: Group, b: Group)
    ensures Words(Combine(a, b).text) ==
      if a.bbox.x1 <= b.bbox.x1 then Words(a.text) + Words(b.text) else Words(b.text) + Words(a.text)
  {
    WordsSpaced(a.text, b.text);
    WordsSpaced(b.text, a.text);
    WordsTrim(a.text + " " + b.text);
    WordsTrim(b.text + " " + a.text);
  }

  // ---------- the words of merged groups ----------

  ghost function WordsAt(blocks: seq<Block>): nat -> multiset<string> {
    (x: nat) => multiset(Words(TextAt(blocks, x)))
  }

  /** The words of a group are those of its members, each as often. */
  ghost predicate KeepsWords(blocks: seq<Block>, g: Group) {
    multiset(Words(g.text)) == Total(WordsAt(blocks), g.indices)
  }

  ghost predicate AllKeepWords(blocks: seq<Block>, s: seq<Group>) {
    forall k :: 0 <= k < |s| && s[k].indices != [] ==> KeepsWords(blocks, s[k])
  }

  lemma CombineKeepsWords(blocks: seq<Block>, a: Group, b: Group)
    requires KeepsWords(blocks, a) && KeepsWords(blocks, b)
    ensures KeepsWords(blocks, Combine(a, b))
  {
    TotalOfCombined(WordsAt(blocks), a, b);
    CombineReadsLeftToRight(a, b);
  }

  lemma SeedsKeepWords(blocks: seq<Block>, page: int, entries: seq<nat>)
    ensures AllKeepWords(blocks, Seeds(blocks, page, entries))
  {
    forall k | 0 <= k < |entries| && Seed(blocks, page, entries[k]).indices != []
      ensures KeepsWords(blocks, Seed(blocks, page, entries[k]))
    {
      TotalOfOne(WordsAt(blocks), entries[k]);
    }
  }

  lemma MergeAtKeepsWords(blocks: seq<Block>, page: int, s: seq<Group>, i: nat, j: nat)
    requires AllKeepWords(blocks, s) && i < j < |s| && s[i].indices != [] && s[j].indices != []
    ensures AllKeepWords(blocks, MergeAt(s, page, i, j))
  {
    var t := MergeAt(s, page, i, j);
    CombineKeepsWords(blocks, s[i], s[j]);
    forall k | 0 <= k < |t| && t[k].indices != []
      ensures KeepsWords(blocks, t[k])
    {
      assert t[k] == if k == i then Combine(s[i], s[j]) else s[k];
    }
  }

  lemma MergeAllKeepsWords(blocks: seq<Block>, page: int, s: seq<Group>)
    requires AllKeepWords(blocks, s)
    ensures AllKeepWords(blocks, MergeAll(s, page))
  {
    var inv := (t: seq<Group>) => AllKeepWords(blocks, t);
    forall t: seq<Group>, i: nat, j: nat | i < j < |t| && t[i].indices != [] && t[j].indices != [] && inv(t)
      ensures inv(MergeAt(t, page, i, j)) && MergeAt(t, page, i, j)[i].indices != []
    {
      MergeAtLive(t, page, i, j);
      MergeAtKeepsWords(blocks, page, t, i, j);
    }
    MergeAllKeeps(page, inv, s);
  }

  lemma PageGroupsKeepWords(blocks: seq<Block>, page: int, sorter: seq<nat> -> seq<nat>)
    ensures forall g :: g in PageGroups(blocks, page, sorter) ==> KeepsWords(blocks, g)
  {
    var seeds := Seeds(blocks, page, sorter(Positions(BlockPages(blocks), page)));
    SeedsKeepWords(blocks, page, sorter(Positions(BlockPages(blocks), page)));
    MergeAllKeepsWords(blocks, page, seeds);
    LiveOnesFromSource(MergeAll(seeds, page));
  }

  lemma {:induction false} GroupsOfPagesKeepWords(blocks: seq<Block>, pages: seq<int>, sorter: seq<nat> -> seq<nat>)
    ensures forall g :: g in GroupsOfPages(blocks, pages, sorter) ==> KeepsWords(blocks, g)
  {
    if pages != [] {
      GroupsOfPagesKeepWords(blocks, pages[..|pages| - 1], sorter);
      PageGroupsKeepWords(blocks, pages[|pages| - 1], sorter);
    }
  }

  /** Main result: whatever is merged in whatever order, each merged group has exactly the words of its member
      blocks. */
  lemma MergedGroupsKeepWords(blocks: seq<Block>, sorter: seq<nat> -> seq<nat>)
    ensures forall g :: g in MergedGroups(blocks, sorter) ==> KeepsWords(blocks, g)
  {
    GroupsOfPagesKeepWords(blocks, PageOrder(BlockPages(blocks)), sorter);
  }

  // ---------- lines ----------

  /** The words of blocks in order, with a bar where the gap to the block before is wide. */
  function WordsOf(group: seq<Group>): seq<string> {
    if group == [] then []
    else
      var n := |group| - 1;
      WordsOf(group[..n])
      + (if n > 0 && group[n].bbox.x1 - group[n - 1].bbox.x2 > 0.02 then ["|"] else [])
      + Words(group[n].text)
  }

  lemma BarIsAWord()
    ensures Words("|") == ["|"]
  {
    assert '|' !in JS_SPACE;
    SplitFree("|", JS_SPACE);
    TrimTight("|", JS_SPACE);
    assert NonBlank(["|"]) == ["|"] + NonBlank(["|"][1..]);
  }

  lemma {:induction false} LineTextReads(group: seq<Group>)
    requires group != []
    ensures Words(LineText(group)) == WordsOf(group)
  {
    var n := |group| - 1;
    var before := group[..n];
    if n == 0 {
      assert WordsOf(before) == [];
      assert WordsOf(group) == [] + [] + Words(group[0].text);
    } else {
      LineTextReads(before);
      var text, last := LineText(before), group[n].text;
      if group[n].bbox.x1 - group[n - 1].bbox.x2 > 0.02 {
        assert text + " | " + last == (text + " " + "|") + " " + last;
        WordsSpaced(text + " " + "|", last);
        WordsSpaced(text, "|");
        BarIsAWord();
      } else {
        WordsSpaced(text, last);
      }
    }
  }

  /** Main result: a line reads its blocks from left to right, each once, with bars at the wide gaps. */
  lemma LineReadsLeftToRight(group: seq<Group>, page: int)
    requires group != []
    ensures exists byLeft: seq<Group> ::
              && (forall i, j :: 0 <= i < j < |byLeft| ==> byLeft[i].bbox.x1 <= byLeft[j].bbox.x1)
              && multiset(byLeft) == multiset(group)
              && Words(MakeLine(group, page).text) == WordsOf(byLeft)
  {
    SortKeeps(group, LeLeft);
    SortMembers(group, LeLeft);
    SortOrdered(group, LeLeft);
    LineTextReads(Sort(group, LeLeft));
  }
}
