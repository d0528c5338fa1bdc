/** Merging of neighbouring OCR blocks, page by page, to a fixpoint (ocrPostProcessor.mergeBlocks). */
module OcrMerge {
  import opened Text
  import opened Sorting
  import opened Paging
  import opened Wrappers

  datatype BBox = BBox(x1: real, y1: real, x2: real, y2: real)

  datatype Block = Block(text: string, page: int, bbox: Option<BBox>)

  /** A merged block or a text line: the input blocks it stands for and the box around them. */
  datatype Group = Group(text: string, page: int, indices: seq<nat>, bbox: BBox)

  function Min(a: real, b: real): real { if a <= b then a else b }

  function Max(a: real, b: real): real { if a >= b then a else b }

  /** Enough vertical overlap for one line, and nearly touching. */
  predicate ShouldMerge(a: BBox, b: BBox) {
    var shorter := Min(a.y2 - a.y1, b.y2 - b.y1);
    var overlap := Min(a.y2, b.y2) - Max(a.y1, b.y1);
    shorter > 0.0 && overlap > 0.0 && overlap / shorter > 0.7
    && Max(a.x1, b.x1) - Min(a.x2, b.x2) < 0.02
  }

  predicate LeNat(x: nat, y: nat) { x <= y }

  /** The smallest box around two boxes. */
  function Around(a: BBox, b: BBox): BBox {
    BBox(Min(a.x1, b.x1), Min(a.y1, b.y1), Max(a.x2, b.x2), Max(a.y2, b.y2))
  }

  function Combine(a: Group, b: Group): Group {
    var text := if a.bbox.x1 <= b.bbox.x1 then a.text + " " + b.text else b.text + " " + a.text;
    Group(Trim(text, JS_SPACE), a.page, Sort(a.indices + b.indices, LeNat), Around(a.bbox, b.bbox))
  }

  /** What is left in the place of a block that was merged away. */
  function Emptied(page: int): Group {
    Group("", page, [], BBox(0.0, 0.0, 0.0, 0.0))
  }

  function MergeAt(s: seq<Group>, page: int, i: nat, j: nat): seq<Group>
    requires i < |s| && j < |s|
  {
    s[i := Combine(s[i], s[j])][j := Emptied(page)]
  }

  predicate MergeableAt(s: seq<Group>, i: nat, j: nat)
    requires i < |s| && j < |s|
  {
    s[j].indices != [] && ShouldMerge(s[i].bbox, s[j].bbox)
  }

  /** The inner loop: pull every later live block that fits into block `i`. */
  function Absorb(s: seq<Group>, page: int, i: nat, j: nat): (r: seq<Group>)
    requires i < j <= |s|
    ensures |r| == |s|
    decreases |s| - j
  {
    if j == |s| then s
    else Absorb(if MergeableAt(s, i, j) then MergeAt(s, page, i, j) else s, page, i, j + 1)
  }

  /** The outer loop of one pass. */
  function Sweep(s: seq<Group>, page: int, i: nat): (r: seq<Group>)
    requires i <= |s|
    ensures |r| == |s|
    decreases |s| - i
  {
    if i == |s| then s
    else Sweep(if s[i].indices == [] then s else Absorb(s, page, i, i + 1), page, i + 1)
  }

  ghost function Live(s: seq<Group>): nat {
    |set k | 0 <= k < |s| && s[k].indices != []|
  }

  /** No two live blocks, the first at `from` or later, should still be merged. */
  ghost predicate Settled(s: seq<Group>, from: nat) {
    forall k, l :: from <= k < l < |s| && s[k].indices != [] && s[l].indices != [] ==>
      !ShouldMerge(s[k].bbox, s[l].bbox)
  }

  lemma SortNonEmpty(s: seq<nat>)
    requires s != []
    ensures Sort(s, LeNat) != []
  {
    SortMembers(s, LeNat);
  }

  lemma MergeAtLive(s: seq<Group>, page: int, i: nat, j: nat)
    requires i < j < |s| && s[i].indices != [] && s[j].indices != []
    ensures MergeAt(s, page, i, j)[i].indices != []
    ensures Live(MergeAt(s, page, i, j)) == Live(s) - 1
  {
    SortNonEmpty(s[i].indices + s[j].indices);
    var t := MergeAt(s, page, i, j);
    var before := set k | 0 <= k < |s| && s[k].indices != [];
    var after := set k | 0 <= k < |t| && t[k].indices != [];
    assert after == before - {j};
  }

  lemma {:induction false} AbsorbProgress(s: seq<Group>, page: int, i: nat, j: nat)
    requires i < j <= |s| && s[i].indices != []
    ensures var r := Absorb(s, page, i, j);
      || Live(r) < Live(s)
      || (r == s && forall l :: j <= l < |s| ==> !MergeableAt(s, i, l))
    decreases |s| - j
  {
    if j < |s| {
      if MergeableAt(s, i, j) {
        MergeAtLive(s, page, i, j);
        AbsorbProgress(MergeAt(s, page, i, j), page, i, j + 1);
      } else {
        AbsorbProgress(s, page, i, j + 1);
      }
    }
  }

  /** A pass that changes anything lowers the number of live blocks; one that does not has found none to merge. */
  lemma {:induction false} SweepProgress(s: seq<Group>, page: int, i: nat)
    requires i <= |s|
    ensures var r := Sweep(s, page, i); Live(r) < Live(s) || (r == s && Settled(s, i))
    decreases |s| - i
  {
    if i < |s| {
      if s[i].indices == [] {
        SweepProgress(s, page, i + 1);
      } else {
        AbsorbProgress(s, page, i, i + 1);
        SweepProgress(Absorb(s, page, i, i + 1), page, i + 1);
        assert forall l :: i < l < |s| ==>
          MergeableAt(s, i, l) == (s[l].indices != [] && ShouldMerge(s[i].bbox, s[l].bbox));
      }
    }
  }

  /** Passes until one changes nothing. */
  function MergeAll(s: seq<Group>, page: int): (r: seq<Group>)
    ensures |r| == |s|
    decreases Live(s)
  {
    SweepProgress(s, page, 0);
    var r := Sweep(s, page, 0);
    if r == s then s else MergeAll(r, page)
  }

  lemma {:induction false} MergeAllSettles(s: seq<Group>, page: int)
    ensures Settled(MergeAll(s, page), 0)
    decreases Live(s)
  {
    SweepProgress(s, page, 0);
    if Sweep(s, page, 0) != s {
      MergeAllSettles(Sweep(s, page, 0), page);
    }
  }

  /** The inner loop in place; reports whether it merged anything. */
  method AbsorbLater(merged: array<Group>, page: int, i: nat) returns (changed: bool)
    requires i < merged.Length && merged[i].indices != []
    modifies merged
    ensures merged[..] == Absorb(old(merged[..]), page, i, i + 1)
    ensures if changed then Live(merged[..]) < Live(old(merged[..])) else merged[..] == old(merged[..])
  {
    changed := false;
    ghost var before := merged[..];
    for j := i + 1 to merged.Length
      invariant merged[i].indices != []
      invariant Absorb(merged[..], page, i, j) == Absorb(before, page, i, i + 1)
      invariant if changed then Live(merged[..]) < Live(before) else merged[..] == before
    {
      if merged[j].indices == [] {
        continue;
      }
      if ShouldMerge(merged[i].bbox, merged[j].bbox) {
        ghost var now := merged[..];
        MergeAtLive(now, page, i, j);
        merged[i] := Combine(merged[i], merged[j]);
        merged[j] := Emptied(page);
        assert merged[..] == MergeAt(now, page, i, j);
        changed := true;
      }
    }
  }

  method MergeToFixpoint(merged: array<Group>, page: int)
    modifies merged
    ensures merged[..] == MergeAll(old(merged[..]), page)
  {
    var changed := true;
    while changed
      invariant MergeAll(merged[..], page) == MergeAll(old(merged[..]), page)
      invariant !changed ==> Sweep(merged[..], page, 0) == merged[..]
      decreases Live(merged[..]), changed
    {
      changed := false;
      ghost var start := merged[..];
      SweepProgress(start, page, 0);
      for i := 0 to merged.Length
        invariant Sweep(merged[..], page, i) == Sweep(start, page, 0)
        invariant if changed then Live(merged[..]) < Live(start) else merged[..] == start
      {
        if merged[i].indices == [] {
          continue;
        }
        var absorbed := AbsorbLater(merged, page, i);
        changed := changed || absorbed;
      }
    }
  }

  // ---------- all pages ----------

  /** The page of each block that has a normalised box. */
  function BlockPages(blocks: seq<Block>): seq<Option<int>> {
    seq(|blocks|, i requires 0 <= i < |blocks| => if blocks[i].bbox.Some? then Some(blocks[i].page) else None)
  }

  function Seed(blocks: seq<Block>, page: int, i: nat): Group {
    if i < |blocks| && blocks[i].bbox.Some? then Group(blocks[i].text, page, [i], blocks[i].bbox.value)
    else Emptied(page)
  }

  function Seeds(blocks: seq<Block>, page: int, entries: seq<nat>): seq<Group> {
    seq(|entries|, k requires 0 <= k < |entries| => Seed(blocks, page, entries[k]))
  }

  function LiveOnes(s: seq<Group>): seq<Group> {
    if s == [] then []
    else LiveOnes(s[..|s| - 1]) + if s[|s| - 1].indices == [] then [] else [s[|s| - 1]]
  }

  /** The merged groups of one page; `sorter` is the engine's sort under the banded comparator. */
  function PageGroups(blocks: seq<Block>, page: int, sorter: seq<nat> -> seq<nat>): seq<Group> {
    LiveOnes(MergeAll(Seeds(blocks, page, sorter(Positions(BlockPages(blocks), page))), page))
  }

  function GroupsOfPages(blocks: seq<Block>, pages: seq<int>, sorter: seq<nat> -> seq<nat>): seq<Group> {
    if pages == [] then []
    else GroupsOfPages(blocks, pages[..|pages| - 1], sorter) + PageGroups(blocks, pages[|pages| - 1], sorter)
  }

  /** All merged groups, before the digit repair of their texts. */
  function MergedGroups(blocks: seq<Block>, sorter: seq<nat> -> seq<nat>): seq<Group> {
    GroupsOfPages(blocks, PageOrder(BlockPages(blocks)), sorter)
  }

  function FixTexts(s: seq<Group>, fixOcrDigits: string -> string): (r: seq<Group>)
    ensures |r| == |s|
    ensures forall k :: 0 <= k < |s| ==> r[k] == s[k].(text := fixOcrDigits(s[k].text))
  {
    if s == [] then []
    else FixTexts(s[..|s| - 1], fixOcrDigits) + [s[|s| - 1].(text := fixOcrDigits(s[|s| - 1].text))]
  }

  lemma FixTextsAppend(a: seq<Group>, b: seq<Group>, fixOcrDigits: string -> string)
    ensures FixTexts(a + b, fixOcrDigits) == FixTexts(a, fixOcrDigits) + FixTexts(b, fixOcrDigits)
  {
  }

  /** One page: seed, merge in place, collect what is still live. */
  method MergePage(blocks: seq<Block>, page: int, entries: seq<nat>, fixOcrDigits: string -> string)
    returns (result: seq<Group>)
    ensures result == FixTexts(LiveOnes(MergeAll(Seeds(blocks, page, entries), page)), fixOcrDigits)
  {
    var merged := new Group[|entries|](k requires 0 <= k < |entries| => Seed(blocks, page, entries[k]));
    assert merged[..] == Seeds(blocks, page, entries);
    MergeToFixpoint(merged, page);
    result := CollectLive(merged[..], fixOcrDigits);
  }

  /** The surviving blocks of a page, their texts fixed. */
  method CollectLive(merged: seq<Group>, fixOcrDigits: string -> string) returns (result: seq<Group>)
    ensures result == FixTexts(LiveOnes(merged), fixOcrDigits)
  {
    result := [];
    for k := 0 to |merged|
      invariant result == FixTexts(LiveOnes(merged[..k]), fixOcrDigits)
    {
      assert merged[..k + 1][..k] == merged[..k];
      if merged[k].indices != [] {
        result := result + [merged[k].(text := fixOcrDigits(merged[k].text))];
      }
    }
    assert merged[..|merged|] == merged;
  }

  method MergeBlocks(blocks: seq<Block>, sorter: seq<nat> -> seq<nat>, fixOcrDigits: string -> string)
    returns (result: seq<Group>)
    ensures result == FixTexts(MergedGroups(blocks, sorter), fixOcrDigits)
  {
    var order, byPage := GroupByPage(BlockPages(blocks));
    result := [];
    for p := 0 to |order|
      invariant result == FixTexts(GroupsOfPages(blocks, order[..p], sorter), fixOcrDigits)
    {
      var page := order[p];
      var groups := MergePage(blocks, page, sorter(byPage[page]), fixOcrDigits);
      result := result + groups;
      assert order[..p + 1][..p] == order[..p];
      FixTextsAppend(GroupsOfPages(blocks, order[..p], sorter), PageGroups(blocks, page, sorter), fixOcrDigits);
    }
    assert order[..|order|] == order;
  }
}
