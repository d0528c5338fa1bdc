/** Grouping of merged blocks into text lines (ocrPostProcessor.buildLines). */
module OcrLines {
  import opened Text
  import opened Sorting
  import opened Paging
  import opened Wrappers
  import opened OcrMerge
  import opened OcrPartition

  function CenterY(g: Group): real {
    (g.bbox.y1 + g.bbox.y2) / 2.0
  }

  function Height(g: Group): real {
    g.bbox.y2 - g.bbox.y1
  }

  function Abs(x: real): real { if x < 0.0 then -x else x }

  predicate LeReal(x: real, y: real) { x <= y }

  predicate LeCenter(a: Group, b: Group) { CenterY(a) <= CenterY(b) }

  predicate LeLeft(a: Group, b: Group) { a.bbox.x1 <= b.bbox.x1 }

  function ValidHeights(groups: seq<Group>): (heights: seq<real>)
    ensures forall h :: h in heights ==> h > 0.0
  {
    if groups == [] then []
    else (if Height(groups[0]) > 0.0 then [Height(groups[0])] else []) + ValidHeights(groups[1..])
  }

  function Median(sorted: seq<real>): real
    requires sorted != []
  {
    var mid := |sorted| / 2;
    if |sorted| % 2 == 1 then sorted[mid] else (sorted[mid - 1] + sorted[mid]) / 2.0
  }

  /** How far a block's centre may lie from the anchor of its line. */
  function Tolerance(groups: seq<Group>): real {
    var heights := ValidHeights(groups);
    if heights == [] then 0.015
    else
      SortMembers(heights, LeReal);
      Max(0.010, Median(Sort(heights, LeReal)) * 0.55)
  }

  /** The first open line whose anchor is within the tolerance; `|lines|` when there is none. */
  function FirstFit(lines: seq<seq<Group>>, center: real, tolerance: real): (at: nat)
    requires forall k :: 0 <= k < |lines| ==> lines[k] != []
    ensures at <= |lines|
    ensures at < |lines| ==> Abs(center - CenterY(lines[at][0])) <= tolerance
    ensures forall k :: 0 <= k < at ==> Abs(center - CenterY(lines[k][0])) > tolerance
  {
    if lines == [] then 0
    else if Abs(center - CenterY(lines[0][0])) <= tolerance then 0
    else 1 + FirstFit(lines[1..], center, tolerance)
  }

  ghost predicate NonEmpty(lines: seq<seq<Group>>) {
    forall k :: 0 <= k < |lines| ==> lines[k] != []
  }

  function Place(lines: seq<seq<Group>>, g: Group, tolerance: real): (r: seq<seq<Group>>)
    requires NonEmpty(lines)
    ensures NonEmpty(r)
  {
    var at := FirstFit(lines, CenterY(g), tolerance);
    if at < |lines| then lines[at := lines[at] + [g]] else lines + [[g]]
  }

  function PlaceAll(sorted: seq<Group>, tolerance: real): (r: seq<seq<Group>>)
    ensures NonEmpty(r)
  {
    if sorted == [] then []
    else Place(PlaceAll(sorted[..|sorted| - 1], tolerance), sorted[|sorted| - 1], tolerance)
  }

  /** Text of a line: a bar marks a wide gap. */
  function LineText(group: seq<Group>): string
    requires group != []
  {
    if |group| == 1 then group[0].text
    else
      var n := |group| - 1;
      LineText(group[..n])
      + (if group[n].bbox.x1 - group[n - 1].bbox.x2 > 0.02 then " | " else " ") + group[n].text
  }

  function AllIndices(group: seq<Group>): seq<nat> {
    if group == [] then [] else AllIndices(group[..|group| - 1]) + group[|group| - 1].indices
  }

  function HullBox(group: seq<Group>): BBox
    requires group != []
  {
    if |group| == 1 then group[0].bbox
    else
      Around(HullBox(group[..|group| - 1]), group[|group| - 1].bbox)
  }

  function MakeLine(group: seq<Group>, page: int): Group
    requires group != []
  {
    SortMembers(group, LeLeft);
    var byLeft := Sort(group, LeLeft);
    Group(LineText(byLeft), page, Sort(AllIndices(byLeft), LeNat), HullBox(byLeft))
  }

  function MakeLines(groups: seq<seq<Group>>, page: int): (lines: seq<Group>)
    requires NonEmpty(groups)
    ensures |lines| == |groups|
  {
    if groups == [] then []
    else MakeLines(groups[..|groups| - 1], page) + [MakeLine(groups[|groups| - 1], page)]
  }

  function GroupPages(groups: seq<Group>): seq<Option<int>> {
    seq(|groups|, i requires 0 <= i < |groups| => Some(groups[i].page))
  }

  /** The blocks of one page, in list order. */
  function Pick(groups: seq<Group>, at: seq<nat>): seq<Group>
    requires forall x: nat :: x in at ==> x < |groups|
  {
    seq(|at|, k requires 0 <= k < |at| => assert at[k] in at; groups[at[k]])
  }

  function OfPage(groups: seq<Group>, page: int): (r: seq<Group>) {
    Pick(groups, Positions(GroupPages(groups), page))
  }

  function PageLineGroups(pageBlocks: seq<Group>): (r: seq<seq<Group>>)
    ensures NonEmpty(r)
  {
    PlaceAll(Sort(pageBlocks, LeCenter), Tolerance(pageBlocks))
  }

  function PageLines(pageBlocks: seq<Group>, page: int): seq<Group> {
    MakeLines(PageLineGroups(pageBlocks), page)
  }

  function LinesOfPages(groups: seq<Group>, pages: seq<int>): seq<Group> {
    if pages == [] then []
    else
      var page := pages[|pages| - 1];
      LinesOfPages(groups, pages[..|pages| - 1]) + PageLines(OfPage(groups, page), page)
  }

  function Lines(groups: seq<Group>): seq<Group> {
    LinesOfPages(groups, PageOrder(GroupPages(groups)))
  }

  method PlaceBlocks(sorted: seq<Group>, tolerance: real) returns (lineGroups: seq<seq<Group>>)
    ensures lineGroups == PlaceAll(sorted, tolerance)
  {
    lineGroups := [];
    for n := 0 to |sorted|
      invariant lineGroups == PlaceAll(sorted[..n], tolerance)
    {
      var block := sorted[n];
      var centerY := CenterY(block);
      var placed := false;
      ghost var before := lineGroups;
      var k := 0;
      while k < |lineGroups|
        invariant k <= |before| && !placed && lineGroups == before
        invariant forall l :: 0 <= l < k ==> Abs(centerY - CenterY(before[l][0])) > tolerance
      {
        if Abs(centerY - CenterY(lineGroups[k][0])) <= tolerance {
          lineGroups := lineGroups[k := lineGroups[k] + [block]];
          placed := true;
          break;
        }
        k := k + 1;
      }
      if !placed {
        lineGroups := lineGroups + [[block]];
      }
      assert lineGroups == Place(before, block, tolerance);
      assert sorted[..n + 1][..n] == sorted[..n];
    }
    assert sorted[..|sorted|] == sorted;
  }

  method EmitLine(lineGroup: seq<Group>, page: int) returns (line: Group)
    requires lineGroup != []
    ensures line == MakeLine(lineGroup, page)
  {
    SortMembers(lineGroup, LeLeft);
    var group := Sort(lineGroup, LeLeft);
    var text := group[0].text;
    for i := 1 to |group|
      invariant text == LineText(group[..i])
    {
      var gap := group[i].bbox.x1 - group[i - 1].bbox.x2;
      assert group[..i + 1][..i] == group[..i];
      text := text + (if gap > 0.02 then " | " else " ") + group[i].text;
    }
    assert group[..|group|] == group;
    line := Group(text, page, Sort(AllIndices(group), LeNat), HullBox(group));
  }

  lemma MakeLinesSnoc(groups: seq<seq<Group>>, k: nat, page: int)
    requires NonEmpty(groups) && k < |groups|
    ensures MakeLines(groups[..k + 1], page) == MakeLines(groups[..k], page) + [MakeLine(groups[k], page)]
  {
    assert groups[..k + 1][..k] == groups[..k];
  }

  method BuildPageLines(pageBlocks: seq<Group>, page: int) returns (lines: seq<Group>)
    ensures lines == PageLines(pageBlocks, page)
  {
    var lineGroups := PlaceBlocks(Sort(pageBlocks, LeCenter), Tolerance(pageBlocks));
    lines := [];
    for k := 0 to |lineGroups|
      invariant lines == MakeLines(lineGroups[..k], page)
    {
      var line := EmitLine(lineGroups[k], page);
      MakeLinesSnoc(lineGroups, k, page);
      lines := lines + [line];
    }
    assert lineGroups[..|lineGroups|] == lineGroups;
  }

  lemma LinesOfPagesSnoc(groups: seq<Group>, pages: seq<int>, p: nat)
    requires p < |pages|
    ensures LinesOfPages(groups, pages[..p + 1]) ==
      LinesOfPages(groups, pages[..p]) + PageLines(OfPage(groups, pages[p]), pages[p])
  {
    assert pages[..p + 1][..p] == pages[..p];
  }

  method BuildLines(mergedBlocks: seq<Group>) returns (lines: seq<Group>)
    ensures lines == Lines(mergedBlocks)
  {
    var order, byPage := GroupByPage(GroupPages(mergedBlocks));
    lines := [];
    for p := 0 to |order|
      invariant lines == LinesOfPages(mergedBlocks, order[..p])
    {
      var page := order[p];
      var pageLines := BuildPageLines(Pick(mergedBlocks, byPage[page]), page);
      lines := lines + pageLines;
      LinesOfPagesSnoc(mergedBlocks, order, p);
    }
    assert order[..|order|] == order;
  }

  // ---------- the shape of the lines ----------

  /** Anchors rise by more than the tolerance from line to line; every member's centre is within it of its anchor. */
  ghost predicate Stacked(lines: seq<seq<Group>>, tolerance: real) {
    && NonEmpty(lines)
    && (forall k, l :: 0 <= k < l < |lines| ==> CenterY(lines[l][0]) - CenterY(lines[k][0]) > tolerance)
    && (forall k, m :: 0 <= k < |lines| && 0 <= m < |lines[k]| ==>
          0.0 <= CenterY(lines[k][m]) - CenterY(lines[k][0]) <= tolerance)
  }

  lemma {:induction false} FlattenUpdateLast(lines: seq<seq<Group>>, g: Group)
    requires lines != []
    ensures Flatten(lines[|lines| - 1 := lines[|lines| - 1] + [g]]) == Flatten(lines) + [g]
  {
    var n := |lines| - 1;
    var head, last := lines[..n], lines[n];
    assert lines == head + [last];
    assert lines[n := last + [g]] == head + [last + [g]];
    FlattenAppend(head, [last]);
    FlattenAppend(head, [last + [g]]);
    assert Flatten([last]) == last && Flatten([last + [g]]) == last + [g];
  }

  /** First fit lands in the last open line or opens a new one below it. */
  lemma FitsLastOrNone(lines: seq<seq<Group>>, g: Group, tolerance: real)
    requires Stacked(lines, tolerance)
    requires forall k, m :: 0 <= k < |lines| && 0 <= m < |lines[k]| ==> CenterY(lines[k][m]) <= CenterY(g)
    ensures FirstFit(lines, CenterY(g), tolerance) >= |lines| - 1
  {
    var at := FirstFit(lines, CenterY(g), tolerance);
    if at < |lines| {
      var last := |lines| - 1;
      assert lines[last] != [] && CenterY(lines[last][0]) <= CenterY(g);
      assert at == last;
    }
  }

  lemma PlaceStacks(lines: seq<seq<Group>>, g: Group, tolerance: real)
    requires Stacked(lines, tolerance) && tolerance >= 0.0
    requires forall k, m :: 0 <= k < |lines| && 0 <= m < |lines[k]| ==> CenterY(lines[k][m]) <= CenterY(g)
    ensures Stacked(Place(lines, g, tolerance), tolerance)
    ensures Flatten(Place(lines, g, tolerance)) == Flatten(lines) + [g]
  {
    FitsLastOrNone(lines, g, tolerance);
    if FirstFit(lines, CenterY(g), tolerance) < |lines| {
      FlattenUpdateLast(lines, g);
      LastGrowsStacked(lines, g, tolerance);
    } else {
      FlattenAppend(lines, [[g]]);
      assert Flatten([[g]]) == [g];
      NewLineStacked(lines, g, tolerance);
    }
  }

  lemma LastGrowsStacked(lines: seq<seq<Group>>, g: Group, tolerance: real)
    requires Stacked(lines, tolerance) && lines != []
    requires 0.0 <= CenterY(g) - CenterY(lines[|lines| - 1][0]) <= tolerance
    ensures Stacked(lines[|lines| - 1 := lines[|lines| - 1] + [g]], tolerance)
  {
  }

  lemma NewLineStacked(lines: seq<seq<Group>>, g: Group, tolerance: real)
    requires Stacked(lines, tolerance) && tolerance >= 0.0
    requires forall k :: 0 <= k < |lines| ==> CenterY(g) - CenterY(lines[k][0]) > tolerance
    ensures Stacked(lines + [[g]], tolerance)
  {
  }

  /** Main result: the lines of a page cut its centre order into runs, stacked top to bottom. */
  lemma {:induction false} PlaceAllStacks(sorted: seq<Group>, tolerance: real)
    requires Ordered(sorted, LeCenter) && tolerance >= 0.0
    ensures Stacked(PlaceAll(sorted, tolerance), tolerance)
    ensures Flatten(PlaceAll(sorted, tolerance)) == sorted
  {
    if sorted != [] {
      var before, g := sorted[..|sorted| - 1], sorted[|sorted| - 1];
      assert sorted == before + [g];
      PlaceAllStacks(before, tolerance);
      AnchorsBefore(PlaceAll(before, tolerance), before, g);
      PlaceStacks(PlaceAll(before, tolerance), g, tolerance);
    }
  }

  lemma AnchorsBefore(lines: seq<seq<Group>>, before: seq<Group>, g: Group)
    requires NonEmpty(lines) && Flatten(lines) == before
    requires Ordered(before + [g], LeCenter)
    ensures forall k, m :: 0 <= k < |lines| && 0 <= m < |lines[k]| ==> CenterY(lines[k][m]) <= CenterY(g)
  {
    forall k, m | 0 <= k < |lines| && 0 <= m < |lines[k]|
      ensures CenterY(lines[k][m]) <= CenterY(g)
    {
      FlattenMember(lines, lines[k][m]);
      assert lines[k][m] in before;
      var i :| 0 <= i < |before| && before[i] == lines[k][m];
      assert (before + [g])[i] == before[i] && (before + [g])[|before|] == g;
    }
  }

  lemma TolerancePositive(groups: seq<Group>)
    ensures Tolerance(groups) >= 0.010
  {
  }

  lemma PageLinesStack(pageBlocks: seq<Group>)
    ensures Stacked(PageLineGroups(pageBlocks), Tolerance(pageBlocks))
    ensures Flatten(PageLineGroups(pageBlocks)) == Sort(pageBlocks, LeCenter)
  {
    SortOrdered(pageBlocks, LeCenter);
    TolerancePositive(pageBlocks);
    PlaceAllStacks(Sort(pageBlocks, LeCenter), Tolerance(pageBlocks));
  }

  // ---------- what the tolerance is ----------

  /** How many blocks with a positive height are lower than `x`, and how many are not higher. */
  ghost function LowerThan(groups: seq<Group>, x: real): nat {
    if groups == [] then 0
    else
      var h := groups[0].bbox.y2 - groups[0].bbox.y1;
      (if 0.0 < h < x then 1 else 0) + LowerThan(groups[1..], x)
  }

  ghost function AtMost(groups: seq<Group>, x: real): nat {
    if groups == [] then 0
    else
      var h := groups[0].bbox.y2 - groups[0].bbox.y1;
      (if 0.0 < h <= x then 1 else 0) + AtMost(groups[1..], x)
  }

  ghost function Counted(s: seq<real>, x: real, strictly: bool): nat {
    if s == [] then 0
    else
      var last := s[|s| - 1];
      Counted(s[..|s| - 1], x, strictly) + if last < x || (last == x && !strictly) then 1 else 0
  }

  lemma {:induction false} CountedAppend(a: seq<real>, b: seq<real>, x: real, strictly: bool)
    ensures Counted(a + b, x, strictly) == Counted(a, x, strictly) + Counted(b, x, strictly)
  {
    if b == [] {
      assert a + b == a;
    } else {
      assert (a + b)[..|a + b| - 1] == a + b[..|b| - 1];
      CountedAppend(a, b[..|b| - 1], x, strictly);
    }
  }

  lemma {:induction false} CountedHeights(groups: seq<Group>, x: real)
    ensures Counted(ValidHeights(groups), x, true) == LowerThan(groups, x)
    ensures Counted(ValidHeights(groups), x, false) == AtMost(groups, x)
  {
    if groups != [] {
      var h := Height(groups[0]);
      var first := if h > 0.0 then [h] else [];
      CountedHeights(groups[1..], x);
      CountedAppend(first, ValidHeights(groups[1..]), x, true);
      CountedAppend(first, ValidHeights(groups[1..]), x, false);
      assert first != [] ==> first[..0] == [];
    }
  }

  lemma {:induction false} CountedInsert(s: seq<real>, y: real, x: real, strictly: bool)
    ensures Counted(Insert(s, y, LeReal), x, strictly) == Counted(s + [y], x, strictly)
  {
    CountedAppend(s, [y], x, strictly);
    if s != [] && !LeReal(s[|s| - 1], y) {
      var t, last := s[..|s| - 1], s[|s| - 1];
      CountedInsert(t, y, x, strictly);
      CountedAppend(t, [y], x, strictly);
      CountedAppend(Insert(t, y, LeReal), [last], x, strictly);
      CountedAppend(t, [last], x, strictly);
      assert s == t + [last];
    }
  }

  lemma CountedOneMore(a: seq<real>, b: seq<real>, y: real, x: real, strictly: bool)
    requires Counted(a, x, strictly) == Counted(b, x, strictly)
    ensures Counted(Insert(a, y, LeReal), x, strictly) == Counted(b + [y], x, strictly)
  {
    CountedInsert(a, y, x, strictly);
    CountedAppend(a, [y], x, strictly);
    CountedAppend(b, [y], x, strictly);
  }

  lemma {:induction false} CountedSort(s: seq<real>, x: real, strictly: bool)
    ensures Counted(Sort(s, LeReal), x, strictly) == Counted(s, x, strictly)
  {
    if s != [] {
      var t, last := s[..|s| - 1], s[|s| - 1];
      CountedSort(t, x, strictly);
      CountedOneMore(Sort(t, LeReal), t, last, x, strictly);
      assert s == t + [last];
    }
  }

  lemma {:induction false} CountedMost(s: seq<real>, x: real, strictly: bool)
    ensures Counted(s, x, strictly) <= |s|
  {
    if s != [] { CountedMost(s[..|s| - 1], x, strictly); }
  }

  lemma {:induction false} CountedNone(s: seq<real>, x: real)
    requires forall i :: 0 <= i < |s| ==> s[i] >= x
    ensures Counted(s, x, true) == 0
  {
    if s != [] { CountedNone(s[..|s| - 1], x); }
  }

  lemma {:induction false} CountedFull(s: seq<real>, x: real)
    requires forall i :: 0 <= i < |s| ==> s[i] <= x
    ensures Counted(s, x, false) == |s|
  {
    if s != [] { CountedFull(s[..|s| - 1], x); }
  }

  lemma FewLower(s: seq<real>, k: nat)
    requires Ordered(s, LeReal) && k < |s|
    ensures Counted(s, s[k], true) <= k
  {
    var head, rest, x := s[..k], s[k..], s[k];
    assert s == head + rest;
    CountedAppend(head, rest, x, true);
    CountedMost(head, x, true);
    assert forall i :: 0 <= i < |rest| ==> rest[i] >= x;
    CountedNone(rest, x);
  }

  lemma ManyNotHigher(s: seq<real>, k: nat)
    requires Ordered(s, LeReal) && k < |s|
    ensures k < Counted(s, s[k], false)
  {
    var head, rest, x := s[..k + 1], s[k + 1..], s[k];
    assert s == head + rest;
    CountedAppend(head, rest, x, false);
    assert forall i :: 0 <= i < |head| ==> head[i] <= x;
    CountedFull(head, x);
  }

  ghost function WithHeight(groups: seq<Group>): nat {
    if groups == [] then 0
    else (if groups[0].bbox.y1 < groups[0].bbox.y2 then 1 else 0) + WithHeight(groups[1..])
  }

  lemma {:induction false} HeightsCount(groups: seq<Group>)
    ensures |ValidHeights(groups)| == WithHeight(groups)
  {
    if groups != [] { HeightsCount(groups[1..]); }
  }

  /** Main result: the tolerance is 0.55 times the mean of the two middle heights, and at least 0.01; 0.015 without
      heights. */
  lemma ToleranceMeans(groups: seq<Group>) returns (lo: real, hi: real)
    ensures var n := WithHeight(groups);
      if n == 0 then Tolerance(groups) == 0.015
      else
        var t := 0.55 * ((lo + hi) / 2.0);
        && Tolerance(groups) == (if t > 0.010 then t else 0.010)
        && LowerThan(groups, lo) <= (n - 1) / 2 < AtMost(groups, lo)
        && LowerThan(groups, hi) <= n / 2 < AtMost(groups, hi)
  {
    var heights := ValidHeights(groups);
    HeightsCount(groups);
    lo, hi := 0.0, 0.0;
    if heights != [] {
      SortMembers(heights, LeReal);
      lo, hi := MedianOfTwo(groups);
    }
  }

  lemma SortedLength(s: seq<real>)
    ensures |Sort(s, LeReal)| == |s|
  {
    SortKeeps(s, LeReal);
    assert |multiset(Sort(s, LeReal))| == |multiset(s)|;
  }

  lemma MedianMiddle(s: seq<real>)
    requires s != []
    ensures Median(s) == (s[(|s| - 1) / 2] + s[|s| / 2]) / 2.0
  {
  }

  lemma MedianOfTwo(groups: seq<Group>) returns (lo: real, hi: real)
    requires ValidHeights(groups) != [] && Sort(ValidHeights(groups), LeReal) != []
    ensures var n := |ValidHeights(groups)|;
      && LowerThan(groups, lo) <= (n - 1) / 2 < AtMost(groups, lo)
      && LowerThan(groups, hi) <= n / 2 < AtMost(groups, hi)
    ensures Median(Sort(ValidHeights(groups), LeReal)) == (lo + hi) / 2.0
  {
    var heights, sorted := ValidHeights(groups), Sort(ValidHeights(groups), LeReal);
    SortedLength(heights);
    MedianMiddle(sorted);
    var n := |heights|;
    lo, hi := sorted[(n - 1) / 2], sorted[n / 2];
    MiddleRank(groups, sorted, (n - 1) / 2);
    MiddleRank(groups, sorted, n / 2);
  }

  lemma LeRealTotal()
    ensures TotalPreorder(LeReal)
  {
  }

  lemma MiddleRank(groups: seq<Group>, sorted: seq<real>, k: nat)
    requires sorted == Sort(ValidHeights(groups), LeReal) && k < |sorted|
    ensures LowerThan(groups, sorted[k]) <= k < AtMost(groups, sorted[k])
  {
    LeRealTotal();
    SortOrdered(ValidHeights(groups), LeReal);
    FewLower(sorted, k);
    ManyNotHigher(sorted, k);
    CountedSort(ValidHeights(groups), sorted[k], true);
    CountedSort(ValidHeights(groups), sorted[k], false);
    CountedHeights(groups, sorted[k]);
  }

  /** Main result: the lines of a page list its blocks by vertical centre, top to bottom; a member's centre lies within
      the tolerance below that of the first of its line, and the firsts of the lines lie further apart. */
  lemma LinesGoDown(pageBlocks: seq<Group>)
    ensures var lines, t := PageLineGroups(pageBlocks), Tolerance(pageBlocks);
      && multiset(Flatten(lines)) == multiset(pageBlocks)
      && (forall i, j :: 0 <= i < j < |Flatten(lines)| ==>
            Flatten(lines)[i].bbox.y1 + Flatten(lines)[i].bbox.y2 <= Flatten(lines)[j].bbox.y1
              + Flatten(lines)[j].bbox.y2)
      && (forall k, l :: 0 <= k < l < |lines| ==>
            lines[l][0].bbox.y1 + lines[l][0].bbox.y2 - (lines[k][0].bbox.y1 + lines[k][0].bbox.y2) > 2.0 * t)
      && (forall k, m :: 0 <= k < |lines| && 0 <= m < |lines[k]| ==>
            0.0 <= lines[k][m].bbox.y1 + lines[k][m].bbox.y2 - (lines[k][0].bbox.y1 + lines[k][0].bbox.y2) <= 2.0 * t)
  {
    PageLinesStack(pageBlocks);
    SortOrdered(pageBlocks, LeCenter);
    SortKeeps(pageBlocks, LeCenter);
  }
}
