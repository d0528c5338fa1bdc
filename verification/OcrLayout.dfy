/** The text lines partition the boxed input blocks as the merged blocks do. */
module OcrLayout {
  import opened Text
  import opened Sorting
  import opened Paging
  import opened Wrappers
  import opened OcrMerge
  import opened OcrPartition
  import opened OcrLines

  lemma GroupsDistinct(s: seq<Group>)
    requires Disjoint(s) && forall k :: 0 <= k < |s| ==> s[k].indices != []
    ensures Distinct(s)
  {
    forall i, j | 0 <= i < j < |s|
      ensures s[i] != s[j]
    {
      var x := s[i].indices[0];
      assert x in s[i].indices;
    }
  }

  lemma DisjointRearranged(r: seq<Group>, s: seq<Group>)
    requires multiset(r) == multiset(s)
    requires Disjoint(s) && forall k :: 0 <= k < |s| ==> s[k].indices != []
    ensures Disjoint(r) && forall x: nat :: Member(r, x) <==> Member(s, x)
    ensures forall g :: g in r <==> g in s
  {
    GroupsDistinct(s);
    Rearranged(r, s);
    forall k, l, x: nat | 0 <= k < |r| && 0 <= l < |r| && x in r[k].indices && x in r[l].indices
      ensures k == l
    {
      assert r[k] in s && r[l] in s;
      assert r[k] == r[l];
    }
    forall x: nat
      ensures Member(r, x) <==> Member(s, x)
    {
      if k :| 0 <= k < |r| && x in r[k].indices { assert r[k] in s; }
      if k :| 0 <= k < |s| && x in s[k].indices { assert s[k] in r; }
    }
  }

  // ---------- one line ----------

  lemma {:induction false} AllIndicesMembers(group: seq<Group>)
    ensures forall x: nat :: x in AllIndices(group) <==> Member(group, x)
  {
    if group != [] {
      var before, last := group[..|group| - 1], group[|group| - 1];
      AllIndicesMembers(before);
      MemberSnoc(before, last);
      assert group == before + [last];
    }
  }

  lemma {:induction false} AllIndicesDistinct(group: seq<Group>)
    requires Disjoint(group) && forall k :: 0 <= k < |group| ==> Ascending(group[k].indices)
    ensures Distinct(AllIndices(group))
  {
    if group != [] {
      var before, last := group[..|group| - 1], group[|group| - 1];
      AllIndicesDistinct(before);
      AllIndicesMembers(before);
      var a, b := AllIndices(before), last.indices;
      forall i, j | 0 <= i < |a| && 0 <= j < |b|
        ensures a[i] != b[j]
      {
        assert a[i] in a && b[j] in group[|group| - 1].indices;
        var k :| 0 <= k < |before| && a[i] in before[k].indices;
        assert a[i] in group[k].indices;
      }
    }
  }

  lemma {:induction false} HullBoxIsHull(blocks: seq<Block>, group: seq<Group>)
    requires group != [] && forall k :: 0 <= k < |group| ==> Faithful(blocks, group[k])
    ensures IsHull(blocks, AllIndices(group), HullBox(group))
  {
    var before, last := group[..|group| - 1], group[|group| - 1];
    if before == [] {
      assert AllIndices(before) == [];
      assert AllIndices(group) == last.indices;
    } else {
      HullBoxIsHull(blocks, before);
      UnionHull(blocks, AllIndices(before), HullBox(before), last.indices, last.bbox, AllIndices(group));
    }
  }

  lemma SameMembersHull(blocks: seq<Block>, a: seq<nat>, b: seq<nat>, box: BBox)
    requires IsHull(blocks, a, box) && forall x: nat :: x in a <==> x in b
    ensures IsHull(blocks, b, box)
  {
  }

  lemma MakeLineFaithful(blocks: seq<Block>, group: seq<Group>, page: int)
    requires group != [] && Disjoint(group)
    requires forall k :: 0 <= k < |group| ==> Faithful(blocks, group[k]) && group[k].page == page
    ensures Faithful(blocks, MakeLine(group, page))
    ensures forall x: nat :: x in MakeLine(group, page).indices <==> Member(group, x)
  {
    SortKeeps(group, LeLeft);
    SortMembers(group, LeLeft);
    var byLeft, line := Sort(group, LeLeft), MakeLine(group, page);
    DisjointRearranged(byLeft, group);
    forall k | 0 <= k < |byLeft|
      ensures Faithful(blocks, byLeft[k]) && byLeft[k].page == page
    {
      assert byLeft[k] in group;
    }
    AllIndicesMembers(byLeft);
    AllIndicesDistinct(byLeft);
    SortMembers(AllIndices(byLeft), LeNat);
    SortAscending(AllIndices(byLeft));
    HullBoxIsHull(blocks, byLeft);
    SameMembersHull(blocks, AllIndices(byLeft), line.indices, line.bbox);
    LineOnPage(blocks, byLeft, line, page);
  }

  lemma LineOnPage(blocks: seq<Block>, group: seq<Group>, line: Group, page: int)
    requires group != [] && forall k :: 0 <= k < |group| ==> Faithful(blocks, group[k]) && group[k].page == page
    requires forall x: nat :: x in line.indices <==> Member(group, x)
    ensures line.indices != [] && forall x: nat :: x in line.indices ==> OnPage(blocks, page, x)
  {
    var x := group[0].indices[0];
    assert x in group[0].indices;
    assert x in line.indices;
  }

  // ---------- the lines of one page ----------

  lemma {:induction false} MakeLinesGrouped(blocks: seq<Block>, parts: seq<seq<Group>>, page: int)
    requires NonEmpty(parts) && Disjoint(Flatten(parts))
    requires forall g :: g in Flatten(parts) ==> Faithful(blocks, g) && g.page == page
    ensures Disjoint(MakeLines(parts, page))
    ensures forall x: nat :: Member(MakeLines(parts, page), x) <==> Member(Flatten(parts), x)
    ensures forall k :: 0 <= k < |parts| ==> Faithful(blocks, MakeLines(parts, page)[k])
  {
    if parts != [] {
      var before, last := parts[..|parts| - 1], parts[|parts| - 1];
      var t := Flatten(before);
      FlattenAppend(before, [last]);
      assert parts == before + [last] && Flatten([last]) == last;
      assert Flatten(parts) == t + last;
      SplitDisjoint(t, last);
      MakeLinesGrouped(blocks, before, page);
      MakeLineFaithful(blocks, last, page);
      LineSnoc(blocks, MakeLines(before, page), t, last, MakeLine(last, page));
    }
  }

  /** One more line `line`, made of the groups `last`, behind the lines `r` made of the groups `t`. */
  lemma LineSnoc(blocks: seq<Block>, r: seq<Group>, t: seq<Group>, last: seq<Group>, line: Group)
    requires Disjoint(r) && Disjoint(t + last)
    requires forall x: nat :: Member(r, x) <==> Member(t, x)
    requires forall x: nat :: x in line.indices <==> Member(last, x)
    requires Faithful(blocks, line) && forall k :: 0 <= k < |r| ==> Faithful(blocks, r[k])
    ensures Disjoint(r + [line]) && forall x: nat :: Member(r + [line], x) <==> Member(t + last, x)
    ensures forall k :: 0 <= k < |r + [line]| ==> Faithful(blocks, (r + [line])[k])
  {
    DisjointSnoc(r, t, last, line);
    MemberSnoc(r, line);
    MemberAppend(t, last);
  }

  lemma SplitDisjoint(t: seq<Group>, u: seq<Group>)
    requires Disjoint(t + u)
    ensures Disjoint(t) && Disjoint(u)
  {
    assert forall k :: 0 <= k < |t| ==> (t + u)[k] == t[k];
    assert forall k :: 0 <= k < |u| ==> (t + u)[|t| + k] == u[k];
  }

  lemma MemberAppend(t: seq<Group>, u: seq<Group>)
    ensures forall x: nat :: Member(t + u, x) <==> Member(t, x) || Member(u, x)
  {
    forall x: nat
      ensures Member(t + u, x) <==> Member(t, x) || Member(u, x)
    {
      if k :| 0 <= k < |t| && x in t[k].indices { assert x in (t + u)[k].indices; }
      if k :| 0 <= k < |u| && x in u[k].indices { assert x in (t + u)[|t| + k].indices; }
    }
  }

  /** The members that stand on one of the pages. */
  ghost function MembersOn(blocks: seq<Block>, xs: set<nat>, pages: seq<int>): set<nat> {
    set x | x in xs && x < |blocks| && blocks[x].page in pages
  }

  lemma OfPageShape(groups: seq<Group>, page: int)
    ensures var at, r := Positions(GroupPages(groups), page), OfPage(groups, page);
      |r| == |at| && forall k :: 0 <= k < |r| ==> at[k] < |groups| && r[k] == groups[at[k]] && r[k].page == page
  {
    var at, r := Positions(GroupPages(groups), page), OfPage(groups, page);
    forall k | 0 <= k < |r|
      ensures at[k] < |groups| && r[k] == groups[at[k]] && r[k].page == page
    {
      assert at[k] in at;
    }
  }

  lemma OfPageMembers(groups: seq<Group>, page: int)
    ensures forall x: nat :: Member(OfPage(groups, page), x) <==>
      exists k :: 0 <= k < |groups| && groups[k].page == page && x in groups[k].indices
  {
    OfPageShape(groups, page);
    var at, r := Positions(GroupPages(groups), page), OfPage(groups, page);
    forall x: nat, k: nat | k < |groups| && groups[k].page == page && x in groups[k].indices
      ensures Member(r, x)
    {
      assert k in at;
      var m :| 0 <= m < |at| && at[m] == k;
      assert x in r[m].indices;
    }
    forall x: nat | Member(r, x)
      ensures exists k :: 0 <= k < |groups| && groups[k].page == page && x in groups[k].indices
    {
      var m :| 0 <= m < |r| && x in r[m].indices;
      assert x in groups[at[m]].indices;
    }
  }

  lemma OfPageDisjoint(groups: seq<Group>, page: int)
    requires Disjoint(groups)
    ensures Disjoint(OfPage(groups, page))
  {
    OfPageShape(groups, page);
    var at, r := Positions(GroupPages(groups), page), OfPage(groups, page);
    forall k, l, x: nat | 0 <= k < |r| && 0 <= l < |r| && x in r[k].indices && x in r[l].indices
      ensures k == l
    {
      assert at[k] == at[l];
    }
  }

  lemma OfPageKeeps(blocks: seq<Block>, groups: seq<Group>, xs: set<nat>, page: int)
    requires Grouped(blocks, groups, xs)
    ensures Grouped(blocks, OfPage(groups, page), MembersOn(blocks, xs, [page]))
    ensures forall k :: 0 <= k < |OfPage(groups, page)| ==> OfPage(groups, page)[k].page == page
  {
    OfPageShape(groups, page);
    OfPageMembers(groups, page);
    OfPageDisjoint(groups, page);
    forall x: nat
      ensures x in MembersOn(blocks, xs, [page]) <==> Member(OfPage(groups, page), x)
    {
      assert x in xs <==> Member(groups, x);
      assert forall k :: 0 <= k < |groups| && x in groups[k].indices ==>
        Faithful(blocks, groups[k]) && OnPage(blocks, groups[k].page, x);
    }
  }

  lemma PageLinesGrouped(blocks: seq<Block>, pageBlocks: seq<Group>, xs: set<nat>, page: int)
    requires Grouped(blocks, pageBlocks, xs)
    requires forall k :: 0 <= k < |pageBlocks| ==> pageBlocks[k].page == page
    ensures Grouped(blocks, PageLines(pageBlocks, page), xs)
  {
    var sorted := Sort(pageBlocks, LeCenter);
    SortKeeps(pageBlocks, LeCenter);
    DisjointRearranged(sorted, pageBlocks);
    PageLinesStack(pageBlocks);
    MakeLinesGrouped(blocks, PageLineGroups(pageBlocks), page);
  }

  lemma MembersOnSnoc(blocks: seq<Block>, xs: set<nat>, before: seq<int>, page: int)
    requires page !in before
    ensures MembersOn(blocks, xs, before) !! MembersOn(blocks, xs, [page])
    ensures MembersOn(blocks, xs, before + [page]) == MembersOn(blocks, xs, before) + MembersOn(blocks, xs, [page])
  {
  }

  lemma {:induction false} LinesOfPagesGrouped(blocks: seq<Block>, groups: seq<Group>, xs: set<nat>, pages: seq<int>)
    requires Grouped(blocks, groups, xs) && Distinct(pages)
    ensures Grouped(blocks, LinesOfPages(groups, pages), MembersOn(blocks, xs, pages))
  {
    if pages == [] {
      assert MembersOn(blocks, xs, pages) == {};
    } else {
      var before, page := pages[..|pages| - 1], pages[|pages| - 1];
      LinesOfPagesGrouped(blocks, groups, xs, before);
      OfPageKeeps(blocks, groups, xs, page);
      PageLinesGrouped(blocks, OfPage(groups, page), MembersOn(blocks, xs, [page]), page);
      assert pages == before + [page] && page !in before;
      MembersOnSnoc(blocks, xs, before, page);
      GroupedAppend(blocks, LinesOfPages(groups, before), MembersOn(blocks, xs, before),
                    PageLines(OfPage(groups, page), page), MembersOn(blocks, xs, [page]));
    }
  }

  /** Lines partition whatever their blocks partition, with exact hulls. */
  lemma LinesGrouped(blocks: seq<Block>, groups: seq<Group>, xs: set<nat>)
    requires Grouped(blocks, groups, xs)
    ensures Grouped(blocks, Lines(groups), xs)
  {
    var pages := PageOrder(GroupPages(groups));
    PageOrderDistinct(GroupPages(groups));
    LinesOfPagesGrouped(blocks, groups, xs, pages);
    forall x | x in xs
      ensures x < |blocks| && blocks[x].page in pages
    {
      assert Member(groups, x);
      var k :| 0 <= k < |groups| && x in groups[k].indices;
      assert Faithful(blocks, groups[k]) && OnPage(blocks, groups[k].page, x);
      assert GroupPages(groups)[k] == Some(groups[k].page);
    }
    assert MembersOn(blocks, xs, pages) == xs;
  }

  /** Main result: the lines of a document partition its boxed blocks; each is ascending, on one page, with its exact
      hull. */
  lemma DocumentLinesCorrect(blocks: seq<Block>, sorter: seq<nat> -> seq<nat>, fixOcrDigits: string -> string)
    requires Permutes(sorter)
    ensures Grouped(blocks, Lines(FixTexts(MergedGroups(blocks, sorter), fixOcrDigits)),
                    set x: nat | x < |blocks| && Boxed(blocks, x))
  {
    var s := MergedGroups(blocks, sorter);
    var xs := set x: nat | x < |blocks| && Boxed(blocks, x);
    MergedGroupsCorrect(blocks, sorter);
    RetextGrouped(blocks, s, FixTexts(s, fixOcrDigits), xs);
    LinesGrouped(blocks, FixTexts(s, fixOcrDigits), xs);
  }

  lemma RetextGrouped(blocks: seq<Block>, s: seq<Group>, r: seq<Group>, xs: set<nat>)
    requires Grouped(blocks, s, xs) && |r| == |s|
    requires forall k :: 0 <= k < |s| ==> r[k] == s[k].(text := r[k].text)
    ensures Grouped(blocks, r, xs)
  {
    forall x: nat
      ensures Member(s, x) <==> Member(r, x)
    {
      if k :| 0 <= k < |s| && x in s[k].indices { assert x in r[k].indices; }
      if k :| 0 <= k < |r| && x in r[k].indices { assert x in s[k].indices; }
    }
    forall k | 0 <= k < |r|
      ensures Faithful(blocks, r[k])
    {
      assert Faithful(blocks, s[k]);
    }
  }
}
