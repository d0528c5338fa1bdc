/** Where merged blocks come from: trees of neighbouring blocks (ocrPostProcessor.mergeBlocks). */
module OcrTrees {
  import opened Text
  import opened Sorting
  import opened Paging
  import opened Wrappers
  import opened OcrMerge
  import opened OcrPartition

  /** Blocks by number, put together two at a time. */
  datatype Tree = Leaf(index: nat) | Node(left: Tree, right: Tree)

  ghost function Leaves(t: Tree): multiset<nat> {
    match t
    case Leaf(x) => multiset{x}
    case Node(l, r) => Leaves(l) + Leaves(r)
  }

  ghost function HullOf(blocks: seq<Block>, t: Tree): BBox {
    match t
    case Leaf(x) => BoxAt(blocks, x)
    case Node(l, r) => Around(HullOf(blocks, l), HullOf(blocks, r))
  }

  /** The boxes overlap vertically by more than 70% of the lower one and lie less than 0.02 apart. */
  predicate Touching(a: BBox, b: BBox) {
    var h := if a.y2 - a.y1 <= b.y2 - b.y1 then a.y2 - a.y1 else b.y2 - b.y1;
    && h > 0.0
    && a.y2 - b.y1 > 0.7 * h && b.y2 - a.y1 > 0.7 * h
    && a.x1 - a.x2 < 0.02 && a.x1 - b.x2 < 0.02 && b.x1 - a.x2 < 0.02 && b.x1 - b.x2 < 0.02
  }

  lemma RatioAbove(overlap: real, h: real)
    requires h > 0.0
    ensures overlap / h > 0.7 <==> overlap > 0.7 * h
  {
    assert overlap == (overlap / h) * h;
    if overlap / h > 0.7 { assert (overlap / h - 0.7) * h > 0.0; } else { assert (0.7 - overlap / h) * h >= 0.0; }
  }

  /** Main result of the merge test: it holds exactly if the lower of the boxes has a height, more than 70% of it is
      shared, and no left side is 0.02 or more beyond a right side. */
  lemma ShouldMergeMeans(a: BBox, b: BBox)
    ensures var h := if a.y2 - a.y1 <= b.y2 - b.y1 then a.y2 - a.y1 else b.y2 - b.y1;
      ShouldMerge(a, b) <==>
        && h > 0.0
        && a.y2 - b.y1 > 0.7 * h && b.y2 - a.y1 > 0.7 * h
        && a.x1 - a.x2 < 0.02 && a.x1 - b.x2 < 0.02 && b.x1 - a.x2 < 0.02 && b.x1 - b.x2 < 0.02
    ensures ShouldMerge(a, b) <==> Touching(a, b)
  {
    var h := Min(a.y2 - a.y1, b.y2 - b.y1);
    if h > 0.0 { RatioAbove(Min(a.y2, b.y2) - Max(a.y1, b.y1), h); }
  }

  /** Every inner node joins two parts that touch. */
  ghost predicate Grown(blocks: seq<Block>, t: Tree) {
    match t
    case Leaf(x) => Boxed(blocks, x)
    case Node(l, r) => Grown(blocks, l) && Grown(blocks, r) && Touching(HullOf(blocks, l), HullOf(blocks, r))
  }

  ghost predicate Builds(blocks: seq<Block>, t: Tree, g: Group) {
    Grown(blocks, t) && Leaves(t) == multiset(g.indices) && HullOf(blocks, t) == g.bbox
  }

  ghost predicate Built(blocks: seq<Block>, g: Group) {
    exists t :: Builds(blocks, t, g)
  }

  ghost predicate AllBuilt(blocks: seq<Block>, s: seq<Group>) {
    forall k :: 0 <= k < |s| && s[k].indices != [] ==> Built(blocks, s[k])
  }

  lemma CombineBuilt(blocks: seq<Block>, a: Group, b: Group)
    requires Built(blocks, a) && Built(blocks, b) && ShouldMerge(a.bbox, b.bbox)
    ensures Built(blocks, Combine(a, b))
  {
    var l, r :| Builds(blocks, l, a) && Builds(blocks, r, b);
    ShouldMergeMeans(a.bbox, b.bbox);
    SortKeeps(a.indices + b.indices, LeNat);
    assert Builds(blocks, Node(l, r), Combine(a, b));
  }

  lemma MergeAtBuilt(blocks: seq<Block>, page: int, s: seq<Group>, i: nat, j: nat)
    requires AllBuilt(blocks, s) && i < j < |s| && s[i].indices != [] && s[j].indices != []
    requires ShouldMerge(s[i].bbox, s[j].bbox)
    ensures AllBuilt(blocks, MergeAt(s, page, i, j))
  {
    var t := MergeAt(s, page, i, j);
    CombineBuilt(blocks, s[i], s[j]);
    forall k | 0 <= k < |t| && t[k].indices != []
      ensures Built(blocks, t[k])
    {
      assert t[k] == if k == i then Combine(s[i], s[j]) else s[k];
    }
  }

  lemma SeedsBuilt(blocks: seq<Block>, page: int, entries: seq<nat>)
    ensures AllBuilt(blocks, Seeds(blocks, page, entries))
  {
    forall k | 0 <= k < |entries| && Seed(blocks, page, entries[k]).indices != []
      ensures Built(blocks, Seed(blocks, page, entries[k]))
    {
      assert Builds(blocks, Leaf(entries[k]), Seed(blocks, page, entries[k]));
    }
  }

  lemma MergeAllBuilt(blocks: seq<Block>, page: int, s: seq<Group>)
    requires AllBuilt(blocks, s)
    ensures AllBuilt(blocks, MergeAll(s, page))
  {
    var inv := (t: seq<Group>) => AllBuilt(blocks, t);
    forall t: seq<Group>, i: nat, j: nat
      | i < j < |t| && t[i].indices != [] && t[j].indices != [] && ShouldMerge(t[i].bbox, t[j].bbox) && inv(t)
      ensures inv(MergeAt(t, page, i, j)) && MergeAt(t, page, i, j)[i].indices != []
    {
      MergeAtLive(t, page, i, j);
      MergeAtBuilt(blocks, page, t, i, j);
    }
    MergeAllKeeps(page, inv, s);
  }

  lemma PageGroupsBuilt(blocks: seq<Block>, page: int, sorter: seq<nat> -> seq<nat>)
    ensures forall g :: g in PageGroups(blocks, page, sorter) ==> Built(blocks, g)
  {
    var entries := sorter(Positions(BlockPages(blocks), page));
    SeedsBuilt(blocks, page, entries);
    MergeAllBuilt(blocks, page, Seeds(blocks, page, entries));
    LiveOnesFromSource(MergeAll(Seeds(blocks, page, entries), page));
  }

  lemma {:induction false} GroupsOfPagesBuilt(blocks: seq<Block>, pages: seq<int>, sorter: seq<nat> -> seq<nat>)
    ensures forall g :: g in GroupsOfPages(blocks, pages, sorter) ==> Built(blocks, g)
  {
    if pages != [] {
      GroupsOfPagesBuilt(blocks, pages[..|pages| - 1], sorter);
      PageGroupsBuilt(blocks, pages[|pages| - 1], sorter);
    }
  }

  /** Main result: whatever the order, each merged group has grown from its member blocks, two touching parts at a
      time. */
  lemma MergedGroupBuilt(blocks: seq<Block>, sorter: seq<nat> -> seq<nat>, g: Group) returns (t: Tree)
    requires g in MergedGroups(blocks, sorter)
    ensures Grown(blocks, t) && Leaves(t) == multiset(g.indices) && HullOf(blocks, t) == g.bbox
  {
    GroupsOfPagesBuilt(blocks, PageOrder(BlockPages(blocks)), sorter);
    t :| Builds(blocks, t, g);
  }

  /** The first two blocks that were put together. */
  lemma {:induction false} LowestNode(blocks: seq<Block>, t: Tree) returns (x: nat, y: nat)
    requires Grown(blocks, t) && t.Node?
    ensures multiset{x, y} <= Leaves(t) && Touching(BoxAt(blocks, x), BoxAt(blocks, y))
  {
    if t.left.Node? {
      x, y := LowestNode(blocks, t.left);
    } else if t.right.Node? {
      x, y := LowestNode(blocks, t.right);
    } else {
      x, y := t.left.index, t.right.index;
    }
  }

  /** No two boxed blocks of the page touch. */
  ghost predicate Isolated(blocks: seq<Block>, page: int) {
    forall x: nat, y: nat ::
      x != y && OnPage(blocks, page, x) && OnPage(blocks, page, y) ==> !Touching(BoxAt(blocks, x), BoxAt(blocks, y))
  }

  lemma TwiceInAscending(s: seq<nat>, x: nat, y: nat)
    requires Ascending(s) && multiset{x, y} <= multiset(s)
    ensures x != y && x in s && y in s
  {
    DistinctOnce(s);
    assert multiset(s)[x] >= 1;
    assert x in multiset(s) && y in multiset(s);
  }

  lemma NodeTouches(blocks: seq<Block>, g: Group, t: Tree)
    requires Faithful(blocks, g) && Grown(blocks, t) && Leaves(t) == multiset(g.indices) && t.Node?
    ensures !Isolated(blocks, g.page)
  {
    var x, y := LowestNode(blocks, t);
    TwiceInAscending(g.indices, x, y);
    assert OnPage(blocks, g.page, x) && OnPage(blocks, g.page, y);
  }

  /** Main result: on a page where no two blocks touch, nothing is merged. */
  lemma IsolatedStay(blocks: seq<Block>, sorter: seq<nat> -> seq<nat>, page: int, g: Group)
    requires Permutes(sorter) && Isolated(blocks, page)
    requires g in MergedGroups(blocks, sorter) && g.page == page
    ensures |g.indices| == 1
  {
    MergedGroupsCorrect(blocks, sorter);
    var t := MergedGroupBuilt(blocks, sorter, g);
    if t.Node? {
      NodeTouches(blocks, g, t);
    } else {
      assert |multiset(g.indices)| == 1;
    }
  }
}
