/** What merging keeps: a partition of the boxed input blocks into groups with exact hulls and all their ink. */
module OcrPartition {
  import opened Text
  import opened Sorting
  import opened Paging
  import opened Wrappers
  import opened OcrMerge

  ghost predicate Boxed(blocks: seq<Block>, x: nat) {
    x < |blocks| && blocks[x].bbox.Some?
  }

  /** Input block `x` has a box and stands on page `page`. */
  ghost predicate OnPage(blocks: seq<Block>, page: int, x: nat) {
    Boxed(blocks, x) && blocks[x].page == page
  }

  /** The box of input block `x`; asked for boxed blocks only. */
  ghost function BoxAt(blocks: seq<Block>, x: nat): BBox {
    if Boxed(blocks, x) then blocks[x].bbox.value else BBox(0.0, 0.0, 0.0, 0.0)
  }

  ghost predicate Inside(c: BBox, b: BBox) {
    b.x1 <= c.x1 && b.y1 <= c.y1 && c.x2 <= b.x2 && c.y2 <= b.y2
  }

  /** `b` holds the boxes of all members and each of its four sides is the side of a member. */
  ghost predicate IsHull(blocks: seq<Block>, indices: seq<nat>, b: BBox) {
    && (forall x: nat :: x in indices ==> Inside(BoxAt(blocks, x), b))
    && (exists x: nat :: x in indices && BoxAt(blocks, x).x1 == b.x1)
    && (exists x: nat :: x in indices && BoxAt(blocks, x).y1 == b.y1)
    && (exists x: nat :: x in indices && BoxAt(blocks, x).x2 == b.x2)
    && (exists x: nat :: x in indices && BoxAt(blocks, x).y2 == b.y2)
  }

  ghost predicate Ascending(s: seq<nat>) {
    forall i, j :: 0 <= i < j < |s| ==> s[i] < s[j]
  }

  /** A group names its members once each, in ascending order, all on its page, with their exact hull. */
  ghost predicate Faithful(blocks: seq<Block>, g: Group) {
    && g.indices != []
    && Ascending(g.indices)
    && (forall x: nat :: x in g.indices ==> OnPage(blocks, g.page, x))
    && IsHull(blocks, g.indices, g.bbox)
  }

  /** The non-space characters of a text. */
  ghost function Ink(s: string): multiset<char> {
    if s == "" then multiset{}
    else (if s[0] in JS_SPACE then multiset{} else multiset{s[0]}) + Ink(s[1..])
  }

  ghost function TextAt(blocks: seq<Block>, x: nat): string {
    if x < |blocks| then blocks[x].text else ""
  }

  /** What the members contribute, all together. */
  ghost function Total<T(!new)>(part: nat -> multiset<T>, indices: seq<nat>): multiset<T> {
    if indices == [] then multiset{} else Total(part, indices[..|indices| - 1]) + part(indices[|indices| - 1])
  }

  ghost function InkAt(blocks: seq<Block>): nat -> multiset<char> {
    (x: nat) => Ink(TextAt(blocks, x))
  }

  ghost predicate KeepsInk(blocks: seq<Block>, g: Group) {
    Ink(g.text) == Total(InkAt(blocks), g.indices)
  }

  /** No input block belongs to two groups. */
  ghost predicate Disjoint(s: seq<Group>) {
    forall k, l, x: nat :: 0 <= k < |s| && 0 <= l < |s| && x in s[k].indices && x in s[l].indices ==> k == l
  }

  ghost predicate Member(s: seq<Group>, x: nat) {
    exists k :: 0 <= k < |s| && x in s[k].indices
  }

  ghost predicate Covers(s: seq<Group>, xs: set<nat>) {
    forall x: nat :: x in xs <==> Member(s, x)
  }

  // ---------- ink ----------

  lemma {:induction false} InkAppend(a: string, b: string)
    ensures Ink(a + b) == Ink(a) + Ink(b)
  {
    if a == "" {
      assert a + b == b;
    } else {
      assert (a + b)[1..] == a[1..] + b;
      InkAppend(a[1..], b);
    }
  }

  lemma {:induction false} InkBlank(s: string)
    requires Blank(s, JS_SPACE)
    ensures Ink(s) == multiset{}
  {
    if s != "" { InkBlank(s[1..]); }
  }

  lemma InkTrim(s: string)
    ensures Ink(Trim(s, JS_SPACE)) == Ink(s)
  {
    var head, tail := TrimShape(s, JS_SPACE);
    InkAppend(head + Trim(s, JS_SPACE), tail);
    InkAppend(head, Trim(s, JS_SPACE));
    InkBlank(head);
    InkBlank(tail);
  }

  lemma {:induction false} TotalAppend<T(!new)>(part: nat -> multiset<T>, a: seq<nat>, b: seq<nat>)
    ensures Total(part, a + b) == Total(part, a) + Total(part, b)
  {
    if b == [] {
      assert a + b == a;
    } else {
      var b' := b[..|b| - 1];
      assert (a + b)[..|a + b| - 1] == a + b';
      TotalAppend(part, a, b');
    }
  }

  lemma {:induction false} TotalInsert<T(!new)>(part: nat -> multiset<T>, s: seq<nat>, x: nat)
    ensures Total(part, Insert(s, x, LeNat)) == Total(part, s) + part(x)
  {
    var r := Insert(s, x, LeNat);
    if s == [] || LeNat(s[|s| - 1], x) {
      assert r[..|r| - 1] == s;
    } else {
      var s' := s[..|s| - 1];
      TotalInsert(part, s', x);
      assert r[..|r| - 1] == Insert(s', x, LeNat);
    }
  }

  lemma {:induction false} TotalSort<T(!new)>(part: nat -> multiset<T>, s: seq<nat>)
    ensures Total(part, Sort(s, LeNat)) == Total(part, s)
  {
    if s != [] {
      TotalSort(part, s[..|s| - 1]);
      TotalInsert(part, Sort(s[..|s| - 1], LeNat), s[|s| - 1]);
    }
  }

  /** The members of a merged block contribute what those of its two blocks do. */
  lemma TotalOfCombined<T(!new)>(part: nat -> multiset<T>, a: Group, b: Group)
    ensures Total(part, Combine(a, b).indices) == Total(part, a.indices) + Total(part, b.indices)
  {
    TotalSort(part, a.indices + b.indices);
    TotalAppend(part, a.indices, b.indices);
  }

  lemma TotalOfOne<T(!new)>(part: nat -> multiset<T>, x: nat)
    ensures Total(part, [x]) == part(x)
  {
    assert [x][..0] == [];
    assert Total(part, []) == multiset{};
  }

  // ---------- ascending index lists ----------

  lemma {:induction false} InsertAscending(s: seq<nat>, x: nat)
    requires Ascending(s) && x !in s
    ensures Ascending(Insert(s, x, LeNat))
  {
    if s != [] && !LeNat(s[|s| - 1], x) {
      var s', last := s[..|s| - 1], s[|s| - 1];
      InsertAscending(s', x);
      InsertKeeps(s', x, LeNat);
      var r := Insert(s', x, LeNat);
      forall i | 0 <= i < |r|
        ensures r[i] < last
      {
        assert r[i] in multiset(r);
        assert r[i] in s' || r[i] == x;
      }
    }
  }

  lemma {:induction false} SortAscending(s: seq<nat>)
    requires Distinct(s)
    ensures Ascending(Sort(s, LeNat))
  {
    if s != [] {
      var s' := s[..|s| - 1];
      SortAscending(s');
      SortMembers(s', LeNat);
      InsertAscending(Sort(s', LeNat), s[|s| - 1]);
    }
  }

  // ---------- one merge ----------

  ghost predicate Sound(blocks: seq<Block>, page: int, g: Group) {
    g.page == page && Faithful(blocks, g) && KeepsInk(blocks, g)
  }

  lemma InkSpaced(a: string, b: string)
    ensures Ink(Trim(a + " " + b, JS_SPACE)) == Ink(a) + Ink(b)
  {
    InkTrim(a + " " + b);
    InkAppend(a + " ", b);
    InkAppend(a, " ");
    InkBlank(" ");
  }

  lemma CombineInk(blocks: seq<Block>, a: Group, b: Group)
    requires KeepsInk(blocks, a) && KeepsInk(blocks, b)
    ensures KeepsInk(blocks, Combine(a, b))
  {
    TotalOfCombined(InkAt(blocks), a, b);
    InkSpaced(a.text, b.text);
    InkSpaced(b.text, a.text);
  }

  lemma CombineIndices(a: Group, b: Group)
    requires Ascending(a.indices) && Ascending(b.indices)
    requires forall x: nat :: x in a.indices ==> x !in b.indices
    ensures Ascending(Combine(a, b).indices)
    ensures forall x: nat :: x in Combine(a, b).indices <==> x in a.indices || x in b.indices
  {
    var both := a.indices + b.indices;
    SortMembers(both, LeNat);
    forall i, j | 0 <= i < j < |both|
      ensures both[i] != both[j]
    {
      if i < |a.indices| <= j {
        assert both[i] == a.indices[i] && both[j] == b.indices[j - |a.indices|];
        assert a.indices[i] in a.indices;
      }
    }
    SortAscending(both);
  }

  lemma CombineSound(blocks: seq<Block>, page: int, a: Group, b: Group)
    requires Sound(blocks, page, a) && Sound(blocks, page, b)
    requires forall x: nat :: x in a.indices ==> x !in b.indices
    ensures Sound(blocks, page, Combine(a, b))
    ensures forall x: nat :: x in Combine(a, b).indices <==> x in a.indices || x in b.indices
  {
    CombineIndices(a, b);
    UnionHull(blocks, a.indices, a.bbox, b.indices, b.bbox, Combine(a, b).indices);
    CombineInk(blocks, a, b);
    assert a.indices[0] in Combine(a, b).indices;
  }

  lemma UnionHull(blocks: seq<Block>, a: seq<nat>, aBox: BBox, b: seq<nat>, bBox: BBox, c: seq<nat>)
    requires IsHull(blocks, a, aBox) && IsHull(blocks, b, bBox)
    requires forall x: nat :: x in c <==> x in a || x in b
    ensures IsHull(blocks, c, Around(aBox, bBox))
  {
    forall x: nat | x in c
      ensures Inside(BoxAt(blocks, x), Around(aBox, bBox))
    {
      assert if x in a then Inside(BoxAt(blocks, x), aBox) else Inside(BoxAt(blocks, x), bBox);
    }
  }

  /** The state of one page while it is merged. */
  ghost predicate PageState(blocks: seq<Block>, page: int, xs: set<nat>, s: seq<Group>) {
    && Disjoint(s)
    && Covers(s, xs)
    && forall k :: 0 <= k < |s| && s[k].indices != [] ==> Sound(blocks, page, s[k])
  }

  lemma MergeAtMembers(s: seq<Group>, page: int, i: nat, j: nat)
    requires i < j < |s|
    requires forall x: nat :: x in Combine(s[i], s[j]).indices <==> x in s[i].indices || x in s[j].indices
    ensures forall x: nat :: Member(MergeAt(s, page, i, j), x) <==> Member(s, x)
  {
    var t := MergeAt(s, page, i, j);
    forall x: nat
      ensures Member(s, x) <==> Member(t, x)
    {
      if k :| 0 <= k < |s| && x in s[k].indices {
        var l := if k == j then i else k;
        assert x in t[l].indices;
      }
      if k :| 0 <= k < |t| && x in t[k].indices {
        assert x in s[k].indices || x in s[j].indices;
      }
    }
  }

  lemma MergeAtDisjoint(s: seq<Group>, page: int, i: nat, j: nat)
    requires i < j < |s| && Disjoint(s)
    requires forall x: nat :: x in Combine(s[i], s[j]).indices <==> x in s[i].indices || x in s[j].indices
    ensures Disjoint(MergeAt(s, page, i, j))
  {
    var t := MergeAt(s, page, i, j);
    forall k, l, x: nat | 0 <= k < |t| && 0 <= l < |t| && x in t[k].indices && x in t[l].indices
      ensures k == l
    {
      assert x in s[k].indices || (k == i && x in s[j].indices);
      assert x in s[l].indices || (l == i && x in s[j].indices);
    }
  }

  lemma MergeAtKeepsState(blocks: seq<Block>, page: int, xs: set<nat>, s: seq<Group>, i: nat, j: nat)
    requires PageState(blocks, page, xs, s)
    requires i < j < |s| && s[i].indices != [] && s[j].indices != []
    ensures PageState(blocks, page, xs, MergeAt(s, page, i, j))
    ensures MergeAt(s, page, i, j)[i].indices != []
  {
    CombineSound(blocks, page, s[i], s[j]);
    MergeAtMembers(s, page, i, j);
    MergeAtDisjoint(s, page, i, j);
  }

  // ---------- every merge, hence every pass ----------

  ghost predicate KeptByMerges(page: int, inv: seq<Group> -> bool) {
    forall s: seq<Group>, i: nat, j: nat ::
      i < j < |s| && s[i].indices != [] && s[j].indices != [] && ShouldMerge(s[i].bbox, s[j].bbox) && inv(s) ==>
      inv(MergeAt(s, page, i, j)) && MergeAt(s, page, i, j)[i].indices != []
  }

  lemma {:induction false} AbsorbKeeps(page: int, inv: seq<Group> -> bool, s: seq<Group>, i: nat, j: nat)
    requires KeptByMerges(page, inv) && inv(s)
    requires i < j <= |s| && s[i].indices != []
    ensures inv(Absorb(s, page, i, j))
    decreases |s| - j
  {
    if j < |s| {
      if MergeableAt(s, i, j) {
        AbsorbKeeps(page, inv, MergeAt(s, page, i, j), i, j + 1);
      } else {
        AbsorbKeeps(page, inv, s, i, j + 1);
      }
    }
  }

  lemma {:induction false} SweepKeeps(page: int, inv: seq<Group> -> bool, s: seq<Group>, i: nat)
    requires KeptByMerges(page, inv) && inv(s)
    requires i <= |s|
    ensures inv(Sweep(s, page, i))
    decreases |s| - i
  {
    if i < |s| {
      if s[i].indices == [] {
        SweepKeeps(page, inv, s, i + 1);
      } else {
        AbsorbKeeps(page, inv, s, i, i + 1);
        SweepKeeps(page, inv, Absorb(s, page, i, i + 1), i + 1);
      }
    }
  }

  /** Whatever every single merge keeps, the whole merge loop keeps. */
  lemma {:induction false} MergeAllKeeps(page: int, inv: seq<Group> -> bool, s: seq<Group>)
    requires KeptByMerges(page, inv) && inv(s)
    ensures inv(MergeAll(s, page))
    decreases Live(s)
  {
    SweepKeeps(page, inv, s, 0);
    SweepProgress(s, page, 0);
    if Sweep(s, page, 0) != s {
      MergeAllKeeps(page, inv, Sweep(s, page, 0));
    }
  }

  lemma MergeAllKeepsState(blocks: seq<Block>, page: int, xs: set<nat>, s: seq<Group>)
    requires PageState(blocks, page, xs, s)
    ensures PageState(blocks, page, xs, MergeAll(s, page))
  {
    var inv := (t: seq<Group>) => PageState(blocks, page, xs, t);
    forall t: seq<Group>, i: nat, j: nat | i < j < |t| && t[i].indices != [] && t[j].indices != [] && inv(t)
      ensures inv(MergeAt(t, page, i, j)) && MergeAt(t, page, i, j)[i].indices != []
    {
      MergeAtKeepsState(blocks, page, xs, t, i, j);
    }
    MergeAllKeeps(page, inv, s);
  }

  // ---------- all pages ----------

  lemma SeedsState(blocks: seq<Block>, page: int, entries: seq<nat>)
    requires Distinct(entries) && forall x: nat :: x in entries ==> OnPage(blocks, page, x)
    ensures PageState(blocks, page, (set x | x in entries), Seeds(blocks, page, entries))
  {
    var s := Seeds(blocks, page, entries);
    forall k | 0 <= k < |s|
      ensures s[k].indices == [entries[k]] && Sound(blocks, page, s[k])
    {
      assert entries[k] in entries;
      SeedSound(blocks, page, entries[k]);
    }
    forall x: nat
      ensures x in entries <==> Member(s, x)
    {
      if x in entries {
        var k :| 0 <= k < |entries| && entries[k] == x;
        assert x in s[k].indices;
      }
    }
  }

  lemma SeedSound(blocks: seq<Block>, page: int, x: nat)
    requires OnPage(blocks, page, x)
    ensures Sound(blocks, page, Seed(blocks, page, x))
  {
    TotalOfOne(InkAt(blocks), x);
    assert x in Seed(blocks, page, x).indices;
  }

  /** Dropping the emptied places keeps members, disjointness and the settled state. */
  lemma LiveOnesKeep(s: seq<Group>)
    requires Disjoint(s) && Settled(s, 0)
    ensures Disjoint(LiveOnes(s)) && Settled(LiveOnes(s), 0)
    ensures forall x: nat :: Member(LiveOnes(s), x) <==> Member(s, x)
    ensures forall k :: 0 <= k < |LiveOnes(s)| ==> LiveOnes(s)[k].indices != [] && LiveOnes(s)[k] in s
  {
    LiveOnesFromSource(s);
    LiveOnesMembers(s);
    LiveOnesDisjoint(s);
    LiveOnesSettled(s);
  }

  lemma {:induction false} LiveOnesFromSource(s: seq<Group>)
    ensures forall g :: g in LiveOnes(s) ==> g.indices != [] && g in s
  {
    if s != [] {
      LiveOnesFromSource(s[..|s| - 1]);
      assert s == s[..|s| - 1] + [s[|s| - 1]];
    }
  }

  lemma {:induction false} LiveOnesMembers(s: seq<Group>)
    ensures forall x: nat :: Member(LiveOnes(s), x) <==> Member(s, x)
  {
    if s != [] {
      var t, last := s[..|s| - 1], s[|s| - 1];
      LiveOnesMembers(t);
      MemberSnoc(t, last);
      MemberSnoc(LiveOnes(t), last);
      assert s == t + [last];
      assert last.indices == [] ==> LiveOnes(s) == LiveOnes(t);
    }
  }

  lemma {:induction false} LiveOnesDisjoint(s: seq<Group>)
    requires Disjoint(s)
    ensures Disjoint(LiveOnes(s))
  {
    if s != [] {
      var t, last := s[..|s| - 1], s[|s| - 1];
      LiveOnesDisjoint(t);
      LiveOnesMembers(t);
      assert s == t + [last];
      MemberSnoc([], last);
      assert [] + [last] == [last];
      DisjointSnoc(LiveOnes(t), t, [last], last);
      assert last.indices == [] ==> LiveOnes(s) == LiveOnes(t);
    }
  }

  lemma {:induction false} LiveOnesSettled(s: seq<Group>)
    requires Settled(s, 0)
    ensures Settled(LiveOnes(s), 0)
  {
    if s != [] {
      var t, last := s[..|s| - 1], s[|s| - 1];
      LiveOnesSettled(t);
      LiveOnesFromSource(t);
      var r := LiveOnes(t);
      forall k | 0 <= k < |r| && last.indices != []
        ensures !ShouldMerge(r[k].bbox, last.bbox)
      {
        assert r[k] in r;
        var l :| 0 <= l < |t| && t[l] == r[k];
        assert s[l] == t[l];
      }
      assert last.indices == [] ==> LiveOnes(s) == r;
    }
  }

  lemma MemberSnoc(s: seq<Group>, g: Group)
    ensures forall x: nat :: Member(s + [g], x) <==> Member(s, x) || x in g.indices
  {
    forall x: nat
      ensures Member(s + [g], x) <==> Member(s, x) || x in g.indices
    {
      if k :| 0 <= k < |s| && x in s[k].indices { assert x in (s + [g])[k].indices; }
      if x in g.indices { assert x in (s + [g])[|s|].indices; }
    }
  }

  /** `r` stands for the groups `t` and the new group for the groups `u`. */
  lemma DisjointSnoc(r: seq<Group>, t: seq<Group>, u: seq<Group>, last: Group)
    requires Disjoint(r) && Disjoint(t + u)
    requires forall x: nat :: Member(r, x) <==> Member(t, x)
    requires forall x: nat :: x in last.indices <==> Member(u, x)
    ensures Disjoint(r + [last])
  {
    forall k, x: nat | 0 <= k < |r| && x in r[k].indices
      ensures x !in last.indices
    {
      assert Member(r, x);
      var l :| 0 <= l < |t| && x in t[l].indices;
      assert x in (t + u)[l].indices;
      assert forall m :: 0 <= m < |u| ==> (t + u)[|t| + m] == u[m] && x !in (t + u)[|t| + m].indices;
    }
  }

  ghost predicate Permutes(sorter: seq<nat> -> seq<nat>) {
    forall s: seq<nat> :: multiset(sorter(s)) == multiset(s)
  }

  /** A partition of the input blocks `xs` into faithful groups. */
  ghost predicate Grouped(blocks: seq<Block>, s: seq<Group>, xs: set<nat>) {
    && Disjoint(s)
    && Covers(s, xs)
    && (forall k :: 0 <= k < |s| ==> Faithful(blocks, s[k]))
  }

  /** Such a partition that also keeps every non-space character. */
  ghost predicate Layout(blocks: seq<Block>, s: seq<Group>, xs: set<nat>) {
    Grouped(blocks, s, xs) && forall k :: 0 <= k < |s| ==> KeepsInk(blocks, s[k])
  }

  ghost predicate NoneMergeable(s: seq<Group>) {
    forall k, l :: 0 <= k < |s| && 0 <= l < |s| && k != l && s[k].page == s[l].page ==>
      !ShouldMerge(s[k].bbox, s[l].bbox)
  }

  lemma ShouldMergeSymmetric(a: BBox, b: BBox)
    ensures ShouldMerge(a, b) <==> ShouldMerge(b, a)
  {
  }

  lemma SettledBothWays(s: seq<Group>)
    requires Settled(s, 0) && forall k :: 0 <= k < |s| ==> s[k].indices != []
    ensures NoneMergeable(s)
  {
    forall k, l | 0 <= k < |s| && 0 <= l < |s| && k != l
      ensures !ShouldMerge(s[k].bbox, s[l].bbox)
    {
      ShouldMergeSymmetric(s[k].bbox, s[l].bbox);
    }
  }

  lemma PageGroupsLayout(blocks: seq<Block>, page: int, sorter: seq<nat> -> seq<nat>)
    requires Permutes(sorter)
    ensures var s := PageGroups(blocks, page, sorter);
      && Layout(blocks, s, set x | x in Positions(BlockPages(blocks), page))
      && NoneMergeable(s)
      && forall k :: 0 <= k < |s| ==> s[k].page == page
  {
    var at := Positions(BlockPages(blocks), page);
    var entries := sorter(at);
    Rearranged(entries, at);
    SeedsState(blocks, page, entries);
    var xs := set x | x in entries;
    assert xs == set x | x in at;
    var seeds := Seeds(blocks, page, entries);
    MergeAllKeepsState(blocks, page, xs, seeds);
    MergeAllSettles(seeds, page);
    LiveOnesKeep(MergeAll(seeds, page));
    SettledBothWays(PageGroups(blocks, page, sorter));
  }

  lemma GroupedAppend(blocks: seq<Block>, s: seq<Group>, xs: set<nat>, t: seq<Group>, ys: set<nat>)
    requires Grouped(blocks, s, xs) && Grouped(blocks, t, ys) && xs !! ys
    ensures Grouped(blocks, s + t, xs + ys)
  {
    var r := s + t;
    forall x: nat
      ensures x in xs + ys <==> Member(r, x)
    {
      if k :| 0 <= k < |s| && x in s[k].indices { assert x in r[k].indices; }
      if k :| 0 <= k < |t| && x in t[k].indices { assert x in r[|s| + k].indices; }
      if k :| 0 <= k < |r| && x in r[k].indices { assert if k < |s| then Member(s, x) else Member(t, x); }
    }
    forall k, l, x: nat | 0 <= k < |r| && 0 <= l < |r| && x in r[k].indices && x in r[l].indices
      ensures k == l
    {
      assert if k < |s| then Member(s, x) else Member(t, x);
      assert if l < |s| then Member(s, x) else Member(t, x);
    }
  }

  lemma NoneMergeableAppend(s: seq<Group>, t: seq<Group>, page: int)
    requires NoneMergeable(s) && NoneMergeable(t)
    requires forall k :: 0 <= k < |s| ==> s[k].page != page
    requires forall k :: 0 <= k < |t| ==> t[k].page == page
    ensures NoneMergeable(s + t)
  {
  }

  ghost function BoxedOn(blocks: seq<Block>, pages: seq<int>): set<nat> {
    set x: nat | x < |blocks| && Boxed(blocks, x) && blocks[x].page in pages
  }

  /** The boxed blocks of a list of pages, and of its last page. */
  lemma BoxedOnSnoc(blocks: seq<Block>, before: seq<int>, page: int)
    requires page !in before
    ensures var ys := set x | x in Positions(BlockPages(blocks), page);
      BoxedOn(blocks, before) !! ys && BoxedOn(blocks, before) + ys == BoxedOn(blocks, before + [page])
  {
  }

  lemma LayoutAppend(blocks: seq<Block>, s: seq<Group>, xs: set<nat>, t: seq<Group>, ys: set<nat>)
    requires Layout(blocks, s, xs) && Layout(blocks, t, ys) && xs !! ys
    ensures Layout(blocks, s + t, xs + ys)
  {
    GroupedAppend(blocks, s, xs, t, ys);
  }

  lemma LayoutSnoc(blocks: seq<Block>, before: seq<int>, page: int, s: seq<Group>, t: seq<Group>)
    requires page !in before
    requires Layout(blocks, s, BoxedOn(blocks, before)) &&
      Layout(blocks, t, set x | x in Positions(BlockPages(blocks), page))
    ensures Layout(blocks, s + t, BoxedOn(blocks, before + [page]))
  {
    BoxedOnSnoc(blocks, before, page);
    LayoutAppend(blocks, s, BoxedOn(blocks, before), t, set x | x in Positions(BlockPages(blocks), page));
  }

  lemma {:induction false} GroupsOfPagesLayout(blocks: seq<Block>, pages: seq<int>, sorter: seq<nat> -> seq<nat>)
    requires Permutes(sorter)
    requires forall i, j :: 0 <= i < j < |pages| ==> pages[i] != pages[j]
    ensures Layout(blocks, GroupsOfPages(blocks, pages, sorter), BoxedOn(blocks, pages))
  {
    if pages != [] {
      var before, page := pages[..|pages| - 1], pages[|pages| - 1];
      GroupsOfPagesLayout(blocks, before, sorter);
      PageGroupsLayout(blocks, page, sorter);
      assert pages == before + [page];
      LayoutSnoc(blocks, before, page, GroupsOfPages(blocks, before, sorter), PageGroups(blocks, page, sorter));
    }
  }

  /** On these pages, with nothing left to merge. */
  ghost predicate SettledOn(s: seq<Group>, pages: seq<int>) {
    NoneMergeable(s) && forall k :: 0 <= k < |s| ==> s[k].page in pages
  }

  lemma SettledSnoc(s: seq<Group>, t: seq<Group>, before: seq<int>, page: int)
    requires SettledOn(s, before) && SettledOn(t, [page]) && page !in before
    ensures SettledOn(s + t, before + [page])
  {
    assert forall k :: 0 <= k < |t| ==> t[k].page in [page] && t[k].page == page;
    NoneMergeableAppend(s, t, page);
  }

  lemma PageGroupsSettled(blocks: seq<Block>, page: int, sorter: seq<nat> -> seq<nat>)
    requires Permutes(sorter)
    ensures SettledOn(PageGroups(blocks, page, sorter), [page])
  {
    PageGroupsLayout(blocks, page, sorter);
  }

  lemma {:induction false} GroupsOfPagesSettled(blocks: seq<Block>, pages: seq<int>, sorter: seq<nat> -> seq<nat>)
    requires Permutes(sorter)
    requires forall i, j :: 0 <= i < j < |pages| ==> pages[i] != pages[j]
    ensures SettledOn(GroupsOfPages(blocks, pages, sorter), pages)
  {
    if pages != [] {
      var before, page := pages[..|pages| - 1], pages[|pages| - 1];
      GroupsOfPagesSettled(blocks, before, sorter);
      PageGroupsSettled(blocks, page, sorter);
      assert pages == before + [page];
      SettledSnoc(GroupsOfPages(blocks, before, sorter), PageGroups(blocks, page, sorter), before, page);
    }
  }

  /** Main result: for every sort order, the merged groups partition the boxed blocks, with exact hulls and all ink, and
      none is left to merge. */
  lemma MergedGroupsCorrect(blocks: seq<Block>, sorter: seq<nat> -> seq<nat>)
    requires Permutes(sorter)
    ensures Layout(blocks, MergedGroups(blocks, sorter), set x: nat | x < |blocks| && Boxed(blocks, x))
    ensures NoneMergeable(MergedGroups(blocks, sorter))
  {
    var pages := PageOrder(BlockPages(blocks));
    PageOrderDistinct(BlockPages(blocks));
    GroupsOfPagesLayout(blocks, pages, sorter);
    GroupsOfPagesSettled(blocks, pages, sorter);
    forall x: nat | Boxed(blocks, x)
      ensures blocks[x].page in pages
    {
      assert BlockPages(blocks)[x] == Some(blocks[x].page);
    }
    assert (set x: nat | x < |blocks| && Boxed(blocks, x)) == BoxedOn(blocks, pages);
  }
}
