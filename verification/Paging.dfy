/** Grouping by page in order of first appearance: the `Map` every layout pass builds first. */
module Paging {
  import opened Wrappers

  /** The pages in order of first appearance; an entry without a page is skipped. */
  function PageOrder(keys: seq<Option<int>>): seq<int> {
    if keys == [] then []
    else
      var order, last := PageOrder(keys[..|keys| - 1]), keys[|keys| - 1];
      if last.None? || last.value in order then order else order + [last.value]
  }

  /** The positions that carry page `p`, in ascending order. */
  function Positions(keys: seq<Option<int>>, p: int): (at: seq<nat>)
    ensures forall x: nat :: x in at <==> x < |keys| && keys[x] == Some(p)
    ensures forall i, j :: 0 <= i < j < |at| ==> at[i] < at[j]
  {
    if keys == [] then []
    else
      var n := |keys| - 1;
      var before := Positions(keys[..n], p);
      assert forall i :: 0 <= i < |before| ==> before[i] in before;
      if keys[n] == Some(p) then before + [n] else before
  }

  lemma {:induction false} PageOrderDistinct(keys: seq<Option<int>>)
    ensures forall i, j :: 0 <= i < j < |PageOrder(keys)| ==> PageOrder(keys)[i] != PageOrder(keys)[j]
    ensures forall p :: p in PageOrder(keys) <==> exists i :: 0 <= i < |keys| && keys[i] == Some(p)
  {
    if keys != [] {
      var n := |keys| - 1;
      PageOrderDistinct(keys[..n]);
      forall p
        ensures p in PageOrder(keys) <==> exists i :: 0 <= i < |keys| && keys[i] == Some(p)
      {
        assert keys[n] == Some(p) || (p in PageOrder(keys) <==> p in PageOrder(keys[..n]));
        if i :| 0 <= i < |keys| && keys[i] == Some(p) && i < n {
          assert keys[..n][i] == Some(p);
        }
      }
    }
  }

  lemma PositionsOnPages(keys: seq<Option<int>>, p: int)
    ensures Positions(keys, p) != [] ==> p in PageOrder(keys)
  {
    PageOrderDistinct(keys);
    if Positions(keys, p) != [] {
      var x: nat := Positions(keys, p)[0];
      assert x in Positions(keys, p) && keys[x] == Some(p);
    }
  }

  lemma PageOrderSnoc(keys: seq<Option<int>>, i: nat)
    requires i < |keys|
    ensures PageOrder(keys[..i + 1]) ==
      if keys[i].None? || keys[i].value in PageOrder(keys[..i]) then PageOrder(keys[..i])
      else PageOrder(keys[..i]) + [keys[i].value]
  {
    assert keys[..i + 1][..i] == keys[..i];
  }

  lemma PositionsSnoc(keys: seq<Option<int>>, i: nat, p: int)
    requires i < |keys|
    ensures Positions(keys[..i + 1], p) == Positions(keys[..i], p) + if keys[i] == Some(p) then [i] else []
  {
    assert keys[..i + 1][..i] == keys[..i];
  }

  method GroupByPage(keys: seq<Option<int>>) returns (order: seq<int>, byPage: map<int, seq<nat>>)
    ensures order == PageOrder(keys)
    ensures forall p :: p in byPage <==> p in order
    ensures forall p :: p in byPage ==> byPage[p] == Positions(keys, p)
  {
    order, byPage := [], map[];
    for i := 0 to |keys|
      invariant order == PageOrder(keys[..i])
      invariant forall p :: p in byPage <==> p in order
      invariant forall p :: p in byPage ==> byPage[p] == Positions(keys[..i], p)
    {
      PageOrderSnoc(keys, i);
      forall p
        ensures Positions(keys[..i + 1], p) == Positions(keys[..i], p) + if keys[i] == Some(p) then [i] else []
      {
        PositionsSnoc(keys, i, p);
      }
      if keys[i].None? {
        continue;
      }
      var page := keys[i].value;
      if page !in byPage {
        PositionsOnPages(keys[..i], page);
        byPage := byPage[page := []];
        order := order + [page];
      }
      byPage := byPage[page := byPage[page] + [i]];
    }
    assert keys[..|keys|] == keys;
  }

  /** Main result: the pages come in the order of their first appearance. */
  lemma {:induction false} PagesByFirst(keys: seq<Option<int>>, i: nat, j: nat)
    requires i < j < |PageOrder(keys)|
    ensures Positions(keys, PageOrder(keys)[i]) != [] && Positions(keys, PageOrder(keys)[j]) != []
    ensures Positions(keys, PageOrder(keys)[i])[0] < Positions(keys, PageOrder(keys)[j])[0]
  {
    var n := |keys| - 1;
    var order, last := PageOrder(keys[..n]), keys[n];
    PageOrderDistinct(keys[..n]);
    if j < |order| {
      PagesByFirst(keys[..n], i, j);
    } else {
      NoneBefore(keys[..n], last.value);
      SomewhereBefore(keys[..n], i);
      assert order[i] != last.value;
    }
  }

  lemma NoneBefore(keys: seq<Option<int>>, p: int)
    requires p !in PageOrder(keys)
    ensures Positions(keys, p) == []
  {
    if Positions(keys, p) != [] { PositionsOnPages(keys, p); }
  }

  lemma SomewhereBefore(keys: seq<Option<int>>, i: nat)
    requires i < |PageOrder(keys)|
    ensures Positions(keys, PageOrder(keys)[i]) != [] && Positions(keys, PageOrder(keys)[i])[0] < |keys|
  {
    PageOrderDistinct(keys);
    var p := PageOrder(keys)[i];
    assert p in PageOrder(keys);
    var x: nat :| x < |keys| && keys[x] == Some(p);
    assert x in Positions(keys, p);
    var first: nat := Positions(keys, p)[0];
    assert first in Positions(keys, p);
  }
}
