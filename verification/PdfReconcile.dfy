/** Correcting OCR text from the text layer of a PDF by greedy box matching (pdf_utils.py). */
module PdfReconcile {
  import opened Text
  import opened Wrappers

  /** A block as received; `None` stands for a value that cannot be read as text, page number or list of numbers. */
  datatype Block = Block(text: Option<string>, page: Option<int>, bbox: Option<seq<real>>)

  datatype Rect = Rect(x1: real, y1: real, x2: real, y2: real)

  function Min(a: real, b: real): real { if a <= b then a else b }

  function Max(a: real, b: real): real { if a >= b then a else b }

  function NormalizeText(value: Option<string>): Option<string> {
    if value.Some? && Trim(value.value, PY_SPACE) != "" then Some(Trim(value.value, PY_SPACE)) else None
  }

  function NormalizePage(value: Option<int>): int {
    if value.Some? && value.value > 0 then value.value else 1
  }

  /** Corners put in order; a box without area is no box. */
  function NormalizeBBox(value: Option<seq<real>>): Option<Rect> {
    if value.None? || |value.value| != 4 then None
    else
      var c := value.value;
      var r := Rect(Min(c[0], c[2]), Min(c[1], c[3]), Max(c[0], c[2]), Max(c[1], c[3]));
      if r.x1 == r.x2 || r.y1 == r.y2 then None else Some(r)
  }

  function Times(a: real, b: real): real { a * b }

  function Area(r: Rect): real {
    Times(r.x2 - r.x1, r.y2 - r.y1)
  }

  predicate Overlaps(a: Rect, b: Rect) {
    Min(a.x2, b.x2) > Max(a.x1, b.x1) && Min(a.y2, b.y2) > Max(a.y1, b.y1)
  }

  function Width(a: Rect, b: Rect): real { Min(a.x2, b.x2) - Max(a.x1, b.x1) }

  function Height(a: Rect, b: Rect): real { Min(a.y2, b.y2) - Max(a.y1, b.y1) }

  function OverlapArea(a: Rect, b: Rect): real {
    Times(Width(a, b), Height(a, b))
  }

  const TINY: real := 0.000001
  const THRESHOLD: real := 0.55

  function Score(a: Rect, b: Rect): real {
    if !Overlaps(a, b) then 0.0
    else OverlapArea(a, b) / Max(Max(TINY, Area(a)), Max(TINY, Area(b)))
  }

  /** The score of PDF block `j` for an OCR block, and nothing when it may not be compared. */
  function Candidate(box: Rect, page: int, pdf: seq<Block>, used: set<nat>, j: nat): real
    requires j < |pdf|
  {
    if j in used || NormalizePage(pdf[j].page) != page || NormalizeBBox(pdf[j].bbox).None? then 0.0
    else Score(box, NormalizeBBox(pdf[j].bbox).value)
  }

  /** First best-scoring PDF block among the first `n`, with its score. */
  function Best(box: Rect, page: int, pdf: seq<Block>, used: set<nat>, n: nat): (best: (Option<nat>, real))
    requires n <= |pdf|
    ensures best.0.None? <==> best.1 == 0.0
    ensures best.0.Some? ==> best.0.value < n && best.1 == Candidate(box, page, pdf, used, best.0.value) > 0.0
    ensures forall j :: 0 <= j < n ==> Candidate(box, page, pdf, used, j) <= best.1
  {
    if n == 0 then (None, 0.0)
    else
      var best, score := Best(box, page, pdf, used, n - 1), Candidate(box, page, pdf, used, n - 1);
      if score > best.1 then (Some(n - 1), score) else best
  }

  /** The PDF block whose text replaces that of `block`. */
  function Match(block: Block, pdf: seq<Block>, used: set<nat>): (m: Option<nat>)
    ensures m.Some? ==> m.value < |pdf|
  {
    var box := NormalizeBBox(block.bbox);
    if box.None? then None
    else
      var best := Best(box.value, NormalizePage(block.page), pdf, used, |pdf|);
      if best.0.None? || best.1 < THRESHOLD || NormalizeText(pdf[best.0.value].text).None? then None else best.0
  }

  function Used(matches: seq<Option<nat>>): set<nat> {
    set k | 0 <= k < |matches| && matches[k].Some? :: matches[k].value
  }

  function Matches(ocr: seq<Block>, pdf: seq<Block>): (ms: seq<Option<nat>>)
    ensures |ms| == |ocr|
    ensures forall k :: 0 <= k < |ms| && ms[k].Some? ==> ms[k].value < |pdf|
  {
    if ocr == [] then []
    else
      var ms := Matches(ocr[..|ocr| - 1], pdf);
      ms + [Match(ocr[|ocr| - 1], pdf, Used(ms))]
  }

  function Corrected(block: Block, pdf: seq<Block>, m: Option<nat>): Block
    requires m.Some? ==> m.value < |pdf|
  {
    if m.None? then block else block.(text := NormalizeText(pdf[m.value].text))
  }

  function Reconciled(ocr: seq<Block>, pdf: seq<Block>): (r: seq<Block>)
    ensures |r| == |ocr|
  {
    var ms := Matches(ocr, pdf);
    seq(|ocr|, k requires 0 <= k < |ocr| => Corrected(ocr[k], pdf, ms[k]))
  }

  /** The inner loop: the running best over the PDF blocks. */
  method FindBest(box: Rect, page: int, pdf: seq<Block>, used: set<nat>)
    returns (bestIndex: Option<nat>, bestScore: real)
    ensures (bestIndex, bestScore) == Best(box, page, pdf, used, |pdf|)
  {
    bestIndex, bestScore := None, 0.0;
    for j := 0 to |pdf|
      invariant (bestIndex, bestScore) == Best(box, page, pdf, used, j)
    {
      if j in used || NormalizePage(pdf[j].page) != page {
        continue;
      }
      var pdfBox := NormalizeBBox(pdf[j].bbox);
      if pdfBox.None? {
        continue;
      }
      var score := Score(box, pdfBox.value);
      if score > bestScore {
        bestIndex, bestScore := Some(j), score;
      }
    }
  }

  /** One OCR block: the PDF block it is matched with, if any. */
  method MatchBlock(block: Block, pdf: seq<Block>, used: set<nat>) returns (m: Option<nat>)
    ensures m == Match(block, pdf, used)
  {
    var bbox := NormalizeBBox(block.bbox);
    if bbox.None? {
      return None;
    }
    var bestIndex, bestScore := FindBest(bbox.value, NormalizePage(block.page), pdf, used);
    if bestIndex.None? || bestScore < THRESHOLD || NormalizeText(pdf[bestIndex.value].text).None? {
      return None;
    }
    m := bestIndex;
  }

  method ReconcileBlocksWithPdfText(ocr: seq<Block>, pdf: seq<Block>) returns (corrected: seq<Block>)
    ensures corrected == Reconciled(ocr, pdf)
  {
    if ocr == [] || pdf == [] {
      NoPdfNoChange(ocr, pdf);
      return ocr;
    }
    corrected := ocr;
    var used: set<nat> := {};
    ghost var ms: seq<Option<nat>> := [];
    for index := 0 to |ocr|
      invariant |corrected| == |ocr| && ms == Matches(ocr[..index], pdf) && used == Used(ms)
      invariant forall k :: index <= k < |ocr| ==> corrected[k] == ocr[k]
      invariant forall k :: 0 <= k < index ==> corrected[k] == Corrected(ocr[k], pdf, ms[k])
    {
      var block := corrected[index];
      var m := MatchBlock(block, pdf, used);
      assert ocr[..index + 1][..index] == ocr[..index];
      UsedSnoc(ms, m);
      ms := ms + [m];
      if m.None? {
        continue;
      }
      corrected := corrected[index := block.(text := NormalizeText(pdf[m.value].text))];
      used := used + {m.value};
    }
    assert ocr[..|ocr|] == ocr;
  }

  lemma UsedSnoc(ms: seq<Option<nat>>, m: Option<nat>)
    ensures Used(ms + [m]) == Used(ms) + if m.Some? then {m.value} else {}
  {
    forall x
      ensures x in Used(ms + [m]) <==> x in Used(ms) || (m.Some? && x == m.value)
    {
      if x in Used(ms) {
        var k :| 0 <= k < |ms| && ms[k].Some? && ms[k].value == x;
        assert (ms + [m])[k] == ms[k];
      }
      if m.Some? && x == m.value { assert (ms + [m])[|ms|] == m; }
    }
  }

  lemma {:induction false} NoPdfNoChange(ocr: seq<Block>, pdf: seq<Block>)
    requires ocr == [] || pdf == []
    ensures Reconciled(ocr, pdf) == ocr
  {
    forall k | 0 <= k < |ocr|
      ensures Matches(ocr, pdf)[k].None?
    {
    }
  }

  // ---------- every input ----------

  /** The two blocks stand on one page and their boxes agree well enough to be matched. */
  predicate Close(o: Block, p: Block) {
    && NormalizePage(o.page) == NormalizePage(p.page)
    && NormalizeBBox(o.bbox).Some? && NormalizeBBox(p.bbox).Some?
    && Score(NormalizeBBox(o.bbox).value, NormalizeBBox(p.bbox).value) >= THRESHOLD
  }

  lemma {:induction false} MatchesSafe(ocr: seq<Block>, pdf: seq<Block>, k: nat)
    requires k < |ocr| && Matches(ocr, pdf)[k].Some?
    ensures var j := Matches(ocr, pdf)[k].value;
      && Close(ocr[k], pdf[j]) && NormalizeText(pdf[j].text).Some?
      && forall l :: 0 <= l < k ==> Matches(ocr, pdf)[l] != Some(j)
  {
    var before := ocr[..|ocr| - 1];
    var ms := Matches(before, pdf);
    assert Matches(ocr, pdf)[..|before|] == ms;
    if k < |before| {
      MatchesSafe(before, pdf, k);
    } else {
      var j := Matches(ocr, pdf)[k].value;
      assert j !in Used(ms);
      forall l | 0 <= l < k
        ensures Matches(ocr, pdf)[l] != Some(j)
      {
        assert Matches(ocr, pdf)[l] == ms[l];
      }
    }
  }

  /** Main result: whatever the input, matched blocks share a page and overlap enough, no PDF block is used twice, and
      only texts change. */
  lemma ReconcileSafe(ocr: seq<Block>, pdf: seq<Block>)
    ensures forall k, l :: 0 <= k < l < |ocr| && Matches(ocr, pdf)[k].Some? ==>
      Matches(ocr, pdf)[k] != Matches(ocr, pdf)[l]
    ensures forall k :: 0 <= k < |ocr| && Matches(ocr, pdf)[k].Some? ==> Close(ocr[k], pdf[Matches(ocr, pdf)[k].value])
    ensures forall k :: 0 <= k < |ocr| ==> Reconciled(ocr, pdf)[k] == ocr[k].(text := Reconciled(ocr, pdf)[k].text)
    ensures forall k :: 0 <= k < |ocr| && Reconciled(ocr, pdf)[k] != ocr[k] ==>
      exists j :: 0 <= j < |pdf| && Close(ocr[k], pdf[j]) && Reconciled(ocr, pdf)[k].text == NormalizeText(pdf[j].text)
  {
    forall k | 0 <= k < |ocr| && Matches(ocr, pdf)[k].Some?
      ensures Close(ocr[k], pdf[Matches(ocr, pdf)[k].value])
      ensures forall l :: 0 <= l < k ==> Matches(ocr, pdf)[l] != Matches(ocr, pdf)[k]
    {
      MatchesSafe(ocr, pdf, k);
    }
    forall k, l | 0 <= k < l < |ocr| && Matches(ocr, pdf)[k].Some?
      ensures Matches(ocr, pdf)[k] != Matches(ocr, pdf)[l]
    {
      if Matches(ocr, pdf)[l].Some? { MatchesSafe(ocr, pdf, l); }
    }
  }

  // ---------- rectangle areas ----------

  predicate Proper(r: Rect) { r.x1 < r.x2 && r.y1 < r.y2 }

  lemma NormalizedProper(value: Option<seq<real>>)
    requires NormalizeBBox(value).Some?
    ensures Proper(NormalizeBBox(value).value)
  {
  }

  lemma MulMono(a: real, b: real, c: real)
    requires a <= b && 0.0 <= c
    ensures a * c <= b * c
  {
  }

  lemma MulPositive(a: real, b: real)
    requires a > 0.0 && b > 0.0
    ensures a * b > 0.0
  {
  }

  /** Strips `w` x `h` and `v` x `g` side by side inside `W` x `H` cover at most its area. */
  lemma StripsFit(w: real, h: real, v: real, g: real, W: real, H: real)
    requires 0.0 <= w && 0.0 <= v && w + v <= W
    requires 0.0 <= h <= H && 0.0 <= g <= H
    ensures w * h + v * g <= W * H
  {
    MulMono(h, H, w);
    MulMono(g, H, v);
    MulMono(w + v, W, H);
    assert (w + v) * H == w * H + v * H;
  }

  /** Two boxes that do not overlap cut a third along one axis. */
  lemma SharedSides(o: Rect, p: Rect, q: Rect)
    requires Proper(p) && Proper(q)
    requires Overlaps(o, p) && Overlaps(o, q) && !Overlaps(p, q)
    ensures 0.0 < Width(o, p) <= o.x2 - o.x1 && 0.0 < Width(o, q) <= o.x2 - o.x1
    ensures 0.0 < Height(o, p) <= o.y2 - o.y1 && 0.0 < Height(o, q) <= o.y2 - o.y1
    ensures Width(o, p) + Width(o, q) <= o.x2 - o.x1 || Height(o, p) + Height(o, q) <= o.y2 - o.y1
  {
  }

  /** ... and so share out its area. */
  lemma DisjointShare(o: Rect, p: Rect, q: Rect)
    requires Proper(p) && Proper(q)
    requires Overlaps(o, p) && Overlaps(o, q) && !Overlaps(p, q)
    ensures OverlapArea(o, p) + OverlapArea(o, q) <= Area(o)
  {
    SharedSides(o, p, q);
    ShareArea(Width(o, p), Height(o, p), Width(o, q), Height(o, q), o.x2 - o.x1, o.y2 - o.y1);
  }

  lemma ShareArea(w: real, h: real, v: real, g: real, W: real, H: real)
    requires 0.0 < w <= W && 0.0 < v <= W && 0.0 < h <= H && 0.0 < g <= H
    requires w + v <= W || h + g <= H
    ensures Times(w, h) + Times(v, g) <= Times(W, H)
  {
    if w + v <= W {
      StripsFit(w, h, v, g, W, H);
    } else {
      StripsFit(h, w, g, v, H, W);
    }
  }

  lemma DivBound(x: real, d: real, t: real)
    requires d > 0.0 && x / d >= t
    ensures x >= t * d
  {
    assert x == (x / d) * d;
    MulMono(t, x / d, d);
  }

  lemma ScoreCovers(o: Rect, p: Rect)
    requires Score(o, p) >= THRESHOLD
    ensures Overlaps(o, p) && OverlapArea(o, p) >= THRESHOLD * Area(o)
  {
    var d := Max(Max(TINY, Area(o)), Max(TINY, Area(p)));
    DivBound(OverlapArea(o, p), d, THRESHOLD);
    MulMono(Area(o), d, THRESHOLD);
  }

  /** A threshold above one half leaves room for one partner only. */
  lemma OnePartner(o: Rect, p: Rect, q: Rect)
    requires Proper(o) && Proper(p) && Proper(q)
    requires Score(o, p) >= THRESHOLD && Score(o, q) >= THRESHOLD
    ensures Overlaps(p, q)
  {
    ScoreCovers(o, p);
    ScoreCovers(o, q);
    MulPositive(o.x2 - o.x1, o.y2 - o.y1);
    if !Overlaps(p, q) {
      DisjointShare(o, p, q);
    }
  }

  lemma ScoreSymmetric(a: Rect, b: Rect)
    ensures Score(a, b) == Score(b, a)
  {
    if Overlaps(a, b) {
      assert OverlapArea(a, b) == OverlapArea(b, a);
    }
  }

  // ---------- layouts without overlaps ----------

  predicate Apart(a: Block, b: Block) {
    var p, q := NormalizeBBox(a.bbox), NormalizeBBox(b.bbox);
    NormalizePage(a.page) == NormalizePage(b.page) && p.Some? && q.Some? ==> !Overlaps(p.value, q.value)
  }

  /** Boxes on one page do not overlap. */
  ghost predicate Separate(blocks: seq<Block>) {
    forall i, j :: 0 <= i < j < |blocks| ==> Apart(blocks[i], blocks[j])
  }

  lemma OverlapsSymmetric(a: Rect, b: Rect)
    ensures Overlaps(a, b) <==> Overlaps(b, a)
  {
  }

  lemma OnePdfBlock(o: Block, pdf: seq<Block>, i: nat, j: nat)
    requires Separate(pdf) && i < |pdf| && j < |pdf|
    requires Close(o, pdf[i]) && Close(o, pdf[j])
    ensures i == j
  {
    var box, p, q := NormalizeBBox(o.bbox).value, NormalizeBBox(pdf[i].bbox).value, NormalizeBBox(pdf[j].bbox).value;
    NormalizedProper(o.bbox);
    NormalizedProper(pdf[i].bbox);
    NormalizedProper(pdf[j].bbox);
    OnePartner(box, p, q);
    OverlapsSymmetric(p, q);
  }

  lemma OneOcrBlock(ocr: seq<Block>, p: Block, i: nat, j: nat)
    requires Separate(ocr) && i < |ocr| && j < |ocr|
    requires Close(ocr[i], p) && Close(ocr[j], p)
    ensures i == j
  {
    ScoreSymmetric(NormalizeBBox(ocr[i].bbox).value, NormalizeBBox(p.bbox).value);
    ScoreSymmetric(NormalizeBBox(ocr[j].bbox).value, NormalizeBBox(p.bbox).value);
    OnePdfBlock(p, ocr, i, j);
  }

  /** Main result: without overlaps the greedy matching is exactly the closeness relation. */
  lemma MatchesAreClose(ocr: seq<Block>, pdf: seq<Block>, i: nat, j: nat)
    requires Separate(ocr) && Separate(pdf) && i < |ocr| && j < |pdf|
    ensures Matches(ocr, pdf)[i] == Some(j) <==> Close(ocr[i], pdf[j]) && NormalizeText(pdf[j].text).Some?
  {
    if Matches(ocr, pdf)[i] == Some(j) {
      MatchesSafe(ocr, pdf, i);
    } else if Close(ocr[i], pdf[j]) && NormalizeText(pdf[j].text).Some? {
      MatchesPrefix(ocr, pdf, i);
      var ms := Matches(ocr[..i], pdf);
      if j in Used(ms) {
        var k :| 0 <= k < |ms| && ms[k] == Some(j);
        MatchesSafe(ocr[..i], pdf, k);
        OneOcrBlock(ocr, pdf[j], k, i);
      } else {
        var box, page := NormalizeBBox(ocr[i].bbox).value, NormalizePage(ocr[i].page);
        var best := Best(box, page, pdf, Used(ms), |pdf|);
        assert Candidate(box, page, pdf, Used(ms), j) >= THRESHOLD;
        OnePdfBlock(ocr[i], pdf, j, best.0.value);
      }
    }
  }

  lemma {:induction false} MatchesPrefix(ocr: seq<Block>, pdf: seq<Block>, i: nat)
    requires i < |ocr|
    ensures Matches(ocr, pdf)[i] == Match(ocr[i], pdf, Used(Matches(ocr[..i], pdf)))
  {
    var before := ocr[..|ocr| - 1];
    if i < |before| {
      MatchesPrefix(before, pdf, i);
      assert before[..i] == ocr[..i];
    } else {
      assert before == ocr[..i];
    }
  }

  /** Main result: a block is corrected the same way in every order of both lists, and whatever its neighbours. */
  lemma OrderIndependent(ocr: seq<Block>, pdf: seq<Block>, ocr': seq<Block>, pdf': seq<Block>, i: nat, i': nat)
    requires Separate(ocr) && Separate(pdf) && Separate(ocr') && Separate(pdf')
    requires forall p :: p in pdf <==> p in pdf'
    requires i < |ocr| && i' < |ocr'| && ocr[i] == ocr'[i']
    ensures Reconciled(ocr, pdf)[i] == Reconciled(ocr', pdf')[i']
  {
    SameMatch(ocr, pdf, ocr', pdf', i, i');
    SameMatch(ocr', pdf', ocr, pdf, i', i);
  }

  lemma SameMatch(ocr: seq<Block>, pdf: seq<Block>, ocr': seq<Block>, pdf': seq<Block>, i: nat, i': nat)
    requires Separate(ocr) && Separate(pdf) && Separate(ocr') && Separate(pdf')
    requires forall p :: p in pdf ==> p in pdf'
    requires i < |ocr| && i' < |ocr'| && ocr[i] == ocr'[i']
    ensures Matches(ocr, pdf)[i].Some? ==>
      Matches(ocr', pdf')[i'].Some? && pdf[Matches(ocr, pdf)[i].value] == pdf'[Matches(ocr', pdf')[i'].value]
  {
    if Matches(ocr, pdf)[i].Some? {
      var j := Matches(ocr, pdf)[i].value;
      MatchesSafe(ocr, pdf, i);
      assert pdf[j] in pdf';
      var j' :| 0 <= j' < |pdf'| && pdf'[j'] == pdf[j];
      MatchesAreClose(ocr', pdf', i', j');
    }
  }

  lemma FirstOfTwo(o: Block, p: Block, q: Block)
    requires Close(o, p) && p.page == q.page && p.bbox == q.bbox && NormalizeText(p.text).Some?
    ensures Reconciled([o], [p, q]) == [o.(text := NormalizeText(p.text))]
  {
    var pdf := [p, q];
    var box, page := NormalizeBBox(o.bbox).value, NormalizePage(o.page);
    assert Candidate(box, page, pdf, {}, 0) == Candidate(box, page, pdf, {}, 1);
    assert Best(box, page, pdf, {}, 1).0 == Some(0);
    MatchesPrefix([o], pdf, 0);
    assert [o][..0] == [] && Matches([], pdf) == [] && Used([]) == {};
  }

  /** Where two PDF blocks share a place, the order of the list decides which text wins. */
  lemma OverlapsMakeOrderMatter(o: Block, p: Block, q: Block)
    requires Close(o, p) && p.page == q.page && p.bbox == q.bbox
    requires NormalizeText(p.text).Some? && NormalizeText(q.text).Some? &&
      NormalizeText(p.text) != NormalizeText(q.text)
    ensures !Separate([p, q]) && Reconciled([o], [p, q]) != Reconciled([o], [q, p])
  {
    FirstOfTwo(o, p, q);
    FirstOfTwo(o, q, p);
    assert Reconciled([o], [p, q])[0].text != Reconciled([o], [q, p])[0].text;
    NormalizedProper(p.bbox);
    assert !Apart([p, q][0], [p, q][1]);
  }

  // ---------- what closeness is, in the values as received ----------

  lemma QuotientAtLeast(x: real, d: real, t: real)
    requires d > 0.0
    ensures x / d >= t <==> x >= t * d
  {
    assert x == (x / d) * d;
    if x / d >= t { assert (x / d - t) * d >= 0.0; } else { assert (t - x / d) * d > 0.0; }
  }

  lemma GreatestOfThree(t: real, x: real, a: real, b: real, c: real)
    requires t > 0.0
    ensures x >= t * Max(Max(c, a), Max(c, b)) <==> x >= t * a && x >= t * b && x >= t * c
  {
    var m := Max(Max(c, a), Max(c, b));
    MulMono(a, m, t);
    MulMono(b, m, t);
    MulMono(c, m, t);
  }

  lemma ScoreMeans(a: Rect, b: Rect)
    ensures Score(a, b) >= THRESHOLD <==>
      Overlaps(a, b) && OverlapArea(a, b) >= 0.55 * Area(a) && OverlapArea(a, b) >= 0.55 * Area(b)
      && OverlapArea(a, b) >= 0.55 * 0.000001
  {
    if Overlaps(a, b) {
      QuotientAtLeast(OverlapArea(a, b), Max(Max(TINY, Area(a)), Max(TINY, Area(b))), 0.55);
      GreatestOfThree(0.55, OverlapArea(a, b), Area(a), Area(b), TINY);
    }
  }

  /** The page a block counts for: 1 unless it has a positive page. */
  lemma PageMeans(b: Block)
    ensures b.page.Some? && b.page.value > 0 ==> NormalizePage(b.page) == b.page.value
    ensures b.page.None? || b.page.value <= 0 ==> NormalizePage(b.page) == 1
  {
  }

  /** What is shared is at least 55% of either box, and of a millionth. */
  predicate SharesMost(a: Rect, b: Rect) {
    var left, right := if a.x1 >= b.x1 then a.x1 else b.x1, if a.x2 <= b.x2 then a.x2 else b.x2;
    var top, bottom := if a.y1 >= b.y1 then a.y1 else b.y1, if a.y2 <= b.y2 then a.y2 else b.y2;
    var shared := Times(right - left, bottom - top);
    && left < right && top < bottom
    && shared >= 0.55 * Times(a.x2 - a.x1, a.y2 - a.y1) && shared >= 0.55 * Times(b.x2 - b.x1, b.y2 - b.y1)
    && shared >= 0.55 * 0.000001
  }

  lemma SharesMostExactly(a: Rect, b: Rect)
    ensures Score(a, b) >= THRESHOLD <==> SharesMost(a, b)
  {
    ScoreMeans(a, b);
  }

  /** Main result: blocks are close exactly if both have four coordinates, stand on one page, an absent or non-positive
      page counting as 1, and share at least 55% of the greater box. */
  lemma CloseMeans(o: Block, p: Block)
    ensures Close(o, p) <==>
      && (if o.page.Some? && o.page.value > 0 then o.page.value else 1) ==
           (if p.page.Some? && p.page.value > 0 then p.page.value else 1)
      && o.bbox.Some? && |o.bbox.value| == 4 && p.bbox.Some? && |p.bbox.value| == 4
      && SharesMost(Cornered(o.bbox.value), Cornered(p.bbox.value))
  {
    PageMeans(o);
    PageMeans(p);
    if o.bbox.Some? && |o.bbox.value| == 4 { CorneredMeans(o.bbox); }
    if p.bbox.Some? && |p.bbox.value| == 4 { CorneredMeans(p.bbox); }
    if NormalizeBBox(o.bbox).Some? && NormalizeBBox(p.bbox).Some? {
      SharesMostExactly(NormalizeBBox(o.bbox).value, NormalizeBBox(p.bbox).value);
    }
  }

  /** The rectangle between two corners, whichever they are. */
  function Cornered(c: seq<real>): Rect
    requires |c| == 4
  {
    Rect(if c[0] <= c[2] then c[0] else c[2], if c[1] <= c[3] then c[1] else c[3],
         if c[0] <= c[2] then c[2] else c[0], if c[1] <= c[3] then c[3] else c[1])
  }

  lemma CorneredMeans(value: Option<seq<real>>)
    requires value.Some? && |value.value| == 4
    ensures var r := Cornered(value.value);
      if r.x1 < r.x2 && r.y1 < r.y2 then NormalizeBBox(value) == Some(r) else NormalizeBBox(value) == None
  {
  }

  lemma SharesItself(r: Rect)
    requires Times(r.x2 - r.x1, r.y2 - r.y1) >= 0.000001 && Proper(r)
    ensures SharesMost(r, r)
  {
  }

  /** Main result: without overlaps, two blocks with the same page and the same box are matched, if the box is not tiny
      and the PDF text is not blank. */
  lemma SamePlaceMatched(ocr: seq<Block>, pdf: seq<Block>, i: nat, j: nat)
    requires Separate(ocr) && Separate(pdf) && i < |ocr| && j < |pdf|
    requires ocr[i].page == pdf[j].page && ocr[i].bbox == pdf[j].bbox && ocr[i].bbox.Some? && |ocr[i].bbox.value| == 4
    requires var c := ocr[i].bbox.value; Times(c[2] - c[0], c[3] - c[1]) >= 0.000001 && c[0] < c[2] && c[1] < c[3]
    requires pdf[j].text.Some? && !Blank(pdf[j].text.value, PY_SPACE)
    ensures Matches(ocr, pdf)[i] == Some(j)
    ensures Reconciled(ocr, pdf)[i] == ocr[i].(text := Some(Trim(pdf[j].text.value, PY_SPACE)))
  {
    SharesItself(Cornered(ocr[i].bbox.value));
    CloseMeans(ocr[i], pdf[j]);
    MatchesAreClose(ocr, pdf, i, j);
    var _, _ := TrimShape(pdf[j].text.value, PY_SPACE);
  }

  /** Main result: on every input, where a text changes it becomes the trimmed text, not blank, of a PDF block that is
      close. */
  lemma ChangedText(ocr: seq<Block>, pdf: seq<Block>, k: nat)
    requires k < |ocr| && Reconciled(ocr, pdf)[k] != ocr[k]
    ensures exists j ::
              && 0 <= j < |pdf| && Matches(ocr, pdf)[k] == Some(j) && Close(ocr[k], pdf[j])
              && pdf[j].text.Some? && !Blank(pdf[j].text.value, PY_SPACE)
              && Reconciled(ocr, pdf)[k].text == Some(Trim(pdf[j].text.value, PY_SPACE))
  {
    MatchesSafe(ocr, pdf, k);
    var j := Matches(ocr, pdf)[k].value;
    var _, _ := TrimShape(pdf[j].text.value, PY_SPACE);
    assert Reconciled(ocr, pdf)[k].text == Some(Trim(pdf[j].text.value, PY_SPACE));
  }
}
