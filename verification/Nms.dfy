/** Non-maximum suppression (CoreMLHelpers/NonMaxSuppression.swift), over exact numbers. */
module Nms {

  /** A rectangle by its edges; sizes are never negative. */
  datatype Rect = Rect(minX: real, minY: real, maxX: real, maxY: real)
  {
    predicate Valid() { minX <= maxX && minY <= maxY }
    function Area(): real { (maxX - minX) * (maxY - minY) }
  }

  datatype BoundingBox = BoundingBox(classIndex: int, score: real, rect: Rect)

  function Max(a: real, b: real): real { if a < b then b else a }

  function Min(a: real, b: real): real { if a < b then a else b }

  function Intersection(a: Rect, b: Rect): real
  {
    Max(Min(a.maxY, b.maxY) - Max(a.minY, b.minY), 0.0) * Max(Min(a.maxX, b.maxX) - Max(a.minX, b.minX), 0.0)
  }

  lemma Shrink(a: real, b: real, c: real, d: real)
    requires 0.0 <= a <= c && 0.0 <= b <= d
    ensures 0.0 <= a * b <= c * d
  {
    assert a * b <= c * b;
    assert c * b <= c * d;
  }

  lemma IntersectionFits(a: Rect, b: Rect)
    requires a.Valid() && b.Valid()
    ensures 0.0 <= Intersection(a, b) <= a.Area() && Intersection(a, b) <= b.Area()
  {
    var h := Max(Min(a.maxY, b.maxY) - Max(a.minY, b.minY), 0.0);
    var w := Max(Min(a.maxX, b.maxX) - Max(a.minX, b.minX), 0.0);
    Shrink(w, h, a.maxX - a.minX, a.maxY - a.minY);
    Shrink(w, h, b.maxX - b.minX, b.maxY - b.minY);
    assert h * w == w * h;
  }

  function Iou(a: Rect, b: Rect): real
    requires a.Valid() && b.Valid()
  {
    if a.Area() <= 0.0 || b.Area() <= 0.0 then 0.0
    else
      IntersectionFits(a, b);
      Intersection(a, b) / (a.Area() + b.Area() - Intersection(a, b))
  }

  lemma IntersectionSymmetric(a: Rect, b: Rect)
    ensures Intersection(a, b) == Intersection(b, a)
  {
    assert Min(a.maxY, b.maxY) == Min(b.maxY, a.maxY) && Max(a.minY, b.minY) == Max(b.minY, a.minY);
    assert Min(a.maxX, b.maxX) == Min(b.maxX, a.maxX) && Max(a.minX, b.minX) == Max(b.minX, a.minX);
  }

  lemma Ratio(i: real, u: real)
    requires 0.0 <= i <= u && u > 0.0
    ensures 0.0 <= i / u <= 1.0
  {
  }

  lemma SelfIntersection(a: Rect)
    requires a.Valid()
    ensures Intersection(a, a) == a.Area()
  {
    var h, w := a.maxY - a.minY, a.maxX - a.minX;
    assert Max(h, 0.0) == h && Max(w, 0.0) == w;
    assert h * w == w * h;
  }

  /** The overlap is a share between nothing and all, it does not depend on the order, and it is all for
      a rectangle and itself. */
  lemma IouIsShare(a: Rect, b: Rect)
    requires a.Valid() && b.Valid()
    ensures 0.0 <= Iou(a, b) <= 1.0 && Iou(a, b) == Iou(b, a)
    ensures a.Area() > 0.0 ==> Iou(a, a) == 1.0
  {
    hide Intersection, Rect.Area;
    IntersectionFits(a, b);
    IntersectionSymmetric(a, b);
    SelfIntersection(a);
    if a.Area() > 0.0 && b.Area() > 0.0 {
      Ratio(Intersection(a, b), a.Area() + b.Area() - Intersection(a, b));
    }
  }

  // ----- The overlap by counting -------------------------------------------------------

  /** A rectangle with whole edges, and the unit squares in it. */
  datatype Grid = Grid(x0: int, y0: int, x1: int, y1: int)
  {
    predicate Valid() { x0 <= x1 && y0 <= y1 }
    function AsRect(): Rect { Rect(x0 as real, y0 as real, x1 as real, y1 as real) }
    function Cells(): set<(int, int)> { set x: int, y: int | x0 <= x < x1 && y0 <= y < y1 :: (x, y) }
  }

  function Row(lo: int, hi: int, y: int): set<(int, int)>
  {
    set x: int | lo <= x < hi :: (x, y)
  }

  lemma {:induction false} RowLength(lo: int, hi: int, y: int)
    requires lo <= hi
    ensures |Row(lo, hi, y)| == hi - lo
    decreases hi - lo
  {
    if lo == hi {
      assert Row(lo, hi, y) == {};
    } else {
      RowLength(lo, hi - 1, y);
      assert Row(lo, hi, y) == Row(lo, hi - 1, y) + {(hi - 1, y)};
    }
  }

  lemma TopRow(g: Grid)
    requires g.x0 <= g.x1 && g.y0 < g.y1
    ensures var lower, row := g.(y1 := g.y1 - 1), Row(g.x0, g.x1, g.y1 - 1);
            g.Cells() == lower.Cells() + row && lower.Cells() !! row
  {
  }

  lemma OneRowMore(w: int, h: int)
    ensures w * h == w * (h - 1) + w
  {
  }

  lemma {:induction false} CellCount(g: Grid)
    requires g.Valid()
    ensures |g.Cells()| == (g.x1 - g.x0) * (g.y1 - g.y0)
    decreases g.y1 - g.y0
  {
    if g.y0 == g.y1 {
      assert g.Cells() == {};
    } else {
      hide Grid.Cells, Row;
      var y := g.y1 - 1;
      var lower := g.(y1 := y);
      CellCount(lower);
      RowLength(g.x0, g.x1, y);
      TopRow(g);
      OneRowMore(g.x1 - g.x0, g.y1 - g.y0);
    }
  }

  /** What the two have in common, nothing when they lie apart. */
  function Common(a: Grid, b: Grid): (g: Grid)
    ensures g.Valid() && g.Cells() == a.Cells() * b.Cells()
  {
    var x0, x1 := if a.x0 < b.x0 then b.x0 else a.x0, if a.x1 < b.x1 then a.x1 else b.x1;
    var y0, y1 := if a.y0 < b.y0 then b.y0 else a.y0, if a.y1 < b.y1 then a.y1 else b.y1;
    if x0 < x1 && y0 < y1 then Grid(x0, y0, x1, y1) else Grid(0, 0, 0, 0)
  }

  lemma ProductAsReal(w: int, h: int)
    ensures (w * h) as real == w as real * h as real
  {
  }

  lemma AreaIsCount(g: Grid)
    requires g.Valid()
    ensures g.AsRect().Area() == |g.Cells()| as real
  {
    CellCount(g);
    ProductAsReal(g.x1 - g.x0, g.y1 - g.y0);
  }

  lemma IntersectionIsCount(a: Grid, b: Grid)
    requires a.Valid() && b.Valid()
    ensures Intersection(a.AsRect(), b.AsRect()) == |a.Cells() * b.Cells()| as real
  {
    hide Grid.Cells;
    var g := Common(a, b);
    CellCount(g);
    ProductAsReal(g.x1 - g.x0, g.y1 - g.y0);
    var w, h := g.x1 - g.x0, g.y1 - g.y0;
    assert (w as real) * (h as real) == (h as real) * (w as real);
  }

  /** On a grid the overlap is the number of squares both have over the number of squares either has. */
  lemma IouByCounting(a: Grid, b: Grid)
    requires a.Valid() && b.Valid() && a.Cells() != {} && b.Cells() != {}
    ensures a.AsRect().Valid() && b.AsRect().Valid() && a.Cells() + b.Cells() != {}
    ensures Iou(a.AsRect(), b.AsRect()) == |a.Cells() * b.Cells()| as real / |a.Cells() + b.Cells()| as real
  {
    hide Grid.Cells, Intersection, Rect.Area;
    AreaIsCount(a);
    AreaIsCount(b);
    IntersectionIsCount(a, b);
    assert |a.Cells() + b.Cells()| == |a.Cells()| + |b.Cells()| - |a.Cells() * b.Cells()|;
    assert |a.Cells()| > 0 && |b.Cells()| > 0;
  }

  // ----- One class ---------------------------------------------------------------------

  ghost predicate BoxesOk(boxes: seq<BoundingBox>)
  {
    forall i :: 0 <= i < |boxes| ==> boxes[i].rect.Valid()
  }

  ghost predicate Indexes(boxes: seq<BoundingBox>, s: seq<nat>)
  {
    forall i :: 0 <= i < |s| ==> s[i] < |boxes|
  }

  ghost predicate Distinct(s: seq<nat>)
  {
    forall i, j :: 0 <= i < j < |s| ==> s[i] != s[j]
  }

  ghost predicate ByScore(boxes: seq<BoundingBox>, s: seq<nat>)
    requires Indexes(boxes, s)
  {
    forall i, j :: 0 <= i < j < |s| ==> boxes[s[i]].score >= boxes[s[j]].score
  }

  predicate Overlap(boxes: seq<BoundingBox>, a: nat, b: nat, threshold: real)
    requires a < |boxes| && b < |boxes| && boxes[a].rect.Valid() && boxes[b].rect.Valid()
  {
    Iou(boxes[a].rect, boxes[b].rect) > threshold
  }

  lemma NoneByScore(boxes: seq<BoundingBox>)
    ensures ByScore(boxes, [])
  {
  }

  lemma OneMore(s: seq<nat>, i: nat)
    requires i < |s|
    ensures multiset(s[..i + 1]) == multiset(s[..i]) + multiset([s[i]])
  {
    assert s[..i + 1] == s[..i] + [s[i]];
  }

  /** Any sort by decreasing score; this one inserts. */
  method SortByScore(boxes: seq<BoundingBox>, s: seq<nat>) returns (r: seq<nat>)
    requires Indexes(boxes, s)
    ensures Indexes(boxes, r) && ByScore(boxes, r) && multiset(r) == multiset(s) && |r| == |s|
  {
    hide ByScore, InsertAt;
    r := [];
    assert ByScore(boxes, r) by { NoneByScore(boxes); }
    for i := 0 to |s|
      invariant |r| == i && Indexes(boxes, r) && ByScore(boxes, r) && multiset(r) == multiset(s[..i])
    {
      var p := 0;
      while p < |r| && boxes[r[p]].score >= boxes[s[i]].score
        invariant 0 <= p <= |r| && forall j :: 0 <= j < p ==> boxes[r[j]].score >= boxes[s[i]].score
      {
        p := p + 1;
      }
      Inserted(boxes, r, p, s[i]);
      OneMore(s, i);
      r := InsertAt(r, p, s[i]);
    }
    assert s[..|s|] == s;
  }

  function InsertAt(r: seq<nat>, p: nat, x: nat): (t: seq<nat>)
    requires p <= |r|
    ensures |t| == |r| + 1 && forall i :: 0 <= i < |t| ==>
            t[i] == (if i < p then r[i] else if i == p then x else r[i - 1])
    ensures multiset(t) == multiset(r) + multiset([x])
  {
    assert r == r[..p] + r[p..];
    r[..p] + [x] + r[p..]
  }

  lemma Inserted(boxes: seq<BoundingBox>, r: seq<nat>, p: nat, x: nat)
    requires Indexes(boxes, r) && ByScore(boxes, r) && x < |boxes| && p <= |r|
    requires forall j :: 0 <= j < p ==> boxes[r[j]].score >= boxes[x].score
    requires p < |r| ==> boxes[r[p]].score < boxes[x].score
    ensures Indexes(boxes, InsertAt(r, p, x)) && ByScore(boxes, InsertAt(r, p, x))
  {
    var t := InsertAt(r, p, x);
    forall j | p <= j < |r|
      ensures boxes[r[j]].score < boxes[x].score
    {
      assert j > p ==> boxes[r[p]].score >= boxes[r[j]].score;
    }
    forall i, j | 0 <= i < j < |t|
      ensures boxes[t[i]].score >= boxes[t[j]].score
    {
      var i', j' := if i < p then i else i - 1, if j < p then j else j - 1;
      assert i != p && j != p ==> boxes[r[i']].score >= boxes[r[j']].score;
    }
  }

  /** Every candidate is selected, or overlaps a selected box of no lower score too much, or came after
      the cap was reached. */
  ghost predicate Accounted(boxes: seq<BoundingBox>, candidate: nat, selected: seq<nat>, threshold: real, maxBoxes: int)
    requires BoxesOk(boxes) && candidate < |boxes| && Indexes(boxes, selected)
  {
    || candidate in selected
    || (exists k :: 0 <= k < |selected| && Overlap(boxes, candidate, selected[k], threshold)
                    && boxes[selected[k]].score >= boxes[candidate].score)
    || (|selected| >= maxBoxes && forall k :: 0 <= k < |selected| ==>
      boxes[selected[k]].score >= boxes[candidate].score)
  }

  ghost predicate Separated(boxes: seq<BoundingBox>, selected: seq<nat>, threshold: real)
    requires BoxesOk(boxes) && Indexes(boxes, selected)
  {
    forall i, j :: 0 <= i < j < |selected| ==> !Overlap(boxes, selected[j], selected[i], threshold)
  }

  method NonMaxSuppression(boxes: seq<BoundingBox>, indices: seq<nat>, threshold: real, maxBoxes: int)
    returns (selected: seq<nat>)
    requires BoxesOk(boxes) && Indexes(boxes, indices) && Distinct(indices)
    ensures Indexes(boxes, selected) && ByScore(boxes, selected) && Distinct(selected)
    ensures (forall k :: 0 <= k < |selected| ==> selected[k] in indices)
            && |selected| <= (if maxBoxes < 0 then 0 else maxBoxes)
    ensures Separated(boxes, selected, threshold)
    ensures forall i, j :: 0 <= i < |selected| && 0 <= j < |selected| && i != j ==>
              Iou(boxes[selected[i]].rect, boxes[selected[j]].rect) <= threshold
    ensures forall c :: 0 <= c < |indices| ==> Accounted(boxes, indices[c], selected, threshold, maxBoxes)
  {
    hide ByScore, Distinct, Separated, Accounted, Overlap, BoxesOk;
    var sorted := SortByScore(boxes, indices);
    SameElements(indices, sorted);
    selected := [];
    NothingSelected(boxes, threshold);
    var i := 0;
    while i < |sorted| && |selected| < maxBoxes
      invariant 0 <= i <= |sorted| && Indexes(boxes, selected) && |selected| <= (if maxBoxes < 0 then 0 else maxBoxes)
      invariant ByScore(boxes, selected) && Distinct(selected) && Separated(boxes, selected, threshold)
      invariant forall k :: 0 <= k < |selected| ==> selected[k] in sorted[..i]
      invariant forall c :: 0 <= c < i ==> Accounted(boxes, sorted[c], selected, threshold, maxBoxes)
    {
      var a := sorted[i];
      HigherBefore(boxes, sorted, selected, i);
      var shouldSelect := Selectable(boxes, a, selected, threshold);
      if shouldSelect {
        Selected(boxes, sorted, i, selected, threshold, maxBoxes);
        selected := selected + [a];
      } else {
        assert Accounted(boxes, a, selected, threshold,
          maxBoxes) by { Rejected(boxes, a, selected, threshold, maxBoxes); }
      }
      i := i + 1;
    }
    forall c | i <= c < |sorted|
      ensures Accounted(boxes, sorted[c], selected, threshold, maxBoxes)
    {
      CappedOut(boxes, sorted, i, c, selected, threshold, maxBoxes);
    }
    forall c | 0 <= c < |indices|
      ensures Accounted(boxes, indices[c], selected, threshold, maxBoxes)
    {
      assert indices[c] in sorted;
    }
    assert forall k :: 0 <= k < |selected| ==> selected[k] in sorted;
    ApartIs(boxes, selected, threshold);
  }

  lemma ApartIs(boxes: seq<BoundingBox>, selected: seq<nat>, threshold: real)
    requires BoxesOk(boxes) && Indexes(boxes, selected) && Separated(boxes, selected, threshold)
    ensures forall i, j :: 0 <= i < |selected| && 0 <= j < |selected| && i != j ==>
              Iou(boxes[selected[i]].rect, boxes[selected[j]].rect) <= threshold
  {
    hide Iou;
    forall i, j | 0 <= i < |selected| && 0 <= j < |selected| && i != j
      ensures Iou(boxes[selected[i]].rect, boxes[selected[j]].rect) <= threshold
    {
      IouIsShare(boxes[selected[i]].rect, boxes[selected[j]].rect);
      var first, second := if i < j then i else j, if i < j then j else i;
      assert !Overlap(boxes, selected[second], selected[first], threshold);
    }
  }

  /** The inner loop: whether a box may join those selected. */
  method Selectable(boxes: seq<BoundingBox>, a: nat, selected: seq<nat>, threshold: real) returns (shouldSelect: bool)
    requires BoxesOk(boxes) && a < |boxes| && Indexes(boxes, selected)
    ensures shouldSelect <==> forall k :: 0 <= k < |selected| ==> !Overlap(boxes, a, selected[k], threshold)
  {
    hide Overlap, Iou;
    shouldSelect := true;
    for j := 0 to |selected|
      invariant shouldSelect ==> forall k :: 0 <= k < j ==> !Overlap(boxes, a, selected[k], threshold)
    {
      if Overlap(boxes, a, selected[j], threshold) {
        return false;
      }
    }
  }

  lemma NothingSelected(boxes: seq<BoundingBox>, threshold: real)
    requires BoxesOk(boxes)
    ensures Indexes(boxes, []) && ByScore(boxes, []) && Distinct([]) && Separated(boxes, [], threshold)
  {
  }

  /** What selecting the next box in order keeps. */
  lemma Selected(boxes: seq<BoundingBox>, sorted: seq<nat>, i: nat, selected: seq<nat>, threshold: real, maxBoxes: int)
    requires BoxesOk(boxes) && Indexes(boxes, sorted) && i < |sorted| && Distinct(sorted) && |selected| < maxBoxes
    requires Indexes(boxes, selected) && ByScore(boxes, selected) && Distinct(selected)
             && Separated(boxes, selected, threshold)
    requires forall k :: 0 <= k < |selected| ==>
             selected[k] in sorted[..i] && boxes[selected[k]].score >= boxes[sorted[i]].score
    requires forall k :: 0 <= k < |selected| ==> !Overlap(boxes, sorted[i], selected[k], threshold)
    requires forall c :: 0 <= c < i ==> Accounted(boxes, sorted[c], selected, threshold, maxBoxes)
    ensures var after := selected + [sorted[i]];
            && Indexes(boxes, after) && ByScore(boxes, after) && Distinct(after) && Separated(boxes, after, threshold)
            && (forall k :: 0 <= k < |after| ==> after[k] in sorted[..i + 1])
            && (forall c :: 0 <= c < i + 1 ==> Accounted(boxes, sorted[c], after, threshold, maxBoxes))
  {
    hide Overlap, Iou, Accounted;
    var a, after := sorted[i], selected + [sorted[i]];
    forall c | 0 <= c < i
      ensures Accounted(boxes, sorted[c], after, threshold, maxBoxes)
    {
      StillAccounted(boxes, sorted[c], selected, a, threshold, maxBoxes);
    }
    assert a in after;
    InSelected(boxes, a, after, threshold, maxBoxes);
    forall k | 0 <= k < |selected|
      ensures after[k] in sorted[..i + 1] && after[k] != a
    {
      var j :| 0 <= j < i && sorted[..i][j] == selected[k];
      assert sorted[..i + 1][j] == selected[k];
    }
    assert sorted[..i + 1][i] == a;
  }

  lemma InSelected(boxes: seq<BoundingBox>, candidate: nat, selected: seq<nat>, threshold: real, maxBoxes: int)
    requires BoxesOk(boxes) && candidate < |boxes| && Indexes(boxes, selected) && candidate in selected
    ensures Accounted(boxes, candidate, selected, threshold, maxBoxes)
  {
  }

  lemma Rejected(boxes: seq<BoundingBox>, a: nat, selected: seq<nat>, threshold: real, maxBoxes: int)
    requires BoxesOk(boxes) && a < |boxes| && Indexes(boxes, selected)
    requires forall k :: 0 <= k < |selected| ==> boxes[selected[k]].score >= boxes[a].score
    requires exists k :: 0 <= k < |selected| && Overlap(boxes, a, selected[k], threshold)
    ensures Accounted(boxes, a, selected, threshold, maxBoxes)
  {
    hide Overlap;
  }

  lemma CappedOut(boxes: seq<BoundingBox>, sorted: seq<nat>, i: nat, c: nat, selected: seq<nat>, threshold: real,
      maxBoxes: int)
    requires BoxesOk(boxes) && Indexes(boxes, sorted) && ByScore(boxes, sorted) && Indexes(boxes, selected)
             && i <= c < |sorted|
    requires |selected| >= maxBoxes && forall k :: 0 <= k < |selected| ==> selected[k] in sorted[..i]
    ensures Accounted(boxes, sorted[c], selected, threshold, maxBoxes)
  {
    hide Overlap;
    HigherBefore(boxes, sorted, selected, i);
    assert i < c ==> boxes[sorted[i]].score >= boxes[sorted[c]].score;
  }

  lemma SameElements(s: seq<nat>, r: seq<nat>)
    requires multiset(r) == multiset(s) && Distinct(s)
    ensures Distinct(r) && forall x :: x in s <==> x in r
  {
    forall x
      ensures x in s <==> x in r
    {
      assert x in s <==> x in multiset(s);
      assert x in r <==> x in multiset(r);
    }
    OnceEach(s);
    forall i, j | 0 <= i < j < |r|
      ensures r[i] != r[j]
    {
      if r[i] == r[j] {
        Twice(r, i, j);
      }
    }
  }

  lemma {:induction false} OnceEach(s: seq<nat>)
    requires Distinct(s)
    ensures forall x :: multiset(s)[x] <= 1
  {
    if s != [] {
      OnceEach(s[1..]);
      assert s == [s[0]] + s[1..];
      assert s[0] !in s[1..];
    }
  }

  lemma Twice(r: seq<nat>, i: nat, j: nat)
    requires i < j < |r| && r[i] == r[j]
    ensures multiset(r)[r[i]] >= 2
  {
    assert r == r[..i] + [r[i]] + r[i + 1..j] + [r[j]] + r[j + 1..];
  }

  lemma HigherBefore(boxes: seq<BoundingBox>, sorted: seq<nat>, selected: seq<nat>, c: nat)
    requires Indexes(boxes, sorted) && ByScore(boxes, sorted) && Indexes(boxes, selected) && c < |sorted|
    requires forall k :: 0 <= k < |selected| ==> selected[k] in sorted[..c]
    ensures forall k :: 0 <= k < |selected| ==> boxes[selected[k]].score >= boxes[sorted[c]].score
  {
    forall k | 0 <= k < |selected|
      ensures boxes[selected[k]].score >= boxes[sorted[c]].score
    {
      var j :| 0 <= j < c && sorted[..c][j] == selected[k];
    }
  }

  lemma StillAccounted(boxes: seq<BoundingBox>, candidate: nat, selected: seq<nat>, a: nat, threshold: real,
      maxBoxes: int)
    requires BoxesOk(boxes) && candidate < |boxes| && Indexes(boxes, selected) && a < |boxes| && |selected| < maxBoxes
    requires Accounted(boxes, candidate, selected, threshold, maxBoxes)
    ensures Accounted(boxes, candidate, selected + [a], threshold, maxBoxes)
  {
    if candidate in selected {
      assert candidate in selected + [a];
    } else {
      var k :| 0 <= k < |selected| && Overlap(boxes, candidate, selected[k], threshold)
        && boxes[selected[k]].score >= boxes[candidate].score;
      assert (selected + [a])[k] == selected[k];
    }
  }

  // ----- All classes -------------------------------------------------------------------

  predicate Candidate(boxes: seq<BoundingBox>, p: nat, c: int, scoreThreshold: real)
  {
    p < |boxes| && boxes[p].classIndex == c && boxes[p].score > scoreThreshold
  }

  /** What one class contributes: separated candidates within the cap, every candidate accounted for. */
  ghost predicate ClassGroup(boxes: seq<BoundingBox>, group: seq<nat>, c: int, scoreThreshold: real,
      iouThreshold: real, maxPerClass: int)
    requires BoxesOk(boxes)
  {
    && Indexes(boxes, group) && Distinct(group) && Separated(boxes, group, iouThreshold)
    && |group| <= (if maxPerClass < 0 then 0 else maxPerClass)
    && (forall x :: x in group ==> Candidate(boxes, x, c, scoreThreshold))
    && (forall p: nat :: Candidate(boxes, p, c, scoreThreshold) ==>
      Accounted(boxes, p, group, iouThreshold, maxPerClass))
  }

  ghost function OfClass(boxes: seq<BoundingBox>, s: seq<nat>, c: int): set<nat>
    requires Indexes(boxes, s)
  {
    set x | x in s && boxes[x].classIndex == c
  }

  /** Boxes of the same class never overlap too much, and no class exceeds its cap. */
  ghost predicate ClassesKept(boxes: seq<BoundingBox>, s: seq<nat>, iouThreshold: real, maxPerClass: int)
    requires BoxesOk(boxes) && Indexes(boxes, s)
  {
    && (forall i, j :: 0 <= i < j < |s| && boxes[s[i]].classIndex == boxes[s[j]].classIndex
                       ==> !Overlap(boxes, s[i], s[j], iouThreshold))
    && (forall c :: |OfClass(boxes, s, c)| <= (if maxPerClass < 0 then 0 else maxPerClass))
  }

  /** No box of the selection scores below this one. */
  ghost predicate NoneBelow(boxes: seq<BoundingBox>, s: seq<nat>, x: nat)
  {
    x < |boxes| && forall y :: y in s ==> y < |boxes| && boxes[y].score >= boxes[x].score
  }

  method NonMaxSuppressionMultiClass(numClasses: nat, boxes: seq<BoundingBox>, scoreThreshold: real, iouThreshold: real,
                                     maxPerClass: int, maxTotal: nat)
    returns (result: seq<nat>, ghost groups: seq<seq<nat>>)
    requires BoxesOk(boxes)
    ensures Indexes(boxes, result) && ByScore(boxes, result) && Distinct(result) && |result| <= maxTotal
    ensures forall x :: x in result ==> 0 <= boxes[x].classIndex < numClasses && boxes[x].score > scoreThreshold
    ensures ClassesKept(boxes, result, iouThreshold, maxPerClass)
    ensures |groups| == numClasses
    ensures forall c :: 0 <= c < numClasses ==>
            ClassGroup(boxes, groups[c], c, scoreThreshold, iouThreshold, maxPerClass)
    ensures forall x :: x in result ==> x in groups[boxes[x].classIndex]
    ensures forall c, x :: 0 <= c < numClasses && x in groups[c]
                           ==> x in result || (|result| == maxTotal && NoneBelow(boxes, result, x))
  {
    hide ByScore, NoneBelow, Distinct, ClassGroup, ClassesKept, BoxesOk;
    var selectedBoxes: seq<nat> := [];
    groups := [];
    NothingSelected(boxes, iouThreshold);
    for c := 0 to numClasses
      invariant |groups| == c && Indexes(boxes, selectedBoxes) && Distinct(selectedBoxes)
      invariant forall k :: 0 <= k < c ==> ClassGroup(boxes, groups[k], k, scoreThreshold, iouThreshold, maxPerClass)
      invariant Gathered(boxes, selectedBoxes, groups)
    {
      var filteredBoxes := CandidatesOf(boxes, c, scoreThreshold);
      var nmsBoxes := NonMaxSuppression(boxes, filteredBoxes, iouThreshold, maxPerClass);
      FormsGroup(boxes, filteredBoxes, nmsBoxes, c, scoreThreshold, iouThreshold, maxPerClass);
      GatherOne(boxes, selectedBoxes, groups, nmsBoxes, scoreThreshold, iouThreshold, maxPerClass);
      selectedBoxes := selectedBoxes + nmsBoxes;
      groups := groups + [nmsBoxes];
    }
    var sortedBoxes := SortByScore(boxes, selectedBoxes);
    SameElements(selectedBoxes, sortedBoxes);
    result := if maxTotal < |sortedBoxes| then sortedBoxes[..maxTotal] else sortedBoxes;
    BestKept(boxes, sortedBoxes, result, groups, maxTotal);
    forall x | x in result
      ensures 0 <= boxes[x].classIndex < numClasses && boxes[x].score > scoreThreshold
    {
      GroupMember(boxes, groups[boxes[x].classIndex], boxes[x].classIndex, scoreThreshold, iouThreshold, maxPerClass,
        x);
    }
    KeepsClasses(boxes, result, groups, scoreThreshold, iouThreshold, maxPerClass);
  }

  /** The inner loop over the boxes of one class. */
  method CandidatesOf(boxes: seq<BoundingBox>, c: int, scoreThreshold: real) returns (filteredBoxes: seq<nat>)
    ensures Indexes(boxes, filteredBoxes) && Distinct(filteredBoxes)
    ensures forall p: nat :: p in filteredBoxes <==> Candidate(boxes, p, c, scoreThreshold)
  {
    filteredBoxes := [];
    for p := 0 to |boxes|
      invariant Indexes(boxes, filteredBoxes) && Distinct(filteredBoxes)
      invariant forall q: nat :: q in filteredBoxes <==> q < p && Candidate(boxes, q, c, scoreThreshold)
    {
      if boxes[p].classIndex == c && boxes[p].score > scoreThreshold {
        forall i | 0 <= i < |filteredBoxes|
          ensures filteredBoxes[i] != p
        {
          assert filteredBoxes[i] in filteredBoxes;
        }
        filteredBoxes := filteredBoxes + [p];
      }
    }
  }

  /** The boxes gathered so far are exactly those of the groups, each found in the group of its class. */
  ghost predicate Gathered(boxes: seq<BoundingBox>, s: seq<nat>, groups: seq<seq<nat>>)
    requires Indexes(boxes, s)
  {
    && (forall x :: x in s ==> 0 <= boxes[x].classIndex < |groups| && x in groups[boxes[x].classIndex])
    && (forall k, x :: 0 <= k < |groups| && x in groups[k] ==> x in s)
  }

  lemma FormsGroup(boxes: seq<BoundingBox>, filtered: seq<nat>, group: seq<nat>, c: int, scoreThreshold: real,
      iouThreshold: real, maxPerClass: int)
    requires BoxesOk(boxes) && Indexes(boxes, filtered) && Indexes(boxes, group) && Distinct(group)
             && Separated(boxes, group, iouThreshold)
    requires forall p: nat :: p in filtered <==> Candidate(boxes, p, c, scoreThreshold)
    requires forall k :: 0 <= k < |group| ==> group[k] in filtered
    requires |group| <= (if maxPerClass < 0 then 0 else maxPerClass)
    requires forall k :: 0 <= k < |filtered| ==> Accounted(boxes, filtered[k], group, iouThreshold, maxPerClass)
    ensures ClassGroup(boxes, group, c, scoreThreshold, iouThreshold, maxPerClass)
  {
    hide Distinct, Separated, Accounted, Candidate, BoxesOk;
    forall p: nat | Candidate(boxes, p, c, scoreThreshold)
      ensures p < |boxes| && Accounted(boxes, p, group, iouThreshold, maxPerClass)
    {
      assert p in filtered;
    }
  }

  lemma GroupMember(boxes: seq<BoundingBox>, group: seq<nat>, c: int, scoreThreshold: real, iouThreshold: real,
      maxPerClass: int, x: nat)
    requires BoxesOk(boxes) && ClassGroup(boxes, group, c, scoreThreshold, iouThreshold, maxPerClass) && x in group
    ensures Candidate(boxes, x, c, scoreThreshold)
  {
  }

  lemma GatherOne(boxes: seq<BoundingBox>, s: seq<nat>, groups: seq<seq<nat>>, group: seq<nat>,
                  scoreThreshold: real, iouThreshold: real, maxPerClass: int)
    requires BoxesOk(boxes) && Indexes(boxes, s) && Distinct(s) && Indexes(boxes, group) && Distinct(group)
    requires Gathered(boxes, s, groups) && ClassGroup(boxes, group, |groups|, scoreThreshold, iouThreshold, maxPerClass)
    ensures Indexes(boxes, s + group) && Distinct(s + group) && Gathered(boxes, s + group, groups + [group])
  {
    hide ClassGroup, BoxesOk;
    forall x | x in group
      ensures Candidate(boxes, x, |groups|, scoreThreshold)
    {
      GroupMember(boxes, group, |groups|, scoreThreshold, iouThreshold, maxPerClass, x);
    }
    forall i, j | 0 <= i < j < |s + group|
      ensures (s + group)[i] != (s + group)[j]
    {
      if i < |s| && j >= |s| {
        assert s[i] in s && group[j - |s|] in group;
      }
    }
  }

  lemma BestKept(boxes: seq<BoundingBox>, sorted: seq<nat>, result: seq<nat>, groups: seq<seq<nat>>, maxTotal: nat)
    requires Indexes(boxes, sorted) && ByScore(boxes, sorted) && Distinct(sorted) && Gathered(boxes, sorted, groups)
    requires result == if maxTotal < |sorted| then sorted[..maxTotal] else sorted
    ensures Indexes(boxes, result) && ByScore(boxes, result) && Distinct(result)
    ensures forall x :: x in result ==> 0 <= boxes[x].classIndex < |groups| && x in groups[boxes[x].classIndex]
    ensures forall c, x :: 0 <= c < |groups| && x in groups[c]
                           ==> x in result || (|result| == maxTotal && NoneBelow(boxes, result, x))
  {
    hide NoneBelow, ByScore, Distinct;
    if maxTotal < |sorted| {
      PrefixKeeps(boxes, sorted, maxTotal);
      forall x | x in sorted && x !in result
        ensures NoneBelow(boxes, result, x)
      {
        PrefixIsBest(boxes, sorted, maxTotal, x);
      }
    }
  }

  lemma PrefixKeeps(boxes: seq<BoundingBox>, sorted: seq<nat>, n: nat)
    requires Indexes(boxes, sorted) && ByScore(boxes, sorted) && Distinct(sorted) && n <= |sorted|
    ensures Indexes(boxes, sorted[..n]) && ByScore(boxes, sorted[..n]) && Distinct(sorted[..n])
    ensures forall x :: x in sorted[..n] ==> x in sorted
  {
    forall x | x in sorted[..n]
      ensures x in sorted
    {
      var j :| 0 <= j < n && sorted[..n][j] == x;
      assert sorted[j] == x;
    }
  }

  lemma PrefixIsBest(boxes: seq<BoundingBox>, sorted: seq<nat>, n: nat, x: nat)
    requires Indexes(boxes, sorted) && ByScore(boxes, sorted) && n <= |sorted| && x in sorted && x !in sorted[..n]
    ensures NoneBelow(boxes, sorted[..n], x)
  {
    hide NoneBelow, ByScore, Indexes;
    assert sorted == sorted[..n] + sorted[n..];
    var k :| 0 <= k < |sorted[n..]| && sorted[n..][k] == x;
    NoneBelowLater(boxes, sorted, n, n + k);
  }

  lemma NoneBelowLater(boxes: seq<BoundingBox>, sorted: seq<nat>, n: nat, i: nat)
    requires Indexes(boxes, sorted) && ByScore(boxes, sorted) && n <= i < |sorted|
    ensures NoneBelow(boxes, sorted[..n], sorted[i])
  {
    forall y | y in sorted[..n]
      ensures y < |boxes| && boxes[y].score >= boxes[sorted[i]].score
    {
      var j :| 0 <= j < n && sorted[..n][j] == y;
      assert boxes[sorted[j]].score >= boxes[sorted[i]].score;
    }
  }

  lemma KeepsClasses(boxes: seq<BoundingBox>, result: seq<nat>, groups: seq<seq<nat>>, scoreThreshold: real,
      iouThreshold: real, maxPerClass: int)
    requires BoxesOk(boxes) && Indexes(boxes, result) && Distinct(result)
    requires forall c :: 0 <= c < |groups| ==>
             ClassGroup(boxes, groups[c], c, scoreThreshold, iouThreshold, maxPerClass)
    requires forall x :: x in result ==> 0 <= boxes[x].classIndex < |groups| && x in groups[boxes[x].classIndex]
    ensures ClassesKept(boxes, result, iouThreshold, maxPerClass)
  {
    hide ClassGroup, Overlap, Iou;
    forall i, j | 0 <= i < j < |result| && boxes[result[i]].classIndex == boxes[result[j]].classIndex
      ensures !Overlap(boxes, result[i], result[j], iouThreshold)
    {
      var c := boxes[result[i]].classIndex;
      assert result[i] in result && result[j] in result;
      GroupSeparates(boxes, groups[c], c, scoreThreshold, iouThreshold, maxPerClass, result[i], result[j]);
    }
    forall c
      ensures |OfClass(boxes, result, c)| <= (if maxPerClass < 0 then 0 else maxPerClass)
    {
      if 0 <= c < |groups| {
        GroupLength(boxes, groups[c], c, scoreThreshold, iouThreshold, maxPerClass);
        AtMostLength(OfClass(boxes, result, c), groups[c]);
      } else {
        assert OfClass(boxes, result, c) == {};
      }
    }
  }

  lemma GroupLength(boxes: seq<BoundingBox>, group: seq<nat>, c: int, scoreThreshold: real, iouThreshold: real,
      maxPerClass: int)
    requires BoxesOk(boxes) && ClassGroup(boxes, group, c, scoreThreshold, iouThreshold, maxPerClass)
    ensures |group| <= (if maxPerClass < 0 then 0 else maxPerClass)
  {
  }

  lemma GroupSeparates(boxes: seq<BoundingBox>, group: seq<nat>, c: int, scoreThreshold: real, iouThreshold: real,
      maxPerClass: int, x: nat, y: nat)
    requires BoxesOk(boxes) && ClassGroup(boxes, group, c, scoreThreshold, iouThreshold, maxPerClass)
    requires x in group && y in group && x != y
    ensures x < |boxes| && y < |boxes| && !Overlap(boxes, x, y, iouThreshold)
  {
    hide Iou, Accounted;
    var i :| 0 <= i < |group| && group[i] == x;
    var j :| 0 <= j < |group| && group[j] == y;
    IouIsShare(boxes[x].rect, boxes[y].rect);
    assert !Overlap(boxes, group[if i < j then j else i], group[if i < j then i else j], iouThreshold);
  }

  lemma {:induction false} AtMostLength(members: set<nat>, s: seq<nat>)
    requires forall x :: x in members ==> x in s
    ensures |members| <= |s|
  {
    if s == [] {
      assert members == {};
    } else {
      var x := s[|s| - 1];
      AtMostLength(members - {x}, s[..|s| - 1]);
      assert members <= (members - {x}) + {x};
      assert |members| <= |members - {x}| + 1;
    }
  }
}
