// Greedy non-maximum suppression of detected boxes (Gallery/Helpers.swift),
// over real numbers.
module NonMaxSuppression {

  // An origin and a size that may be negative, as in CGRect.
  datatype Rect = Rect(x: real, y: real, w: real, h: real)
  {
    function Width(): real { if w < 0.0 then -w else w }

    function Height(): real { if h < 0.0 then -h else h }

    function MinX(): real { Least(x, x + w) }

    function MaxX(): real { Most(x, x + w) }

    function MinY(): real { Least(y, y + h) }

    function MaxY(): real { Most(y, y + h) }
  }

  datatype Prediction = Prediction(score: real, rect: Rect)

  function Least(a: real, b: real): real { if a <= b then a else b }

  function Most(a: real, b: real): real { if a >= b then a else b }

  // Intersection over union.
  function Iou(a: Rect, b: Rect): real
  {
    var areaA := a.Width() * a.Height();
    if areaA <= 0.0 then 0.0
    else
      var areaB := b.Width() * b.Height();
      if areaB <= 0.0 then 0.0
      else
        var common := Intersection(a, b);
        UnionIsPositive(a, b);
        common / (areaA + areaB - common)
  }

  // How far two intervals overlap.
  function Common(minA: real, maxA: real, minB: real, maxB: real): real
  {
    Most(Least(maxA, maxB) - Most(minA, minB), 0.0)
  }

  function Intersection(a: Rect, b: Rect): real
  {
    Common(a.MinY(), a.MaxY(), b.MinY(), b.MaxY()) * Common(a.MinX(), a.MaxX(), b.MinX(), b.MaxX())
  }

  lemma CommonFits(minA: real, maxA: real, minB: real, maxB: real)
    requires minA <= maxA && minB <= maxB
    ensures Common(minA, maxA, minB, maxB) == Common(minB, maxB, minA, maxA)
    ensures 0.0 <= Common(minA, maxA, minB, maxB) <= maxA - minA
  {
  }

  lemma Extents(r: Rect)
    ensures r.MaxX() - r.MinX() == r.Width() >= 0.0 && r.MaxY() - r.MinY() == r.Height() >= 0.0
  {
  }

  lemma ProductMonotone(a: real, b: real, c: real, d: real)
    requires 0.0 <= a <= c && 0.0 <= b <= d
    ensures 0.0 <= a * b <= c * d && c * d == d * c
  {
    assert a * b <= a * d by { assert a * (d - b) >= 0.0; }
    assert a * d <= c * d by { assert (c - a) * d >= 0.0; }
  }

  lemma IntersectionFits(a: Rect, b: Rect)
    ensures 0.0 <= Intersection(a, b) <= a.Width() * a.Height()
    ensures Intersection(a, b) == Intersection(b, a)
  {
    Extents(a);
    Extents(b);
    hide Common, Rect.MinX, Rect.MaxX, Rect.MinY, Rect.MaxY, Rect.Width, Rect.Height;
    CommonFits(a.MinX(), a.MaxX(), b.MinX(), b.MaxX());
    CommonFits(a.MinY(), a.MaxY(), b.MinY(), b.MaxY());
    ProductMonotone(Common(a.MinY(), a.MaxY(), b.MinY(), b.MaxY()), Common(a.MinX(), a.MaxX(), b.MinX(), b.MaxX()), a.Height(), a.Width());
  }

  lemma UnionIsPositive(a: Rect, b: Rect)
    ensures 0.0 <= Intersection(a, b) <= a.Width() * a.Height()
    ensures Intersection(a, b) <= b.Width() * b.Height()
    ensures Intersection(a, b) == Intersection(b, a)
  {
    hide Intersection, Rect.Width, Rect.Height;
    IntersectionFits(a, b);
    IntersectionFits(b, a);
  }

  lemma RatioInUnit(n: real, d: real)
    requires 0.0 <= n <= d && d > 0.0
    ensures 0.0 <= n / d <= 1.0
  {
  }

  // The overlap measure is symmetric and lies between 0 and 1, whatever the
  // signs of the sizes.
  lemma IouIsAMeasure(a: Rect, b: Rect)
    ensures Iou(a, b) == Iou(b, a)
    ensures 0.0 <= Iou(a, b) <= 1.0
  {
    hide Intersection, Rect.Width, Rect.Height;
    UnionIsPositive(a, b);
    var areaA, areaB := a.Width() * a.Height(), b.Width() * b.Height();
    if areaA > 0.0 && areaB > 0.0 {
      RatioInUnit(Intersection(a, b), areaA + areaB - Intersection(a, b));
    }
  }

  predicate Covers(r: Rect, x: real, y: real)
  {
    r.MinX() <= x <= r.MaxX() && r.MinY() <= y <= r.MaxY()
  }

  function Area(r: Rect): real
  {
    (r.MaxX() - r.MinX()) * (r.MaxY() - r.MinY())
  }

  // It is the area of the common part over the area of the two together: where
  // boxes of positive area have a point in common their common points are a box
  // c, and else it is zero.
  lemma IouIsRatio(a: Rect, b: Rect) returns (c: Rect)
    requires Area(a) > 0.0 && Area(b) > 0.0
    ensures (exists x, y :: Covers(a, x, y) && Covers(b, x, y)) ==>
              && (forall x, y :: Covers(c, x, y) <==> Covers(a, x, y) && Covers(b, x, y))
              && Iou(a, b) * (Area(a) + Area(b) - Area(c)) == Area(c)
    ensures !(exists x, y :: Covers(a, x, y) && Covers(b, x, y)) ==> Iou(a, b) == 0.0
  {
    hide Rect.MinX, Rect.MaxX, Rect.MinY, Rect.MaxY, Iou, Area, Covers;
    c := CommonBox(a, b);
    CommonPoints(a, b);
    if c.w >= 0.0 && c.h >= 0.0 {
      BoxCovers(a, b);
      CommonArea(a, b);
      IouValue(a, b);
      assert Covers(c, c.x, c.y) by { CoversCorner(c); }
    } else {
      NothingInCommon(a, b);
    }
  }

  // The box between the larger of the lower and the smaller of the upper bounds;
  // of negative size when there is no common point.
  function CommonBox(a: Rect, b: Rect): Rect
  {
    var lowX, lowY := Most(a.MinX(), b.MinX()), Most(a.MinY(), b.MinY());
    Rect(lowX, lowY, Least(a.MaxX(), b.MaxX()) - lowX, Least(a.MaxY(), b.MaxY()) - lowY)
  }

  lemma CoversCorner(c: Rect)
    requires c.w >= 0.0 && c.h >= 0.0
    ensures Covers(c, c.x, c.y)
  {
  }

  lemma CommonPoints(a: Rect, b: Rect)
    ensures forall x, y :: Covers(a, x, y) && Covers(b, x, y) ==> CommonBox(a, b).w >= 0.0 && CommonBox(a, b).h >= 0.0
  {
    hide Rect.MinX, Rect.MaxX, Rect.MinY, Rect.MaxY;
  }

  lemma BoxCovers(a: Rect, b: Rect)
    requires CommonBox(a, b).w >= 0.0 && CommonBox(a, b).h >= 0.0
    ensures forall x, y :: Covers(CommonBox(a, b), x, y) <==> Covers(a, x, y) && Covers(b, x, y)
  {
    var c := CommonBox(a, b);
    assert c.MinX() == c.x && c.MaxX() == c.x + c.w && c.MinY() == c.y && c.MaxY() == c.y + c.h;
    forall x, y ensures Covers(c, x, y) <==> Covers(a, x, y) && Covers(b, x, y) {
      hide Rect.MinX, Rect.MaxX, Rect.MinY, Rect.MaxY;
      assert Covers(c, x, y) <==> c.x <= x <= c.x + c.w && c.y <= y <= c.y + c.h;
    }
  }

  lemma CommonArea(a: Rect, b: Rect)
    requires CommonBox(a, b).w >= 0.0 && CommonBox(a, b).h >= 0.0
    ensures Area(CommonBox(a, b)) == Intersection(a, b)
  {
    var c := CommonBox(a, b);
    assert c.MaxX() - c.MinX() == c.w && c.MaxY() - c.MinY() == c.h;
    CommonSides(a, b);
    hide Rect.MinX, Rect.MaxX, Rect.MinY, Rect.MaxY, Common, CommonBox;
  }

  lemma CommonSides(a: Rect, b: Rect)
    requires CommonBox(a, b).w >= 0.0 && CommonBox(a, b).h >= 0.0
    ensures Common(a.MinX(), a.MaxX(), b.MinX(), b.MaxX()) == CommonBox(a, b).w
    ensures Common(a.MinY(), a.MaxY(), b.MinY(), b.MaxY()) == CommonBox(a, b).h
  {
    hide Rect.MinX, Rect.MaxX, Rect.MinY, Rect.MaxY;
  }

  lemma AreaIsProduct(r: Rect)
    ensures Area(r) == r.Width() * r.Height()
  {
    Extents(r);
  }

  lemma IouValue(a: Rect, b: Rect)
    requires Area(a) > 0.0 && Area(b) > 0.0
    ensures Iou(a, b) * (Area(a) + Area(b) - Intersection(a, b)) == Intersection(a, b)
  {
    hide Intersection, Area, Rect.Width, Rect.Height;
    AreaIsProduct(a);
    AreaIsProduct(b);
    UnionIsPositive(a, b);
    Cancels(Intersection(a, b), Area(a) + Area(b) - Intersection(a, b));
  }

  lemma Cancels(n: real, d: real)
    requires d > 0.0
    ensures n / d * d == n && (n == 0.0 ==> n / d == 0.0) && (n == d ==> n / d == 1.0)
  {
  }

  lemma NothingInCommon(a: Rect, b: Rect)
    requires Area(a) > 0.0 && Area(b) > 0.0
    requires CommonBox(a, b).w < 0.0 || CommonBox(a, b).h < 0.0
    ensures Iou(a, b) == 0.0
  {
    hide Intersection, CommonBox, Area, Iou;
    Apart(a, b);
    IouValue(a, b);
    ZeroFactor(Iou(a, b), Area(a) + Area(b));
  }

  lemma ZeroFactor(x: real, d: real)
    requires x * d == 0.0 && d > 0.0
    ensures x == 0.0
  {
  }

  lemma Apart(a: Rect, b: Rect)
    requires CommonBox(a, b).w < 0.0 || CommonBox(a, b).h < 0.0
    ensures Intersection(a, b) == 0.0
  {
    hide Rect.MinX, Rect.MaxX, Rect.MinY, Rect.MaxY;
    var y, x := Common(a.MinY(), a.MaxY(), b.MinY(), b.MaxY()), Common(a.MinX(), a.MaxX(), b.MinX(), b.MaxX());
    assert x == 0.0 || y == 0.0;
    hide Common;
    assert y * x == 0.0;
  }

  // A box overlaps itself completely, and one without area nothing.
  lemma IouOfItself(a: Rect, b: Rect)
    ensures Area(a) > 0.0 ==> Iou(a, a) == 1.0
    ensures Area(a) == 0.0 ==> Iou(a, b) == 0.0 && Iou(b, a) == 0.0
  {
    hide Intersection, Area, Rect.Width, Rect.Height;
    AreaIsProduct(a);
    AreaIsProduct(b);
    if Area(a) > 0.0 {
      SelfIntersection(a);
      UnionIsPositive(a, a);
      Cancels(Area(a), Area(a));
    }
  }

  lemma SelfIntersection(a: Rect)
    ensures Intersection(a, a) == Area(a)
  {
    Extents(a);
    hide Rect.MinX, Rect.MaxX, Rect.MinY, Rect.MaxY, Rect.Width, Rect.Height;
    assert Common(a.MinX(), a.MaxX(), a.MinX(), a.MaxX()) == a.MaxX() - a.MinX();
    assert Common(a.MinY(), a.MaxY(), a.MinY(), a.MaxY()) == a.MaxY() - a.MinY();
  }

  // ---- the greedy choice ---------------------------------------------------------

  // A permutation of the boxes by falling score: whatever the library's sort
  // returns.
  ghost predicate ByScore(boxes: seq<Prediction>, order: seq<nat>)
  {
    && |order| == |boxes|
    && (forall k | 0 <= k < |order| :: order[k] < |boxes|)
    && (forall j, k | 0 <= j < k < |order| :: order[j] != order[k] && boxes[order[j]].score >= boxes[order[k]].score)
  }

  // In terms of positions in the sorted order.
  predicate Clashes(sorted: seq<Prediction>, threshold: real, p: nat, q: nat)
    requires p < |sorted| && q < |sorted|
  {
    Iou(sorted[p].rect, sorted[q].rect) > threshold
  }

  predicate Ascending(picks: seq<nat>, n: nat)
  {
    && (forall a, b | 0 <= a < b < |picks| :: picks[a] < picks[b])
    && (forall a | 0 <= a < |picks| :: picks[a] < n)
  }

  // q is kept out by an earlier pick.
  ghost predicate Suppressed(sorted: seq<Prediction>, threshold: real, picks: seq<nat>, q: nat)
    requires Ascending(picks, |sorted|) && q < |sorted|
  {
    exists p :: p in picks && p < q && Clashes(sorted, threshold, p, q)
  }

  // What greedy suppression promises of the first n positions: no two picks
  // clash, and whatever is not picked clashes with an earlier pick.
  ghost predicate Greedy(sorted: seq<Prediction>, threshold: real, picks: seq<nat>, n: nat)
  {
    && n <= |sorted| && Ascending(picks, n)
    && forall q | 0 <= q < n :: q in picks <==> !Suppressed(sorted, threshold, picks, q)
  }

  // Picking stops at the limit; without reaching it, every box is settled.
  ghost predicate GreedyUpTo(sorted: seq<Prediction>, threshold: real, picks: seq<nat>, limit: int)
  {
    exists n: nat :: Greedy(sorted, threshold, picks, n) &&
      (n == |sorted| || (picks != [] && |picks| >= limit && picks[|picks| - 1] == n - 1)) &&
      (picks == [] || |picks| - 1 < limit || |picks| == 1)
  }

  // At most `limit` boxes, but at least one if there is any.
  lemma LimitHolds(sorted: seq<Prediction>, threshold: real, picks: seq<nat>, limit: int)
    requires GreedyUpTo(sorted, threshold, picks, limit)
    ensures limit >= 1 ==> |picks| <= limit
    ensures sorted != [] ==> |picks| >= 1
    ensures limit < 1 && sorted != [] ==> picks == [0]
    ensures |picks| < limit ==> Greedy(sorted, threshold, picks, |sorted|)
  {
    var n: nat :| Greedy(sorted, threshold, picks, n) &&
      (n == |sorted| || (picks != [] && |picks| >= limit && picks[|picks| - 1] == n - 1)) &&
      (picks == [] || |picks| - 1 < limit || |picks| == 1);
    if sorted != [] {
      assert n > 0;
      assert !Suppressed(sorted, threshold, picks, 0);
      assert 0 in picks;
    }
  }

  // Two choices agree as far as both go.
  lemma {:induction false} SameSoFar(sorted: seq<Prediction>, threshold: real, a: seq<nat>, m: nat, b: seq<nat>, n: nat, q: nat)
    requires Greedy(sorted, threshold, a, m) && Greedy(sorted, threshold, b, n) && q < m && q < n
    ensures q in a <==> q in b
    decreases q
  {
    forall p | 0 <= p < q ensures p in a <==> p in b {
      SameSoFar(sorted, threshold, a, m, b, n, p);
    }
    assert Suppressed(sorted, threshold, a, q) <==> Suppressed(sorted, threshold, b, q);
  }

  // The i-th pick is found at the same place.
  lemma {:induction false} SamePick(a: seq<nat>, m: nat, b: seq<nat>, n: nat, i: nat)
    requires Ascending(a, m) && Ascending(b, n) && i < |a|
    requires forall q | 0 <= q < m :: q in a <==> q in b
    ensures i < |b| && a[i] == b[i]
    decreases i
  {
    forall j | 0 <= j < i ensures j < |b| && a[j] == b[j] {
      SamePick(a, m, b, n, j);
    }
    assert a[i] in a;
    var j :| 0 <= j < |b| && b[j] == a[i];
    assert j >= i;
    assert b[i] in b && b[i] <= a[i];
    var k :| 0 <= k < |a| && a[k] == b[i];
  }

  lemma SamePrefix(a: seq<nat>, m: nat, b: seq<nat>, n: nat)
    requires Ascending(a, m) && Ascending(b, n) && forall q | 0 <= q < m :: q in a <==> q in b
    ensures a <= b
  {
    hide Ascending;
    forall i | 0 <= i < |a| ensures i < |b| && a[i] == b[i] {
      SamePick(a, m, b, n, i);
    }
    if a != [] { SamePick(a, m, b, n, |a| - 1); }
  }

  lemma GreedyPrefix(sorted: seq<Prediction>, threshold: real, a: seq<nat>, m: nat, b: seq<nat>, n: nat)
    requires Greedy(sorted, threshold, a, m) && Greedy(sorted, threshold, b, n) && m <= n
    ensures a <= b && (m == n ==> a == b)
  {
    hide Suppressed;
    forall q | 0 <= q < m ensures q in a <==> q in b {
      SameSoFar(sorted, threshold, a, m, b, n, q);
    }
    SamePrefix(a, m, b, n);
    if m == n { SamePrefix(b, n, a, m); }
  }

  // The promise determines the picks, cut off by the limit or not.
  lemma GreedyIsUnique(sorted: seq<Prediction>, threshold: real, a: seq<nat>, b: seq<nat>, limit: int)
    requires GreedyUpTo(sorted, threshold, a, limit) && GreedyUpTo(sorted, threshold, b, limit)
    ensures a == b
  {
    hide Greedy;
    var m := StopsAt(sorted, threshold, a, limit);
    var n := StopsAt(sorted, threshold, b, limit);
    if m <= n {
      GreedyPrefix(sorted, threshold, a, m, b, n);
    } else {
      GreedyPrefix(sorted, threshold, b, n, a, m);
    }
  }

  lemma StopsAt(sorted: seq<Prediction>, threshold: real, picks: seq<nat>, limit: int) returns (n: nat)
    requires GreedyUpTo(sorted, threshold, picks, limit)
    ensures Greedy(sorted, threshold, picks, n) && n <= |sorted|
    ensures n == |sorted| || (picks != [] && |picks| >= limit)
    ensures picks == [] || |picks| - 1 < limit || |picks| == 1
  {
    n :| Greedy(sorted, threshold, picks, n) &&
      (n == |sorted| || (picks != [] && |picks| >= limit && picks[|picks| - 1] == n - 1)) &&
      (picks == [] || |picks| - 1 < limit || |picks| == 1);
  }

  // ---- the algorithm -----------------------------------------------------------------

  function Count(active: seq<bool>): nat
  {
    if active == [] then 0 else Count(active[..|active| - 1]) + if active[|active| - 1] then 1 else 0
  }

  lemma {:induction false} CountOff(active: seq<bool>, j: nat)
    requires j < |active| && active[j]
    ensures Count(active) > 0 && Count(active[j := false]) == Count(active) - 1
    decreases |active|
  {
    var n := |active| - 1;
    if j < n {
      CountOff(active[..n], j);
      assert active[j := false][..n] == active[..n][j := false];
    } else {
      assert active[j := false][..n] == active[..n];
    }
  }

  lemma {:induction false} CountAll(active: seq<bool>)
    requires forall k | 0 <= k < |active| :: active[k]
    ensures Count(active) == |active|
    decreases |active|
  {
    if active != [] { CountAll(active[..|active| - 1]); }
  }

  function Sorted(boxes: seq<Prediction>, order: seq<nat>): seq<Prediction>
    requires |order| == |boxes| && forall k | 0 <= k < |order| :: order[k] < |boxes|
  {
    seq(|order|, k requires 0 <= k < |order| => boxes[order[k]])
  }

  function Picked(sorted: seq<Prediction>, picks: seq<nat>): seq<Prediction>
    requires Ascending(picks, |sorted|)
  {
    seq(|picks|, k requires 0 <= k < |picks| => sorted[picks[k]])
  }

  // Box q is still in the running after the picks: none of them suppresses it.
  ghost predicate ActiveAfter(sorted: seq<Prediction>, threshold: real, picks: seq<nat>, active: seq<bool>, from: nat)
    requires Ascending(picks, |sorted|) && |active| == |sorted|
  {
    forall q | from <= q < |sorted| :: active[q] <==> !Suppressed(sorted, threshold, picks, q)
  }

  // The boxes of a greedy choice, in order.
  ghost predicate GreedyBoxes(sorted: seq<Prediction>, threshold: real, limit: int, selected: seq<Prediction>)
  {
    exists picks :: Ascending(picks, |sorted|) && GreedyUpTo(sorted, threshold, picks, limit) && selected == Picked(sorted, picks)
  }

  // No two of the chosen boxes overlap by more than the threshold, and below the
  // limit each box left out does so with a chosen one before it.
  lemma GreedyMeans(sorted: seq<Prediction>, threshold: real, limit: int, selected: seq<Prediction>)
    requires GreedyBoxes(sorted, threshold, limit, selected)
    ensures forall a, b | 0 <= a < b < |selected| :: Iou(selected[a].rect, selected[b].rect) <= threshold
    ensures |selected| < limit ==>
              forall q | 0 <= q < |sorted| ::
                sorted[q] in selected || exists p :: 0 <= p < q && sorted[p] in selected && Iou(sorted[p].rect, sorted[q].rect) > threshold
  {
    hide Iou;
    var picks :| Ascending(picks, |sorted|) && GreedyUpTo(sorted, threshold, picks, limit) && selected == Picked(sorted, picks);
    var n: nat :| Greedy(sorted, threshold, picks, n) && (n == |sorted| || |picks| >= limit);
    forall a, b | 0 <= a < b < |selected| ensures Iou(selected[a].rect, selected[b].rect) <= threshold {
      assert picks[a] in picks && picks[b] in picks && !Suppressed(sorted, threshold, picks, picks[b]);
      assert !Clashes(sorted, threshold, picks[a], picks[b]);
    }
    if |selected| < limit {
      forall q | 0 <= q < |sorted|
        ensures sorted[q] in selected || exists p :: 0 <= p < q && sorted[p] in selected && Iou(sorted[p].rect, sorted[q].rect) > threshold
      {
        if q in picks {
          PickIsSelected(sorted, picks, q);
        } else {
          assert Suppressed(sorted, threshold, picks, q);
          var p :| p in picks && p < q && Clashes(sorted, threshold, p, q);
          PickIsSelected(sorted, picks, p);
        }
      }
    }
  }

  lemma PickIsSelected(sorted: seq<Prediction>, picks: seq<nat>, q: nat)
    requires Ascending(picks, |sorted|) && q in picks
    ensures q < |sorted| && sorted[q] in Picked(sorted, picks)
  {
    var a :| 0 <= a < |picks| && picks[a] == q;
    assert Picked(sorted, picks)[a] == sorted[q];
  }

  method NonMaxSuppression(boxes: seq<Prediction>, order: seq<nat>, limit: int, threshold: real) returns (selected: seq<Prediction>)
    requires ByScore(boxes, order)
    ensures |order| == |boxes| && forall k | 0 <= k < |order| :: order[k] < |boxes|
    ensures GreedyBoxes(Sorted(boxes, order), threshold, limit, selected)
  {
    hide Iou, ByScore, Count, Suppressed, GreedyUpTo;
    assert |order| == |boxes| && forall k | 0 <= k < |order| :: order[k] < |boxes| by { OrderInRange(boxes, order); }
    ghost var sorted := Sorted(boxes, order);
    selected := [];
    ghost var picks: seq<nat> := [];
    var n := |boxes|;
    var active := new bool[n](_ => true);
    var numActive := n;
    CountAll(active[..]);
    AllActive(sorted, threshold, active[..]);
    var i := 0;
    while i < n
      invariant 0 <= i <= n && Greedy(sorted, threshold, picks, i)
      invariant selected == Picked(sorted, picks)
      invariant ActiveAfter(sorted, threshold, picks, active[..], i)
      invariant numActive == Count(active[..])
      invariant picks == [] || |picks| < limit
    {
      if active[i] {
        assert active[..][i];
        PickNext(sorted, threshold, picks, i);
        var boxA := boxes[order[i]];
        ghost var before := picks;
        picks := picks + [i];
        selected := selected + [boxA];
        if |selected| >= limit {
          Stopped(sorted, threshold, picks, i + 1, limit);
          return;
        }
        numActive := Suppress(boxes, order, threshold, active, i, numActive, before);
      } else {
        PassNext(sorted, threshold, picks, i);
      }
      i := i + 1;
    }
    Stopped(sorted, threshold, picks, n, limit);
  }

  lemma AllActive(sorted: seq<Prediction>, threshold: real, active: seq<bool>)
    requires |active| == |sorted| && forall k | 0 <= k < |active| :: active[k]
    ensures ActiveAfter(sorted, threshold, [], active, 0) && Greedy(sorted, threshold, [], 0)
  {
  }

  lemma OrderInRange(boxes: seq<Prediction>, order: seq<nat>)
    requires ByScore(boxes, order)
    ensures |order| == |boxes| && forall k | 0 <= k < |order| :: order[k] < |boxes|
  {
  }

  lemma Stopped(sorted: seq<Prediction>, threshold: real, picks: seq<nat>, n: nat, limit: int)
    requires Greedy(sorted, threshold, picks, n)
    requires n == |sorted| || (picks != [] && |picks| >= limit && picks[|picks| - 1] == n - 1)
    requires picks == [] || |picks| - 1 < limit || |picks| == 1
    ensures GreedyUpTo(sorted, threshold, picks, limit)
  {
  }

  // A box still in the running is the next pick.
  lemma PickNext(sorted: seq<Prediction>, threshold: real, picks: seq<nat>, i: nat)
    requires Greedy(sorted, threshold, picks, i) && i < |sorted| && !Suppressed(sorted, threshold, picks, i)
    ensures Greedy(sorted, threshold, picks + [i], i + 1)
    ensures Picked(sorted, picks + [i]) == Picked(sorted, picks) + [sorted[i]]
  {
    hide Clashes;
    var more := picks + [i];
    forall q | 0 <= q < i + 1 ensures Suppressed(sorted, threshold, more, q) <==> Suppressed(sorted, threshold, picks, q) {
      if p :| p in more && p < q && Clashes(sorted, threshold, p, q) { assert p in picks; }
      if p :| p in picks && p < q && Clashes(sorted, threshold, p, q) { assert p in more; }
    }
    assert i in more;
  }

  lemma PassNext(sorted: seq<Prediction>, threshold: real, picks: seq<nat>, i: nat)
    requires Greedy(sorted, threshold, picks, i) && i < |sorted| && Suppressed(sorted, threshold, picks, i)
    ensures Greedy(sorted, threshold, picks, i + 1)
  {
  }

  // The inner loop: every later box that clashes with the new pick goes out.
  // The pick itself stays in, so the count of boxes in the running never
  // reaches zero and the loop never leaves early.
  method Suppress(boxes: seq<Prediction>, order: seq<nat>, threshold: real, active: array<bool>, i: nat, count: int, ghost picks: seq<nat>)
      returns (numActive: int)
    requires |order| == |boxes| == active.Length && (forall k | 0 <= k < |order| :: order[k] < |boxes|)
    requires i < |boxes| && active[i] && count == Count(active[..])
    requires Ascending(picks, i) && ActiveAfter(Sorted(boxes, order), threshold, picks, active[..], i)
    modifies active
    ensures numActive == Count(active[..]) && numActive >= 1
    ensures Ascending(picks + [i], |boxes|)
    ensures ActiveAfter(Sorted(boxes, order), threshold, picks + [i], active[..], i + 1)
  {
    hide Iou, Count;
    ghost var sorted, more := Sorted(boxes, order), picks + [i];
    assert Ascending(picks, |boxes|);
    numActive := count;
    var boxA := boxes[order[i]];
    ghost var exited := false;
    var j := i + 1;
    while j < |boxes|
      invariant i < j <= |boxes| && active[i] && numActive == Count(active[..])
      invariant forall q | i < q < j :: active[q] <==> !Suppressed(sorted, threshold, more, q)
      invariant forall q | j <= q < |boxes| :: active[q] <==> !Suppressed(sorted, threshold, picks, q)
      invariant !exited
    {
      ghost var was := active[..];
      OneMorePick(sorted, threshold, picks, i, j);
      if active[j] {
        var boxB := boxes[order[j]];
        if Iou(boxA.rect, boxB.rect) > threshold {
          CountOff(was, j);
          active[j] := false;
          assert active[..] == was[j := false];
          numActive := numActive - 1;
          StillOne(active[..], i);
          if numActive <= 0 {
            exited := true;
            break;
          }
        }
      }
      j := j + 1;
    }
    assert !exited;
    StillOne(active[..], i);
  }

  lemma StillOne(active: seq<bool>, i: nat)
    requires i < |active| && active[i]
    ensures Count(active) >= 1
  {
    CountOff(active, i);
  }

  lemma OneMorePick(sorted: seq<Prediction>, threshold: real, picks: seq<nat>, i: nat, q: nat)
    requires Ascending(picks, i) && i < q < |sorted|
    ensures Ascending(picks, |sorted|) && Ascending(picks + [i], |sorted|)
    ensures Suppressed(sorted, threshold, picks + [i], q) <==> Suppressed(sorted, threshold, picks, q) || Clashes(sorted, threshold, i, q)
  {
    hide Clashes;
    var more := picks + [i];
    assert i in more;
    if p :| p in picks && p < q && Clashes(sorted, threshold, p, q) { assert p in more; }
  }
}
