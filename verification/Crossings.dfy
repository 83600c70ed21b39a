/** Where a scan line meets the edges of a closed polygon, and which pixels
    between these places are inside. */
module Crossings {
  import opened Arithmetic
  import opened Rects
  import opened Drawing
  import opened Words
  import opened Sorting

  // ----- which edges a scan line crosses -----

  /** Edge i runs from the vertex before vertex i to vertex i. */
  function Before(i: nat, n: nat): nat
    requires i < n
  {
    if i == 0 then n - 1 else i - 1
  }

  /** The test of the fill: an edge owns its upper end and not its lower one,
      except in the lowest row of the polygon, where it is the other way round.
      Level edges own nothing. */
  predicate Crosses(vy: seq<int>, i: nat, y: int, maxy: int)
    requires i < |vy|
  {
    var a, b := vy[Before(i, |vy|)], vy[i];
    var y1, y2 := Min(a, b), Max(a, b);
    y1 < y2 && ((y >= y1 && y < y2) || (y == maxy && y > y1 && y <= y2))
  }

  /** An edge crosses the rows from its upper end to in front of its lower one, and
      the lower one too if no vertex lies lower; a level edge crosses none. */
  lemma RowsOfEdge(vy: seq<int>, i: nat, y: int, maxy: int)
    requires i < |vy| && forall k :: 0 <= k < |vy| ==> vy[k] <= maxy
    ensures var y1, y2 := Min(vy[Before(i, |vy|)], vy[i]), Max(vy[Before(i, |vy|)], vy[i]);
            Crosses(vy, i, y, maxy) <==> y1 <= y <= y2 && y1 != y2 && (y == y2 ==> y2 == maxy)
  {
  }

  /** Which of the two sides of the scan line a vertex counts to. */
  predicate Below(vy: seq<int>, i: nat, y: int, maxy: int)
    requires i < |vy|
  {
    if y == maxy then vy[i] >= y else vy[i] > y
  }

  lemma CrossesIsChangeOfSide(vy: seq<int>, i: nat, y: int, maxy: int)
    requires i < |vy| && y <= maxy && forall k :: 0 <= k < |vy| ==> vy[k] <= maxy
    ensures Crosses(vy, i, y, maxy) <==> Below(vy, Before(i, |vy|), y, maxy) != Below(vy, i, y, maxy)
  {
  }

  // ----- where it crosses them -----

  const ONE := 0x1_0000

  /** The place on the edge in 16:16 fixed point, computed from its upper end. */
  function Place(x1: int, y1: int, x2: int, y2: int, y: int): int
    requires y1 < y2
  {
    ONE * (y - y1) / (y2 - y1) * (x2 - x1) + ONE * x1
  }

  function PlaceOnEdge(vx: seq<int>, vy: seq<int>, i: nat, y: int): int
    requires i < |vx| == |vy| && vy[Before(i, |vy|)] != vy[i]
  {
    var p := Before(i, |vy|);
    if vy[p] < vy[i] then Place(vx[p], vy[p], vx[i], vy[i], y) else Place(vx[i], vy[i], vx[p], vy[p], y)
  }

  /** The place is between the ends of the edge, and at an end in its rows. */
  lemma PlaceIsBetween(x1: int, y1: int, x2: int, y2: int, y: int)
    requires y1 < y2 && y1 <= y <= y2
    ensures ONE * Min(x1, x2) <= Place(x1, y1, x2, y2, y) <= ONE * Max(x1, x2)
    ensures Place(x1, y1, x2, y2, y1) == ONE * x1 && Place(x1, y1, x2, y2, y2) == ONE * x2
  {
    var dy := y2 - y1;
    var t := ONE * (y - y1) / dy;
    FractionBounds(y - y1, dy);
    FractionBounds(0, dy);
    FractionBounds(dy, dy);
    if x1 <= x2 {
      LessProduct(x2 - x1, t, ONE);
    } else {
      LessProduct(x1 - x2, t, ONE);
      assert t * (x2 - x1) == -(t * (x1 - x2));
    }
  }

  lemma FractionBounds(part: nat, whole: nat)
    requires part <= whole && 0 < whole
    ensures 0 <= ONE * part / whole <= ONE
    ensures part == whole ==> ONE * part / whole == ONE
  {
    QuotientOrder(0, ONE * part, whole);
    DivModUnique(ONE * whole, whole, ONE, 0);
    DivModUnique(0, whole, 0, 0);
    QuotientOrder(ONE * part, ONE * whole, whole);
  }

  /** The crossings of the first k edges, in the order they are stored. */
  function CrossingsOf(vx: seq<int>, vy: seq<int>, y: int, maxy: int, k: nat): (s: seq<int>)
    requires k <= |vx| == |vy|
    ensures |s| <= k
  {
    if k == 0 then []
    else
      CrossingsOf(vx, vy, y, maxy, k - 1)
      + (if Crosses(vy, k - 1, y, maxy) then [PlaceOnEdge(vx, vy, k - 1, y)] else [])
  }

  /** After k edges the number of crossings is even exactly if the last vertex
      is on the side the walk started from. */
  lemma {:induction false} CrossingsChangeSides(vx: seq<int>, vy: seq<int>, y: int, maxy: int, k: nat)
    requires 0 < k <= |vx| == |vy| && y <= maxy && forall i :: 0 <= i < |vy| ==> vy[i] <= maxy
    ensures |CrossingsOf(vx, vy, y, maxy, k)| % 2 == 0 <==> Below(vy, |vy| - 1, y, maxy) == Below(vy, k - 1, y, maxy)
  {
    hide Crosses, Below, PlaceOnEdge;
    CrossesIsChangeOfSide(vy, k - 1, y, maxy);
    if k > 1 {
      CrossingsChangeSides(vx, vy, y, maxy, k - 1);
    } else {
      assert CrossingsOf(vx, vy, y, maxy, 0) == [];
    }
  }

  /** A closed walk crosses a scan line an even number of times. */
  lemma CrossingsPairUp(vx: seq<int>, vy: seq<int>, y: int, maxy: int)
    requires 0 < |vx| == |vy| && y <= maxy && forall i :: 0 <= i < |vy| ==> vy[i] <= maxy
    ensures |CrossingsOf(vx, vy, y, maxy, |vy|)| % 2 == 0
  {
    CrossingsChangeSides(vx, vy, y, maxy, |vy|);
  }

  lemma {:induction false} CrossingsInRange(vx: seq<int>, vy: seq<int>, y: int, maxy: int, k: nat, lo: int, hi: int)
    requires k <= |vx| == |vy| && forall i :: 0 <= i < |vx| ==> lo <= vx[i] <= hi
    ensures forall v :: v in CrossingsOf(vx, vy, y, maxy, k) ==> ONE * lo <= v <= ONE * hi
  {
    if k > 0 {
      CrossingsInRange(vx, vy, y, maxy, k - 1, lo, hi);
      if Crosses(vy, k - 1, y, maxy) {
        var a, b := Before(k - 1, |vy|), k - 1;
        if vy[a] < vy[b] {
          PlaceIsBetween(vx[a], vy[a], vx[b], vy[b], y);
        } else {
          PlaceIsBetween(vx[b], vy[b], vx[a], vy[a], y);
        }
      }
    }
  }

  // ----- from crossings to spans -----

  /** The 16:16 number as an integer: the integer part, plus the topmost bit of
      the fraction. */
  function Rounded(v: int): int {
    v / ONE + v / 0x8000 % 2
  }

  lemma RoundedIsNearest(v: int)
    ensures Rounded(v) == (v + 0x8000) / ONE
  {
  }

  /** Two neighbouring crossings make a span. */
  function SpanBetween(a: int, b: int, y: int): Span {
    Span(Rounded(a + 1), Rounded(b - 1), y)
  }

  function PairSpans(s: seq<int>, y: int): seq<Span> {
    if |s| < 2 then [] else PairSpans(s[..|s| - 2], y) + [SpanBetween(s[|s| - 2], s[|s| - 1], y)]
  }

  lemma SpanInRange(a: int, b: int, y: int, lo: int, hi: int)
    requires ONE * lo <= a <= b <= ONE * hi
    ensures lo <= SpanBetween(a, b, y).x1 <= hi && lo <= SpanBetween(a, b, y).x2 <= hi
  {
    RoundedIsNearest(a + 1);
    RoundedIsNearest(b - 1);
  }

  /** How many of the spans contain a pixel, as HLineColor draws them. */
  function Covering(spans: seq<Span>, color: Word, x: int, y: int): nat {
    if spans == [] then 0
    else Covering(spans[..|spans| - 1], color, x, y) + (if DrawnSpan(spans[|spans| - 1], color).Has(x, y) then 1 else 0)
  }

  function CountLeft(s: seq<int>, v: int): nat {
    if s == [] then 0 else CountLeft(s[..|s| - 1], v) + (if s[|s| - 1] < v then 1 else 0)
  }

  /** A crossing that is not within half a pixel of the pixel's centre. */
  predicate Apart(v: int, x: int) {
    v < ONE * x - 0x8001 || v > ONE * x + 0x8001
  }

  ghost predicate Clear(s: seq<int>, x: int) {
    forall i :: 0 <= i < |s| ==> Apart(s[i], x)
  }

  lemma ClearSpan(a: int, b: int, color: Word, x: int, y: int)
    requires a <= b && Apart(a, x) && Apart(b, x)
    ensures DrawnSpan(SpanBetween(a, b, y), color).Has(x, y) <==> a < ONE * x < b
  {
    RoundedIsNearest(a + 1);
    RoundedIsNearest(b - 1);
  }

  lemma {:induction false} CountAll(s: seq<int>, v: int)
    requires forall i :: 0 <= i < |s| ==> s[i] < v
    ensures CountLeft(s, v) == |s|
  {
    if s != [] {
      CountAll(s[..|s| - 1], v);
    }
  }

  lemma CountLastTwo(s: seq<int>, v: int)
    requires |s| >= 2
    ensures CountLeft(s, v)
         == CountLeft(s[..|s| - 2], v) + (if s[|s| - 2] < v then 1 else 0) + (if s[|s| - 1] < v then 1 else 0)
  {
    var n := |s|;
    assert s[..n - 1][..n - 2] == s[..n - 2] && s[..n - 1][n - 2] == s[n - 2];
  }

  lemma CoverLastPair(s: seq<int>, color: Word, x: int, y: int)
    requires |s| >= 2
    ensures Covering(PairSpans(s, y), color, x, y)
         == Covering(PairSpans(s[..|s| - 2], y), color, x, y)
            + (if DrawnSpan(SpanBetween(s[|s| - 2], s[|s| - 1], y), color).Has(x, y) then 1 else 0)
  {
    var spans := PairSpans(s, y);
    assert spans[..|spans| - 1] == PairSpans(s[..|s| - 2], y);
  }

  /** The even-odd rule: between its crossings a pixel is drawn exactly if an odd
      number of crossings lies to its left, and then once. */
  lemma {:induction false} EvenOdd(s: seq<int>, color: Word, x: int, y: int)
    requires Sorted(s) && |s| % 2 == 0 && Clear(s, x)
    ensures Covering(PairSpans(s, y), color, x, y) == CountLeft(s, ONE * x) % 2
  {
    hide PairSpans, Covering, DrawnSpan, SpanBetween;
    var n, v := |s|, ONE * x;
    if n == 0 {
      NothingCovered(s, color, x, y);
    } else {
      var front, a, b := s[..n - 2], s[n - 2], s[n - 1];
      EvenOdd(front, color, x, y);
      CoverLastPair(s, color, x, y);
      CountLastTwo(s, v);
      ClearSpan(a, b, color, x, y);
      if a < v {
        CountAll(front, v);
      }
    }
  }

  lemma NothingCovered(s: seq<int>, color: Word, x: int, y: int)
    requires s == []
    ensures Covering(PairSpans(s, y), color, x, y) == 0
  {
  }

  // ----- the stored places and the edges -----

  /** Where the edge is in row y, times its height. */
  function Ideal(x1: int, y1: int, x2: int, y2: int, y: int): int {
    x1 * (y2 - y) + x2 * (y - y1)
  }

  /** The place is on the edge, up to the rounding of the quotient: less than one
      65536th of the edge's width too near to the upper end. */
  lemma PlaceIsOnEdge(x1: int, y1: int, x2: int, y2: int, y: int)
    requires y1 < y2 && y1 <= y <= y2
    ensures var dy, e := y2 - y1, ONE * Ideal(x1, y1, x2, y2, y) - Place(x1, y1, x2, y2, y) * (y2 - y1);
            if x1 <= x2 then 0 <= e <= (dy - 1) * (x2 - x1) else (dy - 1) * (x2 - x1) <= e <= 0
  {
    hide Place, Ideal;
    var dx, dy := x2 - x1, y2 - y1;
    var r := ONE * (y - y1) % dy;
    IdealByStart(x1, y1, x2, y2, y);
    PlaceByStart(x1, y1, x2, y2, y);
    if x1 <= x2 {
      LessProduct(dx, r, dy - 1);
    } else {
      LessProduct(-dx, r, dy - 1);
      Negated(r, dx);
      Negated(dy - 1, dx);
    }
  }

  lemma Negated(a: int, b: int)
    ensures a * b == -(a * -b)
  {
  }

  lemma PlaceByStart(x1: int, y1: int, x2: int, y2: int, y: int)
    requires y1 < y2
    ensures Place(x1, y1, x2, y2, y) * (y2 - y1)
         == (ONE * x1) * (y2 - y1) + (ONE * (y - y1)) * (x2 - x1) - (ONE * (y - y1) % (y2 - y1)) * (x2 - x1)
  {
    var dx, dy, n := x2 - x1, y2 - y1, ONE * (y - y1);
    var t, r := n / dy, n % dy;
    QuotientAndRest(n, dy);
    RestOfProduct(n, t, r, dx, dy);
    Distribute(t * dx, ONE * x1, dy);
  }

  lemma QuotientAndRest(n: int, d: nat)
    requires d > 0
    ensures n == n / d * d + n % d
  {
  }

  lemma IdealByStart(x1: int, y1: int, x2: int, y2: int, y: int)
    ensures ONE * Ideal(x1, y1, x2, y2, y) == (ONE * x1) * (y2 - y1) + (ONE * (y - y1)) * (x2 - x1)
  {
    assert x1 * (y2 - y) == x1 * (y2 - y1) - x1 * (y - y1);
    Distribute(x2, x1, y - y1);
    assert (ONE * x1) * (y2 - y1) == ONE * (x1 * (y2 - y1));
    assert (ONE * (y - y1)) * (x2 - x1) == ONE * ((x2 - x1) * (y - y1));
  }

  lemma RestOfProduct(n: int, t: int, r: int, dx: int, dy: int)
    requires n == t * dy + r
    ensures n * dx - (t * dx) * dy == r * dx
  {
    Distribute(t * dy, r, dx);
    assert (t * dy) * dx == (t * dx) * dy;
  }

  /** Pixel x is further from the edge than half a pixel and the rounding. */
  predicate FarFrom(x1: int, y1: int, x2: int, y2: int, y: int, x: int) {
    var d := ONE * Ideal(x1, y1, x2, y2, y) - ONE * x * (y2 - y1);
    var margin := 0x8001 * (y2 - y1) + (y2 - y1 - 1) * (Max(x1, x2) - Min(x1, x2));
    d < -margin || margin < d
  }

  /** The edge itself is to the left of pixel x. */
  predicate LeftOf(x1: int, y1: int, x2: int, y2: int, y: int, x: int) {
    Ideal(x1, y1, x2, y2, y) < x * (y2 - y1)
  }

  /** The place of an edge that far away is on the same side as the edge. */
  lemma PlaceIsOnSide(x1: int, y1: int, x2: int, y2: int, y: int, x: int)
    requires y1 < y2 && y1 <= y <= y2 && FarFrom(x1, y1, x2, y2, y, x)
    ensures Apart(Place(x1, y1, x2, y2, y), x)
    ensures Place(x1, y1, x2, y2, y) < ONE * x <==> LeftOf(x1, y1, x2, y2, y, x)
  {
    hide Place, Ideal;
    var p, dy := Place(x1, y1, x2, y2, y), y2 - y1;
    PlaceIsOnEdge(x1, y1, x2, y2, y);
    assert ONE * x * dy == ONE * (x * dy);
    assert x1 > x2 ==> (dy - 1) * (x1 - x2) == -((dy - 1) * (x2 - x1));
    LessProduct(Max(x1, x2) - Min(x1, x2), 0, dy - 1);
    SideOf(p, ONE * x, dy);
  }

  lemma SideOf(p: int, c: int, dy: nat)
    requires dy > 0
    ensures p * dy - c * dy < -(0x8001 * dy) ==> p < c - 0x8001
    ensures p * dy - c * dy > 0x8001 * dy ==> p > c + 0x8001
  {
    Distribute(p, c, dy);
    if p >= c - 0x8001 {
      LessProduct(dy, 0, p - c + 0x8001);
      Distribute(p - c, 0x8001, dy);
    }
    if p <= c + 0x8001 {
      LessProduct(dy, 0, c + 0x8001 - p);
      Distribute(p - c, 0x8001, dy);
    }
  }

  /** Pixel x is far from every edge that crosses the row. */
  ghost predicate FarFromEdges(vx: seq<int>, vy: seq<int>, y: int, maxy: int, x: int)
    requires |vx| == |vy|
  {
    forall i :: 0 <= i < |vy| ==> FarFromEdge(vx, vy, i, y, maxy, x)
  }

  predicate FarFromEdge(vx: seq<int>, vy: seq<int>, i: nat, y: int, maxy: int, x: int)
    requires i < |vx| == |vy|
  {
    var p := Before(i, |vy|);
    Crosses(vy, i, y, maxy) ==>
      if vy[p] < vy[i] then FarFrom(vx[p], vy[p], vx[i], vy[i], y, x) else FarFrom(vx[i], vy[i], vx[p], vy[p], y, x)
  }

  predicate EdgeLeftOf(vx: seq<int>, vy: seq<int>, i: nat, y: int, x: int)
    requires i < |vx| == |vy|
  {
    var p := Before(i, |vy|);
    if vy[p] < vy[i] then LeftOf(vx[p], vy[p], vx[i], vy[i], y, x) else LeftOf(vx[i], vy[i], vx[p], vy[p], y, x)
  }

  /** How many of the first k edges cross the row to the left of pixel x. */
  function EdgesLeft(vx: seq<int>, vy: seq<int>, y: int, maxy: int, x: int, k: nat): nat
    requires k <= |vx| == |vy|
  {
    if k == 0 then 0
    else
      EdgesLeft(vx, vy, y, maxy, x, k - 1)
      + (if Crosses(vy, k - 1, y, maxy) && EdgeLeftOf(vx, vy, k - 1, y, x) then 1 else 0)
  }

  lemma EdgePlace(vx: seq<int>, vy: seq<int>, i: nat, y: int, maxy: int, x: int)
    requires i < |vx| == |vy| && Crosses(vy, i, y, maxy) && FarFromEdge(vx, vy, i, y, maxy, x)
    ensures vy[Before(i, |vy|)] != vy[i] && Apart(PlaceOnEdge(vx, vy, i, y), x)
    ensures PlaceOnEdge(vx, vy, i, y) < ONE * x <==> EdgeLeftOf(vx, vy, i, y, x)
  {
    hide Place, FarFrom, LeftOf;
    var p := Before(i, |vy|);
    if vy[p] < vy[i] {
      PlaceIsOnSide(vx[p], vy[p], vx[i], vy[i], y, x);
    } else {
      PlaceIsOnSide(vx[i], vy[i], vx[p], vy[p], y, x);
    }
  }

  /** The crossings stored for a row are as many to the left of a pixel far from
      all edges as there are edges to its left. */
  lemma {:induction false} CrossingsFollowEdges(vx: seq<int>, vy: seq<int>, y: int, maxy: int, x: int, k: nat)
    requires k <= |vx| == |vy| && FarFromEdges(vx, vy, y, maxy, x)
    ensures Clear(CrossingsOf(vx, vy, y, maxy, k), x)
    ensures CountLeft(CrossingsOf(vx, vy, y, maxy, k), ONE * x) == EdgesLeft(vx, vy, y, maxy, x, k)
  {
    hide Crosses, EdgeLeftOf, PlaceOnEdge, FarFromEdge, Apart;
    if k > 0 {
      CrossingsFollowEdges(vx, vy, y, maxy, x, k - 1);
      assert FarFromEdge(vx, vy, k - 1, y, maxy, x);
      var front := CrossingsOf(vx, vy, y, maxy, k - 1);
      if Crosses(vy, k - 1, y, maxy) {
        EdgePlace(vx, vy, k - 1, y, maxy, x);
        assert (front + [PlaceOnEdge(vx, vy, k - 1, y)])[..|front|] == front;
      } else {
        assert front + [] == front;
      }
    }
  }

  // ----- counting does not depend on the order -----

  lemma {:induction false} CountSplit(s: seq<int>, t: seq<int>, v: int)
    ensures CountLeft(s + t, v) == CountLeft(s, v) + CountLeft(t, v)
  {
    if t == [] {
      assert s + t == s;
    } else {
      assert (s + t)[..|s + t| - 1] == s + t[..|t| - 1];
      CountSplit(s, t[..|t| - 1], v);
    }
  }

  lemma {:induction false} CountPermuted(s: seq<int>, t: seq<int>, v: int)
    requires Permuted(s, t)
    ensures CountLeft(s, v) == CountLeft(t, v)
    decreases |s|
  {
    assert |s| == |multiset(s)| == |multiset(t)| == |t|;
    if s != [] {
      var n := |s|;
      var x := s[n - 1];
      assert s == s[..n - 1] + [x];
      assert x in multiset(t);
      var i :| 0 <= i < |t| && t[i] == x;
      var rest := t[..i] + t[i + 1..];
      assert t == t[..i] + [x] + t[i + 1..];
      assert multiset(s[..n - 1]) == multiset(s) - multiset{x};
      assert multiset(rest) == multiset(t) - multiset{x};
      CountPermuted(s[..n - 1], rest, v);
      CountSplit(t[..i], t[i + 1..], v);
      CountSplit(t[..i], [x], v);
      CountSplit(t[..i] + [x], t[i + 1..], v);
      assert CountLeft([x], v) == if x < v then 1 else 0;
    }
  }
}
