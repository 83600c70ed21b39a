/** The filled polygon: crossings of every scan line are stored in a scratch
    buffer that is kept from call to call, sorted there, and drawn in pairs. */
module PolygonFill {
  import opened Words
  import opened Rects
  import opened Surfaces
  import opened Drawing
  import opened Sorting
  import opened Crossings

  // ----- the scratch buffer -----

  /** The cached buffer and the number of entries it is recorded to have. */
  class Scratch {
    var ints: array?<int>
    var recorded: int

    constructor ()
      ensures Valid() && ints == null && recorded == 0
    {
      ints, recorded := null, 0;
    }

    /** The buffer is never smaller than recorded. */
    predicate Valid()
      reads this
    {
      0 <= recorded && (ints != null ==> 0 < recorded <= ints.Length)
    }

    /** Makes room for n entries; granted says whether the allocator gives memory
        if it is asked. The entries themselves are about to be overwritten. */
    method Reserve(n: nat, granted: bool) returns (ok: bool)
      requires Valid() && n > 0
      modifies this
      ensures Valid()
      ensures ok <==> ints != null
      ensures ok ==> recorded == n <= ints.Length
      ensures ok <==> if old(recorded) < n then granted else old(ints) != null
      ensures !ok ==> recorded == old(recorded)
      ensures ints == old(ints) || ints == null || fresh(ints)
    {
      if recorded == 0 {
        ints := null;
        if granted {
          ints := new int[n];
        }
      } else if recorded < n {
        ints := null;
        if granted {
          ints := new int[n];
        }
      }
      if ints != null {
        recorded := n;
      }
      ok := ints != null;
    }
  }

  /** After a growth that was refused, polygons with no more vertices than the
      largest number recorded can not be drawn any more, however much memory
      there is; one with more vertices can. */
  method RefusedGrowth(scratch: Scratch, grow: nat, n: nat) returns (ok: bool)
    requires scratch.Valid() && 0 < scratch.recorded < grow && n > 0
    modifies scratch
    ensures ok <==> n > old(scratch.recorded)
  {
    var refused := scratch.Reserve(grow, false);
    ok := scratch.Reserve(n, true);
  }

  // ----- rows drawn -----

  /** Pixels are painted as often as the spans of their row contain them. rows
      are the crossings of the rows from miny on, in order. */
  ghost predicate RowsPainted(color: Word, before: Image, now: Image, clip: Rect, miny: int, rows: seq<seq<int>>)
    requires before.Valid()
  {
    && now.SameShape(before)
    && (forall x, y :: now.Contains(x, y) ==> PixelFilled(color, before, now, clip, miny, rows, x, y))
    && (forall i :: 0 <= i < |now.data| && !now.IsPixelIndex(i) ==> now.data[i] == before.data[i])
  }

  ghost predicate PixelFilled(color: Word, before: Image, now: Image, clip: Rect, miny: int, rows: seq<seq<int>>,
      x: int, y: int)
    requires before.Valid() && now.SameShape(before) && now.Contains(x, y)
  {
    now.At(x, y) == Repeat(FillPaint(color), Layers(color, clip, miny, rows, x, y), before.At(x, y))
  }

  function Layers(color: Word, clip: Rect, miny: int, rows: seq<seq<int>>, x: int, y: int): nat {
    if clip.Has(x, y) && miny <= y < miny + |rows| then Covering(PairSpans(rows[y - miny], y), color, x, y) else 0
  }

  lemma NoRowsPainted(color: Word, image: Image, clip: Rect, miny: int)
    requires image.Valid()
    ensures RowsPainted(color, image, image, clip, miny, [])
  {
  }

  /** A row whose crossings have not been drawn yet counts as empty. */
  lemma RowBegins(color: Word, before: Image, now: Image, clip: Rect, miny: int, rows: seq<seq<int>>)
    requires before.Valid() && RowsPainted(color, before, now, clip, miny, rows)
    ensures RowsPainted(color, before, now, clip, miny, rows + [[]])
  {
    forall x, y | now.Contains(x, y)
      ensures PixelFilled(color, before, now, clip, miny, rows + [[]], x, y)
    {
      assert PixelFilled(color, before, now, clip, miny, rows, x, y);
      NothingCovered([], color, x, y);
    }
  }

  lemma PairPainted(color: Word, before: Image, mid: Image, now: Image, clip: Rect, miny: int, rows: seq<seq<int>>,
      c: seq<int>, i: nat)
    requires before.Valid() && mid.Valid() && i + 1 < |c|
    requires RowsPainted(color, before, mid, clip, miny, rows + [c[..i]])
    requires Painted(FillPaint(color), mid, now,
                     Line(DrawnSpan(SpanBetween(c[i], c[i + 1], miny + |rows|), color)) * Box(clip))
    ensures i + 2 <= |c| && RowsPainted(color, before, now, clip, miny, rows + [c[..i + 2]])
  {
    hide FillPaint, DrawnSpan, SpanBetween, Covering, PairSpans;
    var f, row := FillPaint(color), miny + |rows|;
    var area := Line(DrawnSpan(SpanBetween(c[i], c[i + 1], row), color)) * Box(clip);
    forall x, y | now.Contains(x, y)
      ensures PixelFilled(color, before, now, clip, miny, rows + [c[..i + 2]], x, y)
    {
      assert PixelFilled(color, before, mid, clip, miny, rows + [c[..i]], x, y);
      assert PixelPainted(f, mid, now, area, x, y);
      PairAdded(c, i, color, x, row);
      SpanRow(c[i], c[i + 1], row, color);
    }
  }

  lemma PairAdded(c: seq<int>, i: nat, color: Word, x: int, y: int)
    requires i + 1 < |c|
    ensures Covering(PairSpans(c[..i + 2], y), color, x, y)
         == Covering(PairSpans(c[..i], y), color, x, y)
            + (if DrawnSpan(SpanBetween(c[i], c[i + 1], y), color).Has(x, y) then 1 else 0)
  {
    CoverLastPair(c[..i + 2], color, x, y);
    assert c[..i + 2][..i] == c[..i];
  }

  lemma SpanRow(a: int, b: int, y: int, color: Word)
    ensures DrawnSpan(SpanBetween(a, b, y), color).y == y
  {
  }

  // ----- the fill -----

  /** Stores the crossings of one scan line in front of the buffer. */
  method StoreCrossings(ints: array<int>, vx: seq<int>, vy: seq<int>, y: int, maxy: int) returns (intCount: nat)
    requires 0 < |vx| == |vy| <= ints.Length
    modifies ints
    ensures intCount <= |vx| && ints[..intCount] == CrossingsOf(vx, vy, y, maxy, |vx|)
  {
    hide Place, Crosses, CrossingsOf, PlaceOnEdge;
    intCount := 0;
    var n := |vx|;
    FirstCrossings(vx, vy, y, maxy);
    for i := 0 to n
      invariant intCount <= i && ints[..intCount] == CrossingsOf(vx, vy, y, maxy, i)
    {
      NextCrossing(vx, vy, y, maxy, i);
      var ind1, ind2 := i - 1, i;
      if i == 0 {
        ind1, ind2 := n - 1, 0;
      }
      var x1, x2 := vx[ind1], vx[ind2];
      var y1, y2 := vy[ind1], vy[ind2];
      if y1 > y2 {
        y1, y2 := y2, y1;
        x1, x2 := x2, x1;
      }
      if y1 != y2 {
        if (y >= y1 && y < y2) || (y == maxy && y > y1 && y <= y2) {
          ints[intCount] := Place(x1, y1, x2, y2, y);
          intCount := intCount + 1;
          assert ints[..intCount] == ints[..intCount - 1] + [ints[intCount - 1]];
        }
      }
    }
  }

  lemma FirstCrossings(vx: seq<int>, vy: seq<int>, y: int, maxy: int)
    requires |vx| == |vy|
    ensures CrossingsOf(vx, vy, y, maxy, 0) == []
  {
  }

  lemma NextCrossing(vx: seq<int>, vy: seq<int>, y: int, maxy: int, i: nat)
    requires i < |vx| == |vy|
    ensures var p := Before(i, |vy|);
            var swap := vy[p] > vy[i];
            var x1, x2 := if swap then vx[i] else vx[p], if swap then vx[p] else vx[i];
            var y1, y2 := if swap then vy[i] else vy[p], if swap then vy[p] else vy[i];
            var own := y1 != y2 && ((y >= y1 && y < y2) || (y == maxy && y > y1 && y <= y2));
            CrossingsOf(vx, vy, y, maxy, i + 1)
              == CrossingsOf(vx, vy, y, maxy, i) + if own then [Place(x1, y1, x2, y2, y)] else []
  {
    hide Place;
  }

  /** The rows of a whole polygon: for every scan line its crossings, sorted. */
  ghost predicate AllCrossings(rows: seq<seq<int>>, vx: seq<int>, vy: seq<int>, miny: int, maxy: int)
    requires |vx| == |vy|
  {
    forall k :: 0 <= k < |rows| ==> RowCrossings(rows[k], vx, vy, miny + k, maxy)
  }

  ghost predicate RowCrossings(row: seq<int>, vx: seq<int>, vy: seq<int>, y: int, maxy: int)
    requires |vx| == |vy|
  {
    Sorted(row) && Permuted(CrossingsOf(vx, vy, y, maxy, |vx|), row)
  }

  /** The lowest and the highest row of the vertices. */
  ghost predicate RowRange(vy: seq<int>, miny: int, maxy: int) {
    miny in vy && maxy in vy && forall i :: 0 <= i < |vy| ==> miny <= vy[i] <= maxy
  }

  method FindRange(vy: seq<int>) returns (miny: int, maxy: int)
    requires |vy| > 0
    ensures RowRange(vy, miny, maxy)
  {
    miny, maxy := vy[0], vy[0];
    for i := 1 to |vy|
      invariant miny in vy && maxy in vy && forall k :: 0 <= k < i ==> miny <= vy[k] <= maxy
    {
      if vy[i] < miny {
        miny := vy[i];
      } else if vy[i] > maxy {
        maxy := vy[i];
      }
    }
  }

  /** Draws the sorted crossings of one scan line two by two. */
  method DrawPairs(surface: Surface, ints: array<int>, intCount: nat, y: int, color: Word,
      ghost before: Image, ghost miny: int, ghost rows: seq<seq<int>>)
    requires surface.Valid() && surface.ClipFits() && intCount <= ints.Length && intCount % 2 == 0
    requires before.Valid() && y == miny + |rows|
    requires RowsPainted(color, before, surface.Content(), surface.clip.Value(), miny, rows)
    modifies surface.data
    ensures surface.Valid()
    ensures RowsPainted(color, before, surface.Content(), surface.clip.Value(), miny, rows + [ints[..intCount]])
  {
    hide RowsPainted, Painted, FillPaint;
    ghost var clip, row := surface.clip.Value(), ints[..intCount];
    RowBegins(color, before, surface.Content(), clip, miny, rows);
    assert row[..0] == [];
    var i := 0;
    while i < intCount
      invariant 0 <= i <= intCount && i % 2 == 0
      invariant surface.Valid()
      invariant RowsPainted(color, before, surface.Content(), clip, miny, rows + [row[..i]])
    {
      var xa, xb := ints[i] + 1, ints[i + 1] - 1;
      xa := xa / 0x1_0000 + xa / 0x8000 % 2;
      xb := xb / 0x1_0000 + xb / 0x8000 % 2;
      ghost var mid := surface.Content();
      HLineColor(surface, Span(xa, xb, y), color);
      PairPainted(color, before, mid, surface.Content(), clip, miny, rows, row, i);
      i := i + 2;
    }
    assert row[..intCount] == row;
  }

  /** One scan line: stored, sorted, drawn. */
  method FillScanLine(surface: Surface, ints: array<int>, vx: seq<int>, vy: seq<int>, y: int, maxy: int, color: Word,
      ghost before: Image, ghost miny: int, ghost rows: seq<seq<int>>)
    returns (ghost row: seq<int>)
    requires surface.Valid() && surface.ClipFits() && 0 < |vx| == |vy| <= ints.Length
    requires y <= maxy && forall i :: 0 <= i < |vy| ==> vy[i] <= maxy
    requires before.Valid() && y == miny + |rows|
    requires RowsPainted(color, before, surface.Content(), surface.clip.Value(), miny, rows)
    modifies surface.data, ints
    ensures surface.Valid()
    ensures RowCrossings(row, vx, vy, y, maxy)
    ensures RowsPainted(color, before, surface.Content(), surface.clip.Value(), miny, rows + [row])
  {
    hide RowsPainted, FillPaint, Sorted, Permuted, CrossingsOf;
    var intCount := StoreCrossings(ints, vx, vy, y, maxy);
    CrossingsPairUp(vx, vy, y, maxy);
    assert intCount == |ints[..intCount]|;
    ShellSort(ints, intCount);
    row := ints[..intCount];
    DrawPairs(surface, ints, intCount, y, color, before, miny, rows);
  }

  datatype Outcome = ClipEmpty | TooFewVertices | NoMemory | Filled

  /** FilledPolygonColorMT. */
  method FilledPolygonColor(surface: Surface, vx: seq<int>, vy: seq<int>, color: Word, scratch: Scratch, granted: bool)
    returns (outcome: Outcome, ghost miny: int, ghost rows: seq<seq<int>>)
    requires surface.Valid() && surface.ClipFits() && |vx| == |vy| && scratch.Valid()
    modifies surface.data, scratch, scratch.ints
    ensures surface.Valid() && scratch.Valid()
    ensures outcome == if surface.clip.w == 0 || surface.clip.h == 0 then ClipEmpty
                       else if |vx| < 3 then TooFewVertices
                       else if scratch.ints == null then NoMemory
                       else Filled
    ensures outcome.Filled? ==> exists maxy :: RowRange(vy, miny, maxy) && |rows| == maxy + 1 - miny
                                               && AllCrossings(rows, vx, vy, miny, maxy)
    ensures !outcome.Filled? ==> rows == []
    ensures RowsPainted(color, old(surface.Content()), surface.Content(), surface.clip.Value(), miny, rows)
  {
    hide RowsPainted, RowCrossings;
    ghost var before, clip := surface.Content(), surface.clip.Value();
    miny, rows := 0, [];
    NoRowsPainted(color, before, clip, 0);
    if surface.clip.w == 0 || surface.clip.h == 0 {
      return ClipEmpty, 0, [];
    }
    var n := |vx|;
    if n < 3 {
      return TooFewVertices, 0, [];
    }
    var ok := scratch.Reserve(n, granted);
    if !ok {
      return NoMemory, 0, [];
    }
    outcome := Filled;
    var lowest, highest := FindRange(vy);
    miny := lowest;
    NoRowsPainted(color, before, clip, miny);
    var ints: array<int> := scratch.ints;
    var y := lowest;
    while y <= highest
      invariant lowest <= y <= highest + 1 && |rows| == y - lowest
      invariant surface.Valid() && surface.ClipFits() && surface.clip.Value() == clip
      invariant scratch.Valid() && scratch.ints == ints
      invariant AllCrossings(rows, vx, vy, lowest, highest)
      invariant RowsPainted(color, before, surface.Content(), clip, lowest, rows)
    {
      ghost var row := FillScanLine(surface, ints, vx, vy, y, highest, color, before, lowest, rows);
      rows := rows + [row];
      y := y + 1;
    }
  }

  /** What a filled polygon is: in its rows, a pixel whose centre is not within
      half a pixel of an edge is painted once if an odd number of edges crosses
      the row to its left, and not at all if the number is even. */
  lemma PolygonIsEvenOdd(rows: seq<seq<int>>, vx: seq<int>, vy: seq<int>, miny: int, maxy: int, color: Word, clip: Rect,
      x: int, y: int)
    requires 0 < |vx| == |vy| && RowRange(vy, miny, maxy) && |rows| == maxy + 1 - miny
    requires AllCrossings(rows, vx, vy, miny, maxy) && clip.Has(x, y)
    requires miny <= y <= maxy && Clear(CrossingsOf(vx, vy, y, maxy, |vx|), x)
    ensures Layers(color, clip, miny, rows, x, y) == CountLeft(CrossingsOf(vx, vy, y, maxy, |vx|), ONE * x) % 2
  {
    hide CrossingsOf, PairSpans, Covering, CountLeft;
    var stored, row := CrossingsOf(vx, vy, y, maxy, |vx|), rows[y - miny];
    assert RowCrossings(rows[y - miny], vx, vy, miny + (y - miny), maxy);
    CrossingsPairUp(vx, vy, y, maxy);
    ClearPermuted(stored, row, x);
    EvenOdd(row, color, x, y);
    CountPermuted(stored, row, ONE * x);
  }

  /** The same in terms of the polygon alone: a pixel that is further than half a
      pixel, and the rounding, from every edge that crosses its row is painted once
      if an odd number of them is to its left, and not at all otherwise. */
  lemma PolygonFollowsEdges(rows: seq<seq<int>>, vx: seq<int>, vy: seq<int>, miny: int, maxy: int, color: Word,
      clip: Rect, x: int, y: int)
    requires 0 < |vx| == |vy| && RowRange(vy, miny, maxy) && |rows| == maxy + 1 - miny
    requires AllCrossings(rows, vx, vy, miny, maxy) && clip.Has(x, y)
    requires miny <= y <= maxy && FarFromEdges(vx, vy, y, maxy, x)
    ensures Layers(color, clip, miny, rows, x, y) == EdgesLeft(vx, vy, y, maxy, x, |vx|) % 2
  {
    hide Layers, CrossingsOf, EdgesLeft, CountLeft, FarFromEdges, AllCrossings;
    CrossingsFollowEdges(vx, vy, y, maxy, x, |vx|);
    PolygonIsEvenOdd(rows, vx, vy, miny, maxy, color, clip, x, y);
  }

  lemma ClearPermuted(s: seq<int>, t: seq<int>, x: int)
    requires Permuted(s, t) && Clear(s, x)
    ensures Clear(t, x) && |s| == |t|
  {
    assert |s| == |multiset(s)| == |multiset(t)| == |t|;
    forall i | 0 <= i < |t|
      ensures Apart(t[i], x)
    {
      assert t[i] in multiset(s);
      var k :| 0 <= k < |s| && s[k] == t[i];
    }
  }

  /** Every span drawn ends inside the columns of the polygon. */
  lemma SpansStayInside(rows: seq<seq<int>>, vx: seq<int>, vy: seq<int>, miny: int, maxy: int, lo: int, hi: int,
      k: nat, i: nat)
    requires |vx| == |vy| && AllCrossings(rows, vx, vy, miny, maxy)
    requires forall j :: 0 <= j < |vx| ==> lo <= vx[j] <= hi
    requires k < |rows| && i + 1 < |rows[k]|
    ensures var s := SpanBetween(rows[k][i], rows[k][i + 1], miny + k); lo <= s.x1 <= hi && lo <= s.x2 <= hi
  {
    hide CrossingsOf;
    var stored, row := CrossingsOf(vx, vy, miny + k, maxy, |vx|), rows[k];
    assert RowCrossings(rows[k], vx, vy, miny + k, maxy);
    CrossingsInRange(vx, vy, miny + k, maxy, |vx|, lo, hi);
    assert row[i] in multiset(row) && row[i + 1] in multiset(row);
    assert row[i] in stored && row[i + 1] in stored;
    SpanInRange(row[i], row[i + 1], miny + k, lo, hi);
  }
}
