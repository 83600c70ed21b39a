/** Rectangles with a corner and a size, as the rasteriser passes them around. */
module Rects {

  datatype Rect = Rect(x: int, y: int, w: int, h: int) {
    /** The pixels of the rectangle; a side of zero or less leaves none. */
    predicate Has(px: int, py: int) {
      x <= px < x + w && y <= py < y + h
    }

    predicate Empty() {
      w <= 0 || h <= 0
    }

    predicate Inside(outer: Rect) {
      outer.x <= x && outer.y <= y && x + w <= outer.x + outer.w && y + h <= outer.y + outer.h
    }
  }

  function Max(a: int, b: int): int {
    if a < b then b else a
  }

  function Min(a: int, b: int): int {
    if a < b then a else b
  }

  /** The common part of two rectangles; a side may come out negative. */
  function Meet(a: Rect, b: Rect): Rect {
    var x, y := Max(a.x, b.x), Max(a.y, b.y);
    Rect(x, y, Min(a.x + a.w, b.x + b.w) - x, Min(a.y + a.h, b.y + b.h) - y)
  }

  lemma MeetHas(a: Rect, b: Rect, px: int, py: int)
    ensures Meet(a, b).Has(px, py) <==> a.Has(px, py) && b.Has(px, py)
  {
  }

  lemma MeetOfEmpty(a: Rect, b: Rect)
    requires a.Empty()
    ensures Meet(a, b).Empty()
  {
  }

  datatype Option<+T> = None | Some(value: T)

  /** A rectangle the source passes by reference. */
  class RectVar {
    var x: int
    var y: int
    var w: int
    var h: int

    constructor (r: Rect)
      ensures Value() == r
    {
      x, y, w, h := r.x, r.y, r.w, r.h;
    }

    function Value(): Rect
      reads this
    {
      Rect(x, y, w, h)
    }

    /** Cuts r down to this rectangle, or makes it empty if nothing is common;
        an r that already lies inside stays as it is. */
    method ConstrainRect(r: RectVar)
      requires r != this
      modifies r
      ensures r.Value().Empty() <==> Meet(old(r.Value()), Value()).Empty()
      ensures !r.Value().Empty() ==> r.Value() == Meet(old(r.Value()), Value())
      ensures old(r.Value()).Inside(Value()) && old(r.w) >= 0 && old(r.h) >= 0 ==> r.Value() == old(r.Value())
    {
      if r.x > x + w || r.x + r.w < x {
        r.w := 0;
        return;
      }
      if r.y > y + h || r.y + r.h < y {
        r.h := 0;
        return;
      }
      if r.x < x {
        r.w := r.w - (x - r.x);
        r.x := x;
      }
      if r.x + r.w > x + w {
        r.w := r.w - (r.x + r.w - (x + w));
      }
      if r.y < y {
        r.h := r.h - (y - r.y);
        r.y := y;
      }
      if r.y + r.h > y + h {
        r.h := r.h - (r.y + r.h - (y + h));
      }
    }
  }

  /** The common part of a and b goes to result, which may be a or b itself. */
  method IntersectRect(a: RectVar, b: RectVar, result: RectVar) returns (some: bool)
    modifies result
    ensures var m := Meet(old(a.Value()), old(b.Value()));
            result.Value() == m.(w := Max(m.w, 0), h := Max(m.h, 0)) && (some <==> !m.Empty())
  {
    var aMin := a.x;
    var aMax := aMin + a.w;
    var bMin := b.x;
    var bMax := bMin + b.w;
    if bMin > aMin {
      aMin := bMin;
    }
    result.x := aMin;
    if bMax < aMax {
      aMax := bMax;
    }
    result.w := if aMax - aMin > 0 then aMax - aMin else 0;

    aMin := a.y;
    aMax := aMin + a.h;
    bMin := b.y;
    bMax := bMin + b.h;
    if bMin > aMin {
      aMin := bMin;
    }
    result.y := aMin;
    if bMax < aMax {
      aMax := bMax;
    }
    result.h := if aMax - aMin > 0 then aMax - aMin else 0;

    some := result.w != 0 && result.h != 0;
  }
}
