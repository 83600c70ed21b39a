/** Quarter turns of a 32-bit surface. */
module Rotate {
  import opened Arithmetic
  import opened PixelFormats
  import opened Surfaces

  // ----- what a rotated image shows -----

  /** Where the pixel (x, y) of an image of w by h comes to lie after a number
      of clockwise quarter turns. */
  function Turned(turns: nat, w: int, h: int, x: int, y: int): (int, int) {
    if turns == 0 then (x, y)
    else if turns == 1 then (h - 1 - y, x)
    else if turns == 2 then (w - 1 - x, h - 1 - y)
    else (y, w - 1 - x)
  }

  function TurnedWidth(turns: nat, w: int, h: int): int {
    if turns % 2 == 1 then h else w
  }

  function TurnedHeight(turns: nat, w: int, h: int): int {
    if turns % 2 == 1 then w else h
  }

  /** b shows a turned clockwise. */
  ghost predicate IsRotation(turns: nat, a: Image, b: Image)
    requires a.Valid() && b.Valid() && turns < 4
  {
    && b.width == TurnedWidth(turns, a.width, a.height)
    && b.height == TurnedHeight(turns, a.width, a.height)
    && forall x, y :: a.Contains(x, y) ==> PixelTurned(turns, a, b, x, y)
  }

  ghost predicate PixelTurned(turns: nat, a: Image, b: Image, x: int, y: int)
    requires a.Valid() && b.Valid() && turns < 4 && a.Contains(x, y)
    requires b.width == TurnedWidth(turns, a.width, a.height) && b.height == TurnedHeight(turns, a.width, a.height)
  {
    var t := Turned(turns, a.width, a.height, x, y);
    b.At(t.0, t.1) == a.At(x, y)
  }

  /** The remaining turns to four bring every pixel back to where it was. This
      holds for any number of turns, so turning is a bijection of the pixels. */
  lemma TurningBack(turns: nat, w: int, h: int, x: int, y: int)
    requires turns < 4 && 0 <= x < w && 0 <= y < h
    ensures var t, w', h' := Turned(turns, w, h, x, y), TurnedWidth(turns, w, h), TurnedHeight(turns, w, h);
            && 0 <= t.0 < w' && 0 <= t.1 < h'
            && TurnedWidth((4 - turns) % 4, w', h') == w && TurnedHeight((4 - turns) % 4, w', h') == h
            && Turned((4 - turns) % 4, w', h', t.0, t.1) == (x, y)
  {
  }

  /** A quarter turn is clockwise: what was beside a pixel comes to lie below it,
      what was below it comes to lie to its left, and the upper left corner becomes
      the upper right one. No turn leaves everything where it is. */
  lemma Clockwise(w: int, h: int, x: int, y: int)
    ensures var t, beside, below := Turned(1, w, h, x, y), Turned(1, w, h, x + 1, y), Turned(1, w, h, x, y + 1);
            && beside == (t.0, t.1 + 1) && below == (t.0 - 1, t.1)
            && Turned(1, w, h, 0, 0) == (TurnedWidth(1, w, h) - 1, 0)
    ensures Turned(0, w, h, x, y) == (x, y) && TurnedWidth(0, w, h) == w && TurnedHeight(0, w, h) == h
  {
  }

  /** Turning twice adds the turns. */
  lemma RotationsAdd(s: nat, t: nat, a: Image, b: Image, c: Image)
    requires a.Valid() && b.Valid() && c.Valid() && s < 4 && t < 4
    requires IsRotation(s, a, b) && IsRotation(t, b, c)
    ensures IsRotation((s + t) % 4, a, c)
  {
    forall x, y | a.Contains(x, y)
      ensures PixelTurned((s + t) % 4, a, c, x, y)
    {
      var p := Turned(s, a.width, a.height, x, y);
      assert PixelTurned(s, a, b, x, y);
      assert PixelTurned(t, b, c, p.0, p.1);
    }
  }

  /** Two images that show the same. */
  ghost predicate SamePicture(a: Image, b: Image)
    requires a.Valid() && b.Valid()
  {
    a.width == b.width && a.height == b.height && forall x, y :: a.Contains(x, y) ==> a.At(x, y) == b.At(x, y)
  }

  /** Every pixel of the turned picture comes from one of the original. */
  lemma ComesFrom(turns: nat, w: int, h: int, u: int, v: int) returns (x: int, y: int)
    requires turns < 4 && 0 <= u < TurnedWidth(turns, w, h) && 0 <= v < TurnedHeight(turns, w, h)
    ensures 0 <= x < w && 0 <= y < h && Turned(turns, w, h, x, y) == (u, v)
  {
    var back := Turned((4 - turns) % 4, TurnedWidth(turns, w, h), TurnedHeight(turns, w, h), u, v);
    x, y := back.0, back.1;
  }

  /** The number of turns and the original determine the result. */
  lemma RotationIsUnique(turns: nat, a: Image, b: Image, c: Image)
    requires a.Valid() && b.Valid() && c.Valid() && turns < 4 && IsRotation(turns, a, b) && IsRotation(turns, a, c)
    ensures SamePicture(b, c)
  {
    hide Turned, TurnedWidth, TurnedHeight;
    forall u, v | b.Contains(u, v)
      ensures b.At(u, v) == c.At(u, v)
    {
      var x, y := ComesFrom(turns, a.width, a.height, u, v);
      assert PixelTurned(turns, a, b, x, y) && PixelTurned(turns, a, c, x, y);
    }
  }

  lemma NoTurnIsSame(a: Image, b: Image)
    requires a.Valid() && b.Valid() && IsRotation(0, a, b)
    ensures SamePicture(a, b)
  {
    forall x, y | a.Contains(x, y)
      ensures a.At(x, y) == b.At(x, y)
    {
      assert PixelTurned(0, a, b, x, y);
    }
  }

  /** Four quarter turns restore every pixel. */
  lemma FourTurnsRestore(a: Image, b: Image, c: Image, d: Image, e: Image)
    requires a.Valid() && b.Valid() && c.Valid() && d.Valid() && e.Valid()
    requires IsRotation(1, a, b) && IsRotation(1, b, c) && IsRotation(1, c, d) && IsRotation(1, d, e)
    ensures SamePicture(a, e)
  {
    RotationsAdd(1, 1, a, b, c);
    RotationsAdd(2, 1, a, c, d);
    RotationsAdd(3, 1, a, d, e);
    NoTurnIsSame(a, e);
  }

  /** One turn and then three restore it too, and one turn twice is the case of
      two turns. */
  lemma TurnsCombine(a: Image, b: Image, c: Image, d: Image)
    requires a.Valid() && b.Valid() && c.Valid() && d.Valid() && IsRotation(1, a, b)
    ensures IsRotation(3, b, c) ==> SamePicture(a, c)
    ensures IsRotation(1, b, c) && IsRotation(2, a, d) ==> SamePicture(c, d)
  {
    if IsRotation(3, b, c) {
      RotationsAdd(1, 3, a, b, c);
      NoTurnIsSame(a, c);
    }
    if IsRotation(1, b, c) && IsRotation(2, a, d) {
      RotationsAdd(1, 1, a, b, c);
      RotationIsUnique(2, a, c, d);
    }
  }

  // ----- the loops -----

  /** The number of turns between 0 and 3 that the source works with. */
  method NormalizeTurns(clockwiseTurns: int) returns (turns: nat)
    ensures turns == clockwiseTurns % 4
  {
    var n := clockwiseTurns;
    while n < 0
      invariant n % 4 == clockwiseTurns % 4
    {
      n := n + 4;
    }
    turns := n % 4;
  }

  /** The pixels in front of (x, y) in reading order have been copied. */
  ghost predicate Copied(turns: nat, a: Image, b: Image, x: int, y: int)
    requires a.Valid() && b.Valid() && turns < 4
    requires b.width == TurnedWidth(turns, a.width, a.height) && b.height == TurnedHeight(turns, a.width, a.height)
  {
    forall px, py :: a.Contains(px, py) && (py < y || (py == y && px < x)) ==> PixelTurned(turns, a, b, px, py)
  }

  lemma PixelCopied(turns: nat, a: Image, b: Image, b': Image, x: int, y: int)
    requires a.Valid() && b.Valid() && turns < 4 && a.Contains(x, y)
    requires b.width == TurnedWidth(turns, a.width, a.height) && b.height == TurnedHeight(turns, a.width, a.height)
    requires Copied(turns, a, b, x, y)
    requires var t := Turned(turns, a.width, a.height, x, y);
             var i := b.Index(t.0, t.1);
             0 <= i < |b.data| && b' == b.(data := b.data[i := a.At(x, y)])
    ensures b'.Valid() && b'.SameShape(b)
    ensures forall next :: next == x + 1 ==> Copied(turns, a, b', next, y)
  {
    var t := Turned(turns, a.width, a.height, x, y);
    var next := x + 1;
    forall px, py | a.Contains(px, py) && (py < y || (py == y && px < next))
      ensures PixelTurned(turns, a, b', px, py)
    {
      var p := Turned(turns, a.width, a.height, px, py);
      b.IndexInData(p.0, p.1);
      if px != x || py != y {
        assert PixelTurned(turns, a, b, px, py);
        if b.Index(p.0, p.1) == b.Index(t.0, t.1) {
          SamePosition(b.pitch, p.1, p.0, t.1, t.0);
        }
      }
    }
  }

  lemma RowCopied(turns: nat, a: Image, b: Image, y: int)
    requires a.Valid() && b.Valid() && turns < 4
    requires b.width == TurnedWidth(turns, a.width, a.height) && b.height == TurnedHeight(turns, a.width, a.height)
    requires Copied(turns, a, b, a.width, y)
    ensures forall next :: next == y + 1 ==> Copied(turns, a, b, 0, next)
  {
  }

  /** Where the target pointer starts in a row, and how far it moves for the
      next column. */
  function RowTarget(turns: nat, a: Image, b: Image, y: int): int {
    if turns == 1 then b.width - y - 1
    else if turns == 2 then (b.height - y - 1) * b.pitch + (b.width - 1)
    else y + (b.height - 1) * b.pitch
  }

  function ColumnStep(turns: nat, b: Image): int {
    if turns == 1 then b.pitch else if turns == 2 then -1 else -b.pitch
  }

  lemma TargetIs(turns: nat, a: Image, b: Image, x: nat, y: nat)
    requires a.Valid() && b.Valid() && 0 < turns < 4 && a.Contains(x, y)
    requires b.width == TurnedWidth(turns, a.width, a.height) && b.height == TurnedHeight(turns, a.width, a.height)
    ensures var t := Turned(turns, a.width, a.height, x, y);
            0 <= RowTarget(turns, a, b, y) + x * ColumnStep(turns, b) == b.Index(t.0, t.1) < |b.data|
  {
    var t := Turned(turns, a.width, a.height, x, y);
    b.IndexInData(t.0, t.1);
    if turns == 3 {
      Distribute(b.height - 1, x, b.pitch);
    }
  }

  lemma RowTargetIs(turns: nat, a: Image, b: Image, y: int)
    ensures turns == 1 ==> RowTarget(turns, a, b, y) == b.width - y - 1
    ensures turns == 2 ==> RowTarget(turns, a, b, y) == (b.height - y - 1) * b.pitch + (b.width - 1)
    ensures turns == 3 ==> RowTarget(turns, a, b, y) == y + (b.height - 1) * b.pitch
  {
  }

  /** One of the three loops of the rotation. */
  method CopyTurned(src: Surface, dst: Surface, turns: nat)
    requires src.Valid() && dst.Valid() && src.data != dst.data && 0 < turns < 4
    requires dst.width == TurnedWidth(turns, src.width, src.height)
    requires dst.height == TurnedHeight(turns, src.width, src.height)
    modifies dst.data
    ensures dst.Valid()
    ensures IsRotation(turns, src.Content(), dst.Content())
  {
    hide Copied, RowTarget, ColumnStep;
    ghost var a, shape := src.Content(), dst.Content();
    NothingCopied(turns, a, shape);
    for row := 0 to src.height
      invariant dst.Valid() && src.Content() == a && dst.Content().SameShape(shape)
      invariant Copied(turns, a, dst.Content(), 0, row)
    {
      CopyRow(src, dst, turns, row);
    }
    AllCopied(turns, a, dst.Content());
  }

  /** A row of the source, pixel by pixel, with both pointers. */
  method CopyRow(src: Surface, dst: Surface, turns: nat, row: nat)
    requires src.Valid() && dst.Valid() && src.data != dst.data && 0 < turns < 4 && row < src.height
    requires dst.width == TurnedWidth(turns, src.width, src.height)
    requires dst.height == TurnedHeight(turns, src.width, src.height)
    requires Copied(turns, src.Content(), dst.Content(), 0, row)
    modifies dst.data
    ensures dst.Valid() && dst.Content().SameShape(old(dst.Content()))
    ensures Copied(turns, src.Content(), dst.Content(), 0, row + 1)
  {
    hide Copied, RowTarget;
    ghost var a, shape := src.Content(), dst.Content();
    var dpitch := dst.stride / 4;
    var srcBuf, dstBuf := row * (src.stride / 4), 0;
    if turns == 1 {
      dstBuf := dst.width - row - 1;
    } else if turns == 2 {
      dstBuf := (dst.height - row - 1) * dpitch + (dst.width - 1);
    } else {
      dstBuf := row + (dst.height - 1) * dpitch;
    }
    RowTargetIs(turns, a, shape, row);
    for col := 0 to src.width
      invariant dst.Valid() && src.Content() == a && dst.Content().SameShape(shape)
      invariant srcBuf == row * a.pitch + col
      invariant dstBuf == RowTarget(turns, a, shape, row) + col * ColumnStep(turns, shape)
      invariant Copied(turns, a, dst.Content(), col, row)
    {
      a.IndexInData(col, row);
      ghost var b := dst.Content();
      SameTarget(turns, a, b, shape, row);
      TargetIs(turns, a, b, col, row);
      dst.data[dstBuf] := src.data[srcBuf];
      PixelCopied(turns, a, b, dst.Content(), col, row);
      srcBuf := srcBuf + 1;
      Distribute(col, 1, ColumnStep(turns, shape));
      if turns == 1 {
        dstBuf := dstBuf + dpitch;
      } else if turns == 2 {
        dstBuf := dstBuf - 1;
      } else {
        dstBuf := dstBuf - dpitch;
      }
    }
    RowCopied(turns, a, dst.Content(), row);
  }

  lemma SameTarget(turns: nat, a: Image, b: Image, c: Image, y: int)
    requires b.SameShape(c)
    ensures RowTarget(turns, a, b, y) == RowTarget(turns, a, c, y) && ColumnStep(turns, b) == ColumnStep(turns, c)
  {
  }

  lemma NothingCopied(turns: nat, a: Image, b: Image)
    requires a.Valid() && b.Valid() && turns < 4
    requires b.width == TurnedWidth(turns, a.width, a.height) && b.height == TurnedHeight(turns, a.width, a.height)
    ensures Copied(turns, a, b, 0, 0)
  {
  }

  lemma AllCopied(turns: nat, a: Image, b: Image)
    requires a.Valid() && b.Valid() && turns < 4
    requires b.width == TurnedWidth(turns, a.width, a.height) && b.height == TurnedHeight(turns, a.width, a.height)
    requires Copied(turns, a, b, 0, a.height)
    ensures IsRotation(turns, a, b)
  {
  }

  /** RotateSurface90Degrees. A multiple of four turns gives no surface, and the
      one that was handed over is destroyed: the source calls this case not
      completed. */
  method RotateSurface90Degrees(surface: Surface, clockwiseTurns: int) returns (result: Surface?, destroyed: bool)
    requires surface.Valid() && FormatOf(surface.format.kind).bytesPerPixel == 4
    ensures result == null <==> clockwiseTurns % 4 == 0
    ensures destroyed <==> clockwiseTurns % 4 == 0
    ensures result != null ==>
      && fresh(result) && fresh(result.data) && result.Valid() && result.format == FormatOf(surface.format.kind)
      && IsRotation(clockwiseTurns % 4, surface.Content(), result.Content())
  {
    var turns := NormalizeTurns(clockwiseTurns);
    var newWidth := if turns % 2 != 0 then surface.height else surface.width;
    var newHeight := if turns % 2 != 0 then surface.width else surface.height;
    destroyed := false;
    result := new Surface(surface.format.kind, newWidth, newHeight);
    if turns != 0 {
      CopyTurned(surface, result, turns);
    } else {
      result, destroyed := null, true;
    }
  }
}
