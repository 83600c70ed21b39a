/** Filling a rectangle with copies of a source rectangle. */
module Tiling {
  import opened Arithmetic
  import opened Kernels
  import opened Rects
  import opened Surfaces
  import opened BlitRows
  import opened Blit

  /** Where the first tile starts on one axis. */
  function FirstTile(dest: int, offset: int, tile: nat): int {
    dest + if offset > 0 then offset - tile else offset
  }

  /** Where the last tile ends: tiles are laid while one starts within extent of
      the first one. */
  function TilesEnd(first: int, extent: int, tile: nat): int
    requires tile > 0
  {
    first + if extent <= 0 then 0 else (extent + tile - 1) / tile * tile
  }

  /** A grid of tiles of the source rectangle rs over the destination rectangle
      rd, from (x0, y0) on. */
  datatype Grid = Grid(rs: Rect, rd: Rect, x0: int, y0: int) {
    predicate Ok() {
      rs.w > 0 && rs.h > 0 && x0 <= rd.x && y0 <= rd.y
    }

    function StopX(): int
      requires Ok()
    {
      TilesEnd(x0, rd.w, rs.w)
    }

    function StopY(): int
      requires Ok()
    {
      TilesEnd(y0, rd.h, rs.h)
    }

    /** The source pixel the pattern shows at a destination pixel. */
    function SourceX(x: int): int
      requires Ok()
    {
      rs.x + (x - x0) % rs.w
    }

    function SourceY(y: int): int
      requires Ok()
    {
      rs.y + (y - y0) % rs.h
    }

    /** Whether a pixel may be drawn at all: it lies in the destination and clip
        rectangles and its source pixel exists. */
    predicate Drawable(src: Image, clip: Rect, x: int, y: int)
      requires Ok()
    {
      rd.Has(x, y) && clip.Has(x, y) && src.Contains(SourceX(x), SourceY(y))
    }

    /** What one tile may touch. */
    function Tile(src: Image, clip: Rect, x: int, y: int): Rect {
      var r := Meet(rs, src.Bounds());
      Meet(Meet(r.(x := r.x - (rs.x - x), y := r.y - (rs.y - y)), clip), rd)
    }

    /** Whether a pixel is under a tile that has been drawn, once the rows of
        tiles above y and the tiles left of x in the row at y have been. */
    predicate Reached(y: int, x: int, px: int, py: int)
      requires Ok()
    {
      (py < y && px < StopX()) || (y <= py < y + rs.h && px < x)
    }
  }

  /** Every drawable pixel under the tiles drawn so far went through f once, with
      the source pixel of the pattern; nothing else changed. */
  ghost predicate Tiled(f: PixelFunction, g: Grid, src: Image, clip: Rect, before: Image, now: Image, y: int, x: int)
    requires g.Ok() && src.Valid() && before.Valid()
  {
    && now.SameShape(before)
    && (forall px, py :: now.Contains(px, py) ==> PixelTiled(f, g, src, clip, before, now, y, x, px, py))
    && (forall i :: 0 <= i < |now.data| && !now.IsPixelIndex(i) ==> now.data[i] == before.data[i])
  }

  ghost predicate PixelTiled(f: PixelFunction, g: Grid, src: Image, clip: Rect, before: Image, now: Image,
                             y: int, x: int, px: int, py: int)
    requires g.Ok() && src.Valid() && before.Valid() && now.SameShape(before) && now.Contains(px, py)
  {
    now.At(px, py) ==
      if g.Drawable(src, clip, px, py) && g.Reached(y, x, px, py)
      then f(src.At(g.SourceX(px), g.SourceY(py)), before.At(px, py))
      else before.At(px, py)
  }

  /** A grid whose source origin lies at two offsets into the destination rectangle. */
  predicate IsShifted(g: Grid, offsetX: int, offsetY: int) {
    && g.Ok() && 0 <= offsetX <= g.rs.w && 0 <= offsetY <= g.rs.h
    && g.x0 == FirstTile(g.rd.x, offsetX, g.rs.w) && g.y0 == FirstTile(g.rd.y, offsetY, g.rs.h)
  }

  /** The grid that BlitTiled lays: the source rectangle or the whole source, over
      the destination rectangle or the whole destination, at the offsets. */
  function GridOf(src: Surface, rectSource: Option<Rect>, dst: Surface, rectDest: Option<Rect>,
                  offsetX: int, offsetY: int): (g: Grid)
    requires SourceRect(src, rectSource).w > 0 && SourceRect(src, rectSource).h > 0
    reads src, dst
    ensures 0 <= offsetX <= g.rs.w && 0 <= offsetY <= g.rs.h ==> IsShifted(g, offsetX, offsetY)
    ensures if rectSource.Some? then g.rs == rectSource.value else g.rs == Rect(0, 0, src.width, src.height)
    ensures if rectDest.Some? then g.rd == rectDest.value else g.rd == Rect(0, 0, dst.width, dst.height)
  {
    var rs := SourceRect(src, rectSource);
    var rd := if rectDest.Some? then rectDest.value else dst.Bounds();
    Grid(rs, rd, FirstTile(rd.x, offsetX, rs.w), FirstTile(rd.y, offsetY, rs.h))
  }

  /** Offsets are taken from 0 to the tile size, as the source demands; tiles of
      no size would never end. Whatever the kernel, a pixel is drawn at most once. */
  method BlitTiled(src: Surface, rectSource: Option<Rect>, dst: Surface, rectDest: Option<Rect>,
                   offsetX: int, offsetY: int)
    returns (result: int)
    requires src.Valid() && dst.Valid() && src != dst && src.data != dst.data && dst.ClipFits()
    requires SourceRect(src, rectSource).w > 0 && SourceRect(src, rectSource).h > 0
    requires 0 <= offsetX <= SourceRect(src, rectSource).w && 0 <= offsetY <= SourceRect(src, rectSource).h
    modifies src`blitDest, src`blitKernel, dst.data
    ensures result == 0 && src.Valid() && dst.Valid()
    ensures var g := GridOf(src, rectSource, dst, rectDest, offsetX, offsetY);
            Tiled(old(BlitJob(src, dst, false)).Function(), g, src.Content(), dst.clip.Value(),
                  old(dst.Content()), dst.Content(), g.StopY(), g.x0)
  {
    hide Tiled, BlitJob;
    var g := GridOf(src, rectSource, dst, rectDest, offsetX, offsetY);
    ghost var job := BlitJob(src, dst, false);
    ghost var before, clip := dst.Content(), dst.clip.Value();
    TiledNothing(job.Function(), g, src.Content(), clip, before);
    ghost var row := 0;
    var y := g.y0;
    var yEnd := y + g.rd.h;
    while y < yEnd
      invariant src.Valid() && dst.Valid() && dst.ClipFits() && BlitJob(src, dst, false) == job
      invariant src.Content() == old(src.Content())
      invariant 0 <= row && y == g.y0 + row * g.rs.h && (row > 0 ==> y - g.rs.h < yEnd)
      invariant Tiled(job.Function(), g, src.Content(), clip, before, dst.Content(), y, g.x0)
    {
      TileRow(src, dst, g, y, row, before, job);
      NextRow(job.Function(), g, src.Content(), clip, before, dst.Content(), y);
      Distribute(row, 1, g.rs.h);
      y := y + g.rs.h;
      row := row + 1;
    }
    EndOfTiles(g.y0, g.rd.h, g.rs.h, row);
    result := 0;
  }

  /** One row of tiles. */
  method TileRow(src: Surface, dst: Surface, g: Grid, y: int, ghost row: nat, ghost before: Image, ghost job: Job)
    requires src.Valid() && dst.Valid() && src != dst && src.data != dst.data && dst.ClipFits()
    requires g.Ok() && y == g.y0 + row * g.rs.h && before.Valid() && BlitJob(src, dst, false) == job
    requires Tiled(job.Function(), g, src.Content(), dst.clip.Value(), before, dst.Content(), y, g.x0)
    modifies src`blitDest, src`blitKernel, dst.data
    ensures src.Valid() && dst.Valid() && dst.ClipFits() && BlitJob(src, dst, false) == job
    ensures src.Content() == old(src.Content())
    ensures Tiled(job.Function(), g, src.Content(), dst.clip.Value(), before, dst.Content(), y, g.StopX())
  {
    hide Tiled, Blitted, Drawn, Shown, Meet;
    ghost var column := 0;
    var x := g.x0;
    var xEnd := x + g.rd.w;
    while x < xEnd
      invariant src.Valid() && dst.Valid() && dst.ClipFits() && BlitJob(src, dst, false) == job
      invariant src.Content() == old(src.Content())
      invariant 0 <= column && x == g.x0 + column * g.rs.w && (column > 0 ==> x - g.rs.w < xEnd)
      invariant Tiled(job.Function(), g, src.Content(), dst.clip.Value(), before, dst.Content(), y, x)
    {
      ghost var mid := dst.Content();
      var tile := Rect(x, y, g.rs.w, g.rs.h);
      var r := Blit.Blit(src, Some(g.rs), dst, Some(tile), Some(g.rd), false);
      TileDrawn(job.Function(), g, src.Content(), dst.clip.Value(), before, mid, dst.Content(), y, x, row, column);
      Distribute(column, 1, g.rs.w);
      x := x + g.rs.w;
      column := column + 1;
    }
    EndOfTiles(g.x0, g.rd.w, g.rs.w, column);
  }

  // ----- the steps -----

  lemma TiledNothing(f: PixelFunction, g: Grid, src: Image, clip: Rect, image: Image)
    requires g.Ok() && src.Valid() && image.Valid()
    ensures Tiled(f, g, src, clip, image, image, g.y0, g.x0)
  {
  }

  lemma NextRow(f: PixelFunction, g: Grid, src: Image, clip: Rect, before: Image, now: Image, y: int)
    requires g.Ok() && src.Valid() && before.Valid()
    requires Tiled(f, g, src, clip, before, now, y, g.StopX())
    ensures Tiled(f, g, src, clip, before, now, y + g.rs.h, g.x0)
  {
    forall px, py | now.Contains(px, py)
      ensures PixelTiled(f, g, src, clip, before, now, y + g.rs.h, g.x0, px, py)
    {
      assert PixelTiled(f, g, src, clip, before, now, y, g.StopX(), px, py);
    }
  }

  /** A tile touches exactly its drawable pixels, and none that was reached before. */
  lemma TileHas(g: Grid, src: Image, clip: Rect, y: int, x: int, row: nat, column: nat, px: int, py: int)
    requires g.Ok() && x == g.x0 + column * g.rs.w && y == g.y0 + row * g.rs.h
    ensures var inTile := x <= px < x + g.rs.w && y <= py < y + g.rs.h;
            && (g.Tile(src, clip, x, y).Has(px, py) <==> inTile && g.Drawable(src, clip, px, py))
            && (inTile ==> g.SourceX(px) == px + (g.rs.x - x) && g.SourceY(py) == py + (g.rs.y - y))
  {
    if x <= px < x + g.rs.w && y <= py < y + g.rs.h {
      RowColumn(g.rs.w, column, px - x);
      RowColumn(g.rs.h, row, py - y);
    }
  }

  lemma TileDrawn(f: PixelFunction, g: Grid, src: Image, clip: Rect, before: Image, mid: Image, now: Image,
                  y: int, x: int, row: nat, column: nat)
    requires g.Ok() && src.Valid() && before.Valid() && mid.Valid()
    requires x == g.x0 + column * g.rs.w && y == g.y0 + row * g.rs.h
    requires Tiled(f, g, src, clip, before, mid, y, x)
    requires Blitted(f, src, g.rs.x - x, g.rs.y - y, mid, now, g.Tile(src, clip, x, y))
    ensures Tiled(f, g, src, clip, before, now, y, x + g.rs.w)
  {
    forall px, py | now.Contains(px, py)
      ensures PixelTiled(f, g, src, clip, before, now, y, x + g.rs.w, px, py)
    {
      hide Grid.Tile;
      assert PixelTiled(f, g, src, clip, before, mid, y, x, px, py);
      assert PixelBlitted(f, src, g.rs.x - x, g.rs.y - y, mid, now, g.Tile(src, clip, x, y), px, py);
      TileHas(g, src, clip, y, x, row, column, px, py);
    }
  }

  lemma EndOfTiles(first: int, extent: int, tile: nat, n: nat)
    requires tile > 0 && first + n * tile >= first + extent
    requires n > 0 ==> first + n * tile - tile < first + extent
    ensures first + n * tile == TilesEnd(first, extent, tile)
  {
    if extent <= 0 {
      if n > 0 {
        LessProduct(tile, 1, n);
      }
    } else {
      DivModUnique(extent + tile - 1, tile, n, extent + tile - 1 - n * tile);
    }
  }

  // ----- what the pattern covers -----

  /** The pattern has the source origin at the given offset into the destination
      rectangle, whatever the kernel and the coverage. */
  lemma PatternPhase(dest: int, offset: int, tile: nat, p: int)
    requires tile > 0
    ensures (p - FirstTile(dest, offset, tile)) % tile == (p - dest - offset) % tile
  {
    var n := p - dest - offset;
    if offset > 0 {
      RowColumn(tile, n / tile, n % tile);
      Distribute(n / tile, 1, tile);
      RowColumn(tile, n / tile + 1, n % tile);
    }
  }

  predicate Under(p: int, first: int, extent: int, tile: nat)
    requires tile > 0
  {
    p < TilesEnd(first, extent, tile)
  }

  predicate Covers(extent: int, offset: int, tile: nat)
    requires tile > 0
  {
    offset == 0 || offset == tile || 0 < extent % tile <= offset
  }

  /** The end of the loop is computed from the shifted start. So the tiles reach
      the far edge of the destination exactly when there is no shift, or when
      what the last tile has over makes up for it. */
  lemma CoversAxis(dest: int, extent: int, offset: int, tile: nat)
    requires tile > 0 && 0 <= offset <= tile
    ensures (forall p :: dest <= p < dest + extent ==> Under(p, FirstTile(dest, offset, tile), extent, tile))
       <==> extent <= 0 || Covers(extent, offset, tile)
  {
    var stop := TilesEnd(FirstTile(dest, offset, tile), extent, tile);
    if extent > 0 {
      var q, r := extent / tile, extent % tile;
      assert extent == q * tile + r;
      Distribute(q, 1, tile);
      if r == 0 {
        DivModUnique(extent + tile - 1, tile, q, tile - 1);
      } else {
        DivModUnique(extent + tile - 1, tile, q + 1, r - 1);
      }
      if stop < dest + extent {
        assert !Under(dest + extent - 1, FirstTile(dest, offset, tile), extent, tile);
      }
    }
  }

  /** The tiles reach every pixel of the destination rectangle exactly if both
      axes are covered. */
  lemma CoversRectangle(g: Grid, offsetX: int, offsetY: int)
    requires IsShifted(g, offsetX, offsetY) && !g.rd.Empty()
    ensures (forall px, py :: g.rd.Has(px, py) ==> g.Reached(g.StopY(), g.x0, px, py))
       <==> Covers(g.rd.w, offsetX, g.rs.w) && Covers(g.rd.h, offsetY, g.rs.h)
  {
    hide Covers, TilesEnd, FirstTile;
    CoversAxis(g.rd.x, g.rd.w, offsetX, g.rs.w);
    CoversAxis(g.rd.y, g.rd.h, offsetY, g.rs.h);
    if !Covers(g.rd.w, offsetX, g.rs.w) {
      var px :| g.rd.x <= px < g.rd.x + g.rd.w && !Under(px, g.x0, g.rd.w, g.rs.w);
      assert g.rd.Has(px, g.rd.y) && !g.Reached(g.StopY(), g.x0, px, g.rd.y);
    }
    if !Covers(g.rd.h, offsetY, g.rs.h) {
      var py :| g.rd.y <= py < g.rd.y + g.rd.h && !Under(py, g.y0, g.rd.h, g.rs.h);
      assert g.rd.Has(g.rd.x, py) && !g.Reached(g.StopY(), g.x0, g.rd.x, py);
    }
    forall px, py | g.rd.Has(px, py)
      ensures g.Reached(g.StopY(), g.x0, px, py)
           <==> Under(px, g.x0, g.rd.w, g.rs.w) && Under(py, g.y0, g.rd.h, g.rs.h)
    {
    }
  }

  lemma SourceIsPhase(g: Grid, offsetX: int, offsetY: int, px: int, py: int)
    requires IsShifted(g, offsetX, offsetY)
    ensures g.SourceX(px) == g.rs.x + (px - g.rd.x - offsetX) % g.rs.w
    ensures g.SourceY(py) == g.rs.y + (py - g.rd.y - offsetY) % g.rs.h
  {
    hide FirstTile;
    PatternPhase(g.rd.x, offsetX, g.rs.w, px);
    PatternPhase(g.rd.y, offsetY, g.rs.h, py);
  }

  /** What BlitTiled leaves where both axes are covered, as they are without
      offsets: every pixel of the destination rectangle that the clip rectangle
      lets through becomes the pixel function of the source pixel of its phase. */
  lemma EveryPixelTiled(f: PixelFunction, g: Grid, src: Image, clip: Rect, before: Image, now: Image,
                        offsetX: int, offsetY: int, px: int, py: int, sx: int, sy: int)
    requires IsShifted(g, offsetX, offsetY) && src.Valid() && before.Valid()
    requires Covers(g.rd.w, offsetX, g.rs.w) && Covers(g.rd.h, offsetY, g.rs.h)
    requires Tiled(f, g, src, clip, before, now, g.StopY(), g.x0)
    requires now.Contains(px, py) && g.rd.Has(px, py) && clip.Has(px, py)
    requires sx == g.rs.x + (px - g.rd.x - offsetX) % g.rs.w && sy == g.rs.y + (py - g.rd.y - offsetY) % g.rs.h
    requires src.Contains(sx, sy)
    ensures now.At(px, py) == f(src.At(sx, sy), before.At(px, py))
  {
    hide Covers, Grid.SourceX, Grid.SourceY, Grid.Reached, Grid.StopY, PixelTiled;
    CoversRectangle(g, offsetX, offsetY);
    SourceIsPhase(g, offsetX, offsetY, px, py);
    assert g.Reached(g.StopY(), g.x0, px, py);
    assert PixelTiled(f, g, src, clip, before, now, g.StopY(), g.x0, px, py);
    ReachedIsTiled(f, g, src, clip, before, now, g.StopY(), g.x0, px, py);
  }

  lemma ReachedIsTiled(f: PixelFunction, g: Grid, src: Image, clip: Rect, before: Image, now: Image,
                       y: int, x: int, px: int, py: int)
    requires g.Ok() && src.Valid() && before.Valid() && now.SameShape(before) && now.Contains(px, py)
    requires PixelTiled(f, g, src, clip, before, now, y, x, px, py)
    requires g.Drawable(src, clip, px, py) && g.Reached(y, x, px, py)
    ensures now.At(px, py) == f(src.At(g.SourceX(px), g.SourceY(py)), before.At(px, py))
  {
  }

  /** Shifting a pattern by half a tile over one tile's width leaves the far half
      of the destination undrawn. */
  lemma ShiftedTileLeavesGap()
    ensures TilesEnd(FirstTile(0, 4, 8), 8, 8) == 4
  {
  }
}
