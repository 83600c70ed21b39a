/** Copying a rectangle of a surface to another place in the same surface, byte
    by byte. */
module OverlapCopy {
  import opened Arithmetic
  import opened Words
  import opened Rects

  /** revcpy: from the last byte to the first. Right when the destination does
      not start below the source, or does not reach it. */
  method RevCpy(mem: array<Byte>, dst: nat, src: nat, len: nat)
    requires dst + len <= mem.Length && src + len <= mem.Length
    requires src <= dst || dst + len <= src
    modifies mem
    ensures forall i :: 0 <= i < mem.Length ==>
      mem[i] == if dst <= i < dst + len then old(mem[i - dst + src]) else old(mem[i])
  {
    var left := len;
    while left > 0
      invariant 0 <= left <= len
      invariant forall i :: 0 <= i < mem.Length ==>
        mem[i] == if dst + left <= i < dst + len then old(mem[i - dst + src]) else old(mem[i])
    {
      left := left - 1;
      mem[dst + left] := mem[src + left];
    }
  }

  /** The C library's memmove: as if through a copy. */
  method MemMove(mem: array<Byte>, dst: nat, src: nat, len: nat)
    requires dst + len <= mem.Length && src + len <= mem.Length
    modifies mem
    ensures forall i :: 0 <= i < mem.Length ==>
      mem[i] == if dst <= i < dst + len then old(mem[i - dst + src]) else old(mem[i])
  {
    var copy := mem[src..src + len];
    for k := 0 to len
      invariant forall i :: 0 <= i < mem.Length ==>
        mem[i] == if dst <= i < dst + k then copy[i - dst] else old(mem[i])
    {
      mem[dst + k] := copy[k];
    }
  }

  /** A byte of one row of a block whose rows of w bytes start stride apart. */
  predicate InRow(i: int, start: int, stride: nat, w: nat, row: int) {
    start + row * stride <= i < start + row * stride + w
  }

  predicate InRows(i: int, start: int, stride: nat, w: nat, lo: int, hi: int) {
    exists row :: lo <= row < hi && InRow(i, start, stride, w, row)
  }

  /** The rows lo to hi hold what lay at the same distance before; all else is as before. */
  ghost predicate Moved(before: seq<Byte>, now: seq<Byte>, dst: nat, src: nat, stride: nat, w: nat, lo: int, hi: int) {
    && |now| == |before|
    && forall i :: 0 <= i < |now| ==> ByteMoved(before, now, dst, src, stride, w, lo, hi, i)
  }

  predicate ByteMoved(before: seq<Byte>, now: seq<Byte>, dst: nat, src: nat, stride: nat, w: nat,
                      lo: int, hi: int, i: int)
    requires 0 <= i < |now| == |before|
  {
    if InRows(i, dst, stride, w, lo, hi)
    then 0 <= i - dst + src < |before| && now[i] == before[i - dst + src]
    else now[i] == before[i]
  }

  /** One row copied. */
  ghost predicate RowMoved(before: seq<Byte>, now: seq<Byte>, dst: nat, src: nat, w: nat) {
    && |now| == |before| && src + w <= |before|
    && forall i {:trigger now[i]} :: 0 <= i < |now| ==>
         now[i] == if dst <= i < dst + w then before[i - dst + src] else before[i]
  }

  /** BlitCopyOverlap on the memory of one surface: both blocks have the
      surface's stride. Rows go up when the destination comes first in memory,
      else down, last row first. */
  method BlitCopyOverlap(mem: array<Byte>, dst: nat, src: nat, stride: nat, w: nat, h: nat)
    requires 0 < w <= stride && h > 0
    requires dst + (h - 1) * stride + w <= mem.Length && src + (h - 1) * stride + w <= mem.Length
    modifies mem
    ensures Moved(old(mem[..]), mem[..], dst, src, stride, w, 0, h)
  {
    if dst < src {
      CopyUp(mem, dst, src, stride, w, h);
    } else {
      CopyDown(mem, dst, src, stride, w, h);
    }
  }

  lemma RowsFit(src: nat, dst: nat, stride: nat, row: nat, h: nat, w: nat, length: nat)
    requires row < h && src + (h - 1) * stride + w <= length && dst + (h - 1) * stride + w <= length
    ensures 0 <= row * stride && (row + 1) * stride == row * stride + stride
    ensures src + row * stride + w <= length && dst + row * stride + w <= length
  {
    RowFits(src, stride, row, h, w, length);
    RowFits(dst, stride, row, h, w, length);
    Distribute(row, 1, stride);
  }

  method CopyUp(mem: array<Byte>, dst: nat, src: nat, stride: nat, w: nat, h: nat)
    requires 0 < w <= stride && h > 0 && dst < src
    requires dst + (h - 1) * stride + w <= mem.Length && src + (h - 1) * stride + w <= mem.Length
    modifies mem
    ensures Moved(old(mem[..]), mem[..], dst, src, stride, w, 0, h)
  {
    hide Moved, RowMoved;
    NothingMoved(mem[..], dst, src, stride, w, h);
    var row, p, q := 0, src, dst;
    while row < h
      invariant 0 <= row <= h && p == src + row * stride && q == dst + row * stride
      invariant Moved(old(mem[..]), mem[..], dst, src, stride, w, 0, row)
    {
      RowsFit(src, dst, stride, row, h, w, mem.Length);
      ghost var mid := mem[..];
      CopyRowUp(mem, q, p, w);
      MovedUp(old(mem[..]), mid, mem[..], dst, src, stride, w, row, q, p);
      p, q := p + stride, q + stride;
      row := row + 1;
    }
  }

  method CopyDown(mem: array<Byte>, dst: nat, src: nat, stride: nat, w: nat, h: nat)
    requires 0 < w <= stride && h > 0 && src <= dst
    requires dst + (h - 1) * stride + w <= mem.Length && src + (h - 1) * stride + w <= mem.Length
    modifies mem
    ensures Moved(old(mem[..]), mem[..], dst, src, stride, w, 0, h)
  {
    hide Moved, RowMoved;
    NothingMoved(mem[..], dst, src, stride, w, h);
    Distribute(h, 1, stride);
    var row, p, q := h, src + (h - 1) * stride, dst + (h - 1) * stride;
    while row > 0
      invariant 0 <= row <= h && p == src + row * stride - stride && q == dst + row * stride - stride
      invariant Moved(old(mem[..]), mem[..], dst, src, stride, w, row, h)
    {
      row := row - 1;
      RowsFit(src, dst, stride, row, h, w, mem.Length);
      ghost var mid := mem[..];
      CopyRowDown(mem, q, p, w);
      MovedDown(old(mem[..]), mid, mem[..], dst, src, stride, w, row, h);
      p, q := p - stride, q - stride;
    }
  }

  method CopyRowUp(mem: array<Byte>, dst: nat, src: nat, w: nat)
    requires dst + w <= mem.Length && src + w <= mem.Length
    modifies mem
    ensures RowMoved(old(mem[..]), mem[..], dst, src, w)
  {
    MemMove(mem, dst, src, w);
  }

  method CopyRowDown(mem: array<Byte>, dst: nat, src: nat, w: nat)
    requires dst + w <= mem.Length && src + w <= mem.Length && src <= dst
    modifies mem
    ensures RowMoved(old(mem[..]), mem[..], dst, src, w)
  {
    RevCpy(mem, dst, src, w);
  }

  lemma NothingMoved(image: seq<Byte>, dst: nat, src: nat, stride: nat, w: nat, h: nat)
    ensures Moved(image, image, dst, src, stride, w, 0, 0) && Moved(image, image, dst, src, stride, w, h, h)
  {
  }

  /** Going up, the source of the next row lies beyond every row written so far. */
  lemma MovedUp(before: seq<Byte>, mid: seq<Byte>, now: seq<Byte>, dst: nat, src: nat, stride: nat, w: nat, row: nat,
                q: nat, p: nat)
    requires 0 < w <= stride && dst < src && q == dst + row * stride && p == src + row * stride
    requires Moved(before, mid, dst, src, stride, w, 0, row)
    requires RowMoved(mid, now, q, p, w)
    ensures Moved(before, now, dst, src, stride, w, 0, row + 1)
  {
    var hi := row + 1;
    forall i | 0 <= i < |now|
      ensures ByteMoved(before, now, dst, src, stride, w, 0, hi, i)
    {
      assert InRows(i, dst, stride, w, 0, hi) <==> InRows(i, dst, stride, w, 0, row) || InRow(i, dst, stride, w, row);
      assert ByteMoved(before, mid, dst, src, stride, w, 0, row, i);
      if InRow(i, dst, stride, w, row) {
        var k := i - dst + src;
        forall r | 0 <= r < row
          ensures !InRow(k, dst, stride, w, r)
        {
          NextMultiple(r, row, stride);
        }
        assert ByteMoved(before, mid, dst, src, stride, w, 0, row, k);
      }
    }
  }

  /** Going down, the source of the next row lies before every row written so far. */
  lemma MovedDown(before: seq<Byte>, mid: seq<Byte>, now: seq<Byte>, dst: nat, src: nat, stride: nat, w: nat,
                  row: nat, h: nat)
    requires 0 < w <= stride && src <= dst && row < h && 0 <= row * stride
    requires Moved(before, mid, dst, src, stride, w, row + 1, h)
    requires RowMoved(mid, now, dst + row * stride, src + row * stride, w)
    ensures Moved(before, now, dst, src, stride, w, row, h)
  {
    forall i | 0 <= i < |now|
      ensures ByteMoved(before, now, dst, src, stride, w, row, h, i)
    {
      assert InRows(i, dst, stride, w, row, h)
        <==> InRows(i, dst, stride, w, row + 1, h) || InRow(i, dst, stride, w, row);
      assert ByteMoved(before, mid, dst, src, stride, w, row + 1, h, i);
      if InRow(i, dst, stride, w, row) {
        var k := i - dst + src;
        forall r | row + 1 <= r < h
          ensures !InRow(k, dst, stride, w, r)
        {
          NextMultiple(row, r, stride);
        }
        assert ByteMoved(before, mid, dst, src, stride, w, row + 1, h, k);
      }
    }
  }

  // ----- rectangles -----

  /** The bytes of the pixels of a rectangle of a surface. */
  predicate ByteOf(r: Rect, stride: nat, bytesPerPixel: nat, i: int)
    requires stride > 0
  {
    r.y <= i / stride < r.y + r.h && r.x * bytesPerPixel <= i % stride < (r.x + r.w) * bytesPerPixel
  }

  /** For any two rectangles of equal size in one surface, whichever way they
      overlap: every byte of the destination rectangle becomes the byte at the
      same place of the source rectangle as it was, and no other byte changes. */
  method CopyWithin(mem: array<Byte>, width: nat, height: nat, stride: nat, bytesPerPixel: nat, s: Rect, d: Rect)
    requires bytesPerPixel > 0 && width * bytesPerPixel <= stride && height * stride <= mem.Length
    requires s.w == d.w > 0 && s.h == d.h > 0
    requires s.x >= 0 && s.y >= 0 && s.Inside(Rect(0, 0, width, height))
    requires d.x >= 0 && d.y >= 0 && d.Inside(Rect(0, 0, width, height))
    modifies mem
    ensures stride > 0 && Copied(old(mem[..]), mem[..], stride, bytesPerPixel, s, d)
  {
    hide Moved, Copied;
    var w := d.w * bytesPerPixel;
    PixelBytes(bytesPerPixel, s.x, s.w, width, stride);
    PixelBytes(bytesPerPixel, d.x, d.w, width, stride);
    BlockFits(stride, stride, s.x * bytesPerPixel, s.y, w, s.h, height, mem.Length);
    BlockFits(stride, stride, d.x * bytesPerPixel, d.y, w, d.h, height, mem.Length);
    var p := s.y * stride + s.x * bytesPerPixel;
    var q := d.y * stride + d.x * bytesPerPixel;
    BlitCopyOverlap(mem, q, p, stride, w, d.h);
    MovedIsCopied(old(mem[..]), mem[..], stride, bytesPerPixel, s, d, q, p, w);
  }

  /** The destination rectangle holds the source rectangle as it was. */
  ghost predicate Copied(before: seq<Byte>, now: seq<Byte>, stride: nat, bytesPerPixel: nat, s: Rect, d: Rect)
    requires stride > 0
  {
    && |now| == |before|
    && forall i :: 0 <= i < |now| ==> ByteCopied(before, now, stride, bytesPerPixel, s, d, i)
  }

  predicate ByteCopied(before: seq<Byte>, now: seq<Byte>, stride: nat, bytesPerPixel: nat, s: Rect, d: Rect, i: int)
    requires stride > 0 && 0 <= i < |now| == |before|
  {
    var shift := (s.y - d.y) * stride + (s.x - d.x) * bytesPerPixel;
    if ByteOf(d, stride, bytesPerPixel, i) then 0 <= i + shift < |before| && now[i] == before[i + shift]
    else now[i] == before[i]
  }

  lemma MovedIsCopied(before: seq<Byte>, now: seq<Byte>, stride: nat, bytesPerPixel: nat, s: Rect, d: Rect,
                      q: nat, p: nat, w: nat)
    requires d.x >= 0 && d.y >= 0 && d.h > 0
    requires var x := d.x * bytesPerPixel;
             0 <= x && w > 0 && x + w <= stride && (d.x + d.w) * bytesPerPixel == x + w && q == d.y * stride + x
    requires p == s.y * stride + s.x * bytesPerPixel
    requires Moved(before, now, q, p, stride, w, 0, d.h)
    ensures Copied(before, now, stride, bytesPerPixel, s, d)
  {
    Distribute(s.y, d.y, stride);
    Distribute(s.x, d.x, bytesPerPixel);
    forall i | 0 <= i < |now|
      ensures ByteCopied(before, now, stride, bytesPerPixel, s, d, i)
    {
      RowsAreRect(i, d, stride, bytesPerPixel, q, w);
      assert ByteMoved(before, now, q, p, stride, w, 0, d.h, i);
    }
  }

  lemma PixelBytes(bytesPerPixel: nat, x: nat, w: nat, width: nat, stride: nat)
    requires bytesPerPixel > 0 && w > 0 && x + w <= width && width * bytesPerPixel <= stride
    ensures 0 <= x * bytesPerPixel && 0 < w * bytesPerPixel
    ensures x * bytesPerPixel + w * bytesPerPixel == (x + w) * bytesPerPixel <= stride
  {
    Distribute(x, w, bytesPerPixel);
    LessProduct(bytesPerPixel, 0, x);
    LessProduct(bytesPerPixel, 1, w);
    LessProduct(bytesPerPixel, x + w, width);
  }

  lemma RowsAreRect(i: int, d: Rect, stride: nat, bytesPerPixel: nat, q: int, w: nat)
    requires 0 <= i && d.x >= 0 && d.y >= 0 && d.h > 0
    requires var x := d.x * bytesPerPixel;
             0 <= x && w > 0 && x + w <= stride && (d.x + d.w) * bytesPerPixel == x + w && q == d.y * stride + x
    ensures InRows(i, q, stride, w, 0, d.h) <==> ByteOf(d, stride, bytesPerPixel, i)
  {
    var x := d.x * bytesPerPixel;
    if InRows(i, q, stride, w, 0, d.h) {
      var row :| 0 <= row < d.h && InRow(i, q, stride, w, row);
      Distribute(d.y, row, stride);
      RowColumn(stride, d.y + row, i - (d.y + row) * stride);
    }
    if ByteOf(d, stride, bytesPerPixel, i) {
      var row := i / stride - d.y;
      assert i == (d.y + row) * stride + i % stride;
      Distribute(d.y, row, stride);
      assert InRow(i, q, stride, w, row);
    }
  }
}
