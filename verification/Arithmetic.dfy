/** Facts about products, quotients and remainders that the solver does not
    find on its own. */
module Arithmetic {

  lemma NextMultiple(q: int, q': int, d: nat)
    requires q < q'
    ensures q * d + d <= q' * d
  {
    assert (q' - q - 1) * d >= 0;
  }

  lemma DivModUnique(n: int, d: nat, q: int, r: nat)
    requires d > 0 && n == q * d + r && r < d
    ensures n / d == q && n % d == r
  {
    var q' := n / d;
    assert n == q' * d + n % d;
    if q < q' {
      NextMultiple(q, q', d);
    } else if q' < q {
      NextMultiple(q', q, d);
    }
  }

  lemma RowColumn(pitch: nat, row: int, column: nat)
    requires column < pitch
    ensures (row * pitch + column) / pitch == row && (row * pitch + column) % pitch == column
  {
    DivModUnique(row * pitch + column, pitch, row, column);
  }

  /** Two positions in rows of equal length coincide only if both rows and both
      columns do. */
  lemma SamePosition(pitch: nat, row: int, column: nat, row': int, column': nat)
    requires column < pitch && column' < pitch
    requires row * pitch + column == row' * pitch + column'
    ensures row == row' && column == column'
  {
    RowColumn(pitch, row, column);
    RowColumn(pitch, row', column');
  }

  lemma RowFits(base: nat, step: nat, row: nat, height: nat, width: nat, length: nat)
    requires row < height && base + (height - 1) * step + width <= length
    ensures 0 <= row * step && base + row * step + width <= length
  {
    assert row * step <= (height - 1) * step;
  }

  lemma Distribute(x: int, y: int, k: int)
    ensures (x + y) * k == x * k + y * k
    ensures (x - y) * k == x * k - y * k
  {
  }

  /** k positions after a position, in rows and columns. */
  lemma AdvanceBy(pitch: nat, row: int, column: int, k: int)
    requires pitch > 0
    ensures row * pitch + column + k == (row + k / pitch) * pitch + (column + k % pitch)
  {
    Distribute(row, k / pitch, pitch);
    assert k == k / pitch * pitch + k % pitch;
  }

  /** A block of h rows of w columns inside a grid ends inside it, also when its
      rows are taken to start less than a pitch apart. */
  lemma BlockFits(pitch: nat, step: nat, x: nat, y: nat, w: nat, h: nat, height: nat, length: nat)
    requires step <= pitch && x + w <= pitch && h > 0 && y + h <= height && height * pitch <= length
    ensures 0 <= y * pitch && y * pitch + x + (h - 1) * step + w <= length
  {
    LessProduct(h - 1, step, pitch);
    LessProduct(y, 0, pitch);
    Distribute(y, h - 1, pitch);
    if y + h < height {
      NextMultiple(y + h - 1, y + h, pitch);
      NextMultiple(y + h, height, pitch);
    } else {
      NextMultiple(y + h - 1, height, pitch);
    }
  }

  lemma LessProduct(n: nat, a: nat, b: nat)
    requires a <= b
    ensures 0 <= n * a <= n * b
  {
  }

  lemma QuotientGrows(a: int, m: int, n: int)
    requires 0 <= m <= n && 0 < n
    ensures a / n <= (a + m) / n <= a / n + 1
  {
    var q := a / n;
    var r := a % n;
    if r + m < n {
      DivModUnique(a + m, n, q, r + m);
    } else {
      Distribute(q, 1, n);
      DivModUnique(a + m, n, q + 1, r + m - n);
    }
  }

  lemma QuotientOrder(x: int, y: int, r: nat)
    requires r > 0 && x <= y
    ensures x / r <= y / r
    ensures 0 <= x ==> 0 <= x / r
  {
    if y / r < x / r {
      NextMultiple(y / r, x / r, r);
    }
  }

  lemma QuotientBelow(x: int, k: int, r: nat)
    requires r > 0 && x < k * r
    ensures x / r < k
  {
    if k < x / r {
      NextMultiple(k, x / r, r);
    }
  }

  lemma SquareMonotone(a: int, a': int)
    requires 0 <= a <= a'
    ensures a * a <= a' * a'
  {
    assert (a' - a) * (a' + a) >= 0;
  }

  lemma SquareOfSum(a: int, b: int)
    ensures (a + b) * (a + b) == a * a + 2 * (a * b) + b * b
  {
  }
}
