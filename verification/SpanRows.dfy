/** Shapes that are symmetric about a column are drawn as rows: spans around the
    column, in pairs above and below the centre. */
module SpanRows {
  import opened Circle
  import opened Drawing

  /** The span of half width h around the centre column. */
  function RowSpan(x: int, y: int, h: int, v: int): Span {
    Span(x - h, x + h, y + v)
  }

  ghost predicate DistinctRows(spans: seq<Span>) {
    forall i, j :: 0 <= i < j < |spans| ==> spans[i].y != spans[j].y
  }

  ghost predicate HasRow(spans: seq<Span>, row: int) {
    exists s :: s in spans && s.y == row
  }

  /** The two rows at the same distance, v first, or the one through the centre. */
  function Pair(x: int, y: int, h: int, v: int): seq<Span> {
    if v != 0 then [RowSpan(x, y, h, v), RowSpan(x, y, h, -v)] else [RowSpan(x, y, h, 0)]
  }

  lemma RowsOfBoth(spans: seq<Span>, more: seq<Span>, row: int)
    ensures HasRow(spans + more, row) <==> HasRow(spans, row) || HasRow(more, row)
  {
    if HasRow(spans, row) {
      var s :| s in spans && s.y == row;
      assert s in spans + more;
    }
    if HasRow(more, row) {
      var s :| s in more && s.y == row;
      assert s in spans + more;
    }
  }

  lemma DistinctRowsOfBoth(spans: seq<Span>, more: seq<Span>)
    requires DistinctRows(spans) && DistinctRows(more)
    requires forall s :: s in more ==> !HasRow(spans, s.y)
    ensures DistinctRows(spans + more)
  {
    var all := spans + more;
    forall i, j | 0 <= i < j < |all|
      ensures all[i].y != all[j].y
    {
      if i < |spans| <= j {
        assert all[i] in spans && all[j] in more;
      }
    }
  }

  lemma PairRows(x: int, y: int, h: int, v: int, row: int)
    ensures HasRow(Pair(x, y, h, v), row) <==> Abs(row - y) == Abs(v)
  {
    if Abs(row - y) == Abs(v) {
      assert RowSpan(x, y, h, row - y) in Pair(x, y, h, v);
    }
  }

  lemma PairDistinct(x: int, y: int, h: int, v: int)
    ensures DistinctRows(Pair(x, y, h, v))
  {
  }

  /** A pair of rows that are not there yet. */
  lemma AddRows(spans: seq<Span>, x: int, y: int, h: int, v: int)
    requires DistinctRows(spans) && !HasRow(spans, y + v) && !HasRow(spans, y - v)
    ensures DistinctRows(spans + Pair(x, y, h, v))
    ensures forall row :: HasRow(spans + Pair(x, y, h, v), row) <==> HasRow(spans, row) || Abs(row - y) == Abs(v)
  {
    hide HasRow, DistinctRows;
    var pair := Pair(x, y, h, v);
    PairDistinct(x, y, h, v);
    DistinctRowsOfBoth(spans, pair);
    forall row
      ensures HasRow(spans + pair, row) <==> HasRow(spans, row) || Abs(row - y) == Abs(v)
    {
      RowsOfBoth(spans, pair, row);
      PairRows(x, y, h, v, row);
    }
  }
}
