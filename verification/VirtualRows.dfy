/**
 * The windowing arithmetic of `src/hooks/useVirtualRows.ts`, over real scroll offsets and heights.
 */
module VirtualRows {

  function Min(a: int, b: int): int { if a < b then a else b }

  function Max(a: int, b: int): int { if a < b then b else a }

  function Ceil(x: real): int { -((-x).Floor) }

  lemma CeilLaw(x: real)
    ensures (Ceil(x) - 1) as real < x <= Ceil(x) as real
  {}

  /** Row height, overscan, threshold and the rows assumed before the first measurement. */
  datatype Options = Options(rowHeight: real, overscan: nat, threshold: nat, fallbackViewportRows: nat)

  datatype Window = Window(
    startIndex: int,
    endIndex: int,
    topSpacerHeight: real,
    bottomSpacerHeight: real,
    virtualized: bool)

  function ViewportHeight(o: Options, measured: real): real {
    if measured > 0.0 then measured else o.fallbackViewportRows as real * o.rowHeight
  }

  function VisibleCount(o: Options, measured: real): int
    requires o.rowHeight > 0.0
  {
    Ceil(ViewportHeight(o, measured) / o.rowHeight) + o.overscan * 2
  }

  /** What `useVirtualRows` returns for the current scroll offset and measured height. */
  function Rows(rowCount: nat, o: Options, scrollTop: real, measured: real): Window
    requires o.rowHeight > 0.0
  {
    if rowCount <= o.threshold then Window(0, rowCount, 0.0, 0.0, false)
    else
      var visibleCount := VisibleCount(o, measured);
      var maxStart := Max(0, rowCount - visibleCount);
      var rawStart := (scrollTop / o.rowHeight).Floor - o.overscan;
      var startIndex := Min(Max(0, rawStart), maxStart);
      var endIndex := Min(rowCount, startIndex + visibleCount);
      var left := (rowCount - endIndex) as real * o.rowHeight;
      Window(startIndex, endIndex, startIndex as real * o.rowHeight, if left > 0.0 then left else 0.0, true)
  }

  /** Row `i` shows inside the viewport. */
  predicate Meets(i: int, rowHeight: real, scrollTop: real, height: real) {
    i as real * rowHeight < scrollTop + height && scrollTop < (i + 1) as real * rowHeight
  }

  lemma Quotient(a: real, b: real, n: int)
    requires b > 0.0
    ensures n as real * b < a <==> n as real < a / b
    ensures a < n as real * b <==> a / b < n as real
  {
    assert a / b * b == a;
    Ordered(n as real, a / b, b);
    Ordered(a / b, n as real, b);
  }

  lemma Ordered(x: real, y: real, b: real)
    requires b > 0.0
    ensures x < y <==> x * b < y * b
  {
    if x < y { assert (y - x) * b > 0.0; }
    if y <= x { assert (x - y) * b >= 0.0; }
  }

  lemma SumQuotient(a: real, c: real, b: real)
    requires b > 0.0
    ensures (a + c) / b == a / b + c / b
  {}

  /** The rows in view lie between the first and the one `Ceil(height / rowHeight)` after it. */
  lemma RowsInView(i: int, rowHeight: real, scrollTop: real, height: real)
    requires rowHeight > 0.0 && Meets(i, rowHeight, scrollTop, height)
    ensures var first := (scrollTop / rowHeight).Floor; first <= i <= first + Ceil(height / rowHeight)
  {
    Quotient(scrollTop + height, rowHeight, i);
    Quotient(scrollTop, rowHeight, i + 1);
    SumQuotient(scrollTop, height, rowHeight);
    CeilLaw(height / rowHeight);
  }

  lemma HeightOfRows(o: Options, measured: real)
    requires o.rowHeight > 0.0
    ensures VisibleCount(o, measured) >= 2 * o.overscan
  {
    var h := ViewportHeight(o, measured);
    assert h >= 0.0;
    assert h / o.rowHeight >= 0.0;
    CeilLaw(h / o.rowHeight);
  }

  lemma Shape(rowCount: nat, o: Options, scrollTop: real, measured: real)
    requires o.rowHeight > 0.0
    ensures var w := Rows(rowCount, o, scrollTop, measured); 0 <= w.startIndex <= w.endIndex <= rowCount
  {
    HeightOfRows(o, measured);
  }

  /** With at least one row of overscan, every row in view is mounted, at any scroll offset. */
  lemma InViewIsMounted(rowCount: nat, o: Options, scrollTop: real, measured: real, i: int)
    requires o.rowHeight > 0.0 && o.overscan >= 1 && 0 <= i < rowCount
    requires Meets(i, o.rowHeight, scrollTop, ViewportHeight(o, measured))
    ensures var w := Rows(rowCount, o, scrollTop, measured); w.startIndex <= i < w.endIndex
  {
    RowsInView(i, o.rowHeight, scrollTop, ViewportHeight(o, measured));
    HeightOfRows(o, measured);
  }

  /** Spacers and mounted rows take the height of the whole list. */
  lemma HeightIsConserved(rowCount: nat, o: Options, scrollTop: real, measured: real)
    requires o.rowHeight > 0.0
    ensures var w := Rows(rowCount, o, scrollTop, measured);
            w.topSpacerHeight + (w.endIndex - w.startIndex) as real * o.rowHeight + w.bottomSpacerHeight
            == rowCount as real * o.rowHeight
  {
    var w := Rows(rowCount, o, scrollTop, measured);
    Shape(rowCount, o, scrollTop, measured);
    NotNegative((rowCount - w.endIndex) as real, o.rowHeight);
    Distribute(w.startIndex as real, (w.endIndex - w.startIndex) as real, (rowCount - w.endIndex) as real, o.rowHeight);
  }

  /** A mounted row is drawn at its own place: `i` rows below the top of the list. */
  lemma RowsStayInPlace(rowCount: nat, o: Options, scrollTop: real, measured: real, i: int)
    requires o.rowHeight > 0.0
    ensures var w := Rows(rowCount, o, scrollTop, measured);
            w.topSpacerHeight + (i - w.startIndex) as real * o.rowHeight == i as real * o.rowHeight
  {
    var w := Rows(rowCount, o, scrollTop, measured);
    Distribute(w.startIndex as real, (i - w.startIndex) as real, 0.0, o.rowHeight);
  }

  lemma NotNegative(x: real, b: real)
    requires x >= 0.0 && b > 0.0
    ensures x * b >= 0.0
  {}

  lemma Distribute(x: real, y: real, z: real, b: real)
    ensures x * b + y * b + z * b == (x + y + z) * b
  {}

  /** However long the list, no more rows are mounted than the viewport and the overscan ask for. */
  lemma MountedIsBounded(rowCount: nat, o: Options, scrollTop: real, measured: real)
    requires o.rowHeight > 0.0 && rowCount > o.threshold
    ensures var w := Rows(rowCount, o, scrollTop, measured);
            w.endIndex - w.startIndex == Min(rowCount, Ceil(ViewportHeight(o, measured) / o.rowHeight) + 2 * o.overscan)
  {
    HeightOfRows(o, measured);
  }

  /** A list up to the threshold is mounted as a whole, without spacers; a longer one is not. */
  lemma ShortListIsWhole(rowCount: nat, o: Options, scrollTop: real, measured: real)
    requires o.rowHeight > 0.0
    ensures rowCount <= o.threshold ==> Rows(rowCount, o, scrollTop, measured) == Window(0, rowCount, 0.0, 0.0, false)
    ensures Rows(rowCount, o, scrollTop, measured).virtualized <==> rowCount > o.threshold
  {}

  /** The viewport counts its measured height, or, before it is measured, the rows assumed. */
  lemma RowsOfViewport(o: Options, measured: real)
    requires o.rowHeight > 0.0
    ensures measured > 0.0 ==> ViewportHeight(o, measured) == measured
    ensures measured <= 0.0 ==> Ceil(ViewportHeight(o, measured) / o.rowHeight) == o.fallbackViewportRows
  {
    if measured <= 0.0 { CeilQuotient(ViewportHeight(o, measured), o.rowHeight, o.fallbackViewportRows); }
  }

  lemma CeilQuotient(h: real, b: real, n: nat)
    requires b > 0.0 && h == n as real * b
    ensures Ceil(h / b) == n
  {
    DivideBack(n as real, b);
  }

  lemma DivideBack(x: real, b: real)
    requires b > 0.0
    ensures x * b / b == x
  {}

  // ---------------------------------------------------------------- without overscan

  /** A scroll offset the container can have. */
  predicate Legal(rowCount: nat, o: Options, scrollTop: real, measured: real) {
    0.0 <= scrollTop && scrollTop + ViewportHeight(o, measured) <= rowCount as real * o.rowHeight
  }

  ghost predicate AlwaysCovers(rowCount: nat, o: Options, measured: real)
    requires o.rowHeight > 0.0
  {
    forall scrollTop, i | Legal(rowCount, o, scrollTop, measured) && 0 <= i < rowCount
                          && Meets(i, o.rowHeight, scrollTop, ViewportHeight(o, measured)) ::
      Rows(rowCount, o, scrollTop, measured).startIndex <= i < Rows(rowCount, o, scrollTop, measured).endIndex
  }

  /** The offset that shows a part of the first row and a part of the row below `rows`. */
  lemma HalfwayOffset(rows: real, h: real, b: real, total: real) returns (scrollTop: real)
    requires 0.0 <= rows - h < b && total >= rows + b
    ensures 0.0 <= scrollTop < b && rows < scrollTop + h <= total
  {
    scrollTop := (rows - h + b) / 2.0;
  }

  /** For a list longer than the viewport, one row of overscan is exactly what coverage needs. */
  lemma CoversIff(rowCount: nat, o: Options, measured: real)
    requires o.rowHeight > 0.0 && rowCount > o.threshold
    requires rowCount > Ceil(ViewportHeight(o, measured) / o.rowHeight)
    ensures AlwaysCovers(rowCount, o, measured) <==> o.overscan >= 1
  {
    if o.overscan >= 1 {
      forall scrollTop, i | Legal(rowCount, o, scrollTop, measured) && 0 <= i < rowCount
                            && Meets(i, o.rowHeight, scrollTop, ViewportHeight(o, measured))
        ensures Rows(rowCount, o, scrollTop, measured).startIndex <= i < Rows(rowCount, o, scrollTop, measured).endIndex
      {
        InViewIsMounted(rowCount, o, scrollTop, measured, i);
      }
    } else {
      Uncovered(rowCount, o, measured);
    }
  }

  lemma CeilRows(h: real, b: real)
    requires b > 0.0
    ensures 0.0 <= Ceil(h / b) as real * b - h < b
  {
    var n := Ceil(h / b);
    CeilLaw(h / b);
    Quotient(h, b, n - 1);
    Quotient(h, b, n);
    assert (n - 1) as real == n as real - 1.0;
    Minus(n as real, b);
    assert !(n as real * b < h);
  }

  lemma Minus(x: real, b: real)
    ensures (x - 1.0) * b == x * b - b
  {}

  lemma WindowAtTop(rowCount: nat, o: Options, scrollTop: real, measured: real)
    requires o.rowHeight > 0.0 && rowCount > o.threshold && o.overscan == 0 && 0.0 <= scrollTop < o.rowHeight
    requires rowCount > Ceil(ViewportHeight(o, measured) / o.rowHeight)
    ensures Rows(rowCount, o, scrollTop, measured).endIndex == Ceil(ViewportHeight(o, measured) / o.rowHeight)
  {
    BelowOneRow(scrollTop, o.rowHeight);
    HeightOfRows(o, measured);
  }

  /** Row `n` can show at the bottom while a part of row 0 still shows at the top. */
  lemma PartlyShown(n: nat, count: nat, h: real, b: real) returns (scrollTop: real)
    requires b > 0.0 && n < count && 0.0 <= n as real * b - h < b
    ensures 0.0 <= scrollTop < b && scrollTop + h <= count as real * b && Meets(n, b, scrollTop, h)
  {
    Grows(n + 1, count, b);
    NextRow(n, b);
    NotNegative(n as real, b);
    scrollTop := HalfwayOffset(n as real * b, h, b, count as real * b);
  }

  lemma Uncovered(rowCount: nat, o: Options, measured: real)
    requires o.rowHeight > 0.0 && rowCount > o.threshold && o.overscan == 0
    requires rowCount > Ceil(ViewportHeight(o, measured) / o.rowHeight)
    ensures !AlwaysCovers(rowCount, o, measured)
  {
    var h, n := ViewportHeight(o, measured), Ceil(ViewportHeight(o, measured) / o.rowHeight);
    HeightOfRows(o, measured);
    CeilRows(h, o.rowHeight);
    var scrollTop := PartlyShown(n, rowCount, h, o.rowHeight);
    WindowAtTop(rowCount, o, scrollTop, measured);
    assert Legal(rowCount, o, scrollTop, measured) && Meets(n, o.rowHeight, scrollTop, h);
  }

  lemma Grows(m: int, n: int, b: real)
    requires m <= n && b > 0.0
    ensures m as real * b <= n as real * b
  {
    NotNegative((n - m) as real, b);
    Distribute(m as real, (n - m) as real, 0.0, b);
  }

  lemma NextRow(n: int, b: real)
    ensures (n + 1) as real * b == n as real * b + b
  {
    Distribute(n as real, 1.0, 0.0, b);
  }

  lemma BelowOneRow(x: real, b: real)
    requires 0.0 <= x < b
    ensures (x / b).Floor == 0
  {
    assert 0.0 <= x / b < 1.0;
  }
}
