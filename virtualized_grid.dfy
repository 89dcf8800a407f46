/**
 * The rendering window of the virtualized grid: which items are mounted for a
 * given scroll offset, where the mounted block is translated to, and how tall
 * the scrollable area is. Lengths are whole pixels here (see README).
 */
module VirtualizedGrid {

  /** The default gap between rows, in pixels. */
  const DefaultGap: int := 16

  /** The props that shape the grid (the item list itself is passed separately). */
  datatype Layout = Layout(itemHeight: int, gap: int, containerHeight: int, cols: int)

  /** A height of one row including its gap. */
  function RowHeight(l: Layout): int {
    l.itemHeight + l.gap
  }

  /** Layouts for which the arithmetic is defined: a positive row height and column count. */
  predicate ValidLayout(l: Layout) {
    RowHeight(l) > 0 && l.cols > 0 && l.containerHeight >= 0
  }

  /** `Math.ceil(a / b)` for a non-negative a and a positive b. */
  function CeilDiv(a: int, b: int): (q: int)
    requires a >= 0 && b > 0
    ensures q >= 0
    ensures q * b >= a
    ensures q * b < a + b
  {
    (a + b - 1) / b
  }

  function Min(a: int, b: int): int {
    if a <= b then a else b
  }

  /** The number of rows the item list occupies. */
  function TotalRows(count: nat, l: Layout): nat
    requires ValidLayout(l)
  {
    CeilDiv(count, l.cols)
  }

  /** The first mounted index: the start of the row that the scroll offset falls in. */
  function StartIndex(l: Layout, scrollTop: nat): nat
    requires ValidLayout(l)
  {
    (scrollTop / RowHeight(l)) * l.cols
  }

  /** One past the last mounted index: the viewport's rows plus one more row, clamped to the list. */
  function EndIndex(l: Layout, scrollTop: nat, count: nat): nat
    requires ValidLayout(l)
  {
    Min(StartIndex(l, scrollTop) + CeilDiv(l.containerHeight, RowHeight(l)) * l.cols + l.cols, count)
  }

  /** `Array.prototype.slice(start, end)` for non-negative bounds: both clamp to the length. */
  function Slice<T>(s: seq<T>, start: nat, end: nat): seq<T> {
    var a := Min(start, |s|);
    var b := Min(end, |s|);
    if a < b then s[a..b] else []
  }

  /** The mounted items. */
  function VisibleItems<T>(items: seq<T>, l: Layout, scrollTop: nat): seq<T>
    requires ValidLayout(l)
  {
    Slice(items, StartIndex(l, scrollTop), EndIndex(l, scrollTop, |items|))
  }

  /** Each mounted item with the absolute index it is rendered and keyed with. */
  function Rendered<T>(items: seq<T>, l: Layout, scrollTop: nat): seq<(int, T)>
    requires ValidLayout(l)
  {
    var v := VisibleItems(items, l, scrollTop);
    var start := StartIndex(l, scrollTop);
    seq(|v|, i requires 0 <= i < |v| => (start + i, v[i]))
  }

  /** The vertical translation of the mounted block, in pixels. */
  function TranslateY(l: Layout, scrollTop: nat): int
    requires ValidLayout(l)
  {
    (StartIndex(l, scrollTop) / l.cols) * RowHeight(l)
  }

  /** The height of the scrollable content, in pixels. */
  function TotalHeight(count: nat, l: Layout): int
    requires ValidLayout(l)
  {
    TotalRows(count, l) * RowHeight(l)
  }

  // ---------------------------------------------------------------------------
  // Properties
  // ---------------------------------------------------------------------------

  /** The row index of `StartIndex` is the row the scroll offset falls in. */
  lemma StartIndexIsRowStart(l: Layout, scrollTop: nat)
    requires ValidLayout(l)
    ensures var start := StartIndex(l, scrollTop);
            && start % l.cols == 0
            && (start / l.cols) * RowHeight(l) <= scrollTop < (start / l.cols + 1) * RowHeight(l)
  {
    var rh, row := RowHeight(l), scrollTop / RowHeight(l);
    assert StartIndex(l, scrollTop) == row * l.cols;
    DivOfMultiple(row, l.cols);
    assert row * rh <= scrollTop < (row + 1) * rh;
  }

  lemma DivOfMultiple(q: nat, c: int)
    requires c > 0
    ensures (q * c) / c == q && (q * c) % c == 0
  {
    var d, m := (q * c) / c, (q * c) % c;
    assert q * c == d * c + m && 0 <= m < c;
    assert (q - d) * c == m;
    if q - d >= 1 {
      MulMono(1, q - d, c);
    } else if q - d <= -1 {
      MulMono(q - d, -1, c);
    }
  }

  /** The window never runs past the list, and spans at most one row more than the viewport. */
  lemma EndIndexBounds(l: Layout, scrollTop: nat, count: nat)
    requires ValidLayout(l)
    ensures var start, end := StartIndex(l, scrollTop), EndIndex(l, scrollTop, count);
            && end <= count
            && end <= start + (CeilDiv(l.containerHeight, RowHeight(l)) + 1) * l.cols
  {
    var k := CeilDiv(l.containerHeight, RowHeight(l));
    assert (k + 1) * l.cols == k * l.cols + l.cols;
  }

  /**
   * Every item of a row that is at least partly inside the viewport
   * `[scrollTop, scrollTop + containerHeight)` is mounted.
   */
  lemma {:induction false} ViewportCovered(l: Layout, scrollTop: nat, count: nat, k: nat)
    requires ValidLayout(l) && k < count
    requires (k / l.cols) * RowHeight(l) < scrollTop + l.containerHeight
    requires (k / l.cols + 1) * RowHeight(l) > scrollTop
    ensures StartIndex(l, scrollTop) <= k < EndIndex(l, scrollTop, count)
  {
    var rh, c := RowHeight(l), l.cols;
    var row, first := k / c, scrollTop / rh;
    var h := CeilDiv(l.containerHeight, rh);
    // the row of k is not above the first row
    assert first * rh <= scrollTop;
    RowOrder(first, row + 1, rh);
    assert first <= row;
    // and not below the last mounted row
    assert scrollTop < (first + 1) * rh;
    assert row * rh < (first + 1) * rh + h * rh;
    assert (first + 1) * rh + h * rh == (first + 1 + h) * rh;
    RowOrder(row, first + 1 + h, rh);
    assert row < first + 1 + h;
    // from rows to indices
    assert k >= row * c by { assert k == row * c + k % c; }
    assert row * c >= first * c by { MulMono(first, row, c); }
    assert k < (row + 1) * c by { assert k == row * c + k % c; }
    assert (row + 1) * c <= (first + 1 + h) * c by { MulMono(row + 1, first + 1 + h, c); }
    assert (first + 1 + h) * c == first * c + h * c + c;
  }

  /** Comparing two row offsets compares the rows. */
  lemma RowOrder(a: int, b: int, rh: int)
    requires rh > 0 && a * rh < b * rh
    ensures a < b
  {
    if a >= b {
      MulMono(b, a, rh);
    }
  }

  lemma MulMono(a: int, b: int, c: int)
    requires a <= b && c >= 0
    ensures a * c <= b * c
  {
    assert b * c - a * c == (b - a) * c;
  }

  /** The mounted items are exactly `items[start..end)`, and none once the window starts past the list. */
  lemma VisibleIsWindow<T>(items: seq<T>, l: Layout, scrollTop: nat)
    requires ValidLayout(l)
    ensures var start, end := StartIndex(l, scrollTop), EndIndex(l, scrollTop, |items|);
            && var v := VisibleItems(items, l, scrollTop);
            && (start >= |items| ==> v == [])
            && (start < |items| ==> start < end && v == items[start..end])
  {
    var start := StartIndex(l, scrollTop);
    var h := CeilDiv(l.containerHeight, RowHeight(l));
    assert h * l.cols >= 0;
  }

  /** Position i of the mounted block shows item `startIndex + i`, keyed by that index. */
  lemma RenderedIndices<T>(items: seq<T>, l: Layout, scrollTop: nat)
    requires ValidLayout(l)
    ensures var r, start := Rendered(items, l, scrollTop), StartIndex(l, scrollTop);
            && |r| == |VisibleItems(items, l, scrollTop)|
            && forall i :: 0 <= i < |r| ==> start + i < |items| && r[i] == (start + i, items[start + i])
  {
    VisibleIsWindow(items, l, scrollTop);
  }

  /** The mounted block starts at the top of the row the scroll offset falls in. */
  lemma TranslateWithinOneRow(l: Layout, scrollTop: nat)
    requires ValidLayout(l)
    ensures TranslateY(l, scrollTop) >= 0
    ensures scrollTop - RowHeight(l) < TranslateY(l, scrollTop) <= scrollTop
  {
    StartIndexIsRowStart(l, scrollTop);
  }

  /** The content is tall enough for every item's row, and no taller than one extra row's worth. */
  lemma TotalHeightFits(count: nat, l: Layout)
    requires ValidLayout(l)
    ensures TotalRows(count, l) * l.cols >= count
    ensures (TotalRows(count, l) - 1) * l.cols < count
    ensures TotalHeight(count, l) == TotalRows(count, l) * RowHeight(l) >= 0
  {
    var q := TotalRows(count, l);
    assert (q - 1) * l.cols == q * l.cols - l.cols;
  }

  /** 100 items, 4 columns, 100px items with the default gap, at the top of a 400px viewport. */
  lemma WorkedExample()
    ensures var l := Layout(100, DefaultGap, 400, 4);
            && ValidLayout(l)
            && StartIndex(l, 0) == 0
            && EndIndex(l, 0, 100) == 20
            && TranslateY(l, 0) == 0
            && TotalHeight(100, l) == 2900
  {
    var l := Layout(100, DefaultGap, 400, 4);
    assert CeilDiv(400, 116) == 4;
    assert CeilDiv(100, 4) == 25;
  }
}
