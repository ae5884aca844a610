/**
 * The spawn grid: `make_holes` lays out `cols * rows` positions in row-major
 * order inside the window, pushing every odd row down by a fixed offset.
 * `HOLES` is the grid built once with the default arguments.
 */
module Holes {
  import opened Options

  type Point = (int, int)

  const WIDTH: int := 960
  const HEIGHT: int := 540
  const ODD_ROW_OFFSET: int := 10

  /** Python's `//` on integers: the quotient rounded towards negative infinity. */
  function FloorDiv(a: int, b: int): (q: int)
    requires b != 0
    ensures b > 0 ==> b * q <= a < b * q + b
    ensures b < 0 ==> b * q + b < a <= b * q
  {
    if b > 0 then a / b else (-a) / (-b)
  }

  /** A grid fixed by its shape, its top-left margins and its two steps. */
  datatype Layout = Layout(cols: nat, rows: nat, marginX: int, marginY: int, stepX: int, stepY: int)
  {
    /** The position of the hole in column `c` of row `r`. */
    function At(c: int, r: int): Point {
      (marginX + c * stepX, marginY + r * stepY + (if r % 2 == 1 then ODD_ROW_OFFSET else 0))
    }

    function Row(r: nat): seq<Point> {
      seq(cols, c => At(c, r))
    }

    /** The first `n` rows, one after the other. */
    function Rows(n: nat): seq<Point> {
      if n == 0 then [] else Rows(n - 1) + Row(n - 1)
    }

    function Points(): seq<Point> {
      Rows(rows)
    }
  }

  /**
   * The layout `make_holes(cols, rows, margin_x, margin_y)` builds, or None when
   * one of its two floor divisions is by zero (a single column or a single row).
   * A negative count behaves like Python's empty `range`.
   */
  function LayoutOf(cols: int, rows: int, marginX: int, marginY: int): (l: Option<Layout>)
    ensures l.None? <==> cols == 1 || rows == 1
    ensures l.Some? ==>
              && l.value.cols == (if cols < 0 then 0 else cols)
              && l.value.rows == (if rows < 0 then 0 else rows)
              && l.value.marginX == marginX && l.value.marginY == marginY
  {
    if cols == 1 || rows == 1 then None
    else
      Some(Layout(if cols < 0 then 0 else cols, if rows < 0 then 0 else rows, marginX, marginY,
                  FloorDiv(WIDTH - 2 * marginX, cols - 1), FloorDiv(HEIGHT - 2 * marginY, rows - 1)))
  }

  /** The layout of the default call `make_holes()`. */
  const DEFAULT_LAYOUT: Layout := Layout(5, 3, 120, 90, 180, 180)

  /** `HOLES = make_holes()`. */
  const HOLES: seq<Point> := DEFAULT_LAYOUT.Points()

  lemma DefaultArguments()
    ensures LayoutOf(5, 3, 120, 90) == Some(DEFAULT_LAYOUT)
  {
  }

  /** A grid of `n` rows holds exactly `n * cols` points. */
  lemma {:induction false} RowsLength(l: Layout, n: nat)
    ensures |l.Rows(n)| == n * l.cols
  {
    if n > 0 {
      RowsLength(l, n - 1);
      calc {
        |l.Rows(n)|;
        |l.Rows(n - 1)| + l.cols;
        (n - 1) * l.cols + l.cols;
        n * l.cols;
      }
    }
  }

  /** Row-major order: the hole of column `c`, row `r` sits at index `r * cols + c`. */
  lemma {:induction false} RowsIndex(l: Layout, n: nat, r: nat, c: nat)
    requires r < n && c < l.cols
    ensures r * l.cols + c < |l.Rows(n)|
    ensures l.Rows(n)[r * l.cols + c] == l.At(c, r)
  {
    RowsLength(l, n - 1);
    assert |l.Rows(n)| == (n - 1) * l.cols + l.cols;
    if r == n - 1 {
      assert l.Rows(n)[r * l.cols + c] == l.Row(n - 1)[c];
    } else {
      assert (r + 1) * l.cols <= (n - 1) * l.cols by {
        MulMonotone(r + 1, n - 1, l.cols);
      }
      RowsIndex(l, n - 1, r, c);
    }
  }

  lemma MulMonotone(a: nat, b: nat, k: nat)
    requires a <= b
    ensures a * k <= b * k
  {
  }

  /** Every index of a grid is the index of some column and row. */
  lemma GridCovers(l: Layout, i: nat)
    requires i < |l.Points()|
    ensures l.cols > 0 && i / l.cols < l.rows
    ensures l.Points()[i] == l.At(i % l.cols, i / l.cols)
  {
    RowsLength(l, l.rows);
    var r, c := i / l.cols, i % l.cols;
    assert i == r * l.cols + c;
    if r >= l.rows {
      MulMonotone(l.rows, r, l.cols);
      assert false;
    }
    RowsIndex(l, l.rows, r, c);
  }

  /** The default grid: 5 columns 180 apart, rows at 90, 280 (odd, pushed down 10) and 450. */
  lemma HolesAre()
    ensures HOLES == [(120, 90), (300, 90), (480, 90), (660, 90), (840, 90),
                      (120, 280), (300, 280), (480, 280), (660, 280), (840, 280),
                      (120, 450), (300, 450), (480, 450), (660, 450), (840, 450)]
  {
    var l := DEFAULT_LAYOUT;
    assert l.Row(0) == [(120, 90), (300, 90), (480, 90), (660, 90), (840, 90)];
    assert l.Row(1) == [(120, 280), (300, 280), (480, 280), (660, 280), (840, 280)];
    assert l.Row(2) == [(120, 450), (300, 450), (480, 450), (660, 450), (840, 450)];
    assert l.Rows(1) == l.Row(0);
  }

  /** `make_holes`: the nested loops over rows and columns appending each position. */
  method MakeHoles(cols: int, rows: int, marginX: int, marginY: int) returns (holes: Option<seq<Point>>)
    ensures holes.None? <==> cols == 1 || rows == 1
    ensures holes.Some? ==>
              && LayoutOf(cols, rows, marginX, marginY).Some?
              && holes.value == LayoutOf(cols, rows, marginX, marginY).value.Points()
  {
    if cols == 1 || rows == 1 {
      return None;
    }
    var gridW := WIDTH - 2 * marginX;
    var gridH := HEIGHT - 2 * marginY;
    var stepX := FloorDiv(gridW, cols - 1);
    var stepY := FloorDiv(gridH, rows - 1);
    ghost var l := LayoutOf(cols, rows, marginX, marginY).value;
    var acc: seq<Point> := [];
    var r := 0;
    while r < rows
      invariant 0 <= r <= l.rows
      invariant rows > 0 ==> r <= rows
      invariant acc == l.Rows(r)
    {
      var c := 0;
      while c < cols
        invariant 0 <= c <= l.cols
        invariant acc == l.Rows(r) + l.Row(r)[..c]
      {
        var x := marginX + c * stepX;
        var y := marginY + r * stepY + (if r % 2 == 1 then 10 else 0);
        assert l.Row(r)[..c + 1] == l.Row(r)[..c] + [(x, y)];
        acc := acc + [(x, y)];
        c := c + 1;
      }
      assert l.Row(r)[..c] == l.Row(r);
      r := r + 1;
    }
    return Some(acc);
  }
}
