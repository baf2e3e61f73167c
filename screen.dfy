/**
 * Where the board sits on the screen. The captured board image has
 * cols * size pixel columns and rows * size pixel rows, starting at the
 * board's top-left corner (left, top); a cell image is the size x size
 * square of its row and column, and a click goes to the centre pixel of the
 * cell. The program itself uses (left, top, size) = (100, 200, 30) on a
 * 9 x 9 board.
 */
module Screen {

  import opened Board

  /** The board's top-left screen pixel and the side of one cell, in pixels. */
  datatype Geometry = Geometry(left: int, top: int, size: int)

  /** The geometry of main.py: top-left corner (100, 200), 30-pixel cells. */
  const PROGRAM_GEOMETRY: Geometry := Geometry(100, 200, 30)
  const BOARD_ROWS: int := 9
  const BOARD_COLS: int := 9

  /** A half-open pixel range [lo, hi). */
  datatype PixelRange = PixelRange(lo: int, hi: int)

  predicate InRange(p: int, s: PixelRange) {
    s.lo <= p < s.hi
  }

  /**
   * The slice board_image[y : y + size, x : x + size] of cell (r, c), as a
   * row range and a column range of the board image.
   */
  function CellSlice(g: Geometry, r: int, c: int): (s: (PixelRange, PixelRange))
    ensures s.0.hi - s.0.lo == g.size && s.1.hi - s.1.lo == g.size
  {
    var y, x := r * g.size, c * g.size;
    (PixelRange(y, y + g.size), PixelRange(x, x + g.size))
  }

  /** The cell whose slice contains the board-image pixel at row y, column x. */
  function CellAt(g: Geometry, y: nat, x: nat): Coord
    requires g.size >= 1
  {
    (y / g.size, x / g.size)
  }

  /** Scaling by a non-negative size keeps the order of bands. */
  lemma MulMono(a: int, b: int, size: int)
    requires a <= b && size >= 0
    ensures a * size <= b * size
  {
    var d := b - a;
    assert b * size == a * size + d * size;
  }

  /** Integer division by the cell size picks the band a pixel coordinate lies in. */
  lemma DivInverse(p: nat, k: int, size: int)
    requires size >= 1
    ensures k * size <= p < k * size + size <==> p / size == k
  {
    var q := p / size;
    assert q * size <= p < q * size + size;
    if k < q {
      MulMono(k + 1, q, size);
      assert (k + 1) * size == k * size + size;
    } else if k > q {
      MulMono(q + 1, k, size);
      assert (q + 1) * size == q * size + size;
    }
  }

  /**
   * Pixel (y, x) lies in the slice of cell (r, c) exactly when it falls in
   * that cell: the slices tile the image, one cell per pixel.
   */
  lemma SliceContains(g: Geometry, r: int, c: int, y: nat, x: nat)
    requires g.size >= 1
    ensures var s := CellSlice(g, r, c);
      (InRange(y, s.0) && InRange(x, s.1)) <==> CellAt(g, y, x) == (r, c)
  {
    DivInverse(y, r, g.size);
    DivInverse(x, c, g.size);
  }

  /** The slice of a cell on a rows x cols board lies inside the captured image. */
  lemma SliceInsideImage(g: Geometry, rows: int, cols: int, r: int, c: int)
    requires g.size >= 0 && InBounds(rows, cols, (r, c))
    ensures var s := CellSlice(g, r, c);
      0 <= s.0.lo && s.0.hi <= rows * g.size && 0 <= s.1.lo && s.1.hi <= cols * g.size
  {
    BandInside(r, rows, g.size);
    BandInside(c, cols, g.size);
  }

  /** Band k of width size lies within n bands when 0 <= k < n. */
  lemma BandInside(k: int, n: int, size: int)
    requires 0 <= k < n && size >= 0
    ensures 0 <= k * size && k * size + size <= n * size
  {
    MulMono(0, k, size);
    MulMono(k + 1, n, size);
    assert (k + 1) * size == k * size + size;
  }

  /** Half the cell size, rounded down, is an offset inside the cell, and off its border from size 3 on. */
  lemma HalfInside(size: int)
    ensures size >= 1 ==> 0 <= size / 2 < size
    ensures size >= 3 ==> 1 <= size / 2 < size - 1
  {
  }

  /**
   * get_cell_center_coords: the screen pixel a click on cell (r, c) goes
   * to. For a cell of a non-negative row and column and a cell size of at
   * least 1, the point, taken relative to the board's corner, lies in the
   * cell's slice and maps back to the cell; from size 3 on it lies strictly
   * inside the square, off its border.
   */
  function CellCenter(g: Geometry, r: int, c: int): (p: (int, int))
    ensures g.size >= 1 && r >= 0 && c >= 0 ==>
      var s := CellSlice(g, r, c);
      && InRange(p.0 - g.left, s.1) && InRange(p.1 - g.top, s.0)
      && CellAt(g, p.1 - g.top, p.0 - g.left) == (r, c)
    ensures g.size >= 3 ==>
      var s := CellSlice(g, r, c);
      s.1.lo < p.0 - g.left < s.1.hi - 1 && s.0.lo < p.1 - g.top < s.0.hi - 1
  {
    var half := g.size / 2;
    var p := (g.left + c * g.size + half, g.top + r * g.size + half);
    HalfInside(g.size);
    if g.size >= 1 && r >= 0 && c >= 0 then
      SliceContains(g, r, c, p.1 - g.top, p.0 - g.left);
      p
    else
      p
  }

  /** Distinct cells get distinct click points. */
  lemma CenterInjective(g: Geometry, r1: int, c1: int, r2: int, c2: int)
    requires g.size >= 1 && r1 >= 0 && c1 >= 0 && r2 >= 0 && c2 >= 0
    requires CellCenter(g, r1, c1) == CellCenter(g, r2, c2)
    ensures (r1, c1) == (r2, c2)
  {
  }

  /** Every click point of a cell on a rows x cols board lies within the captured screen region. */
  lemma CenterOnBoard(g: Geometry, rows: int, cols: int, r: int, c: int)
    requires g.size >= 1 && InBounds(rows, cols, (r, c))
    ensures var p := CellCenter(g, r, c);
      && g.left <= p.0 < g.left + cols * g.size
      && g.top <= p.1 < g.top + rows * g.size
  {
    SliceInsideImage(g, rows, cols, r, c);
  }

  /** The program's own geometry on its 9 x 9 board: where each click lands, inside the captured region and back on its cell. */
  lemma ProgramCentersInside(r: int, c: int)
    requires InBounds(BOARD_ROWS, BOARD_COLS, (r, c))
    ensures var p := CellCenter(PROGRAM_GEOMETRY, r, c);
      && p == (100 + 30 * c + 15, 200 + 30 * r + 15)
      && 100 <= p.0 < 100 + 9 * 30 && 200 <= p.1 < 200 + 9 * 30
      && CellAt(PROGRAM_GEOMETRY, p.1 - 200, p.0 - 100) == (r, c)
  {
    CenterOnBoard(PROGRAM_GEOMETRY, BOARD_ROWS, BOARD_COLS, r, c);
  }
}
