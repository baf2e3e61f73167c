/**
 * The internal board of the auto-player: a grid of integer cell codes and
 * the eight-neighbourhood of a cell, clipped to the grid.
 *
 * Cell codes: 0 unopened, 1..8 an opened number, 9 a flag,
 * -1 an exploded mine, -2 an opened blank.
 */
module Board {

  const UNOPENED: int := 0
  const FLAG: int := 9
  const MINE: int := -1
  const BLANK: int := -2

  /** An opened cell showing a digit. */
  predicate IsNumeric(v: int) {
    1 <= v <= 8
  }

  /** Some cell of the board carries code v. */
  predicate HasCode(b: array2<int>, v: int)
    reads b
  {
    exists i, j :: 0 <= i < b.Length0 && 0 <= j < b.Length1 && b[i, j] == v
  }

  /** A (row, column) position. */
  type Coord = (int, int)

  predicate InBounds(rows: int, cols: int, p: Coord) {
    0 <= p.0 < rows && 0 <= p.1 < cols
  }

  /** Chebyshev distance at most 1 and not the cell itself. */
  predicate Adjacent(r: int, c: int, p: Coord) {
    -1 <= p.0 - r <= 1 && -1 <= p.1 - c <= 1 && p != (r, c)
  }

  /** Row-major order on positions: row first, then column. */
  predicate Before(p: Coord, q: Coord) {
    p.0 < q.0 || (p.0 == q.0 && p.1 < q.1)
  }

  /**
   * Where the offset (p.0 - r, p.1 - c) stands in the scan
   * `for dr in [-1, 0, 1]: for dc in [-1, 0, 1]`, counting from 0.
   */
  function OffsetIndex(r: int, c: int, p: Coord): int {
    3 * (p.0 - r + 1) + (p.1 - c + 1)
  }

  /** What step k (0..8) of the double offset loop appends, if anything. */
  function Candidate(rows: int, cols: int, r: int, c: int, k: nat): seq<Coord> {
    var dr := if k < 3 then -1 else if k < 6 then 0 else 1;
    var dc := k - 3 * (dr + 1) - 1;
    if dr == 0 && dc == 0 then []
    else if InBounds(rows, cols, (r + dr, c + dc)) then [(r + dr, c + dc)]
    else []
  }

  /** The neighbour list after the first k steps of the offset loop. */
  function NeighborsUpTo(rows: int, cols: int, r: int, c: int, k: nat): seq<Coord>
    requires k <= 9
  {
    if k == 0 then [] else NeighborsUpTo(rows, cols, r, c, k - 1) + Candidate(rows, cols, r, c, k - 1)
  }

  /**
   * After k steps the list holds at most k entries (one fewer once the
   * cell itself has been skipped), all in-bounds neighbours whose offsets
   * come before step k, in increasing offset order.
   */
  lemma {:induction false} NeighborsUpToFacts(rows: int, cols: int, r: int, c: int, k: nat)
    requires k <= 9
    ensures |NeighborsUpTo(rows, cols, r, c, k)| <= (if k > 4 then k - 1 else k)
    ensures forall p :: p in NeighborsUpTo(rows, cols, r, c, k) ==>
      InBounds(rows, cols, p) && Adjacent(r, c, p) && OffsetIndex(r, c, p) < k
    ensures forall i, j :: 0 <= i < j < |NeighborsUpTo(rows, cols, r, c, k)| ==>
      OffsetIndex(r, c, NeighborsUpTo(rows, cols, r, c, k)[i]) < OffsetIndex(r, c, NeighborsUpTo(rows, cols, r, c, k)[j])
  {
    if k > 0 {
      NeighborsUpToFacts(rows, cols, r, c, k - 1);
    }
  }

  /**
   * The neighbours of (r, c) in the order the offset loop produces them:
   * at most eight in-bounds cells at Chebyshev distance 1, never (r, c)
   * itself, strictly increasing in row-major order (so without duplicates).
   */
  function Neighbors(rows: int, cols: int, r: int, c: int): (ns: seq<Coord>)
    ensures |ns| <= 8
    ensures forall i :: 0 <= i < |ns| ==> InBounds(rows, cols, ns[i]) && Adjacent(r, c, ns[i])
    ensures forall i, j :: 0 <= i < j < |ns| ==> Before(ns[i], ns[j])
  {
    NeighborsUpToFacts(rows, cols, r, c, 9);
    var ns := NeighborsUpTo(rows, cols, r, c, 9);
    assert forall i, j :: 0 <= i < j < |ns| ==> OffsetIndex(r, c, ns[i]) < OffsetIndex(r, c, ns[j]);
    ns
  }

  /**
   * The double loop over dr, dc in [-1, 0, 1] that appends each in-bounds
   * neighbour, skipping the cell itself.
   */
  method GetNeighbors(rows: int, cols: int, r: int, c: int) returns (ns: seq<Coord>)
    ensures ns == Neighbors(rows, cols, r, c)
  {
    ns := [];
    for dr := -1 to 2
      invariant ns == NeighborsUpTo(rows, cols, r, c, 3 * (dr + 1))
    {
      for dc := -1 to 2
        invariant ns == NeighborsUpTo(rows, cols, r, c, 3 * (dr + 1) + (dc + 1))
      {
        ghost var k := 3 * (dr + 1) + (dc + 1);
        assert NeighborsUpTo(rows, cols, r, c, k + 1) == ns + Candidate(rows, cols, r, c, k);
        if dr == 0 && dc == 0 {
          continue;
        }
        var nr, nc := r + dr, c + dc;
        if 0 <= nr < rows && 0 <= nc < cols {
          ns := ns + [(nr, nc)];
        }
      }
    }
  }

  /** Every in-bounds neighbour whose offset comes before step k is already listed. */
  lemma {:induction false} NeighborsUpToComplete(rows: int, cols: int, r: int, c: int, k: nat, p: Coord)
    requires k <= 9
    requires InBounds(rows, cols, p) && Adjacent(r, c, p) && OffsetIndex(r, c, p) < k
    ensures p in NeighborsUpTo(rows, cols, r, c, k)
  {
    if OffsetIndex(r, c, p) == k - 1 {
      assert Candidate(rows, cols, r, c, k - 1) == [p];
    } else {
      NeighborsUpToComplete(rows, cols, r, c, k - 1, p);
    }
  }

  /**
   * The neighbour list holds exactly the in-bounds cells at Chebyshev
   * distance 1, without the cell itself.
   */
  lemma NeighborsExactly(rows: int, cols: int, r: int, c: int, p: Coord)
    ensures p in Neighbors(rows, cols, r, c) <==> InBounds(rows, cols, p) && Adjacent(r, c, p)
  {
    if InBounds(rows, cols, p) && Adjacent(r, c, p) {
      NeighborsUpToComplete(rows, cols, r, c, 9, p);
    }
  }

  /** How many of the rows x - 1, x, x + 1 lie in [0, n), for 0 <= x < n. */
  function Span(x: int, n: int): int {
    (if x > 0 then 1 else 0) + 1 + (if x + 1 < n then 1 else 0)
  }

  /** An in-bounds cell has (rows in reach) * (columns in reach) - 1 neighbours. */
  lemma NeighborCount(rows: int, cols: int, r: int, c: int)
    requires InBounds(rows, cols, (r, c))
    ensures |Neighbors(rows, cols, r, c)| == Span(r, rows) * Span(c, cols) - 1
  {
    var up, down := if r > 0 then 1 else 0, if r + 1 < rows then 1 else 0;
    var left, right := if c > 0 then 1 else 0, if c + 1 < cols then 1 else 0;
    var row := left + 1 + right;
    assert |Candidate(rows, cols, r, c, 0)| == up * left;
    assert |Candidate(rows, cols, r, c, 1)| == up;
    assert |Candidate(rows, cols, r, c, 2)| == up * right;
    assert |Candidate(rows, cols, r, c, 3)| == left;
    assert |Candidate(rows, cols, r, c, 4)| == 0;
    assert |Candidate(rows, cols, r, c, 5)| == right;
    assert |Candidate(rows, cols, r, c, 6)| == down * left;
    assert |Candidate(rows, cols, r, c, 7)| == down;
    assert |Candidate(rows, cols, r, c, 8)| == down * right;
    assert |NeighborsUpTo(rows, cols, r, c, 1)| == up * left;
    assert |NeighborsUpTo(rows, cols, r, c, 2)| == up * left + up;
    assert |NeighborsUpTo(rows, cols, r, c, 3)| == up * row;
    assert |NeighborsUpTo(rows, cols, r, c, 4)| == up * row + left;
    assert |NeighborsUpTo(rows, cols, r, c, 5)| == up * row + left;
    assert |NeighborsUpTo(rows, cols, r, c, 6)| == up * row + row - 1;
    assert |NeighborsUpTo(rows, cols, r, c, 7)| == up * row + row - 1 + down * left;
    assert |NeighborsUpTo(rows, cols, r, c, 8)| == up * row + row - 1 + down * left + down;
    assert |NeighborsUpTo(rows, cols, r, c, 9)| == up * row + row - 1 + down * row;
    assert Span(r, rows) * Span(c, cols) == (up + 1 + down) * row;
  }

  /** Three neighbours in a corner, five along an edge, eight inside. */
  lemma NeighborCountByPosition(rows: int, cols: int, r: int, c: int)
    requires rows >= 3 && cols >= 3 && InBounds(rows, cols, (r, c))
    ensures (r == 0 || r == rows - 1) && (c == 0 || c == cols - 1) ==> |Neighbors(rows, cols, r, c)| == 3
    ensures (r == 0 || r == rows - 1) != (c == 0 || c == cols - 1) ==> |Neighbors(rows, cols, r, c)| == 5
    ensures 0 < r < rows - 1 && 0 < c < cols - 1 ==> |Neighbors(rows, cols, r, c)| == 8
  {
    NeighborCount(rows, cols, r, c);
  }
}
