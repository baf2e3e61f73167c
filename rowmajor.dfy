/**
 * Row-major scans of a rows x cols grid (row ascending, then column
 * ascending), the order of every `for r ...: for c ...` double loop of the
 * auto-player. A scan looks for the cells of a set F: the first one, or
 * all of them in order.
 */
module RowMajor {

  import opened Wrappers
  import opened Board

  /** The first cell of F inside the grid at or after (r, c). */
  function FirstFrom(F: set<Coord>, rows: int, cols: int, r: nat, c: nat): Option<Coord>
    decreases rows - r, cols - c
  {
    if r >= rows then None
    else if c >= cols then FirstFrom(F, rows, cols, r + 1, 0)
    else if (r, c) in F then Some((r, c))
    else FirstFrom(F, rows, cols, r, c + 1)
  }

  /** The cells of F inside the grid at or after (r, c), in row-major order. */
  function CellsFrom(F: set<Coord>, rows: int, cols: int, r: nat, c: nat): seq<Coord>
    decreases rows - r, cols - c
  {
    if r >= rows then []
    else if c >= cols then CellsFrom(F, rows, cols, r + 1, 0)
    else (if (r, c) in F then [(r, c)] else []) + CellsFrom(F, rows, cols, r, c + 1)
  }

  /** q is the cell of F inside the grid that comes first in row-major order. */
  ghost predicate IsFirst(F: set<Coord>, rows: int, cols: int, q: Coord) {
    q in F && InBounds(rows, cols, q) &&
    forall p :: p in F && InBounds(rows, cols, p) ==> !Before(p, q)
  }

  /**
   * What FirstFrom finds is a cell of F in the grid at or after (r, c), and
   * no cell of F in the grid lies at or after (r, c) and before it.
   */
  lemma {:induction false} FirstFromSound(F: set<Coord>, rows: int, cols: int, r: nat, c: nat)
    decreases rows - r, cols - c
    ensures var f := FirstFrom(F, rows, cols, r, c);
      f.Some? ==> f.value in F && InBounds(rows, cols, f.value) && !Before(f.value, (r, c))
    ensures var f := FirstFrom(F, rows, cols, r, c);
      forall p :: p in F && InBounds(rows, cols, p) && !Before(p, (r, c)) ==> f.Some? && !Before(p, f.value)
  {
    if r >= rows {
    } else if c >= cols {
      FirstFromSound(F, rows, cols, r + 1, 0);
    } else if (r, c) !in F {
      FirstFromSound(F, rows, cols, r, c + 1);
    }
  }

  /** The scan from (0, 0) finds nothing exactly when F has no cell in the grid, else the first one. */
  lemma FirstCharacterized(F: set<Coord>, rows: int, cols: int)
    ensures FirstFrom(F, rows, cols, 0, 0).None? <==> forall p :: p in F ==> !InBounds(rows, cols, p)
    ensures forall q :: FirstFrom(F, rows, cols, 0, 0) == Some(q) <==> IsFirst(F, rows, cols, q)
  {
    FirstFromSound(F, rows, cols, 0, 0);
    var f := FirstFrom(F, rows, cols, 0, 0);
    forall q | IsFirst(F, rows, cols, q) ensures f == Some(q) {
      assert f.Some? && !Before(q, f.value);
      assert !Before(f.value, q);
    }
  }

  /** CellsFrom lists only cells of F in the grid at or after (r, c). */
  lemma {:induction false} CellsFromInside(F: set<Coord>, rows: int, cols: int, r: nat, c: nat)
    decreases rows - r, cols - c
    ensures forall p :: p in CellsFrom(F, rows, cols, r, c) ==> p in F && InBounds(rows, cols, p) && !Before(p, (r, c))
  {
    if r >= rows {
    } else if c >= cols {
      CellsFromInside(F, rows, cols, r + 1, 0);
    } else {
      CellsFromInside(F, rows, cols, r, c + 1);
    }
  }

  /** CellsFrom is strictly ascending in row-major order. */
  lemma {:induction false} CellsFromAscending(F: set<Coord>, rows: int, cols: int, r: nat, c: nat)
    decreases rows - r, cols - c
    ensures forall i, j :: 0 <= i < j < |CellsFrom(F, rows, cols, r, c)| ==>
      Before(CellsFrom(F, rows, cols, r, c)[i], CellsFrom(F, rows, cols, r, c)[j])
  {
    if r >= rows {
    } else if c >= cols {
      CellsFromAscending(F, rows, cols, r + 1, 0);
    } else {
      CellsFromAscending(F, rows, cols, r, c + 1);
      var rest := CellsFrom(F, rows, cols, r, c + 1);
      if (r, c) in F {
        CellsFromInside(F, rows, cols, r, c + 1);
        var u := [(r, c)] + rest;
        assert u == CellsFrom(F, rows, cols, r, c);
        forall i, j | 0 <= i < j < |u| ensures Before(u[i], u[j]) {
          if i == 0 {
            assert u[j] == rest[j - 1] && u[j] in rest;
          } else {
            assert u[i] == rest[i - 1] && u[j] == rest[j - 1];
          }
        }
      } else {
        assert CellsFrom(F, rows, cols, r, c) == rest;
      }
    }
  }

  /** CellsFrom lists every cell of F in the grid at or after (r, c). */
  lemma {:induction false} CellsFromComplete(F: set<Coord>, rows: int, cols: int, r: nat, c: nat, p: Coord)
    requires p in F && InBounds(rows, cols, p) && !Before(p, (r, c))
    decreases rows - r, cols - c
    ensures p in CellsFrom(F, rows, cols, r, c)
  {
    if c >= cols {
      CellsFromComplete(F, rows, cols, r + 1, 0, p);
    } else if p != (r, c) {
      CellsFromComplete(F, rows, cols, r, c + 1, p);
    }
  }

  /**
   * The full scan lists exactly the cells of F inside the grid, in strictly
   * ascending row-major order.
   */
  lemma CellsExactly(F: set<Coord>, rows: int, cols: int)
    ensures forall p :: p in CellsFrom(F, rows, cols, 0, 0) <==> p in F && InBounds(rows, cols, p)
    ensures forall i, j :: 0 <= i < j < |CellsFrom(F, rows, cols, 0, 0)| ==>
      Before(CellsFrom(F, rows, cols, 0, 0)[i], CellsFrom(F, rows, cols, 0, 0)[j])
  {
    CellsFromInside(F, rows, cols, 0, 0);
    CellsFromAscending(F, rows, cols, 0, 0);
    forall p | p in F && InBounds(rows, cols, p) ensures p in CellsFrom(F, rows, cols, 0, 0) {
      CellsFromComplete(F, rows, cols, 0, 0, p);
    }
  }
}
