/**
 * The deduction engine of the auto-player: from the current board it picks
 * at most one move, trying three strategies in strict priority order.
 *
 *   1. safe click: a numeric cell whose flagged neighbours already account
 *      for its number; its first unopened neighbour is clicked;
 *   2. certain mine: a numeric cell whose unopened plus flagged neighbours
 *      are exactly its number; its first unopened neighbour is flagged;
 *   3. fallback: some unopened cell, chosen by an injected random source.
 *
 * Strategies 1 and 2 scan the board in row-major order and act on the first
 * cell that qualifies.
 */
module Deduction {

  import opened Wrappers
  import opened Board
  import opened RowMajor

  /** A move: a left click (reveal) or a right click (flag) on a cell. */
  datatype Action = Click(row: int, col: int) | Flag(row: int, col: int)

  /** The two deduction rules. */
  datatype Rule = SafeClick | CertainMine

  function Target(a: Action): Coord {
    (a.row, a.col)
  }

  /** The random source of the fallback: a draw from [0, n) for every n > 0. */
  ghost predicate RandomSource(rand: nat -> nat) {
    forall n: nat :: 0 < n ==> rand(n) < n
  }

  predicate AllInBoard(b: array2<int>, ns: seq<Coord>) {
    forall i :: 0 <= i < |ns| ==> InBounds(b.Length0, b.Length1, ns[i])
  }

  /** How many cells of ns carry a flag. */
  function FlagCount(b: array2<int>, ns: seq<Coord>): nat
    reads b
    requires AllInBoard(b, ns)
  {
    if ns == [] then 0
    else
      var p := ns[|ns| - 1];
      FlagCount(b, ns[..|ns| - 1]) + (if b[p.0, p.1] == FLAG then 1 else 0)
  }

  /** The unopened cells of ns, in the order of ns. */
  function UnopenedOf(b: array2<int>, ns: seq<Coord>): (u: seq<Coord>)
    reads b
    requires AllInBoard(b, ns)
    ensures |u| <= |ns|
    ensures forall i :: 0 <= i < |u| ==>
      u[i] in ns && InBounds(b.Length0, b.Length1, u[i]) && b[u[i].0, u[i].1] == UNOPENED
  {
    if ns == [] then []
    else
      var p := ns[|ns| - 1];
      UnopenedOf(b, ns[..|ns| - 1]) + (if b[p.0, p.1] == UNOPENED then [p] else [])
  }

  /**
   * The neighbour loop shared by both deduction strategies: count the
   * flagged neighbours and collect the unopened ones.
   */
  method Survey(b: array2<int>, ns: seq<Coord>) returns (flagged: nat, unopened: seq<Coord>)
    requires AllInBoard(b, ns)
    ensures flagged == FlagCount(b, ns)
    ensures unopened == UnopenedOf(b, ns)
  {
    flagged, unopened := 0, [];
    for i := 0 to |ns|
      invariant flagged == FlagCount(b, ns[..i])
      invariant unopened == UnopenedOf(b, ns[..i])
    {
      assert ns[..i + 1][..i] == ns[..i];
      var p := ns[i];
      var state := b[p.0, p.1];
      if state == FLAG {
        flagged := flagged + 1;
      } else if state == UNOPENED {
        unopened := unopened + [p];
      }
    }
    assert ns[..|ns|] == ns;
  }

  /** Whether the numeric cell (r, c) lets the rule act on one of its neighbours. */
  predicate Fires(b: array2<int>, rule: Rule, r: int, c: int)
    reads b
    requires InBounds(b.Length0, b.Length1, (r, c))
  {
    var v := b[r, c];
    var ns := Neighbors(b.Length0, b.Length1, r, c);
    IsNumeric(v) && UnopenedOf(b, ns) != [] &&
    match rule
    case SafeClick => v == FlagCount(b, ns)
    case CertainMine => v == |UnopenedOf(b, ns)| + FlagCount(b, ns)
  }

  /** The cell a firing rule acts on: the first unopened neighbour. */
  function FirstUnopenedNeighbor(b: array2<int>, p: Coord): Coord
    reads b
    requires InBounds(b.Length0, b.Length1, p)
    requires UnopenedOf(b, Neighbors(b.Length0, b.Length1, p.0, p.1)) != []
  {
    UnopenedOf(b, Neighbors(b.Length0, b.Length1, p.0, p.1))[0]
  }

  /** The cells at which the rule fires. */
  function FiringCells(b: array2<int>, rule: Rule): set<Coord>
    reads b
  {
    set i, j | 0 <= i < b.Length0 && 0 <= j < b.Length1 && Fires(b, rule, i, j) :: (i, j)
  }

  /** The unopened cells. */
  function UnopenedSet(b: array2<int>): set<Coord>
    reads b
  {
    set i, j | 0 <= i < b.Length0 && 0 <= j < b.Length1 && b[i, j] == UNOPENED :: (i, j)
  }

  /** The first cell, in row-major order, at which the rule fires. */
  function FirstFiring(b: array2<int>, rule: Rule): Option<Coord>
    reads b
  {
    FirstFrom(FiringCells(b, rule), b.Length0, b.Length1, 0, 0)
  }

  /**
   * The cell a deduction rule acts on: the first unopened neighbour of the
   * first cell at which it fires. It is always an unopened cell of the board.
   */
  function ActOn(b: array2<int>, rule: Rule): (t: Option<Coord>)
    reads b
    ensures t.None? <==> FirstFiring(b, rule).None?
    ensures t.Some? ==> InBounds(b.Length0, b.Length1, t.value) && b[t.value.0, t.value.1] == UNOPENED
  {
    match FirstFiring(b, rule)
    case Some(p) =>
      FirstFromSound(FiringCells(b, rule), b.Length0, b.Length1, 0, 0);
      Some(FirstUnopenedNeighbor(b, p))
    case None => None
  }

  /** Every unopened cell of the board, in row-major order. */
  function UnopenedCells(b: array2<int>): seq<Coord>
    reads b
  {
    CellsFrom(UnopenedSet(b), b.Length0, b.Length1, 0, 0)
  }

  /** The move the engine makes on board b, given the random source. */
  function NextMove(b: array2<int>, rand: nat -> nat): Option<Action>
    reads b
    requires RandomSource(rand)
  {
    match ActOn(b, SafeClick)
    case Some(t) => Some(Click(t.0, t.1))
    case None =>
      match ActOn(b, CertainMine)
      case Some(t) => Some(Flag(t.0, t.1))
      case None =>
        var u := UnopenedCells(b);
        if u == [] then None
        else
          var t := u[rand(|u|)];
          Some(Click(t.0, t.1))
  }

  /**
   * The loop body of strategies 1 and 2 for the cell (r, c): when the rule
   * fires there, the neighbour it acts on.
   */
  method TryCell(b: array2<int>, rule: Rule, r: int, c: int) returns (t: Option<Coord>)
    requires InBounds(b.Length0, b.Length1, (r, c))
    ensures t.Some? <==> Fires(b, rule, r, c)
    ensures t.Some? ==> t.value == FirstUnopenedNeighbor(b, (r, c))
  {
    var v := b[r, c];
    if 1 <= v <= 8 {
      var ns := GetNeighbors(b.Length0, b.Length1, r, c);
      var flagged, unopened := Survey(b, ns);
      var fires := match rule
        case SafeClick => v == flagged
        case CertainMine => v == |unopened| + flagged;
      if fires && unopened != [] {
        return Some(unopened[0]);
      }
    }
    return None;
  }

  /** The rule fires at (r, c) exactly when (r, c) is one of its firing cells. */
  lemma InFiringCells(b: array2<int>, rule: Rule, r: int, c: int)
    requires InBounds(b.Length0, b.Length1, (r, c))
    ensures (r, c) in FiringCells(b, rule) <==> Fires(b, rule, r, c)
  {
  }

  /**
   * One row-major scan of the board with one rule: the first firing cell's
   * first unopened neighbour, or None.
   */
  method ScanRule(b: array2<int>, rule: Rule) returns (t: Option<Coord>)
    ensures t == ActOn(b, rule)
  {
    ghost var F := FiringCells(b, rule);
    FirstFromSound(F, b.Length0, b.Length1, 0, 0);
    for r := 0 to b.Length0
      invariant FirstFiring(b, rule) == FirstFrom(F, b.Length0, b.Length1, r, 0)
    {
      for c := 0 to b.Length1
        invariant FirstFiring(b, rule) == FirstFrom(F, b.Length0, b.Length1, r, c)
      {
        InFiringCells(b, rule, r, c);
        var found := TryCell(b, rule, r, c);
        if found.Some? {
          return found;
        }
      }
    }
    return None;
  }

  /** The fallback's scan: every unopened cell, in row-major order. */
  method CollectUnopened(b: array2<int>) returns (unopened: seq<Coord>)
    ensures unopened == UnopenedCells(b)
  {
    ghost var U := UnopenedSet(b);
    unopened := [];
    for r := 0 to b.Length0
      invariant unopened + CellsFrom(U, b.Length0, b.Length1, r, 0) == UnopenedCells(b)
    {
      for c := 0 to b.Length1
        invariant unopened + CellsFrom(U, b.Length0, b.Length1, r, c) == UnopenedCells(b)
      {
        assert (r, c) in U <==> b[r, c] == UNOPENED;
        ghost var rest := CellsFrom(U, b.Length0, b.Length1, r, c + 1);
        if b[r, c] == UNOPENED {
          assert unopened + ([(r, c)] + rest) == (unopened + [(r, c)]) + rest;
          unopened := unopened + [(r, c)];
        } else {
          assert [] + rest == rest;
        }
      }
    }
  }

  /**
   * find_next_move: strategy 1, then strategy 2, then the fallback over
   * every unopened cell.
   */
  method FindNextMove(b: array2<int>, rand: nat -> nat) returns (m: Option<Action>)
    requires RandomSource(rand)
    ensures m == NextMove(b, rand)
  {
    var safe := ScanRule(b, SafeClick);
    if safe.Some? {
      return Some(Click(safe.value.0, safe.value.1));
    }
    var mine := ScanRule(b, CertainMine);
    if mine.Some? {
      return Some(Flag(mine.value.0, mine.value.1));
    }
    var unopened := CollectUnopened(b);
    if unopened == [] {
      return None;
    }
    var t := unopened[rand(|unopened|)];
    return Some(Click(t.0, t.1));
  }

  // ---------------------------------------------------------------------
  // Properties of the specification

  /** Some in-bounds cell lets the rule fire. */
  ghost predicate FiresSomewhere(b: array2<int>, rule: Rule)
    reads b
  {
    exists i, j :: 0 <= i < b.Length0 && 0 <= j < b.Length1 && Fires(b, rule, i, j)
  }

  /** q is the first cell, in row-major order, at which the rule fires. */
  ghost predicate FirstToFire(b: array2<int>, rule: Rule, q: Coord)
    reads b
  {
    && InBounds(b.Length0, b.Length1, q)
    && Fires(b, rule, q.0, q.1)
    && forall i, j :: 0 <= i < b.Length0 && 0 <= j < b.Length1 && Before((i, j), q) ==> !Fires(b, rule, i, j)
  }

  /** The row-major scan finds nothing exactly when the rule fires nowhere. */
  lemma FirstFiringNone(b: array2<int>, rule: Rule)
    ensures FirstFiring(b, rule).None? <==> !FiresSomewhere(b, rule)
  {
    var F := FiringCells(b, rule);
    FirstFromSound(F, b.Length0, b.Length1, 0, 0);
    if FiresSomewhere(b, rule) {
      var i, j :| 0 <= i < b.Length0 && 0 <= j < b.Length1 && Fires(b, rule, i, j);
      InFiringCells(b, rule, i, j);
    }
  }

  /** A cell the scan finds is on the board and the rule fires there. */
  lemma FirstFiringFires(b: array2<int>, rule: Rule)
    ensures FirstFiring(b, rule).Some? ==>
      var p := FirstFiring(b, rule).value;
      InBounds(b.Length0, b.Length1, p) && Fires(b, rule, p.0, p.1)
  {
    FirstFromSound(FiringCells(b, rule), b.Length0, b.Length1, 0, 0);
    if FirstFiring(b, rule).Some? {
      var p := FirstFiring(b, rule).value;
      InFiringCells(b, rule, p.0, p.1);
    }
  }

  /** When the scan finds a cell, it is the first cell, in row-major order, at which the rule fires. */
  lemma FirstFiringCharacterized(b: array2<int>, rule: Rule)
    ensures forall q :: FirstFiring(b, rule) == Some(q) <==> FirstToFire(b, rule, q)
  {
    var F := FiringCells(b, rule);
    FirstCharacterized(F, b.Length0, b.Length1);
    forall q ensures IsFirst(F, b.Length0, b.Length1, q) <==> FirstToFire(b, rule, q) {
      if FirstToFire(b, rule, q) {
        forall p | p in F && InBounds(b.Length0, b.Length1, p) ensures !Before(p, q) {
          InFiringCells(b, rule, p.0, p.1);
        }
        InFiringCells(b, rule, q.0, q.1);
      }
      if IsFirst(F, b.Length0, b.Length1, q) {
        forall i, j | 0 <= i < b.Length0 && 0 <= j < b.Length1 && Before((i, j), q)
          ensures !Fires(b, rule, i, j)
        {
          InFiringCells(b, rule, i, j);
        }
        InFiringCells(b, rule, q.0, q.1);
      }
    }
  }

  /** UnopenedOf is empty exactly when no cell of ns is unopened. */
  lemma {:induction false} UnopenedOfEmpty(b: array2<int>, ns: seq<Coord>)
    requires AllInBoard(b, ns)
    ensures UnopenedOf(b, ns) == [] <==> forall i :: 0 <= i < |ns| ==> b[ns[i].0, ns[i].1] != UNOPENED
  {
    if ns != [] {
      var init := ns[..|ns| - 1];
      UnopenedOfEmpty(b, init);
      assert forall i :: 0 <= i < |init| ==> init[i] == ns[i];
    }
  }

  /** The first entry of UnopenedOf is the first unopened cell of ns. */
  lemma {:induction false} FirstUnopenedIndex(b: array2<int>, ns: seq<Coord>) returns (k: nat)
    requires AllInBoard(b, ns) && UnopenedOf(b, ns) != []
    ensures k < |ns| && ns[k] == UnopenedOf(b, ns)[0] && b[ns[k].0, ns[k].1] == UNOPENED
    ensures forall j :: 0 <= j < k ==> b[ns[j].0, ns[j].1] != UNOPENED
  {
    var init := ns[..|ns| - 1];
    assert forall i :: 0 <= i < |init| ==> init[i] == ns[i];
    if UnopenedOf(b, init) == [] {
      UnopenedOfEmpty(b, init);
      k := |ns| - 1;
    } else {
      k := FirstUnopenedIndex(b, init);
    }
  }

  /**
   * A firing rule acts on the first neighbour, in neighbour order, that is
   * unopened.
   */
  lemma FirstUnopenedNeighborIsFirst(b: array2<int>, p: Coord) returns (k: nat)
    requires InBounds(b.Length0, b.Length1, p)
    requires UnopenedOf(b, Neighbors(b.Length0, b.Length1, p.0, p.1)) != []
    ensures var ns := Neighbors(b.Length0, b.Length1, p.0, p.1);
      && k < |ns| && ns[k] == FirstUnopenedNeighbor(b, p)
      && b[ns[k].0, ns[k].1] == UNOPENED
      && forall j :: 0 <= j < k ==> b[ns[j].0, ns[j].1] != UNOPENED
  {
    k := FirstUnopenedIndex(b, Neighbors(b.Length0, b.Length1, p.0, p.1));
  }

  /**
   * Strategy 1: when q is the first cell, in row-major order, whose flagged
   * neighbours match its number and which has an unopened neighbour, the
   * move is a click on q's first unopened neighbour.
   */
  lemma SafeClickMove(b: array2<int>, rand: nat -> nat, q: Coord)
    requires RandomSource(rand)
    requires FirstToFire(b, SafeClick, q)
    ensures var t := FirstUnopenedNeighbor(b, q);
      NextMove(b, rand) == Some(Click(t.0, t.1))
  {
    FirstFiringCharacterized(b, SafeClick);
  }

  /** Priority: whenever strategy 1 applies somewhere, the move is a click, never a flag. */
  lemma SafeClickHasPriority(b: array2<int>, rand: nat -> nat)
    requires RandomSource(rand)
    requires FiresSomewhere(b, SafeClick)
    ensures NextMove(b, rand).Some? && NextMove(b, rand).value.Click?
    ensures exists q :: FirstToFire(b, SafeClick, q) && Target(NextMove(b, rand).value) == FirstUnopenedNeighbor(b, q)
  {
    FirstFiringNone(b, SafeClick);
    FirstFiringCharacterized(b, SafeClick);
    var q := FirstFiring(b, SafeClick).value;
    assert FirstToFire(b, SafeClick, q);
  }

  /**
   * Strategy 2: when strategy 1 applies nowhere and q is the first cell whose
   * unopened plus flagged neighbours match its number, the move flags q's
   * first unopened neighbour.
   */
  lemma CertainMineMove(b: array2<int>, rand: nat -> nat, q: Coord)
    requires RandomSource(rand)
    requires !FiresSomewhere(b, SafeClick) && FirstToFire(b, CertainMine, q)
    ensures var t := FirstUnopenedNeighbor(b, q);
      NextMove(b, rand) == Some(Flag(t.0, t.1))
  {
    FirstFiringNone(b, SafeClick);
    FirstFiringCharacterized(b, CertainMine);
  }

  /** A flag is placed exactly when strategy 1 applies nowhere and strategy 2 somewhere. */
  lemma FlagOnlyFromStrategyTwo(b: array2<int>, rand: nat -> nat)
    requires RandomSource(rand)
    ensures (NextMove(b, rand).Some? && NextMove(b, rand).value.Flag?) <==>
      !FiresSomewhere(b, SafeClick) && FiresSomewhere(b, CertainMine)
    ensures NextMove(b, rand).Some? && NextMove(b, rand).value.Flag? ==>
      exists q :: FirstToFire(b, CertainMine, q) && Target(NextMove(b, rand).value) == FirstUnopenedNeighbor(b, q)
  {
    FirstFiringNone(b, SafeClick);
    FirstFiringNone(b, CertainMine);
    FirstFiringCharacterized(b, CertainMine);
    if FiresSomewhere(b, CertainMine) {
      var q := FirstFiring(b, CertainMine).value;
      assert FirstToFire(b, CertainMine, q);
    }
  }

  /**
   * The fallback's list holds exactly the unopened cells of the board, in
   * strictly ascending row-major order.
   */
  lemma UnopenedCellsExactly(b: array2<int>)
    ensures forall p :: p in UnopenedCells(b) <==> InBounds(b.Length0, b.Length1, p) && b[p.0, p.1] == UNOPENED
    ensures forall i, j :: 0 <= i < j < |UnopenedCells(b)| ==> Before(UnopenedCells(b)[i], UnopenedCells(b)[j])
  {
    CellsExactly(UnopenedSet(b), b.Length0, b.Length1);
  }

  /** Every move the engine returns targets an in-bounds unopened cell. */
  lemma MoveTargetsUnopened(b: array2<int>, rand: nat -> nat)
    requires RandomSource(rand)
    ensures NextMove(b, rand).Some? ==>
      var t := Target(NextMove(b, rand).value);
      InBounds(b.Length0, b.Length1, t) && b[t.0, t.1] == UNOPENED
  {
    UnopenedCellsExactly(b);
  }

  /** The fallback's list is empty exactly when no cell is unopened. */
  lemma UnopenedCellsEmpty(b: array2<int>)
    ensures UnopenedCells(b) == [] <==> !HasCode(b, UNOPENED)
  {
    UnopenedCellsExactly(b);
    if HasCode(b, UNOPENED) {
      var i, j :| 0 <= i < b.Length0 && 0 <= j < b.Length1 && b[i, j] == UNOPENED;
      assert (i, j) in UnopenedCells(b);
    }
    if UnopenedCells(b) != [] {
      var p := UnopenedCells(b)[0];
      assert p in UnopenedCells(b);
      assert 0 <= p.0 < b.Length0 && 0 <= p.1 < b.Length1 && b[p.0, p.1] == UNOPENED;
    }
  }

  /**
   * The engine has no move exactly when no cell is unopened; otherwise, if
   * neither deduction applies, it clicks the drawn element of the list of
   * unopened cells.
   */
  lemma NoMoveIffNoUnopened(b: array2<int>, rand: nat -> nat)
    requires RandomSource(rand)
    ensures NextMove(b, rand).None? <==> !HasCode(b, UNOPENED)
    ensures HasCode(b, UNOPENED) && !FiresSomewhere(b, SafeClick) && !FiresSomewhere(b, CertainMine) ==>
      var u := UnopenedCells(b);
      |u| > 0 && NextMove(b, rand) == Some(Click(u[rand(|u|)].0, u[rand(|u|)].1))
  {
    UnopenedCellsEmpty(b);
    FirstFiringNone(b, SafeClick);
    FirstFiringNone(b, CertainMine);
    MoveTargetsUnopened(b, rand);
    var m := NextMove(b, rand);
    if m.Some? {
      var t := Target(m.value);
      assert 0 <= t.0 < b.Length0 && 0 <= t.1 < b.Length1 && b[t.0, t.1] == UNOPENED;
    }
  }

  // ---------------------------------------------------------------------
  // Soundness of the two deductions against a hidden mine layout

  /** How many cells of s lie in mines. */
  function MineCount(s: seq<Coord>, mines: set<Coord>): nat {
    if s == [] then 0
    else MineCount(s[..|s| - 1], mines) + (if s[|s| - 1] in mines then 1 else 0)
  }

  /**
   * The board agrees with the mine layout: every number counts the mines
   * around it, every flag sits on a mine, and mines lie only under
   * unopened or flagged cells.
   */
  ghost predicate Consistent(b: array2<int>, mines: set<Coord>)
    reads b
  {
    && (forall i, j :: 0 <= i < b.Length0 && 0 <= j < b.Length1 && IsNumeric(b[i, j]) ==>
          b[i, j] == MineCount(Neighbors(b.Length0, b.Length1, i, j), mines))
    && (forall i, j :: 0 <= i < b.Length0 && 0 <= j < b.Length1 && b[i, j] == FLAG ==> (i, j) in mines)
    && (forall p :: p in mines ==>
          InBounds(b.Length0, b.Length1, p) && (b[p.0, p.1] == UNOPENED || b[p.0, p.1] == FLAG))
  }

  /** Under a consistent layout, the mines of ns are its flags plus its unopened mines. */
  lemma {:induction false} MineCountSplit(b: array2<int>, ns: seq<Coord>, mines: set<Coord>)
    requires AllInBoard(b, ns) && Consistent(b, mines)
    ensures MineCount(ns, mines) == FlagCount(b, ns) + MineCount(UnopenedOf(b, ns), mines)
  {
    if ns != [] {
      var init, p := ns[..|ns| - 1], ns[|ns| - 1];
      MineCountSplit(b, init, mines);
      var tail := if b[p.0, p.1] == UNOPENED then [p] else [];
      MineCountAppend(UnopenedOf(b, init), tail, mines);
    }
  }

  lemma {:induction false} MineCountAppend(s: seq<Coord>, t: seq<Coord>, mines: set<Coord>)
    ensures MineCount(s + t, mines) == MineCount(s, mines) + MineCount(t, mines)
  {
    if t == [] {
      assert s + t == s;
    } else {
      assert (s + t)[..|s + t| - 1] == s + t[..|t| - 1];
      assert (s + t)[|s + t| - 1] == t[|t| - 1];
      MineCountAppend(s, t[..|t| - 1], mines);
    }
  }

  /** No mine in s when the count is 0; every cell of s a mine when the count is |s|. */
  lemma {:induction false} MineCountExtremes(s: seq<Coord>, mines: set<Coord>)
    ensures MineCount(s, mines) <= |s|
    ensures MineCount(s, mines) == 0 ==> forall i :: 0 <= i < |s| ==> s[i] !in mines
    ensures MineCount(s, mines) == |s| ==> forall i :: 0 <= i < |s| ==> s[i] in mines
  {
    if s != [] {
      var init := s[..|s| - 1];
      MineCountExtremes(init, mines);
      assert forall i :: 0 <= i < |init| ==> init[i] == s[i];
    }
  }

  /**
   * The rationale of both deductions: on a board consistent with the mine
   * layout, a safe click never hits a mine and a certain-mine flag always
   * marks one.
   */
  lemma DeductionsSound(b: array2<int>, mines: set<Coord>, q: Coord)
    requires Consistent(b, mines) && InBounds(b.Length0, b.Length1, q)
    ensures Fires(b, SafeClick, q.0, q.1) ==> FirstUnopenedNeighbor(b, q) !in mines
    ensures Fires(b, CertainMine, q.0, q.1) ==> FirstUnopenedNeighbor(b, q) in mines
  {
    var ns := Neighbors(b.Length0, b.Length1, q.0, q.1);
    MineCountSplit(b, ns, mines);
    MineCountExtremes(UnopenedOf(b, ns), mines);
  }

  /**
   * So on a consistent board the deduced moves are right: a flag always
   * lands on a mine, and while strategy 1 applies the click is safe.
   */
  lemma DeducedMovesSound(b: array2<int>, rand: nat -> nat, mines: set<Coord>)
    requires RandomSource(rand) && Consistent(b, mines)
    ensures NextMove(b, rand).Some? && NextMove(b, rand).value.Flag? ==> Target(NextMove(b, rand).value) in mines
    ensures FiresSomewhere(b, SafeClick) ==>
      NextMove(b, rand).Some? && Target(NextMove(b, rand).value) !in mines
  {
    FirstFiringNone(b, SafeClick);
    FirstFiringFires(b, SafeClick);
    FirstFiringFires(b, CertainMine);
    match FirstFiring(b, SafeClick)
    case Some(q) => DeductionsSound(b, mines, q);
    case None =>
      match FirstFiring(b, CertainMine)
      case Some(q) => DeductionsSound(b, mines, q);
      case None =>
  }
}
