/**
 * One round of the main loop: check the status, stop on a win or a loss,
 * otherwise ask the engine for a move; with no move the loop gives up, with
 * a move it performs it and rescans the board.
 */
module AutoPlay {

  import opened Wrappers
  import opened Board
  import opened Deduction
  import opened GameStatus
  import opened BoardUpdate

  /** What one round of the main loop decides. */
  datatype Decision = Finished(status: Status) | Stalled | Perform(action: Action)

  /** The decision of the round on board b, given the random source. */
  function Decide(b: array2<int>, rand: nat -> nat): Decision
    reads b
    requires RandomSource(rand)
  {
    var s := StatusOf(b);
    if s != Playing then Finished(s)
    else
      match NextMove(b, rand)
      case None => Stalled
      case Some(a) => Perform(a)
  }

  /** The status check followed, while the game goes on, by find_next_move. */
  method DecideRound(b: array2<int>, rand: nat -> nat) returns (d: Decision)
    requires RandomSource(rand)
    ensures d == Decide(b, rand)
  {
    var s := CheckGameStatus(b);
    if s != Playing {
      return Finished(s);
    }
    var m := FindNextMove(b, rand);
    if m.None? {
      return Stalled;
    }
    return Perform(m.value);
  }

  /**
   * The loop gives up exactly when no mine shows, no cell is unopened and
   * at least one flag remains: the win test still counts the flags, while
   * every strategy needs an unopened cell.
   */
  lemma StalledExactly(b: array2<int>, rand: nat -> nat)
    requires RandomSource(rand)
    ensures Decide(b, rand) == Stalled <==> !HasCode(b, MINE) && !HasCode(b, UNOPENED) && HasCode(b, FLAG)
  {
    NoMoveIffNoUnopened(b, rand);
    if HasCovered(b) {
      var i, j :| 0 <= i < b.Length0 && 0 <= j < b.Length1 && Covered(b[i, j]);
      assert HasCode(b, b[i, j]);
    }
    if HasCode(b, FLAG) {
      var i, j :| 0 <= i < b.Length0 && 0 <= j < b.Length1 && b[i, j] == FLAG;
      assert Covered(b[i, j]);
    }
  }

  /**
   * A move is only made while the game is being played, and it targets an
   * unopened cell of the board.
   */
  lemma PerformTargetsUnopened(b: array2<int>, rand: nat -> nat)
    requires RandomSource(rand)
    ensures Decide(b, rand).Perform? ==>
      && StatusOf(b) == Playing
      && InBounds(b.Length0, b.Length1, Target(Decide(b, rand).action))
      && b[Target(Decide(b, rand).action).0, Target(Decide(b, rand).action).1] == UNOPENED
  {
    MoveTargetsUnopened(b, rand);
  }

  /** While a cell is unopened and no mine shows, the loop always makes a move. */
  lemma UnopenedMeansMove(b: array2<int>, rand: nat -> nat)
    requires RandomSource(rand)
    requires !HasCode(b, MINE) && HasCode(b, UNOPENED)
    ensures Decide(b, rand).Perform?
  {
    NoMoveIffNoUnopened(b, rand);
    var i, j :| 0 <= i < b.Length0 && 0 <= j < b.Length1 && b[i, j] == UNOPENED;
    assert Covered(b[i, j]);
  }

  /**
   * The body of the main loop: decide, and after a move rescan the board
   * with the labels recognised on the new screen; a finished or stalled
   * round leaves the board as it was.
   */
  method Round(b: array2<int>, rand: nat -> nat, labels: seq<seq<Label>>) returns (d: Decision)
    requires RandomSource(rand) && Shaped(labels, b.Length0, b.Length1)
    modifies b
    ensures d == old(Decide(b, rand))
    ensures d.Perform? ==> forall i, j :: 0 <= i < b.Length0 && 0 <= j < b.Length1 ==>
      b[i, j] == CodeFor(labels[i][j], old(b[i, j]))
    ensures !d.Perform? ==> unchanged(b)
  {
    d := DecideRound(b, rand);
    if d.Perform? {
      UpdateBoard(b, labels);
    }
  }
}
