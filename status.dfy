/**
 * The game-over test of the auto-player, judged from the internal board
 * alone: an exploded mine anywhere loses; otherwise the game is won once no
 * cell is unopened or flagged, and still being played while one is.
 */
module GameStatus {

  import opened Board

  datatype Status = Playing | Win | Lose

  /** A cell that the win test still counts: unopened or flagged. */
  predicate Covered(v: int) {
    v == UNOPENED || v == FLAG
  }

  /** Some cell of the board is still covered. */
  predicate HasCovered(b: array2<int>)
    reads b
  {
    exists i, j :: 0 <= i < b.Length0 && 0 <= j < b.Length1 && Covered(b[i, j])
  }

  /** The status check_game_status reports for board b. */
  function StatusOf(b: array2<int>): Status
    reads b
  {
    if HasCode(b, MINE) then Lose
    else if HasCovered(b) then Playing
    else Win
  }

  /** No cell strictly before (r, c) in row-major order carries code v. */
  ghost predicate NoCodeBefore(b: array2<int>, v: int, r: int, c: int)
    reads b
  {
    forall i, j :: 0 <= i < b.Length0 && 0 <= j < b.Length1 && Before((i, j), (r, c)) ==> b[i, j] != v
  }

  /** No cell strictly before (r, c) in row-major order is covered. */
  ghost predicate NoCoveredBefore(b: array2<int>, r: int, c: int)
    reads b
  {
    forall i, j :: 0 <= i < b.Length0 && 0 <= j < b.Length1 && Before((i, j), (r, c)) ==> !Covered(b[i, j])
  }

  /**
   * check_game_status: a first row-major pass returns 'lose' at the first
   * mine; a second pass counts the unopened and flagged cells, and a count
   * of zero means 'win'.
   */
  method CheckGameStatus(b: array2<int>) returns (s: Status)
    ensures s == StatusOf(b)
  {
    for r := 0 to b.Length0
      invariant NoCodeBefore(b, MINE, r, 0)
    {
      for c := 0 to b.Length1
        invariant NoCodeBefore(b, MINE, r, c)
      {
        if b[r, c] == MINE {
          return Lose;
        }
      }
    }
    assert !HasCode(b, MINE) by {
      forall i, j | 0 <= i < b.Length0 && 0 <= j < b.Length1 ensures b[i, j] != MINE {
        assert Before((i, j), (b.Length0, 0));
      }
    }
    var unopenedCount: nat := 0;
    for r := 0 to b.Length0
      invariant unopenedCount == 0 <==> NoCoveredBefore(b, r, 0)
    {
      for c := 0 to b.Length1
        invariant unopenedCount == 0 <==> NoCoveredBefore(b, r, c)
      {
        if b[r, c] == UNOPENED || b[r, c] == FLAG {
          unopenedCount := unopenedCount + 1;
        }
      }
    }
    assert unopenedCount == 0 <==> !HasCovered(b) by {
      if HasCovered(b) {
        var i, j :| 0 <= i < b.Length0 && 0 <= j < b.Length1 && Covered(b[i, j]);
        assert Before((i, j), (b.Length0, 0));
      }
    }
    if unopenedCount == 0 {
      return Win;
    }
    return Playing;
  }

  /** The codes the update loop ever writes: a mine, a blank, unopened, a digit or a flag. */
  predicate WellCoded(v: int) {
    v == MINE || v == BLANK || v == UNOPENED || IsNumeric(v) || v == FLAG
  }

  /** Every cell of the board carries one of the codes the update loop writes. */
  ghost predicate BoardWellCoded(b: array2<int>)
    reads b
  {
    forall i, j :: 0 <= i < b.Length0 && 0 <= j < b.Length1 ==> WellCoded(b[i, j])
  }

  /**
   * On a well-coded board the game is won exactly when every cell is an
   * opened number or an opened blank, and lost exactly when some mine shows.
   */
  lemma StatusMeaning(b: array2<int>)
    requires BoardWellCoded(b)
    ensures StatusOf(b) == Win <==>
      forall i, j :: 0 <= i < b.Length0 && 0 <= j < b.Length1 ==> (IsNumeric(b[i, j]) || b[i, j] == BLANK)
    ensures StatusOf(b) == Lose <==> HasCode(b, MINE)
    ensures StatusOf(b) == Playing <==> !HasCode(b, MINE) && (HasCode(b, UNOPENED) || HasCode(b, FLAG))
  {
    if StatusOf(b) != Win {
      if HasCode(b, MINE) {
        var i, j :| 0 <= i < b.Length0 && 0 <= j < b.Length1 && b[i, j] == MINE;
        assert !IsNumeric(b[i, j]) && b[i, j] != BLANK;
      } else {
        var i, j :| 0 <= i < b.Length0 && 0 <= j < b.Length1 && Covered(b[i, j]);
        assert !IsNumeric(b[i, j]) && b[i, j] != BLANK;
      }
    }
    if HasCovered(b) {
      var i, j :| 0 <= i < b.Length0 && 0 <= j < b.Length1 && Covered(b[i, j]);
      assert HasCode(b, b[i, j]);
    }
  }
}
