/** The saved game state: the round counter, the secret and the guess board,
    plus the per-round score grid the page reads and writes. */
module SaveState {
  import opened Rules

  /** Sets every cell of `b` to the unset marker, row by row. */
  method FillUnset(b: array2<int>)
    modifies b
    ensures forall x, y :: 0 <= x < b.Length0 && 0 <= y < b.Length1 ==> b[x, y] == Unset
  {
    var x := 0;
    while x < b.Length0
      invariant 0 <= x <= b.Length0
      invariant forall x', y' :: 0 <= x' < x && 0 <= y' < b.Length1 ==> b[x', y'] == Unset
    {
      var y := 0;
      while y < b.Length1
        invariant 0 <= y <= b.Length1
        invariant forall x', y' :: 0 <= x' < x && 0 <= y' < b.Length1 ==> b[x', y'] == Unset
        invariant forall y' :: 0 <= y' < y ==> b[x, y'] == Unset
      {
        b[x, y] := Unset;
        y := y + 1;
      }
      x := x + 1;
    }
  }

  /** One game's state. `board[r, s]` is the colour placed in slot `s` of
      round `r`'s guess (or Unset); `pegs[r, 0]` and `pegs[r, 1]` are that
      round's white and black counts. The board has one row per round. */
  class SaveData {
    var round: int
    var target: array<int>
    var board: array2<int>
    var pegs: array2<int>

    ghost predicate Valid()
      reads this
    {
      && 0 <= round <= Rounds
      && target.Length == Slots
      && board.Length0 == Rounds && board.Length1 == Slots
      && pegs.Length0 == Rounds && pegs.Length1 == 2
      && board != pegs
    }

    /** Guess row `r` of the board. */
    function Row(r: int): (row: seq<int>)
      reads this, board
      requires Valid() && 0 <= r < Rounds
      ensures |row| == Slots && forall s :: 0 <= s < Slots ==> row[s] == board[r, s]
    {
      var b := board;
      seq(Slots, s requires 0 <= s < Slots reads b => b[r, s])
    }

    /** Every stored score holds 0 <= black <= white <= 4 (a fresh state
        stores white 0, black 0 for every round). */
    ghost predicate ScoresInRange()
      reads this, pegs
      requires Valid()
    {
      forall r :: 0 <= r < Rounds ==> 0 <= pegs[r, 1] <= pegs[r, 0] <= Slots
    }

    constructor ()
      ensures Valid() && ScoresInRange()
      ensures fresh(target) && fresh(board) && fresh(pegs)
      ensures round == 0
      ensures forall i :: 0 <= i < Slots ==> target[i] == 0
      ensures forall r, s :: 0 <= r < Rounds && 0 <= s < Slots ==> board[r, s] == Unset
      ensures forall r, k :: 0 <= r < Rounds && 0 <= k < 2 ==> pegs[r, k] == 0
    {
      round := 0;
      target := new int[Slots](_ => 0);
      board := new int[Rounds, Slots]((_, _) => 0);
      pegs := new int[Rounds, 2]((_, _) => 0);
      new;
      FillUnset(board);
    }
  }

  /** The rows and columns the saved-state constructor really allocates: a
      board of 4 rows of 8 cells, though it is indexed [round, slot] with
      round up to 7. */
  const LegacyRows := 4
  const LegacyColumns := 8

  /** The saved state exactly as its constructor allocates it, kept to show
      the allocation defect; the game itself uses SaveData. */
  class LegacySaveData {
    var round: int
    var target: array<int>
    var board: array2<int>

    constructor ()
      ensures fresh(target) && fresh(board)
      ensures round == 0 && target.Length == Slots
      ensures forall i :: 0 <= i < Slots ==> target[i] == 0
      ensures board.Length0 == LegacyRows && board.Length1 == LegacyColumns
      ensures forall x, y :: 0 <= x < LegacyRows && 0 <= y < LegacyColumns ==> board[x, y] == Unset
    {
      round := 0;
      target := new int[Slots](_ => 0);
      board := new int[LegacyRows, LegacyColumns]((_, _) => 0);
      new;
      FillUnset(board);
    }
  }

  /** Four scored rows without a win take a new game from round 0 to round
      4 and the game goes on, but round 4 is not a row of the legacy board:
      the fourth check, which re-reads the current row to decide whether the
      check button stays enabled, already indexes past its first dimension. */
  lemma LegacyBoardMissesRoundFour()
    ensures var (r1, o1) := Progress(0, 0);
            var (r2, o2) := Progress(r1, 0);
            var (r3, o3) := Progress(r2, 0);
            var (r4, o4) := Progress(r3, 0);
            o1 == o2 == o3 == o4 == Continue && r4 == 4 && !(r4 < LegacyRows)
  {
  }
}
