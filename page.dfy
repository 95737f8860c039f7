/** The game logic of the Mastermind page: starting a game, choosing and
    placing colours, deciding whether the current row may be checked,
    checking it, and the score pegs drawn for every round. Widgets, images
    and dialogs are not modelled; each handler's decision is returned or
    stored instead. */
module Page {
  import opened Rules
  import opened SaveState

  class MainPage {
    /** The game being played; a new game replaces it wholesale. */
    var save: SaveData
    /** The palette colour the next tapped board cell receives. */
    var selectedColor: int

    ghost predicate Valid()
      reads this, save
    {
      save.Valid() && 0 <= selectedColor < Colours
    }

    constructor ()
      ensures Valid() && save.ScoresInRange() && selectedColor == 0
      ensures fresh(save) && fresh(save.target) && fresh(save.board) && fresh(save.pegs)
      ensures save.round == 0
      ensures forall i :: 0 <= i < Slots ==> save.target[i] == 0
      ensures forall r, s :: 0 <= r < Rounds && 0 <= s < Slots ==> save.board[r, s] == Unset
      ensures forall r, k :: 0 <= r < Rounds && 0 <= k < 2 ==> save.pegs[r, k] == 0
    {
      save := new SaveData();
      selectedColor := 0;
    }

    /** The score pegs of every round: peg k of round i is black while
        k < black, white while k < white, and empty after that. */
    method UpdateGuessPegs() returns (display: seq<seq<Peg>>)
      requires Valid()
      ensures |display| == Rounds
      ensures forall i :: 0 <= i < Rounds ==>
                display[i] == Pegs(Slots, save.pegs[i, 0], save.pegs[i, 1])
      ensures save.ScoresInRange() ==> forall i :: 0 <= i < Rounds ==>
                && multiset(display[i])[BlackPeg] == save.pegs[i, 1]
                && multiset(display[i])[WhitePeg] == save.pegs[i, 0] - save.pegs[i, 1]
    {
      display := [];
      for i := 0 to Rounds
        invariant |display| == i
        invariant forall i' :: 0 <= i' < i ==>
                    display[i'] == Pegs(Slots, save.pegs[i', 0], save.pegs[i', 1])
      {
        var images: seq<Peg> := [];
        var index := 0;
        while index < Slots
          invariant 0 <= index <= Slots
          invariant images == Pegs(index, save.pegs[i, 0], save.pegs[i, 1])
        {
          if index < save.pegs[i, 1] {
            images := images + [BlackPeg];
          } else if index < save.pegs[i, 0] {
            images := images + [WhitePeg];
          } else {
            images := images + [NoPeg];
          }
          index := index + 1;
        }
        display := display + [images];
      }
      if save.ScoresInRange() {
        forall i | 0 <= i < Rounds
          ensures multiset(display[i])[BlackPeg] == save.pegs[i, 1]
          ensures multiset(display[i])[WhitePeg] == save.pegs[i, 0] - save.pegs[i, 1]
        {
          DisplayShowsScore(save.pegs[i, 0], save.pegs[i, 1]);
        }
      }
    }

    /** Whether the check button is enabled: the current row has no unset cell. */
    method EnableCheckButton() returns (isValid: bool)
      requires Valid() && save.round < Rounds
      ensures isValid <==> forall s :: 0 <= s < Slots ==> save.board[save.round, s] != Unset
    {
      isValid := true;
      for i := 0 to Slots
        invariant isValid <==> forall s :: 0 <= s < i ==> save.board[save.round, s] != Unset
      {
        if save.board[save.round, i] == Unset {
          isValid := false;
        }
      }
    }

    /** Starts a game: a fresh state, then four colours drawn one by one,
        each different from those drawn before. */
    method NewGame()
      requires 0 <= selectedColor < Colours
      modifies this
      ensures Valid() && save.ScoresInRange()
      ensures fresh(save) && fresh(save.target) && fresh(save.board) && fresh(save.pegs)
      ensures save.round == 0 && IsSecret(save.target[..])
      ensures forall r, s :: 0 <= r < Rounds && 0 <= s < Slots ==> save.board[r, s] == Unset
      ensures forall r, k :: 0 <= r < Rounds && 0 <= k < 2 ==> save.pegs[r, k] == 0
      ensures selectedColor == old(selectedColor)
    {
      save := new SaveData();
      var duplicates: seq<int> := [];
      for i := 0 to Slots
        modifies save.target
        invariant duplicates == save.target[..i]
        invariant Distinct(duplicates)
        invariant forall k :: 0 <= k < i ==> 0 <= duplicates[k] < Colours
      {
        UnusedColourExists(duplicates, Colours);
        var num :| 0 <= num < Colours && num !in duplicates;
        duplicates := duplicates + [num];
        save.target[i] := num;
      }
      assert save.target[..] == save.target[..Slots];
    }

    /** Makes `colour` the colour the next placed peg gets. */
    method SelectPegTapped(colour: int)
      requires Valid() && 0 <= colour < Colours
      modifies this`selectedColor
      ensures Valid() && selectedColor == colour
    {
      selectedColor := colour;
    }

    /** Puts the selected colour in slot `slot` of the current round's row. */
    method PlacePegTapped(slot: int)
      requires Valid() && save.round < Rounds && 0 <= slot < Slots
      modifies save.board
      ensures Valid()
      ensures save.Row(save.round) == old(save.Row(save.round))[slot := selectedColor]
      ensures forall r, s :: 0 <= r < Rounds && 0 <= s < Slots && r != save.round ==>
                save.board[r, s] == old(save.board[r, s])
      ensures unchanged(this, save, save.target, save.pegs)
    {
      save.board[save.round, slot] := selectedColor;
    }

    /** The white (total colour matches) and black (exact matches) counts of
        the current row against the target, by the page's nested loop. */
    method ScoreCurrentRow() returns (white: int, black: int)
      requires Valid() && save.round < Rounds
      ensures white == WhiteCount(save.target[..], save.Row(save.round))
      ensures black == BlackCount(save.target[..], save.Row(save.round))
      ensures 0 <= black <= white <= Slots
      ensures black == Slots <==> save.target[..] == save.Row(save.round)
      ensures Distinct(save.target[..]) ==>
                white == |multiset(save.target[..]) * multiset(save.Row(save.round))|
    {
      ghost var t := save.target[..];
      ghost var row := save.Row(save.round);
      white, black := 0, 0;
      for i := 0 to Slots
        invariant white == WhiteCount(t[..i], row)
        invariant black == BlackCount(t[..i], row)
      {
        var whiteMatched := false;
        for j := 0 to Slots
          invariant whiteMatched <==> t[i] in row[..j]
          invariant white == WhiteCount(t[..i], row) + (if whiteMatched then 1 else 0)
          invariant black == BlackCount(t[..i], row) + (if i < j && t[i] == row[i] then 1 else 0)
        {
          if save.target[i] == save.board[save.round, j] {
            if !whiteMatched {
              white := white + 1;
              whiteMatched := true;
            }
            if i == j {
              black := black + 1;
            }
          }
          assert row[..j + 1] == row[..j] + [row[j]];
        }
        assert row[..Slots] == row;
        assert t[..i + 1][..i] == t[..i];
      }
      assert t[..Slots] == t;
      ScoreBounds(t, row);
      WinIffExactMatch(t, row);
      if Distinct(t) {
        WhiteIsCommonColours(t, row);
      }
    }

    /** Scores the current row into its pegs entry; four black wins on the
        same round, otherwise the round advances and running out of rounds
        loses. */
    method CheckClicked() returns (outcome: Outcome)
      requires Valid() && save.round < Rounds
      modifies save, save.pegs
      ensures Valid() && save == old(save) && selectedColor == old(selectedColor)
      ensures save.target == old(save.target) && save.board == old(save.board)
      ensures save.pegs == old(save.pegs)
      ensures unchanged(save.target, save.board)
      ensures var r := old(save.round);
              && save.pegs[r, 0] == WhiteCount(save.target[..], save.Row(r))
              && save.pegs[r, 1] == BlackCount(save.target[..], save.Row(r))
              && (save.round, outcome) == Progress(r, save.pegs[r, 1])
      ensures forall r, k :: 0 <= r < Rounds && 0 <= k < 2 && r != old(save.round) ==>
                save.pegs[r, k] == old(save.pegs[r, k])
      ensures outcome == Won <==> save.target[..] == save.Row(old(save.round))
      ensures outcome == Won ==> save.round == old(save.round)
      ensures outcome != Won ==> save.round == old(save.round) + 1
      ensures outcome == Lost <==> outcome != Won && save.round >= Rounds
      ensures old(save.ScoresInRange()) ==> save.ScoresInRange()
    {
      var whitePegs, blackPegs := ScoreCurrentRow();

      save.pegs[save.round, 0] := whitePegs;
      save.pegs[save.round, 1] := blackPegs;

      if blackPegs == Slots {
        return Won;
      }

      ghost var scored, row := save.round, save.Row(save.round);
      save.round := save.round + 1;
      assert save.Row(scored) == row;

      if save.round >= Rounds {
        return Lost;
      }
      return Continue;
    }
  }
}
