# Mastermind game engine

A Dafny model of the game logic of a single-player Mastermind app. The
player has 8 rounds to guess a secret of 4 pairwise distinct colours drawn
from a palette of 6. After each guess, the app stores a "white" count and a
"black" count for the round:

- white is the number of secret slots whose colour occurs anywhere in the guess;
- black is the number of secret slots matched at the same position.

The app then draws `black` black pegs and `white - black` white pegs.

The model has three modules:

- `Rules` (rules.dfy) holds the rules as values. It has the scoring counts,
  round progression, the score-peg images and the pigeonhole fact behind
  drawing distinct colours. It also has the lemmas about them.
- `SaveState` (savestate.dfy) models the saved state `SaveData`. This is a
  class holding the round counter, the `target` array and the guess `board`.
  The board is a 2-D array whose unset cells hold `-1`. The class also holds
  the per-round `pegs` grid that the page reads and writes.
- `Page` (page.dfy) models the page class `MainPage`. It is a class holding
  the current `SaveData` and the selected colour. Its event handlers are
  methods: new game, select a colour, place a peg, enable-check decision,
  check a row, and score-peg display. Each method is specified against the
  functions of `Rules`.

Design choices:

- The `pegs` field is read and written by the page but is not declared in
  the saved-state class. The model adds it as a `Rounds × 2` grid. Column 0
  holds white and column 1 holds black, both 0 in a fresh state.
- The saved-state constructor allocates the board as 4 rows × 8 columns.
  Every access indexes it `[round, slot]`, with round up to 7. `SaveData`
  therefore uses the 8 × 4 board that the accesses assume. `LegacySaveData`
  keeps the allocation as written (see Findings).
- Colour drawing uses `System.Random` with a reject-if-already-drawn loop.
  The model replaces this with a nondeterministic choice of a colour not yet
  drawn. A lemma shows that such a colour always exists.
- The page's scoring is not the multiset-intersection rule that Mastermind
  usually states. The two agree whenever the secret is pairwise distinct,
  which every new game guarantees (`Rules.WhiteIsCommonColours`). A loaded
  state is not validated, so its secret may have repeats. The model then
  follows the code: each secret slot counts one white if its colour occurs
  in the guess.

## Model

| member | source | states |
|---|---|---|
| `Rules.WhiteCount` | GMIT-Mastermind/MainPage.xaml.cs:289-298 | the page's white count, one per target slot whose colour occurs anywhere in the guess; its contract adds only that it is at most the target length (the properties are in the lemmas below) |
| `Rules.BlackCount` | GMIT-Mastermind/MainPage.xaml.cs:300-303 | the page's black count, one per target slot equal to the guess at the same position; its contract adds only that it is at most the target length |
| `Rules.ScoreBounds` | GMIT-Mastermind/MainPage.xaml.cs:287-306 | each target slot adds at most one white and one black, and black only where white; so 0 <= black <= white <= number of slots |
| `Rules.AllBlackIffPrefix` | GMIT-Mastermind/MainPage.xaml.cs:287-306 | black equals the target length iff the target equals the guess prefix of that length |
| `Rules.WinIffExactMatch` | GMIT-Mastermind/MainPage.xaml.cs:300-312 | four black (a win) iff the guess row equals the target position by position |
| `Rules.WhiteIsCommonColours` | GMIT-Mastermind/MainPage.xaml.cs:289-298 | for a pairwise distinct target, white is the size of the multiset intersection of target and guess (standard colour-match count) |
| `Rules.ScoreExamples` | GMIT-Mastermind/MainPage.xaml.cs:287-306 | against target [0,1,2,3]: guess [0,0,0,0] scores white 1, black 1; [3,2,1,0] scores 4, 0; [0,1,2,3] scores 4, 4 |
| `Rules.Progress` | GMIT-Mastermind/MainPage.xaml.cs:311-327 | the round and outcome after a scored row: won iff black is 4; from a round below 8 the next round stays within 0..8, and a game that continues is at a round below 8 |
| `Rules.PegAt` | GMIT-Mastermind/MainPage.xaml.cs:44-55 | score peg k is black iff k < black and white iff black <= k < white, otherwise empty |
| `Rules.Pegs` | GMIT-Mastermind/MainPage.xaml.cs:41-57 | the first n score pegs in drawing order; its contract adds only that there are n of them |
| `Rules.PegsCount` | GMIT-Mastermind/MainPage.xaml.cs:41-57 | among the first n score pegs, min(n, black) are black, min(n, white) - min(n, black) white, the rest empty |
| `Rules.DisplayShowsScore` | GMIT-Mastermind/MainPage.xaml.cs:42-57 | with 0 <= black <= white <= 4 the four pegs show exactly black black pegs, white - black white pegs and 4 - white empty ones |
| `Rules.UnusedColourExists` | GMIT-Mastermind/MainPage.xaml.cs:170-180 | fewer than n drawn values leave some value in [0, n) undrawn, so the colour-drawing loop always has a colour to take |
| `SaveState.FillUnset` | GMIT-Mastermind/SaveData.cs:15-21 | the nested loop leaves every cell -1; invariant: all rows before x, and row x before y, are -1 |
| `SaveState.SaveData.constructor` | GMIT-Mastermind/SaveData.cs:10-22 | fresh state: round 0, target of 4 zeros, every board cell -1 on a Rounds × 4 board, pegs all 0 |
| `SaveState.LegacySaveData.constructor` | GMIT-Mastermind/SaveData.cs:12-13 | the allocation as written: a 4 × 8 board, every cell -1, round 0, target of 4 zeros |
| `SaveState.LegacyBoardMissesRoundFour` | GMIT-Mastermind/MainPage.xaml.cs:321-331 | four rounds without a win lead from round 0 to round 4 with the game going on, and 4 is not a row index of the 4 × 8 board, which the fourth check reads when it re-enables the check button |
| `Page.MainPage.constructor` | GMIT-Mastermind/MainPage.xaml.cs:13-16 | the page starts on a newly allocated saved state (fresh target, board and pegs arrays): round 0, target all 0, every board cell -1, pegs all 0, colour 0 selected |
| `Page.MainPage.UpdateGuessPegs` | GMIT-Mastermind/MainPage.xaml.cs:37-59 | score peg k of round i is black iff k < black, white iff black <= k < white, else empty; with scores in range each round shows black black and white - black white pegs |
| `Page.MainPage.EnableCheckButton` | GMIT-Mastermind/MainPage.xaml.cs:64-77 | the check button is enabled iff no slot of the current round's row is -1 |
| `Page.MainPage.NewGame` | GMIT-Mastermind/MainPage.xaml.cs:147-185 | newly allocated state (fresh target, board and pegs arrays) with round 0, all board cells -1, all pegs 0; target has 4 pairwise distinct colours in [0, 6) |
| `Page.MainPage.SelectPegTapped` | GMIT-Mastermind/MainPage.xaml.cs:263-276 | the selected colour becomes the tapped palette colour |
| `Page.MainPage.PlacePegTapped` | GMIT-Mastermind/MainPage.xaml.cs:249-258 | board[round, slot] becomes the selected colour; no other cell, round, target or pegs change |
| `Page.MainPage.ScoreCurrentRow` | GMIT-Mastermind/MainPage.xaml.cs:283-306 | the nested loop computes white and black of the current row; 0 <= black <= white <= 4; black is 4 iff row equals target; with a distinct target white is the multiset intersection size |
| `Page.MainPage.CheckClicked` | GMIT-Mastermind/MainPage.xaml.cs:281-332 | pegs[round] holds (white, black) and no other pegs entry changes; a win iff the row equals the target, round unchanged; else round + 1 and a loss iff the new round >= 8; board and target unchanged; score range invariant kept |

## Left out

- Widget construction and rendering are not modelled: `GenerateBoardUI`,
  `GenerateRowLabel`, `GeneratePegGuessRow`, `GenerateGuessPegs`,
  `GenerateSelectionPegsUI`, `EnableCurrentRoundRow` and `LoadFromSave`'s
  image assignment. The same holds for image sources, opacity and the
  check button's `IsEnabled`. Only the decisions behind them are modelled,
  as returned values.
- Tapped widgets are mapped to a slot or a colour by parsing their
  `StyleId`. This is not modelled. `PlacePegTapped` and `SelectPegTapped`
  take the slot and the colour as integer arguments with range
  preconditions.
- `UpdateGuessPegs` draws round i into the score grid at position 7 - i.
  The model returns the images indexed by round, so this reversed drawing
  order is not modelled.
- The win and lose alert dialogs are not modelled, and neither is the new
  game that follows them. `CheckClicked` returns the outcome (`Won`,
  `Continue`, `Lost`) instead. On a win the page does not redraw the score
  pegs before the dialog; the model has no drawing step to skip.
- `OnAppearing` builds the widgets and then starts a new game. It is covered
  by the constructor followed by `NewGame`.
- Restart, save and load are not modelled. They are an alert prompt plus
  file I/O and JSON (de)serialisation by a foreign library. Load does no
  validation, so there is no codec logic to state. A loaded state may
  violate `SaveData.Valid()` (a board of other dimensions, say); such states
  are outside the model.
- `System.Random` is replaced by a nondeterministic choice. The uniform
  distribution of the secret is therefore not modelled, only its range and
  distinctness.
- Integers are unbounded. Every value the engine computes lies in 0..8, so
  32-bit overflow cannot arise.

## Findings

| source | as written | input that shows it | evidently intended | confidence | as-written member | corrected member |
|---|---|---|---|---|---|---|
| GMIT-Mastermind/SaveData.cs:13 | the board is allocated `new int[4, 8]` but indexed `[round, slot]` with round up to 7 | four checked rows without a win: the fourth check sets round to 4 and then re-reads `board[4, 0]` to enable the check button, past the 4-row board; a restart fails at once, because redrawing the board reads rows up to 7 | a board of 8 rounds × 4 slots | high (not executed) | `SaveState.LegacyBoardMissesRoundFour` | `SaveState.SaveData.constructor` |

The corrected `SaveData` has `board.Length0 == Rounds`. Together with
the contract of `Rules.Progress`, this means every round at which the game goes
on has a board row. `MainPage.PlacePegTapped`, `EnableCheckButton`,
`ScoreCurrentRow` and `CheckClicked` are all verified in bounds for every
round below 8.
