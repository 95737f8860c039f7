/** The game rules behind the Mastermind page: scoring a guess row against the
    secret, moving from round to round, and turning a stored score into the
    four small pegs shown beside a row. Everything here is a value; the
    classes in SaveState and Page hold the arrays these rules read. */
module Rules {

  /** Pegs in a guess and in the secret (the loops of the page run to 4). */
  const Slots := 4
  /** Size of the palette (the ColorNames table: Red … Turquoise). */
  const Colours := 6
  /** Rounds in one game. */
  const Rounds := 8
  /** The "nothing placed here yet" marker of a board cell. */
  const Unset := -1

  predicate Distinct(s: seq<int>)
  {
    forall i, j :: 0 <= i < j < |s| ==> s[i] != s[j]
  }

  /** What a new game draws: four pairwise distinct palette colours. */
  predicate IsSecret(s: seq<int>)
  {
    |s| == Slots && Distinct(s) && forall i :: 0 <= i < |s| ==> 0 <= s[i] < Colours
  }

  // ---------------------------------------------------------------------------
  // Scoring, as the page's nested loop does it
  // ---------------------------------------------------------------------------

  /** The page's "white" count: one for every target slot whose colour occurs
      anywhere in the guess. A black match is counted here too, so this is
      the total number of colour matches. */
  function WhiteCount(target: seq<int>, guess: seq<int>): (white: nat)
    ensures white <= |target|
  {
    if |target| == 0 then 0
    else WhiteCount(target[..|target| - 1], guess)
         + (if target[|target| - 1] in guess then 1 else 0)
  }

  /** The page's "black" count: one for every target slot whose colour is
      the guess's colour at the same position. */
  function BlackCount(target: seq<int>, guess: seq<int>): (black: nat)
    requires |target| <= |guess|
    ensures black <= |target|
  {
    if |target| == 0 then 0
    else BlackCount(target[..|target| - 1], guess)
         + (if target[|target| - 1] == guess[|target| - 1] then 1 else 0)
  }

  /** Each target slot adds at most one white and at most one black, and a
      black only where it also adds a white; so 0 <= black <= white <= |target|. */
  lemma {:induction false} ScoreBounds(target: seq<int>, guess: seq<int>)
    requires |target| <= |guess|
    ensures BlackCount(target, guess) <= WhiteCount(target, guess) <= |target|
  {
    if |target| > 0 {
      var n := |target| - 1;
      ScoreBounds(target[..n], guess);
      assert target[n] == guess[n] ==> target[n] in guess;
    }
  }

  /** Every target slot scores black exactly when the target is the guess's
      prefix of the same length. */
  lemma {:induction false} AllBlackIffPrefix(target: seq<int>, guess: seq<int>)
    requires |target| <= |guess|
    ensures BlackCount(target, guess) == |target| <==> target == guess[..|target|]
  {
    if |target| > 0 {
      var n := |target| - 1;
      AllBlackIffPrefix(target[..n], guess);
      ScoreBounds(target[..n], guess);
      if target == guess[..|target|] {
        assert target[..n] == guess[..n];
      }
      if BlackCount(target, guess) == |target| {
        assert target[..n] == guess[..n];
        assert target == target[..n] + [target[n]];
        assert guess[..|target|] == guess[..n] + [guess[n]];
      }
    }
  }

  /** A full row wins (four black) exactly when it equals the target position
      by position. */
  lemma WinIffExactMatch(target: seq<int>, guess: seq<int>)
    requires |target| == |guess|
    ensures BlackCount(target, guess) == |target| <==> target == guess
  {
    AllBlackIffPrefix(target, guess);
    assert guess[..|target|] == guess;
  }

  /** With a pairwise distinct target, the page's white count is the size of
      the multiset intersection of target and guess: the standard Mastermind
      number of colour matches, repeated guess colours counted once per
      target occurrence. The pegs shown as white are this minus black. */
  lemma {:induction false} WhiteIsCommonColours(target: seq<int>, guess: seq<int>)
    requires Distinct(target)
    ensures WhiteCount(target, guess) == |multiset(target) * multiset(guess)|
  {
    if |target| > 0 {
      var n := |target| - 1;
      var front, x := target[..n], target[n];
      assert Distinct(front);
      WhiteIsCommonColours(front, guess);
      assert target == front + [x];
      assert forall k :: 0 <= k < n ==> front[k] == target[k] != x;
      var g := multiset(guess);
      var before := multiset(front) * g;
      var extra := if x in guess then multiset{x} else multiset{};
      assert multiset(target) * g == before + extra by {
        forall y ensures (multiset(target) * g)[y] == (before + extra)[y] {
          if y == x {
            assert multiset(front)[x] == 0;
          }
        }
      }
    }
  }

  /** The cases worked out by hand: a guess of one repeated colour and a
      reversed guess against the secret [0, 1, 2, 3]. */
  lemma ScoreExamples()
    ensures WhiteCount([0, 1, 2, 3], [0, 0, 0, 0]) == 1
    ensures BlackCount([0, 1, 2, 3], [0, 0, 0, 0]) == 1
    ensures WhiteCount([0, 1, 2, 3], [3, 2, 1, 0]) == 4
    ensures BlackCount([0, 1, 2, 3], [3, 2, 1, 0]) == 0
    ensures WhiteCount([0, 1, 2, 3], [0, 1, 2, 3]) == 4
    ensures BlackCount([0, 1, 2, 3], [0, 1, 2, 3]) == 4
  {
    var t := [0, 1, 2, 3];
    assert t[..3] == [0, 1, 2] && [0, 1, 2][..2] == [0, 1] && [0, 1][..1] == [0] && [0][..0] == [];
    var same, reversed := [0, 0, 0, 0], [3, 2, 1, 0];
    assert 0 in same && 1 !in same && 2 !in same && 3 !in same;
    assert 0 in reversed && 1 in reversed && 2 in reversed && 3 in reversed;
    assert WhiteCount([0], same) == 1 && BlackCount([0], same) == 1;
    assert WhiteCount([0], reversed) == 1 && BlackCount([0], reversed) == 0;
    assert WhiteCount([0], t) == 1 && BlackCount([0], t) == 1;
  }

  // ---------------------------------------------------------------------------
  // Round progression
  // ---------------------------------------------------------------------------

  datatype Outcome = Won | Continue | Lost

  /** The round and outcome after a row at `round` scored `black`: four black
      ends the game on the same round; otherwise the round moves on by one and
      the game is lost once no round is left. From a playable round the next
      round never passes `Rounds`, and a game that goes on is at a round
      that has a row on a board of `Rounds` rows. */
  function Progress(round: int, black: int): (next: (int, Outcome))
    ensures next.1 == Won <==> black == Slots
    ensures 0 <= round < Rounds ==>
              0 <= next.0 <= Rounds && (next.1 == Continue ==> next.0 < Rounds)
  {
    if black == Slots then (round, Won)
    else if round + 1 >= Rounds then (round + 1, Lost)
    else (round + 1, Continue)
  }

  // ---------------------------------------------------------------------------
  // The four score pegs drawn beside a row
  // ---------------------------------------------------------------------------

  datatype Peg = BlackPeg | WhitePeg | NoPeg

  /** The image of score peg `k` for a stored (white, black) pair. */
  function PegAt(k: int, white: int, black: int): (p: Peg)
    ensures p == BlackPeg <==> k < black
    ensures p == WhitePeg <==> black <= k < white
  {
    if k < black then BlackPeg else if k < white then WhitePeg else NoPeg
  }

  /** Score pegs 0 .. n-1 in drawing order. */
  function Pegs(n: nat, white: int, black: int): (s: seq<Peg>)
    ensures |s| == n
  {
    if n == 0 then [] else Pegs(n - 1, white, black) + [PegAt(n - 1, white, black)]
  }

  function Min(a: int, b: int): int { if a <= b then a else b }

  lemma {:induction false} PegsCount(n: nat, white: int, black: int)
    requires 0 <= black <= white
    ensures multiset(Pegs(n, white, black))[BlackPeg] == Min(n, black)
    ensures multiset(Pegs(n, white, black))[WhitePeg] == Min(n, white) - Min(n, black)
    ensures multiset(Pegs(n, white, black))[NoPeg] == n - Min(n, white)
  {
    if n > 0 {
      PegsCount(n - 1, white, black);
    }
  }

  /** A row scored (white, black) with 0 <= black <= white <= 4 shows exactly
      `black` black pegs, `white - black` white pegs and the rest empty. */
  lemma DisplayShowsScore(white: int, black: int)
    requires 0 <= black <= white <= Slots
    ensures multiset(Pegs(Slots, white, black))[BlackPeg] == black
    ensures multiset(Pegs(Slots, white, black))[WhitePeg] == white - black
    ensures multiset(Pegs(Slots, white, black))[NoPeg] == Slots - white
  {
    PegsCount(Slots, white, black);
  }

  // ---------------------------------------------------------------------------
  // Drawing a colour not drawn before
  // ---------------------------------------------------------------------------

  /** `d` with every occurrence of `x` taken out. */
  function Without(d: seq<int>, x: int): (r: seq<int>)
    ensures |r| <= |d| && (x in d ==> |r| < |d|)
    ensures forall y :: y in r <==> y in d && y != x
  {
    if |d| == 0 then []
    else if d[0] == x then Without(d[1..], x)
    else [d[0]] + Without(d[1..], x)
  }

  /** Fewer than `n` drawn values always leave a value in [0, n) undrawn: the
      rejection loop of a new game has something to find while fewer than
      `Colours` colours are taken. */
  lemma {:induction false} UnusedColourExists(drawn: seq<int>, n: nat)
    requires |drawn| < n
    ensures exists c :: 0 <= c < n && c !in drawn
    decreases n
  {
    if n - 1 !in drawn {
      assert 0 <= n - 1 < n;
    } else {
      var rest := Without(drawn, n - 1);
      UnusedColourExists(rest, n - 1);
      var c :| 0 <= c < n - 1 && c !in rest;
      assert c !in drawn;
    }
  }
}
