/**
 * What the bot plays, as functions of the board: the minimax value searched by `minimax`, the
 * move `makeBestMove` picks from it, the win-then-block choice of `makeStrategicMove`, and the
 * dispatch of `makeBotMove` on the difficulty. The methods of `Game.Game` are proved to compute
 * exactly these.
 *
 * Each call to `Math.random()` is a parameter: a real `roll` with 0 <= roll < 1.
 */
module Search {
  import opened Wrappers
  import opened Board

  /** The initial `bestScore` of a maximising loop (`-Infinity`): below every score. */
  const MinusInfinity: int := -2

  /** The initial `bestScore` of a minimising loop (`Infinity`): above every score. */
  const PlusInfinity: int := 2

  /** `Math.max`. */
  function Max(x: int, y: int): int { if x >= y then x else y }

  /** `Math.min`. */
  function Min(x: int, y: int): int { if x <= y then x else y }

  /** The mark tried on a ply: 'O' when maximising (the bot), 'X' when minimising (the human). */
  function PlyMark(maximizing: bool): char { if maximizing then 'O' else 'X' }

  /**
   * The value `minimax(board, depth, isMaximizing)` returns: 1 if O has a line (checked first),
   * -1 if X has a line, 0 if the board is full, and otherwise the best, for the side to move,
   * of the values of the boards reached by marking one empty cell.
   */
  function Score(b: seq<char>, maximizing: bool): int
    requires |b| == 9
    decreases |EmptyCells(b)|, 1, 0
  {
    if HasLine(b, 'O') then 1
    else if HasLine(b, 'X') then -1
    else if Full(b) then 0
    else BestScoreBelow(b, maximizing, 9)
  }

  /** The value of the board reached by marking empty cell k with the ply's mark. */
  function ChildScore(b: seq<char>, maximizing: bool, k: CellIndex): int
    requires |b| == 9 && b[k] == ' '
    decreases |EmptyCells(b)|, 0, 0
  {
    MarkShrinksEmpty(b, k, PlyMark(maximizing));
    Score(b[k := PlyMark(maximizing)], !maximizing)
  }

  /** `bestScore` of the nested loops of `minimax` once the cells below k have been tried. */
  function BestScoreBelow(b: seq<char>, maximizing: bool, k: nat): int
    requires |b| == 9 && k <= 9
    decreases |EmptyCells(b)|, 0, k
  {
    if k == 0 then (if maximizing then MinusInfinity else PlusInfinity)
    else
      var acc := BestScoreBelow(b, maximizing, k - 1);
      if b[k - 1] != ' ' then acc
      else if maximizing then Max(ChildScore(b, maximizing, k - 1), acc)
      else Min(ChildScore(b, maximizing, k - 1), acc)
  }

  /** The side that has three in a row or the full board ends the search. */
  predicate Terminal(b: seq<char>)
    requires |b| == 9
  {
    HasLine(b, 'O') || HasLine(b, 'X') || Full(b)
  }

  /** Every value `minimax` returns is -1, 0 or 1: the infinities never escape. */
  lemma {:induction false} ScoreRange(b: seq<char>, maximizing: bool)
    requires |b| == 9
    ensures -1 <= Score(b, maximizing) <= 1
    decreases |EmptyCells(b)|, 1, 0
  {
    if !Terminal(b) {
      BestScoreBelowRange(b, maximizing, 9);
    }
  }

  lemma {:induction false} BestScoreBelowRange(b: seq<char>, maximizing: bool, k: nat)
    requires |b| == 9 && k <= 9
    ensures (exists i :: 0 <= i < k && b[i] == ' ') ==> -1 <= BestScoreBelow(b, maximizing, k) <= 1
    ensures (forall i :: 0 <= i < k ==> b[i] != ' ') ==>
      BestScoreBelow(b, maximizing, k) == (if maximizing then MinusInfinity else PlusInfinity)
    decreases |EmptyCells(b)|, 0, k
  {
    if k > 0 {
      BestScoreBelowRange(b, maximizing, k - 1);
      if b[k - 1] == ' ' {
        MarkShrinksEmpty(b, k - 1, PlyMark(maximizing));
        ScoreRange(b[k - 1 := PlyMark(maximizing)], !maximizing);
      }
    }
  }

  lemma {:induction false} BestScoreBelowIsBest(b: seq<char>, maximizing: bool, k: nat)
    requires |b| == 9 && k <= 9
    ensures forall i :: 0 <= i < k && b[i] == ' ' ==>
      if maximizing then ChildScore(b, maximizing, i) <= BestScoreBelow(b, maximizing, k)
      else ChildScore(b, maximizing, i) >= BestScoreBelow(b, maximizing, k)
    ensures (exists i :: 0 <= i < k && b[i] == ' ') ==>
      exists i :: 0 <= i < k && b[i] == ' ' && ChildScore(b, maximizing, i) == BestScoreBelow(b, maximizing, k)
  {
    if k > 0 {
      BestScoreBelowIsBest(b, maximizing, k - 1);
      BestScoreBelowRange(b, maximizing, k - 1);
      if b[k - 1] == ' ' {
        MarkShrinksEmpty(b, k - 1, PlyMark(maximizing));
        ScoreRange(b[k - 1 := PlyMark(maximizing)], !maximizing);
      }
    }
  }

  /**
   * On a board that is not terminal, the value is the maximum (O to move) or the minimum (X to
   * move) of the values of the moves: at least as good as every move, and reached by one of them.
   */
  lemma ScoreIsBestReply(b: seq<char>, maximizing: bool)
    requires |b| == 9 && !Terminal(b)
    ensures forall k :: 0 <= k < 9 && b[k] == ' ' ==>
      if maximizing then ChildScore(b, maximizing, k) <= Score(b, maximizing)
      else ChildScore(b, maximizing, k) >= Score(b, maximizing)
    ensures exists k :: 0 <= k < 9 && b[k] == ' ' && ChildScore(b, maximizing, k) == Score(b, maximizing)
  {
    BestScoreBelowIsBest(b, maximizing, 9);
  }

  /**
   * `(bestScore, move)` of `makeBestMove` once the cells below k have been tried: a cell replaces
   * the current move only when its score is strictly greater. The move is -1 while unset.
   */
  function BestMoveBelow(b: seq<char>, k: nat): (int, int)
    requires |b| == 9 && k <= 9
  {
    if k == 0 then (MinusInfinity, -1)
    else
      var (best, move) := BestMoveBelow(b, k - 1);
      if b[k - 1] == ' ' && ChildScore(b, true, k - 1) > best then (ChildScore(b, true, k - 1), k - 1)
      else (best, move)
  }

  lemma {:induction false} BestMoveBelowSpec(b: seq<char>, k: nat)
    requires |b| == 9 && k <= 9
    ensures (forall i :: 0 <= i < k ==> b[i] != ' ') ==> BestMoveBelow(b, k) == (MinusInfinity, -1)
    ensures (exists i :: 0 <= i < k && b[i] == ' ') ==>
      var (best, move) := BestMoveBelow(b, k);
      0 <= move < k && b[move] == ' ' && best == ChildScore(b, true, move)
      && (forall i :: 0 <= i < k && b[i] == ' ' ==> ChildScore(b, true, i) <= best)
      && (forall i :: 0 <= i < move && b[i] == ' ' ==> ChildScore(b, true, i) < best)
  {
    if k > 0 {
      BestMoveBelowSpec(b, k - 1);
      if b[k - 1] == ' ' {
        MarkShrinksEmpty(b, k - 1, 'O');
        ScoreRange(b[k - 1 := 'O'], false);
      }
    }
  }

  /**
   * The cell `makeBestMove` marks: an empty cell whose score is maximal, and the first such
   * cell in row-major order, because a later cell replaces the move only on a strictly greater score.
   */
  function BestMove(b: seq<char>): (m: CellIndex)
    requires |b| == 9 && !Full(b)
    ensures b[m] == ' '
    ensures forall k :: 0 <= k < 9 && b[k] == ' ' ==> ChildScore(b, true, k) <= ChildScore(b, true, m)
    ensures forall k :: 0 <= k < m && b[k] == ' ' ==> ChildScore(b, true, k) < ChildScore(b, true, m)
  {
    BestMoveBelowSpec(b, 9);
    BestMoveBelow(b, 9).1
  }

  /** When the board is not terminal, the best move achieves the board's minimax value for O. */
  lemma BestMoveAchievesScore(b: seq<char>)
    requires |b| == 9 && !Terminal(b)
    ensures ChildScore(b, true, BestMove(b)) == Score(b, true)
  {
    ScoreIsBestReply(b, true);
  }

  /** `Math.floor(roll * n)` for a draw `roll` of `Math.random()`: an index into a list of length n. */
  function RandomIndex(roll: real, n: nat): (i: nat)
    requires 0.0 <= roll < 1.0 && 0 < n
    ensures i < n
  {
    assert 0.0 <= roll * n as real < n as real;
    (roll * n as real).Floor
  }

  /** `emptyCells[Math.floor(Math.random() * emptyCells.length)]`: an empty cell chosen by the draw. */
  function RandomCell(b: seq<char>, roll: real): (c: CellIndex)
    requires |b| == 9 && !Full(b) && 0.0 <= roll < 1.0
    ensures b[c] == ' '
  {
    EmptyCellsSpec(b);
    var cells := EmptyCells(b);
    assert cells[RandomIndex(roll, |cells|)] in cells;
    cells[RandomIndex(roll, |cells|)]
  }

  /** Writing p into empty cell k gives p three in a row. */
  predicate CompletesAt(b: seq<char>, k: CellIndex, p: char)
    requires |b| == 9
  {
    b[k] == ' ' && HasLine(b[k := p], p)
  }

  /**
   * The first cell of `cells` where p would complete a line: one try-and-undo loop of
   * `makeStrategicMove` over `emptyCells`.
   */
  function FirstCompleting(b: seq<char>, cells: seq<CellIndex>, p: char): Option<CellIndex>
    requires |b| == 9
  {
    if cells == [] then None
    else if HasLine(b[cells[0] := p], p) then Some(cells[0])
    else FirstCompleting(b, cells[1..], p)
  }

  lemma {:induction false} FirstCompletingSpec(b: seq<char>, cells: seq<CellIndex>, p: char)
    requires |b| == 9
    ensures FirstCompleting(b, cells, p).None? <==>
      forall i :: 0 <= i < |cells| ==> !HasLine(b[cells[i] := p], p)
    ensures FirstCompleting(b, cells, p).Some? ==>
      exists i :: 0 <= i < |cells| && cells[i] == FirstCompleting(b, cells, p).value
        && HasLine(b[cells[i] := p], p)
        && forall j :: 0 <= j < i ==> !HasLine(b[cells[j] := p], p)
  {
    if cells != [] && !HasLine(b[cells[0] := p], p) {
      FirstCompletingSpec(b, cells[1..], p);
      if FirstCompleting(b, cells, p).Some? {
        var i :| 0 <= i < |cells[1..]| && cells[1..][i] == FirstCompleting(b, cells, p).value
          && HasLine(b[cells[1..][i] := p], p)
          && forall j :: 0 <= j < i ==> !HasLine(b[cells[1..][j] := p], p);
        assert cells[i + 1] == cells[1..][i];
        forall j | 0 <= j < i + 1 ensures !HasLine(b[cells[j] := p], p) {
          if j > 0 {
            assert cells[j] == cells[1..][j - 1];
          }
        }
      }
    } else if cells != [] {
      assert cells[0] == FirstCompleting(b, cells, p).value;
    }
  }

  /**
   * Looked up in the row-major `emptyCells` list, the first completing entry is the least empty
   * cell where p completes a line, and there is none exactly when no empty cell completes one.
   */
  lemma FirstCompletingEmptyCells(b: seq<char>, p: char)
    requires |b| == 9
    ensures FirstCompleting(b, EmptyCells(b), p).None? <==> forall k :: 0 <= k < 9 ==> !CompletesAt(b, k, p)
    ensures FirstCompleting(b, EmptyCells(b), p).Some? ==>
      var c := FirstCompleting(b, EmptyCells(b), p).value;
      CompletesAt(b, c, p) && forall k :: 0 <= k < c ==> !CompletesAt(b, k, p)
  {
    var cells := EmptyCells(b);
    EmptyCellsSpec(b);
    FirstCompletingSpec(b, cells, p);
    if FirstCompleting(b, cells, p).None? {
      forall k | 0 <= k < 9 ensures !CompletesAt(b, k, p) {
        if b[k] == ' ' {
          assert k in cells;
          var i :| 0 <= i < |cells| && cells[i] == k;
        }
      }
    } else {
      var c := FirstCompleting(b, cells, p).value;
      var i :| 0 <= i < |cells| && cells[i] == c && HasLine(b[cells[i] := p], p)
        && forall j :: 0 <= j < i ==> !HasLine(b[cells[j] := p], p);
      assert c in cells;
      assert CompletesAt(b, c, p);
      forall k | 0 <= k < c ensures !CompletesAt(b, k, p) {
        if b[k] == ' ' {
          assert k in cells;
          var j :| 0 <= j < |cells| && cells[j] == k;
          assert j < i;
        }
      }
    }
  }

  /**
   * The cell `makeStrategicMove` marks with 'O': the first empty cell where 'O' completes a
   * line, else the first empty cell where 'X' would complete one (a block), else the empty cell
   * the draw picks.
   */
  function StrategicChoice(b: seq<char>, pickRoll: real): (c: CellIndex)
    requires |b| == 9 && !Full(b) && 0.0 <= pickRoll < 1.0
  {
    var cells := EmptyCells(b);
    match FirstCompleting(b, cells, 'O')
    case Some(c) => c
    case None =>
      match FirstCompleting(b, cells, 'X')
      case Some(c) => c
      case None => RandomCell(b, pickRoll)
  }

  /**
   * `makeStrategicMove` marks an empty cell; it wins when it can, at the first winning cell;
   * otherwise it blocks at the first cell where X would win; otherwise it plays the drawn cell.
   */
  lemma StrategicChoiceSpec(b: seq<char>, pickRoll: real)
    requires |b| == 9 && !Full(b) && 0.0 <= pickRoll < 1.0
    ensures b[StrategicChoice(b, pickRoll)] == ' '
    ensures (exists k :: 0 <= k < 9 && CompletesAt(b, k, 'O')) ==>
      var c := StrategicChoice(b, pickRoll);
      CompletesAt(b, c, 'O') && forall k :: 0 <= k < c ==> !CompletesAt(b, k, 'O')
    ensures (forall k :: 0 <= k < 9 ==> !CompletesAt(b, k, 'O')) &&
            (exists k :: 0 <= k < 9 && CompletesAt(b, k, 'X')) ==>
      var c := StrategicChoice(b, pickRoll);
      CompletesAt(b, c, 'X') && forall k :: 0 <= k < c ==> !CompletesAt(b, k, 'X')
    ensures (forall k :: 0 <= k < 9 ==> !CompletesAt(b, k, 'O') && !CompletesAt(b, k, 'X')) ==>
      StrategicChoice(b, pickRoll) == RandomCell(b, pickRoll)
  {
    FirstCompletingEmptyCells(b, 'O');
    FirstCompletingEmptyCells(b, 'X');
  }

  /** `makeBotMove` acts for the three difficulties it recognises and for nothing else. */
  predicate KnownDifficulty(difficulty: Option<string>) {
    difficulty == Some("easy") || difficulty == Some("medium") || difficulty == Some("hard")
  }

  /**
   * The cell `makeBotMove` marks with 'O', or None when the difficulty is not recognised.
   * Easy draws a random empty cell; medium draws a coin (`Math.random() < 0.5`) and then plays
   * a random or a strategic move; hard plays the best move.
   */
  function BotChoice(b: seq<char>, difficulty: Option<string>, coinRoll: real, pickRoll: real): Option<CellIndex>
    requires |b| == 9 && 0.0 <= coinRoll < 1.0 && 0.0 <= pickRoll < 1.0
    requires KnownDifficulty(difficulty) ==> !Full(b)
  {
    if difficulty == Some("easy") then Some(RandomCell(b, pickRoll))
    else if difficulty == Some("medium") then
      if coinRoll < 0.5 then Some(RandomCell(b, pickRoll)) else Some(StrategicChoice(b, pickRoll))
    else if difficulty == Some("hard") then Some(BestMove(b))
    else None
  }

  /** The board after `makeBotMove`. */
  function BotReply(b: seq<char>, difficulty: Option<string>, coinRoll: real, pickRoll: real): seq<char>
    requires |b| == 9 && 0.0 <= coinRoll < 1.0 && 0.0 <= pickRoll < 1.0
    requires KnownDifficulty(difficulty) ==> !Full(b)
  {
    match BotChoice(b, difficulty, coinRoll, pickRoll)
    case Some(k) => b[k := 'O']
    case None => b
  }

  /**
   * With a recognised difficulty the bot turns exactly one empty cell into 'O' and changes
   * nothing else; with any other difficulty, null included, the board is unchanged.
   */
  lemma BotReplySpec(b: seq<char>, difficulty: Option<string>, coinRoll: real, pickRoll: real)
    requires |b| == 9 && 0.0 <= coinRoll < 1.0 && 0.0 <= pickRoll < 1.0
    requires KnownDifficulty(difficulty) ==> !Full(b)
    ensures KnownDifficulty(difficulty) ==>
      exists k :: 0 <= k < 9 && b[k] == ' ' && BotReply(b, difficulty, coinRoll, pickRoll) == b[k := 'O']
    ensures !KnownDifficulty(difficulty) ==> BotReply(b, difficulty, coinRoll, pickRoll) == b
  {
    if difficulty == Some("medium") && coinRoll >= 0.5 {
      StrategicChoiceSpec(b, pickRoll);
    }
  }
}
