/**
 * The engine's global state and the code that changes it: `newGame`, `resetGame`, the button
 * handler of the game message, `checkWin`, and the bot (`makeBotMove`, `makeStrategicMove`,
 * `makeBestMove`, `minimax`), which try marks on the board and undo them in place.
 */
module Game {
  import opened Wrappers
  import opened Board
  import opened Search

  /** How one button press ends, as the player sees it. */
  datatype Outcome =
    | Occupied        // "Cell already occupied! Try again.": nothing changes
    | Won(mark: char) // "Player <mark> wins!": the game is reset
    | Drawn           // "The game is a draw!": the game is reset
    | Ongoing         // the board is redrawn and play goes on
    | BotFault        // `makeBotMove` found no empty cell and read a field of `undefined`

  /** The four global variables of the engine, as a value. */
  datatype State = State(cells: seq<char>, turn: char, singlePlayer: bool, difficulty: Option<string>)

  /** The board is nine valid cells and the turn is a mark. */
  predicate ValidState(s: State) {
    ValidBoard(s.cells) && IsMark(s.turn)
  }

  /** `currentPlayer === 'X' ? 'O' : 'X'`. */
  function Toggle(p: char): char { if p == 'X' then 'O' else 'X' }

  /** `resetGame`: nine empty cells and X to move. */
  function Reset(s: State): State {
    s.(cells := EmptyBoard, turn := 'X')
  }

  /**
   * The state after `checkWin` and what it announces: the first complete line in scan order
   * wins and resets the game, else a full board is a draw and resets it, else nothing changes.
   */
  function CheckWinStep(s: State): (State, Outcome)
    requires |s.cells| == 9
  {
    match Winner(s.cells)
    case Some(p) => (Reset(s), Won(p))
    case None => if Full(s.cells) then (Reset(s), Drawn) else (s, Ongoing)
  }

  /**
   * One press of button "row col". An occupied cell is refused. Otherwise the cell gets the
   * current mark and the turn toggles; in single-player mode, when the turn is now O, the bot
   * replies and the turn is forced back to X; then `checkWin` runs. The bot replies before
   * `checkWin`, so it also replies after X has completed a line. With a recognised difficulty
   * and no empty cell left, `makeBotMove` throws, so nothing after it runs.
   */
  function Press(s: State, row: nat, col: nat, coinRoll: real, pickRoll: real): (State, Outcome)
    requires |s.cells| == 9 && row < 3 && col < 3
    requires 0.0 <= coinRoll < 1.0 && 0.0 <= pickRoll < 1.0
  {
    var i := Index(row, col);
    if s.cells[i] != ' ' then (s, Occupied)
    else
      var placed := s.(cells := s.cells[i := s.turn], turn := Toggle(s.turn));
      if s.singlePlayer && placed.turn == 'O' then
        if KnownDifficulty(s.difficulty) && Full(placed.cells) then (placed, BotFault)
        else CheckWinStep(placed.(cells := BotReply(placed.cells, s.difficulty, coinRoll, pickRoll), turn := 'X'))
      else CheckWinStep(placed)
  }

  /** The number of cells holding p. */
  function Count(b: seq<char>, p: char): nat {
    if b == [] then 0 else (if b[0] == p then 1 else 0) + Count(b[1..], p)
  }

  lemma {:induction false} CountUpdate(b: seq<char>, k: nat, p: char, q: char)
    requires k < |b|
    ensures Count(b[k := q], p) == Count(b, p) - (if b[k] == p then 1 else 0) + (if q == p then 1 else 0)
  {
    if k > 0 {
      CountUpdate(b[1..], k - 1, p, q);
      assert b[k := q][1..] == b[1..][k - 1 := q];
    }
  }

  /**
   * Turn discipline of a press. A press on an occupied cell changes nothing. Every press keeps
   * the state valid and never changes the mode or the difficulty. A win or a draw resets the
   * board and gives the turn to X. In two-player mode a press that does not end the game writes
   * the current mark into the cell and passes the turn. In single-player mode, where X is the
   * human, the turn is X again after every press the bot does not fail on; the bot fails
   * exactly when it has a recognised difficulty and X filled the last empty cell.
   */
  lemma PressTurnDiscipline(s: State, row: nat, col: nat, coinRoll: real, pickRoll: real)
    requires ValidState(s) && row < 3 && col < 3
    requires 0.0 <= coinRoll < 1.0 && 0.0 <= pickRoll < 1.0
    ensures var (t, outcome) := Press(s, row, col, coinRoll, pickRoll);
      && ValidState(t)
      && t.singlePlayer == s.singlePlayer && t.difficulty == s.difficulty
      && (s.cells[Index(row, col)] != ' ' <==> outcome == Occupied)
      && (outcome == Occupied ==> t == s)
      && (outcome.Won? || outcome == Drawn ==> t.cells == EmptyBoard && t.turn == 'X')
      && (!s.singlePlayer && outcome == Ongoing ==>
            t.cells == s.cells[Index(row, col) := s.turn] && t.turn == Toggle(s.turn))
      && (s.singlePlayer && s.turn == 'X' && outcome != Occupied && outcome != BotFault ==> t.turn == 'X')
      && (s.singlePlayer && s.turn == 'X' ==>
            (outcome == BotFault <==>
              s.cells[Index(row, col)] == ' ' && KnownDifficulty(s.difficulty)
              && Full(s.cells[Index(row, col) := 'X'])))
  {
  }

  /**
   * In single-player mode with a recognised difficulty, a press on an empty cell that does not
   * end the game writes X into that cell and O into exactly one other cell that was empty, so
   * the two marks stay level: the bot has played as often as the human.
   */
  lemma PressAddsOneMarkEach(s: State, row: nat, col: nat, coinRoll: real, pickRoll: real)
    requires ValidState(s) && row < 3 && col < 3
    requires 0.0 <= coinRoll < 1.0 && 0.0 <= pickRoll < 1.0
    requires s.singlePlayer && s.turn == 'X' && KnownDifficulty(s.difficulty)
    requires Press(s, row, col, coinRoll, pickRoll).1 == Ongoing
    ensures var t := Press(s, row, col, coinRoll, pickRoll).0;
      && (exists k :: 0 <= k < 9 && k != Index(row, col) && s.cells[k] == ' '
            && t.cells == s.cells[Index(row, col) := 'X'][k := 'O'])
      && Count(t.cells, 'X') == Count(s.cells, 'X') + 1
      && Count(t.cells, 'O') == Count(s.cells, 'O') + 1
  {
    var i := Index(row, col);
    var placed := s.cells[i := 'X'];
    BotReplySpec(placed, s.difficulty, coinRoll, pickRoll);
    var k :| 0 <= k < 9 && placed[k] == ' ' && BotReply(placed, s.difficulty, coinRoll, pickRoll) == placed[k := 'O'];
    CountUpdate(s.cells, i, 'X', 'X');
    CountUpdate(s.cells, i, 'O', 'X');
    CountUpdate(placed, k, 'X', 'O');
    CountUpdate(placed, k, 'O', 'O');
  }

  /**
   * The bot replies before `checkWin` looks at the board: here X completes the bottom row, the
   * hard bot then completes the top row, and since rows are scanned from the top, the game
   * announces O as the winner.
   */
  lemma BotRepliesAfterHumanWin()
    ensures var s := State(['O', 'O', ' ', ' ', ' ', ' ', 'X', 'X', ' '], 'X', true, Some("hard"));
      && !HasLine(s.cells, 'X')
      && HasLine(s.cells[Index(2, 2) := 'X'], 'X')
      && Press(s, 2, 2, 0.0, 0.0).1 == Won('O')
  {
    var cells := ['O', 'O', ' ', ' ', ' ', ' ', 'X', 'X', ' '];
    var placed := cells[8 := 'X'];
    assert Holds(placed, 4, 'X');
    assert !HasLine(cells, 'X') by {
      forall j | 0 <= j < 8 ensures !Holds(cells, j, 'X') {
      }
    }
    assert Holds(placed[2 := 'O'], 0, 'O');
    assert placed[2] == ' ';
    var m := BestMove(placed);
    MarkShrinksEmpty(placed, m, 'O');
    ScoreRange(placed[m := 'O'], false);
    assert ChildScore(placed, true, 2) == 1;
    assert m == 2;
    assert Complete(placed[2 := 'O'], 0);
  }

  /**
   * X fills the last cell of a drawn game against the bot: `makeBotMove` finds no empty cell
   * and throws before `checkWin` can announce the draw, so the turn is left with O.
   */
  lemma BotFaultsOnLastCell()
    ensures var s := State(['X', 'O', 'X', 'X', 'O', 'O', 'O', 'X', ' '], 'X', true, Some("easy"));
      var (t, outcome) := Press(s, 2, 2, 0.0, 0.0);
      && outcome == BotFault && t.turn == 'O'
      && Full(t.cells) && !HasLine(t.cells, 'X') && !HasLine(t.cells, 'O')
  {
  }

  /** The engine's global variables (`gameBoard`, `currentPlayer`, `isSinglePlayer`, `botDifficulty`). */
  class Game {
    /** `gameBoard`, flattened row-major. */
    var board: array<char>
    var currentPlayer: char
    var isSinglePlayer: bool
    /** The `difficulty` option of `/tictactoe bot`: null when it was not given. */
    var botDifficulty: Option<string>

    ghost predicate Valid()
      reads this, board
    {
      board.Length == 9 && ValidBoard(board[..]) && IsMark(currentPlayer)
    }

    /** The global variables as a value. */
    function Snapshot(): State
      reads this, board
    {
      State(board[..], currentPlayer, isSinglePlayer, botDifficulty)
    }

    /** The state the module starts in: an empty board, X to move, two players, "easy". */
    constructor ()
      ensures Valid() && fresh(board)
      ensures Snapshot() == State(EmptyBoard, 'X', false, Some("easy"))
    {
      board := new char[9](_ => ' ');
      currentPlayer := 'X';
      isSinglePlayer := false;
      botDifficulty := Some("easy");
      new;
      assert board[..] == EmptyBoard;
    }

    /**
     * `newGame`: a fresh empty board, X to move, and the mode and difficulty given. The command
     * `/tictactoe new` passes the defaults (false, "easy"); `/tictactoe bot` passes true and the
     * difficulty option, which is null when the option is left out.
     */
    method NewGame(singlePlayer: bool, difficulty: Option<string>)
      modifies this
      ensures Valid() && fresh(board)
      ensures Snapshot() == State(EmptyBoard, 'X', singlePlayer, difficulty)
    {
      board := new char[9](_ => ' ');
      currentPlayer := 'X';
      isSinglePlayer := singlePlayer;
      botDifficulty := difficulty;
      assert board[..] == EmptyBoard;
    }

    /** `resetGame`: a fresh empty board and X to move; mode and difficulty stay. */
    method ResetGame()
      modifies this
      ensures Valid() && fresh(board)
      ensures Snapshot() == Reset(old(Snapshot()))
    {
      board := new char[9](_ => ' ');
      currentPlayer := 'X';
      assert board[..] == EmptyBoard;
    }

    /** The nested loops that build `emptyCells`: the empty cells in row-major order. */
    method FindEmptyCells() returns (cells: seq<CellIndex>)
      requires Valid()
      ensures cells == EmptyCells(board[..])
    {
      cells := [];
      for row := 0 to 3
        invariant cells == EmptyCellsBelow(board[..], 3 * row)
      {
        for col := 0 to 3
          invariant cells == EmptyCellsBelow(board[..], 3 * row + col)
        {
          if board[3 * row + col] == ' ' {
            cells := cells + [3 * row + col];
          }
        }
      }
    }

    /**
     * `minimax(gameBoard, depth, isMaximizing)`: returns the minimax value of the board and,
     * since every trial mark is undone, leaves the board as it found it. It recurses on boards
     * with one empty cell fewer. (The unused `depth` argument is not modelled.)
     */
    method Minimax(maximizing: bool) returns (score: int)
      requires Valid()
      modifies board
      ensures board[..] == old(board[..])
      ensures score == Score(old(board[..]), maximizing)
      decreases |EmptyCells(board[..])|
    {
      ghost var b := board[..];
      CheckPotentialWinIff(b, 'O');
      CheckPotentialWinIff(b, 'X');
      IsDrawIff(b);
      var winner := if CheckPotentialWin(board[..], 'O') then 'O'
                    else if CheckPotentialWin(board[..], 'X') then 'X'
                    else ' ';
      if winner == 'O' {
        return 1;
      }
      if winner == 'X' {
        return -1;
      }
      if IsDraw(board[..]) {
        return 0;
      }
      var mark := if maximizing then 'O' else 'X';
      score := if maximizing then MinusInfinity else PlusInfinity;
      for row := 0 to 3
        invariant board[..] == b
        invariant score == BestScoreBelow(b, maximizing, 3 * row)
      {
        for col := 0 to 3
          invariant board[..] == b
          invariant score == BestScoreBelow(b, maximizing, 3 * row + col)
        {
          var k := 3 * row + col;
          if board[k] == ' ' {
            board[k] := mark;
            MarkShrinksEmpty(b, k, mark);
            assert board[..] == b[k := mark];
            var s := Minimax(!maximizing);
            board[k] := ' ';
            assert board[..] == b;
            score := if maximizing then Max(s, score) else Min(s, score);
          }
        }
      }
    }

    /**
     * `makeBestMove`: tries 'O' in every empty cell, scores it with `minimax(..., false)`,
     * undoes it, and finally marks the first cell whose score is strictly the best.
     */
    method MakeBestMove()
      requires Valid() && !Full(board[..])
      modifies board
      ensures board[..] == old(board[..])[BestMove(old(board[..])) := 'O']
    {
      ghost var b := board[..];
      var bestScore := MinusInfinity;
      var move := -1;
      for row := 0 to 3
        invariant board[..] == b
        invariant (bestScore, move) == BestMoveBelow(b, 3 * row)
      {
        for col := 0 to 3
          invariant board[..] == b
          invariant (bestScore, move) == BestMoveBelow(b, 3 * row + col)
        {
          var k := 3 * row + col;
          if board[k] == ' ' {
            board[k] := 'O';
            assert board[..] == b[k := 'O'];
            var score := Minimax(false);
            board[k] := ' ';
            assert board[..] == b;
            if score > bestScore {
              bestScore := score;
              move := k;
            }
          }
        }
      }
      BestMoveBelowSpec(b, 9);
      board[move] := 'O';
    }

    /**
     * `makeStrategicMove`: tries 'O' in each empty cell and keeps the first that wins; else
     * tries 'X' in each empty cell and puts 'O' in the first where X would win; else marks the
     * empty cell the draw picks. Every unsuccessful trial is undone.
     */
    method MakeStrategicMove(pickRoll: real)
      requires Valid() && !Full(board[..]) && 0.0 <= pickRoll < 1.0
      modifies board
      ensures board[..] == old(board[..])[StrategicChoice(old(board[..]), pickRoll) := 'O']
    {
      ghost var b := board[..];
      var emptyCells := FindEmptyCells();
      EmptyCellsSpec(b);
      for i := 0 to |emptyCells|
        invariant board[..] == b
        invariant FirstCompleting(b, emptyCells, 'O') == FirstCompleting(b, emptyCells[i..], 'O')
      {
        var c := emptyCells[i];
        assert emptyCells[i..][1..] == emptyCells[i + 1..];
        assert c in emptyCells;
        board[c] := 'O';
        CheckPotentialWinIff(board[..], 'O');
        if CheckPotentialWin(board[..], 'O') {
          return;
        }
        board[c] := ' ';
        assert board[..] == b;
      }
      for i := 0 to |emptyCells|
        invariant board[..] == b
        invariant FirstCompleting(b, emptyCells, 'X') == FirstCompleting(b, emptyCells[i..], 'X')
      {
        var c := emptyCells[i];
        assert emptyCells[i..][1..] == emptyCells[i + 1..];
        assert c in emptyCells;
        board[c] := 'X';
        CheckPotentialWinIff(board[..], 'X');
        if CheckPotentialWin(board[..], 'X') {
          board[c] := 'O';
          return;
        }
        board[c] := ' ';
        assert board[..] == b;
      }
      var move := emptyCells[RandomIndex(pickRoll, |emptyCells|)];
      board[move] := 'O';
    }

    /**
     * `makeBotMove`: builds `emptyCells` and dispatches on the difficulty; "easy" marks a random
     * empty cell, "medium" tosses a coin between that and `makeStrategicMove`, "hard" calls
     * `makeBestMove`, and any other value, null included, does nothing. The three recognised
     * difficulties need an empty cell: on a full board the source reads a field of `undefined`.
     */
    method MakeBotMove(coinRoll: real, pickRoll: real)
      requires Valid() && 0.0 <= coinRoll < 1.0 && 0.0 <= pickRoll < 1.0
      requires KnownDifficulty(botDifficulty) ==> !Full(board[..])
      modifies board
      ensures board[..] == BotReply(old(board[..]), botDifficulty, coinRoll, pickRoll)
    {
      var emptyCells := FindEmptyCells();
      EmptyCellsSpec(board[..]);
      if botDifficulty == Some("easy") {
        var move := emptyCells[RandomIndex(pickRoll, |emptyCells|)];
        board[move] := 'O';
      } else if botDifficulty == Some("medium") {
        if coinRoll < 0.5 {
          var move := emptyCells[RandomIndex(pickRoll, |emptyCells|)];
          board[move] := 'O';
        } else {
          MakeStrategicMove(pickRoll);
        }
      } else if botDifficulty == Some("hard") {
        MakeBestMove();
      }
    }

    /**
     * `checkWin`: scans row i and column i for i = 0, 1, 2, then the two diagonals, for three
     * equal marks; the first it finds is announced and the game reset. Otherwise a full board
     * is announced as a draw and the game reset, and any other board is left alone.
     */
    method CheckWin() returns (outcome: Outcome)
      requires Valid()
      modifies this
      ensures Valid() && (board == old(board) || fresh(board))
      ensures (Snapshot(), outcome) == CheckWinStep(old(Snapshot()))
    {
      for i := 0 to 3
        invariant unchanged(this)
        invariant FirstComplete(board[..], 2 * i) == Winner(board[..])
      {
        if board[3 * i] == board[3 * i + 1] && board[3 * i + 1] == board[3 * i + 2] && board[3 * i] != ' ' {
          outcome := Won(board[3 * i]);
          ResetGame();
          return;
        }
        if board[i] == board[3 + i] && board[3 + i] == board[6 + i] && board[i] != ' ' {
          outcome := Won(board[i]);
          ResetGame();
          return;
        }
      }
      if board[0] == board[4] && board[4] == board[8] && board[0] != ' ' {
        outcome := Won(board[0]);
        ResetGame();
        return;
      }
      if board[2] == board[4] && board[4] == board[6] && board[2] != ' ' {
        outcome := Won(board[2]);
        ResetGame();
        return;
      }
      IsDrawIff(board[..]);
      if IsDraw(board[..]) {
        outcome := Drawn;
        ResetGame();
      } else {
        outcome := Ongoing;
      }
    }

    /**
     * The button handler of the game message, for the button "row col". The two rolls are the
     * `Math.random()` draws the bot may make.
     */
    method Collect(row: nat, col: nat, coinRoll: real, pickRoll: real) returns (outcome: Outcome)
      requires Valid() && row < 3 && col < 3
      requires 0.0 <= coinRoll < 1.0 && 0.0 <= pickRoll < 1.0
      modifies this, board
      ensures Valid()
      ensures (Snapshot(), outcome) == Press(old(Snapshot()), row, col, coinRoll, pickRoll)
    {
      var i := Index(row, col);
      if board[i] != ' ' {
        return Occupied;
      }
      board[i] := currentPlayer;
      currentPlayer := if currentPlayer == 'X' then 'O' else 'X';
      if isSinglePlayer && currentPlayer == 'O' {
        IsDrawIff(board[..]);
        if KnownDifficulty(botDifficulty) && IsDraw(board[..]) {
          // `makeBotMove` finds no empty cell and throws: `currentPlayer = 'X'` and `checkWin` never run.
          return BotFault;
        }
        MakeBotMove(coinRoll, pickRoll);
        currentPlayer := 'X';
      }
      outcome := CheckWin();
    }
  }
}
