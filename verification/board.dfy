/**
 * The tic-tac-toe board of the bot and the read-only questions the engine asks of it.
 *
 * The source keeps `gameBoard` as three rows of three one-character strings. Here a board is that
 * grid flattened row by row: cell (row, col) is at index 3 * row + col, so every row-major scan of
 * the source is a scan of indices 0 .. 8 in increasing order.
 */
module Board {
  import opened Wrappers

  /** An index of one of the nine cells. */
  type CellIndex = i: nat | i < 9

  /** The marks the players write; an empty cell holds a space. */
  predicate IsMark(c: char) { c == 'X' || c == 'O' }

  predicate IsCell(c: char) { c == ' ' || IsMark(c) }

  /** Nine cells, each empty or holding a mark. */
  predicate ValidBoard(b: seq<char>) {
    |b| == 9 && forall i :: 0 <= i < 9 ==> IsCell(b[i])
  }

  /** The flattened position of the button labelled "row col". */
  function Index(row: nat, col: nat): (i: CellIndex)
    requires row < 3 && col < 3
    ensures i / 3 == row && i % 3 == col
  {
    3 * row + col
  }

  /** The board that `newGame` and `resetGame` install. */
  const EmptyBoard: seq<char> := [' ', ' ', ' ', ' ', ' ', ' ', ' ', ' ', ' ']

  /**
   * The eight lines in the order the source scans them: row i and then column i for
   * i = 0, 1, 2, then the diagonal from (0, 0) and the diagonal from (0, 2).
   */
  const Lines: seq<(CellIndex, CellIndex, CellIndex)> :=
    [(0, 1, 2), (0, 3, 6), (3, 4, 5), (1, 4, 7), (6, 7, 8), (2, 5, 8), (0, 4, 8), (2, 4, 6)]

  /** Line j holds p in all three of its cells. */
  predicate Holds(b: seq<char>, j: nat, p: char)
    requires |b| == 9 && j < 8
  {
    b[Lines[j].0] == p && b[Lines[j].1] == p && b[Lines[j].2] == p
  }

  /** Reference meaning of "p has three in a row": one of the eight lines holds p throughout. */
  predicate HasLine(b: seq<char>, p: char)
    requires |b| == 9
  {
    exists j :: 0 <= j < 8 && Holds(b, j, p)
  }

  /** Reference meaning of a full board: no cell is empty. */
  predicate Full(b: seq<char>)
    requires |b| == 9
  {
    forall i :: 0 <= i < 9 ==> b[i] != ' '
  }

  /**
   * `checkPotentialWin(player)`: for i = 0, 1, 2 it tests row i and then column i, returning
   * as soon as one holds `player`, then tests the two diagonals.
   */
  function CheckPotentialWin(b: seq<char>, p: char): bool
    requires |b| == 9
  {
    RowOrColumnWin(b, p, 0)
    || (b[0] == p && b[4] == p && b[8] == p)
    || (b[2] == p && b[4] == p && b[6] == p)
  }

  /** The loop of `checkPotentialWin` from iteration i on. */
  function RowOrColumnWin(b: seq<char>, p: char, i: nat): bool
    requires |b| == 9 && i <= 3
    decreases 3 - i
  {
    i < 3 &&
      ((b[3 * i] == p && b[3 * i + 1] == p && b[3 * i + 2] == p)
       || (b[i] == p && b[3 + i] == p && b[6 + i] == p)
       || RowOrColumnWin(b, p, i + 1))
  }

  lemma {:induction false} RowOrColumnWinIff(b: seq<char>, p: char, i: nat)
    requires |b| == 9 && i <= 3
    ensures RowOrColumnWin(b, p, i) <==> exists j :: 2 * i <= j < 6 && Holds(b, j, p)
    decreases 3 - i
  {
    if i < 3 {
      RowOrColumnWinIff(b, p, i + 1);
      assert Holds(b, 2 * i, p) <==> (b[3 * i] == p && b[3 * i + 1] == p && b[3 * i + 2] == p);
      assert Holds(b, 2 * i + 1, p) <==> (b[i] == p && b[3 + i] == p && b[6 + i] == p);
    }
  }

  /** `checkPotentialWin(p)` is true exactly when one of the eight lines holds p in all three cells. */
  lemma CheckPotentialWinIff(b: seq<char>, p: char)
    requires |b| == 9
    ensures CheckPotentialWin(b, p) <==> HasLine(b, p)
  {
    RowOrColumnWinIff(b, p, 0);
    assert Holds(b, 6, p) <==> (b[0] == p && b[4] == p && b[8] == p);
    assert Holds(b, 7, p) <==> (b[2] == p && b[4] == p && b[6] == p);
  }

  /** `isDraw()`: scans the cells row by row and answers false at the first empty one. */
  function IsDraw(b: seq<char>): bool
    requires |b| == 9
  {
    NoEmptyFrom(b, 0)
  }

  /** The scan of `isDraw` from cell k on. */
  function NoEmptyFrom(b: seq<char>, k: nat): bool
    requires |b| == 9 && k <= 9
    decreases 9 - k
  {
    k == 9 || (b[k] != ' ' && NoEmptyFrom(b, k + 1))
  }

  /** `isDraw()` is true exactly when no cell is empty. */
  lemma IsDrawIff(b: seq<char>)
    requires |b| == 9
    ensures IsDraw(b) <==> Full(b)
  {
  }

  /** Line j has three equal marks: the test `checkWin` makes of each line. */
  predicate Complete(b: seq<char>, j: nat)
    requires |b| == 9 && j < 8
  {
    b[Lines[j].0] == b[Lines[j].1] && b[Lines[j].1] == b[Lines[j].2] && b[Lines[j].0] != ' '
  }

  /**
   * The mark `checkWin` announces: that of the first line, in scan order, with three equal
   * non-empty cells; None when there is no such line.
   */
  function Winner(b: seq<char>): Option<char>
    requires |b| == 9
  {
    FirstComplete(b, 0)
  }

  /** The first complete line with index j or more, as its mark. */
  function FirstComplete(b: seq<char>, j: nat): Option<char>
    requires |b| == 9 && j <= 8
    decreases 8 - j
  {
    if j == 8 then None
    else if Complete(b, j) then Some(b[Lines[j].0])
    else FirstComplete(b, j + 1)
  }

  lemma FirstCompleteSound(b: seq<char>, j: nat)
    requires |b| == 9 && j <= 8
    ensures FirstComplete(b, j).Some? ==>
      exists k :: j <= k < 8 && Complete(b, k) && b[Lines[k].0] == FirstComplete(b, j).value
    ensures FirstComplete(b, j).None? ==> forall k :: j <= k < 8 ==> !Complete(b, k)
  {
  }

  /**
   * What `checkWin` announces is a real three-in-a-row: an announced mark is not a space and
   * has a line, and when nothing is announced no mark at all has a line.
   */
  lemma WinnerIsLine(b: seq<char>)
    requires |b| == 9
    ensures Winner(b).Some? ==> Winner(b).value != ' ' && HasLine(b, Winner(b).value)
    ensures Winner(b).None? ==> forall p :: p != ' ' ==> !HasLine(b, p)
  {
    FirstCompleteSound(b, 0);
    if Winner(b).Some? {
      var k :| 0 <= k < 8 && Complete(b, k) && b[Lines[k].0] == Winner(b).value;
      assert Holds(b, k, Winner(b).value);
    } else {
      forall p | p != ' ' ensures !HasLine(b, p) {
        forall j | 0 <= j < 8 ensures !Holds(b, j, p) {
          assert !Complete(b, j);
        }
      }
    }
  }

  /** The cells below index k that are empty, in increasing order: the row-major `emptyCells` list. */
  function EmptyCellsBelow(b: seq<char>, k: nat): seq<CellIndex>
    requires |b| == 9 && k <= 9
  {
    if k == 0 then []
    else EmptyCellsBelow(b, k - 1) + (if b[k - 1] == ' ' then [k - 1] else [])
  }

  /** The `emptyCells` list built by the nested loops of `makeBotMove` and `makeStrategicMove`. */
  function EmptyCells(b: seq<char>): seq<CellIndex>
    requires |b| == 9
  {
    EmptyCellsBelow(b, 9)
  }

  lemma {:induction false} EmptyCellsBelowSpec(b: seq<char>, k: nat)
    requires |b| == 9 && k <= 9
    ensures forall x :: x in EmptyCellsBelow(b, k) <==> 0 <= x < k && b[x] == ' '
    ensures forall i, j :: 0 <= i < j < |EmptyCellsBelow(b, k)| ==>
      EmptyCellsBelow(b, k)[i] < EmptyCellsBelow(b, k)[j]
  {
    if k > 0 {
      EmptyCellsBelowSpec(b, k - 1);
      var prev := EmptyCellsBelow(b, k - 1);
      assert forall i :: 0 <= i < |prev| ==> prev[i] < k - 1 by {
        forall i | 0 <= i < |prev| ensures prev[i] < k - 1 {
          assert prev[i] in prev;
        }
      }
    }
  }

  /**
   * The `emptyCells` list holds exactly the empty cells, each once, in row-major order; it is
   * empty exactly when the board is full.
   */
  lemma EmptyCellsSpec(b: seq<char>)
    requires |b| == 9
    ensures forall x :: x in EmptyCells(b) <==> 0 <= x < 9 && b[x] == ' '
    ensures forall i, j :: 0 <= i < j < |EmptyCells(b)| ==> EmptyCells(b)[i] < EmptyCells(b)[j]
    ensures |EmptyCells(b)| == 0 <==> Full(b)
  {
    EmptyCellsBelowSpec(b, 9);
    if |EmptyCells(b)| != 0 {
      assert EmptyCells(b)[0] in EmptyCells(b);
    }
  }

  lemma {:induction false} MarkShrinksEmptyBelow(b: seq<char>, k: CellIndex, m: char, n: nat)
    requires |b| == 9 && b[k] == ' ' && m != ' ' && n <= 9
    ensures |EmptyCellsBelow(b[k := m], n)| == |EmptyCellsBelow(b, n)| - (if k < n then 1 else 0)
  {
    if n > 0 {
      MarkShrinksEmptyBelow(b, k, m, n - 1);
    }
  }

  /** Writing a mark into an empty cell removes exactly one cell from `emptyCells`. */
  lemma MarkShrinksEmpty(b: seq<char>, k: CellIndex, m: char)
    requires |b| == 9 && b[k] == ' ' && m != ' '
    ensures |EmptyCells(b[k := m])| == |EmptyCells(b)| - 1
  {
    MarkShrinksEmptyBelow(b, k, m, 9);
  }
}
