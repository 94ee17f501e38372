/**
 The `Game` component of src/index.tsx as a state machine: the move history, the step
 being shown and whose turn it is, with the two transitions `handleClick` and `jumpTo`
 and the status line derived from the shown board.
 */
module TicTacToe {
  import opened Board

  /** What the status line reports: the winner of the shown board, or who moves next. */
  datatype Status = Won(winner: Square) | Next(player: Square)

  /** The mark written by the player to move: `X` when `xIsNext`, `O` otherwise. */
  function Player(xIsNext: bool): (m: Square)
    ensures m != Empty
  {
    if xIsNext then X else O
  }

  /** The mark written by the move that leads from step `k` to step `k + 1`. */
  function MoverAt(k: nat): Square
  {
    Player(k % 2 == 0)
  }

  /** `after` is `before` with mark `m` written into one of its empty cells. */
  ghost predicate IsMove(before: seq<Square>, after: seq<Square>, m: Square)
    requires |before| == 9
  {
    exists c: Cell :: before[c] == Empty && after == before[c := m]
  }

  /** Board `b` can stand at step `k`: `(k + 1) / 2` X marks, `k / 2` O marks, and every complete line is the winner's. */
  ghost predicate BoardAt(b: seq<Square>, k: nat)
  {
    && |b| == 9
    && Count(b, X) == (k + 1) / 2
    && Count(b, O) == k / 2
    && OneMarkWins(b)
  }

  /** Board `after` follows board `before` at step `k`: nobody had won, and the mover of step `k` played. */
  ghost predicate StepAt(before: seq<Square>, after: seq<Square>, k: nat)
    requires |before| == 9
  {
    Winner(before) == Empty && IsMove(before, after, MoverAt(k))
  }

  /**
   A history that legal play produces: it starts from the empty board, each board is the
   one before it plus a mark of the player whose turn it was, no board but the last has a
   winner, board `k` holds `(k + 1) / 2` X marks and `k / 2` O marks, and on every board
   every complete line carries the winner's mark.
   */
  ghost predicate ValidHistory(h: seq<seq<Square>>)
  {
    && 0 < |h|
    && h[0] == EmptyBoard()
    && (forall k :: 0 <= k < |h| ==> |h[k]| == 9)
    && (forall k {:trigger BoardAt(h[k], k)} :: 0 <= k < |h| ==> BoardAt(h[k], k))
    && (forall k {:trigger StepAt(h[k], h[k + 1], k)} :: 0 <= k < |h| - 1 ==> StepAt(h[k], h[k + 1], k))
  }

  /** The history of a new game, a single empty board, is valid. */
  lemma InitialHistoryValid()
    ensures ValidHistory([EmptyBoard()])
  {
    CountMissing(EmptyBoard(), X);
    CountMissing(EmptyBoard(), O);
    NoWinnerIffNoLine(EmptyBoard());
  }

  /** Cutting a valid history after any step leaves a valid history. */
  lemma PrefixValid(h: seq<seq<Square>>, n: nat)
    requires ValidHistory(h) && 0 < n <= |h|
    ensures ValidHistory(h[..n])
  {
    var p := h[..n];
    forall k | 0 <= k < |p|
      ensures BoardAt(p[k], k)
    {
      assert p[k] == h[k];
    }
    forall k | 0 <= k < |p| - 1
      ensures |p[k]| == 9 && StepAt(p[k], p[k + 1], k)
    {
      assert p[k] == h[k] && p[k + 1] == h[k + 1];
    }
  }

  /** The board after a legal move at step `n` can stand at step `n + 1`, one step after it. */
  lemma MoveKeepsBoardAt(cur: seq<Square>, n: nat, i: Cell)
    requires BoardAt(cur, n) && Winner(cur) == Empty && cur[i] == Empty
    ensures BoardAt(cur[i := MoverAt(n)], n + 1) && StepAt(cur, cur[i := MoverAt(n)], n)
  {
    var m := MoverAt(n);
    CountAfterMove(cur, i, m, X);
    CountAfterMove(cur, i, m, O);
    MoveWinsOnlyForMover(cur, i, m);
    assert IsMove(cur, cur[i := m], m) by {
      assert cur[i] == Empty;
    }
  }

  /** Appending a board that can stand one step after the last one keeps a history valid. */
  lemma AppendValid(h: seq<seq<Square>>, next: seq<Square>)
    requires ValidHistory(h) && |h[|h| - 1]| == 9
    requires BoardAt(next, |h|) && StepAt(h[|h| - 1], next, |h| - 1)
    ensures ValidHistory(h + [next])
  {
    var h' := h + [next];
    forall k | 0 <= k < |h'|
      ensures |h'[k]| == 9 && BoardAt(h'[k], k)
    {
      if k < |h| {
        assert h'[k] == h[k] && BoardAt(h[k], k);
      }
    }
    forall k | 0 <= k < |h'| - 1
      ensures |h'[k]| == 9 && StepAt(h'[k], h'[k + 1], k)
    {
      if k < |h| - 1 {
        assert h'[k] == h[k] && h'[k + 1] == h[k + 1] && StepAt(h[k], h[k + 1], k);
      }
    }
  }

  /**
   Playing the mover's mark into an empty cell of the last board of a valid history,
   when that board has no winner, gives a valid history one board longer.
   */
  lemma MoveExtendsValid(h: seq<seq<Square>>, i: Cell)
    requires ValidHistory(h)
    requires Winner(h[|h| - 1]) == Empty && h[|h| - 1][i] == Empty
    ensures ValidHistory(h + [h[|h| - 1][i := MoverAt(|h| - 1)]])
  {
    var n := |h| - 1;
    assert BoardAt(h[n], n);
    MoveKeepsBoardAt(h[n], n, i);
    AppendValid(h, h[n][i := MoverAt(n)]);
  }

  /** Only the last board of a valid history can have a winner: play stops at the first win. */
  lemma OnlyLastBoardWon(h: seq<seq<Square>>, k: nat)
    requires ValidHistory(h) && k < |h|
    ensures |h[k]| == 9 && (Winner(h[k]) != Empty ==> k == |h| - 1)
  {
    assert BoardAt(h[k], k);
    if k < |h| - 1 {
      assert StepAt(h[k], h[k + 1], k);
    }
  }

  /**
   On a board of a valid history that has a winner, the winner is the player who made the
   last move, and the board is the last one of the history.
   */
  lemma WinnerMadeLastMove(h: seq<seq<Square>>, k: nat)
    requires ValidHistory(h) && k < |h| && Winner(h[k]) != Empty
    ensures k == |h| - 1 && 0 < k && Winner(h[k]) == MoverAt(k - 1)
  {
    OnlyLastBoardWon(h, k);
    if k == 0 {
      EmptyBoardHasNoWinner();
      assert false;
    }
    var j := k - 1;
    assert StepAt(h[j], h[j + 1], j);
    var c: Cell :| h[j][c] == Empty && h[j + 1] == h[j][c := MoverAt(j)];
    MoveWinsOnlyForMover(h[j], c, MoverAt(j));
  }

  /** Nobody can have won before the fifth move: until then each player has at most two marks. */
  lemma NoWinBeforeFifthMove(h: seq<seq<Square>>, k: nat)
    requires ValidHistory(h) && k < |h| && k < 5
    ensures |h[k]| == 9 && Winner(h[k]) == Empty
  {
    assert BoardAt(h[k], k);
    WinnerHasThreeMarks(h[k]);
  }

  /** The turn indicator agrees with the shown board: X is next exactly when X and O have as many marks. */
  lemma TurnMatchesBoard(h: seq<seq<Square>>, k: nat)
    requires ValidHistory(h) && k < |h|
    ensures (k % 2 == 0) <==> Count(h[k], X) == Count(h[k], O)
  {
    assert BoardAt(h[k], k);
  }

  class Game {
    var history: seq<seq<Square>>
    var stepNumber: nat
    var xIsNext: bool

    /** The state invariant: a valid history, a cursor inside it, and the turn given by the cursor's parity. */
    ghost predicate Valid()
      reads this
    {
      && ValidHistory(history)
      && stepNumber < |history|
      && xIsNext == (stepNumber % 2 == 0)
    }

    /** The start of a game: one empty board, step 0, X to move. */
    constructor ()
      ensures Valid()
      ensures history == [EmptyBoard()] && stepNumber == 0 && xIsNext
    {
      history := [EmptyBoard()];
      stepNumber := 0;
      xIsNext := true;
      InitialHistoryValid();
    }

    /**
     A click on cell `i`. When the shown board already has a winner or the cell is taken,
     nothing changes. Otherwise the history after the shown step is discarded, the shown
     board with the mover's mark in cell `i` is appended, the cursor moves to it and the
     turn passes to the other player.
     */
    method HandleClick(i: Cell)
      requires Valid()
      modifies this
      ensures Valid()
      ensures var cur := old(history[stepNumber]);
        if Winner(cur) != Empty || cur[i] != Empty then
          history == old(history) && stepNumber == old(stepNumber) && xIsNext == old(xIsNext)
        else
          && history == old(history[..stepNumber + 1]) + [cur[i := Player(old(xIsNext))]]
          && stepNumber == old(stepNumber) + 1 == |history| - 1
          && xIsNext == !old(xIsNext)
    {
      var newHistory := history[..stepNumber + 1];
      var current := newHistory[|newHistory| - 1];
      var squares := new Square[9](c requires 0 <= c < 9 => current[c]);
      assert squares[..] == current;
      var winner := CalculateWinner(squares[..]);
      if winner != Empty || squares[i] != Empty {
        return;
      }
      squares[i] := Player(xIsNext);
      assert squares[..] == current[i := MoverAt(stepNumber)];
      PrefixValid(history, stepNumber + 1);
      MoveExtendsValid(newHistory, i);
      xIsNext := !xIsNext;
      stepNumber := |newHistory|;
      history := newHistory + [squares[..]];
    }

    /** Show step `step`: only the cursor and the turn change, the history stays as it is. */
    method JumpTo(step: nat)
      requires Valid() && step < |history|
      modifies this
      ensures Valid()
      ensures history == old(history) && stepNumber == step && xIsNext == (step % 2 == 0)
    {
      stepNumber := step;
      xIsNext := step % 2 == 0;
    }

    /**
     The status line: the winner of the shown board if it has one, which is always the
     player who made the latest move; otherwise the player to move, which is X exactly
     when the board holds as many X marks as O marks.
     */
    method CurrentStatus() returns (s: Status)
      requires Valid()
      ensures var cur := history[stepNumber];
        && (s.Won? <==> Winner(cur) != Empty)
        && (s.Won? ==> s.winner == Winner(cur) && s.winner == Player(!xIsNext))
        && (s.Next? ==> s.player == Player(xIsNext))
        && (s.Next? ==> (s.player == X <==> Count(cur, X) == Count(cur, O)))
    {
      var current := history[stepNumber];
      var winner := CalculateWinner(current);
      if winner != Empty {
        WinnerMadeLastMove(history, stepNumber);
        s := Won(winner);
      } else {
        TurnMatchesBoard(history, stepNumber);
        s := Next(Player(xIsNext));
      }
    }
  }

  /**
   X plays 0, O plays 4, X plays 1, O plays 7, X plays 2 and completes the top row:
   the status reports X as winner and a further click changes nothing.
   */
  method TopRowWin() returns (s: Status, moves: nat)
    ensures s == Won(X) && moves == 5
  {
    var g := new Game();
    NoWinBeforeFifthMove(g.history, 0);
    g.HandleClick(0);
    NoWinBeforeFifthMove(g.history, 1);
    g.HandleClick(4);
    NoWinBeforeFifthMove(g.history, 2);
    g.HandleClick(1);
    NoWinBeforeFifthMove(g.history, 3);
    g.HandleClick(7);
    NoWinBeforeFifthMove(g.history, 4);
    g.HandleClick(2);
    var top := g.history[5];
    assert top[0] == X && top[1] == X && top[2] == X;
    WinnerIsFirstLine(top, 0);
    g.HandleClick(3);
    s := g.CurrentStatus();
    moves := |g.history| - 1;
  }

  /**
   After three moves, jumping back to step 1 and playing again discards the two later
   boards: the history ends with three boards and the cursor on the last one.
   */
  method RewindDiscardsRedo() returns (length: nat, step: nat, next: Status)
    ensures length == 3 && step == 2 && next == Next(X)
  {
    var g := new Game();
    NoWinBeforeFifthMove(g.history, 0);
    g.HandleClick(0);
    NoWinBeforeFifthMove(g.history, 1);
    g.HandleClick(4);
    NoWinBeforeFifthMove(g.history, 2);
    g.HandleClick(8);
    g.JumpTo(1);
    NoWinBeforeFifthMove(g.history, 1);
    g.HandleClick(2);
    NoWinBeforeFifthMove(g.history, 2);
    length, step := |g.history|, g.stepNumber;
    next := g.CurrentStatus();
  }
}
