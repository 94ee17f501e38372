/**
 The 3×3 board of the game and the rule that decides whether someone has won:
 the `SquareValue` type and the `calculateWinner` function of src/index.tsx.
 */
module Board {

  /** The content of one square: a player's mark, or `Empty` where the source has `null`. */
  datatype Square = Empty | X | O

  /** An index into the row-major 3×3 grid. */
  type Cell = c: nat | c < 9

  /** Three cells that win when they hold the same mark: a row, a column or a diagonal. */
  datatype Line = Line(a: Cell, b: Cell, c: Cell)

  /** A line whose cells are listed in increasing order, as all eight are. */
  type OrderedLine = l: Line | l.a < l.b < l.c witness Line(0, 1, 2)

  /** The winning lines, in the order the source scans them. */
  const Lines: seq<OrderedLine> := [
    Line(0, 1, 2), Line(3, 4, 5), Line(6, 7, 8),
    Line(0, 3, 6), Line(1, 4, 7), Line(2, 5, 8),
    Line(0, 4, 8), Line(2, 4, 6)
  ]

  /** The board a game starts with: nine empty squares. */
  function EmptyBoard(): (b: seq<Square>)
    ensures |b| == 9 && forall c :: 0 <= c < 9 ==> b[c] == Empty
  {
    seq(9, _ => Empty)
  }

  /** Line `l` holds three equal marks on board `b`. */
  predicate Completes(b: seq<Square>, l: Line)
    requires |b| == 9
  {
    b[l.a] != Empty && b[l.a] == b[l.b] && b[l.a] == b[l.c]
  }

  /** No line from index `k` on is complete. */
  predicate NoLineFrom(b: seq<Square>, k: nat)
    requires |b| == 9
  {
    forall j :: k <= j < |Lines| ==> !Completes(b, Lines[j])
  }

  /** The mark of the first complete line at index `k` or later, or `Empty` when there is none. */
  function WinnerFrom(b: seq<Square>, k: nat): Square
    requires |b| == 9 && k <= |Lines|
    decreases |Lines| - k
  {
    if k == |Lines| then Empty
    else if Completes(b, Lines[k]) then b[Lines[k].a]
    else WinnerFrom(b, k + 1)
  }

  /** The winner of board `b` as `calculateWinner` reports it; `Empty` for none. */
  function Winner(b: seq<Square>): Square
    requires |b| == 9
  {
    WinnerFrom(b, 0)
  }

  /** The scan reports `Empty` exactly when no line from `k` on is complete. */
  lemma {:induction false} WinnerFromEmpty(b: seq<Square>, k: nat)
    requires |b| == 9 && k <= |Lines|
    ensures WinnerFrom(b, k) == Empty <==> NoLineFrom(b, k)
    decreases |Lines| - k
  {
    if k < |Lines| {
      WinnerFromEmpty(b, k + 1);
    }
  }

  /** Whatever the scan from `k` reports is the mark of a complete line from `k` on. */
  lemma {:induction false} WinnerFromSound(b: seq<Square>, k: nat)
    requires |b| == 9 && k <= |Lines|
    ensures WinnerFrom(b, k) != Empty ==>
      exists j :: k <= j < |Lines| && Completes(b, Lines[j]) && WinnerFrom(b, k) == b[Lines[j].a]
    decreases |Lines| - k
  {
    if k < |Lines| && !Completes(b, Lines[k]) {
      WinnerFromSound(b, k + 1);
    }
  }

  /** When line `j` is the first complete line from `k` on, the scan reports its mark. */
  lemma {:induction false} WinnerFromFirst(b: seq<Square>, k: nat, j: nat)
    requires |b| == 9 && k <= j < |Lines|
    requires Completes(b, Lines[j])
    requires forall i :: k <= i < j ==> !Completes(b, Lines[i])
    ensures WinnerFrom(b, k) == b[Lines[j].a]
    decreases j - k
  {
    if k < j {
      WinnerFromFirst(b, k + 1, j);
    }
  }

  /** `calculateWinner` returns `null` exactly when no line holds three equal marks. */
  lemma NoWinnerIffNoLine(b: seq<Square>)
    requires |b| == 9
    ensures Winner(b) == Empty <==> forall j :: 0 <= j < |Lines| ==> !Completes(b, Lines[j])
  {
    WinnerFromEmpty(b, 0);
  }

  /** A mark returned by `calculateWinner` fills one of the eight lines. */
  lemma WinnerFillsLine(b: seq<Square>)
    requires |b| == 9 && Winner(b) != Empty
    ensures exists j :: 0 <= j < |Lines| && Completes(b, Lines[j]) && b[Lines[j].a] == Winner(b)
    ensures Winner(b) == X || Winner(b) == O
  {
    WinnerFromSound(b, 0);
  }

  /** Of several complete lines, `calculateWinner` reports the first in the listed order. */
  lemma WinnerIsFirstLine(b: seq<Square>, j: nat)
    requires |b| == 9 && j < |Lines| && Completes(b, Lines[j])
    requires forall i :: 0 <= i < j ==> !Completes(b, Lines[i])
    ensures Winner(b) == b[Lines[j].a]
  {
    WinnerFromFirst(b, 0, j);
  }

  /** The empty board has no winner. */
  lemma EmptyBoardHasNoWinner()
    ensures |EmptyBoard()| == 9 && Winner(EmptyBoard()) == Empty
  {
    NoWinnerIffNoLine(EmptyBoard());
  }

  /** A board holding mark `m` on line `l` and nothing elsewhere is won by `m`. */
  lemma {:induction false} LineAloneWins(l: Line, m: Square)
    requires l in Lines && m != Empty
    ensures var b := seq(9, c requires 0 <= c < 9 => if c == l.a || c == l.b || c == l.c then m else Empty);
      |b| == 9 && Winner(b) == m
  {
    var b := seq(9, c requires 0 <= c < 9 => if c == l.a || c == l.b || c == l.c then m else Empty);
    var j :| 0 <= j < |Lines| && Lines[j] == l;
    assert Completes(b, Lines[j]);
    NoWinnerIffNoLine(b);
    WinnerFillsLine(b);
  }

  /** A full board in which no line is complete (a draw) has no winner. */
  lemma DrawnBoardHasNoWinner(b: seq<Square>)
    requires |b| == 9 && forall c :: 0 <= c < 9 ==> b[c] != Empty
    requires forall j :: 0 <= j < |Lines| ==> !Completes(b, Lines[j])
    ensures Winner(b) == Empty
  {
    NoWinnerIffNoLine(b);
  }

  /** One drawn board: X O X / X O O / O X X has no winner. */
  lemma DrawExample()
    ensures Winner([X, O, X, X, O, O, O, X, X]) == Empty
  {
  }

  /** Every complete line on `b` carries the winner's mark: at most one player has three in a row. */
  predicate OneMarkWins(b: seq<Square>)
    requires |b| == 9
  {
    forall j :: 0 <= j < |Lines| && Completes(b, Lines[j]) ==> b[Lines[j].a] == Winner(b)
  }

  /**
   Writing mark `m` into an empty cell of a board nobody has won can complete only lines
   through that cell, so afterwards every complete line is `m`'s and the winner is `m` or nobody.
   */
  lemma MoveWinsOnlyForMover(b: seq<Square>, i: Cell, m: Square)
    requires |b| == 9 && b[i] == Empty && m != Empty && Winner(b) == Empty
    ensures OneMarkWins(b[i := m])
    ensures Winner(b[i := m]) == Empty || Winner(b[i := m]) == m
  {
    var b' := b[i := m];
    NoWinnerIffNoLine(b);
    forall j | 0 <= j < |Lines| && Completes(b', Lines[j])
      ensures b'[Lines[j].a] == m
    {
      assert !Completes(b, Lines[j]);
    }
    NoWinnerIffNoLine(b');
    if Winner(b') != Empty {
      WinnerFillsLine(b');
    }
  }

  /** The number of squares of `b` that hold `m`. */
  function Count(b: seq<Square>, m: Square): nat
  {
    if b == [] then 0 else (if b[0] == m then 1 else 0) + Count(b[1..], m)
  }

  /** A board none of whose squares holds `m` counts no `m`. */
  lemma {:induction false} CountMissing(b: seq<Square>, m: Square)
    requires forall c :: 0 <= c < |b| ==> b[c] != m
    ensures Count(b, m) == 0
  {
    if b != [] {
      CountMissing(b[1..], m);
    }
  }

  /** Writing `m` into an empty cell adds one `m` and leaves the count of every other mark alone. */
  lemma {:induction false} CountAfterMove(b: seq<Square>, i: nat, m: Square, n: Square)
    requires i < |b| && b[i] == Empty && m != Empty && n != Empty
    ensures Count(b[i := m], n) == Count(b, n) + (if n == m then 1 else 0)
  {
    if i > 0 {
      assert b[i := m][1..] == b[1..][i - 1 := m];
      CountAfterMove(b[1..], i - 1, m, n);
    } else {
      assert b[i := m][1..] == b[1..];
    }
  }

  /** A board with marks `m` at the strictly increasing positions `idx` holds at least `|idx|` of them. */
  lemma {:induction false} CountAtLeast(b: seq<Square>, m: Square, idx: seq<nat>)
    requires forall j :: 0 <= j < |idx| ==> idx[j] < |b| && b[idx[j]] == m
    requires forall i, j :: 0 <= i < j < |idx| ==> idx[i] < idx[j]
    ensures Count(b, m) >= |idx|
    decreases |b|
  {
    if |idx| > 0 {
      if idx[0] == 0 {
        var rest := seq(|idx| - 1, j requires 0 <= j < |idx| - 1 => idx[j + 1] - 1);
        CountAtLeast(b[1..], m, rest);
      } else {
        var rest := seq(|idx|, j requires 0 <= j < |idx| => idx[j] - 1);
        CountAtLeast(b[1..], m, rest);
      }
    }
  }

  /** The winner holds at least three squares, so a board with fewer than three of each mark has no winner. */
  lemma WinnerHasThreeMarks(b: seq<Square>)
    requires |b| == 9
    ensures Winner(b) != Empty ==> Count(b, Winner(b)) >= 3
    ensures Count(b, X) < 3 && Count(b, O) < 3 ==> Winner(b) == Empty
  {
    if Winner(b) != Empty {
      WinnerFillsLine(b);
      var j :| 0 <= j < |Lines| && Completes(b, Lines[j]) && b[Lines[j].a] == Winner(b);
      var l := Lines[j];
      CountAtLeast(b, Winner(b), [l.a, l.b, l.c]);
    }
  }

  /**
   The loop of `calculateWinner`: scan the lines in order and return the mark of the
   first complete one, or `Empty` when the scan finishes.
   */
  method CalculateWinner(squares: seq<Square>) returns (w: Square)
    requires |squares| == 9
    ensures w == Winner(squares)
  {
    for i := 0 to |Lines|
      invariant WinnerFrom(squares, i) == Winner(squares)
    {
      var line := Lines[i];
      if squares[line.a] != Empty && squares[line.a] == squares[line.b] && squares[line.a] == squares[line.c] {
        return squares[line.a];
      }
    }
    return Empty;
  }
}
