/** The board of a two-player tic-tac-toe game: nine cells in row-major
    order, the eight fixed winning lines, the line test used by the
    game-over check, and the counting of marks. */
module Board {

  /** The two players; X always moves first. */
  datatype Player = X | O

  /** A cell of the grid: the empty string, or the mark of a player. */
  datatype Cell = Empty | Mark(player: Player)

  /** A cell index, 0 to 8, row-major. */
  type Index = i: int | 0 <= i < 9

  /** A grid is exactly nine cells. */
  type Grid = s: seq<Cell> | |s| == 9 witness seq(9, _ => Empty)

  /** A winning line: three cell indices. */
  datatype Line = Line(a: Index, b: Index, c: Index)

  /** The eight winning lines, in their declared order: three rows,
      three columns, then the two diagonals. */
  const WinningPositions: seq<Line> := [
    Line(0, 1, 2),
    Line(3, 4, 5),
    Line(6, 7, 8),
    Line(0, 3, 6),
    Line(1, 4, 7),
    Line(2, 5, 8),
    Line(0, 4, 8),
    Line(2, 4, 6)
  ]

  /** The grid of a new game. */
  const EmptyGrid: Grid := seq(9, _ => Empty)

  /** The player who moves after `p`. */
  function Other(p: Player): (q: Player)
    ensures q != p
  {
    if p == X then O else X
  }

  lemma OtherTwice(p: Player)
    ensures Other(Other(p)) == p
  {
  }

  predicate Occupies(l: Line, i: Index) {
    l.a == i || l.b == i || l.c == i
  }

  /** The test the game-over check applies to each line: at least one of
      its cells is non-empty and all three cells are equal. */
  predicate LineMatches(g: Grid, l: Line)
  {
    (g[l.a] != Empty || g[l.b] != Empty || g[l.c] != Empty)
    && g[l.a] == g[l.b] && g[l.b] == g[l.c]
  }

  /** A line matches exactly when its three cells hold one and the same mark. */
  lemma LineMatchesIffSameMark(g: Grid, l: Line)
    ensures LineMatches(g, l) <==>
      exists p :: g[l.a] == Mark(p) && g[l.b] == Mark(p) && g[l.c] == Mark(p)
  {
  }

  /** The mark recorded for a matching line: X when its first cell holds X,
      otherwise O. */
  function LineWinner(g: Grid, l: Line): (p: Player)
    requires LineMatches(g, l)
    ensures g[l.a] == Mark(p) && g[l.b] == Mark(p) && g[l.c] == Mark(p)
  {
    if g[l.a] == Mark(X) then X else assert g[l.a].Mark? && g[l.a].player != X; O
  }

  /** The value of the game-over check's `answer` after its scan has visited
      the first `k` winning lines: every matching line overwrites it, so it
      holds the mark of the last matching line among them, or Empty. */
  function LastMatch(g: Grid, k: nat): (answer: Cell)
    requires k <= |WinningPositions|
    ensures answer == Empty <==>
      forall j | 0 <= j < k :: !LineMatches(g, WinningPositions[j])
    ensures answer != Empty ==>
      exists j | 0 <= j < k ::
        && LineMatches(g, WinningPositions[j])
        && answer == Mark(LineWinner(g, WinningPositions[j]))
        && forall j' | j < j' < k :: !LineMatches(g, WinningPositions[j'])
  {
    if k == 0 then Empty
    else if LineMatches(g, WinningPositions[k - 1]) then
      Mark(LineWinner(g, WinningPositions[k - 1]))
    else LastMatch(g, k - 1)
  }

  /** The `answer` of the full scan over all eight lines. */
  function Answer(g: Grid): Cell {
    LastMatch(g, |WinningPositions|)
  }

  predicate HasWinningLine(g: Grid) {
    exists j | 0 <= j < |WinningPositions| :: LineMatches(g, WinningPositions[j])
  }

  /** The scan finds a mark exactly when some line matches, and the mark it
      finds belongs to a matching line that no later line overrides. */
  lemma AnswerSpec(g: Grid)
    ensures Answer(g) != Empty <==> HasWinningLine(g)
    ensures Answer(g) != Empty ==>
      exists j | 0 <= j < |WinningPositions| ::
        && LineMatches(g, WinningPositions[j])
        && Answer(g) == Mark(LineWinner(g, WinningPositions[j]))
        && forall j' | j < j' < |WinningPositions| :: !LineMatches(g, WinningPositions[j'])
  {
  }

  /** Two matching lines with different marks: the scan keeps the later
      one (row 1 of O beats row 0 of X). No game reaches this grid, since
      input is locked after the first win (see Game.WinnerIsLastMover); it
      shows how the scan treats any grid. */
  lemma LaterLineOverwrites()
    ensures var g: Grid := [Mark(X), Mark(X), Mark(X), Mark(O), Mark(O), Mark(O), Empty, Empty, Empty];
      LineMatches(g, WinningPositions[0]) && LineMatches(g, WinningPositions[1])
      && Answer(g) == Mark(O)
  {
  }

  /** The number of non-empty cells in `s`, counted front to back. */
  function Filled(s: seq<Cell>): (n: nat)
    ensures n <= |s|
    ensures n == |s| <==> forall i | 0 <= i < |s| :: s[i] != Empty
  {
    if s == [] then 0
    else Filled(s[..|s| - 1]) + (if s[|s| - 1] != Empty then 1 else 0)
  }

  /** The number of cells of `s` that hold `c`. */
  function Count(s: seq<Cell>, c: Cell): nat
  {
    if s == [] then 0
    else Count(s[..|s| - 1], c) + (if s[|s| - 1] == c then 1 else 0)
  }

  /** Every non-empty cell holds the mark of one of the two players. */
  lemma {:induction false} FilledIsMarkCount(s: seq<Cell>)
    ensures Filled(s) == Count(s, Mark(X)) + Count(s, Mark(O))
  {
    if s != [] {
      FilledIsMarkCount(s[..|s| - 1]);
      match s[|s| - 1]
      case Empty =>
      case Mark(p) => assert p == X || p == O;
    }
  }

  /** Writing `v` over cell `i` changes the count of `c` by what was
      removed and what was added. */
  lemma {:induction false} CountUpdate(s: seq<Cell>, i: nat, v: Cell, c: Cell)
    requires i < |s|
    ensures Count(s[i := v], c) ==
      Count(s, c) - (if s[i] == c then 1 else 0) + (if v == c then 1 else 0)
  {
    var t := s[i := v];
    var n := |s|;
    if i == n - 1 {
      assert t[..n - 1] == s[..n - 1];
    } else {
      assert t[..n - 1] == s[..n - 1][i := v];
      CountUpdate(s[..n - 1], i, v, c);
    }
  }

  /** A value that no cell holds is counted zero times. */
  lemma {:induction false} CountAbsent(s: seq<Cell>, c: Cell)
    requires forall i | 0 <= i < |s| :: s[i] != c
    ensures Count(s, c) == 0
  {
    if s != [] {
      CountAbsent(s[..|s| - 1], c);
    }
  }

  /** The balance of marks the game keeps: X has as many marks as O, and it
      is X's turn, or X has one mark more, and it is O's turn. */
  predicate Balanced(g: Grid, p: Player) {
    if p == X then Count(g, Mark(X)) == Count(g, Mark(O))
    else Count(g, Mark(X)) == Count(g, Mark(O)) + 1
  }

  lemma {:induction false} EmptyGridBalanced()
    ensures Count(EmptyGrid, Mark(X)) == 0 && Count(EmptyGrid, Mark(O)) == 0
    ensures Balanced(EmptyGrid, X)
  {
    CountAbsent(EmptyGrid, Mark(X));
    CountAbsent(EmptyGrid, Mark(O));
  }

  /** Placing the mark of the player to move on an empty cell and passing the
      turn keeps the balance. */
  lemma {:induction false} PlaceKeepsBalance(g: Grid, p: Player, i: Index)
    requires Balanced(g, p) && g[i] == Empty
    ensures Balanced(g[i := Mark(p)], Other(p))
  {
    CountUpdate(g, i, Mark(p), Mark(X));
    CountUpdate(g, i, Mark(p), Mark(O));
  }

  /** A full balanced grid holds five X and four O, and it is O's turn. */
  lemma {:induction false} FullGridMarks(g: Grid, p: Player)
    requires Balanced(g, p) && Filled(g) == 9
    ensures p == O && Count(g, Mark(X)) == 5 && Count(g, Mark(O)) == 4
  {
    FilledIsMarkCount(g);
  }

  /** Filling an empty cell can only add matching lines, and every line it
      adds passes through that cell and carries the new mark. */
  lemma PlaceMatches(g: Grid, i: Index, p: Player, l: Line)
    requires g[i] == Empty
    ensures LineMatches(g, l) ==>
      (LineMatches(g[i := Mark(p)], l) && LineWinner(g[i := Mark(p)], l) == LineWinner(g, l))
    ensures LineMatches(g[i := Mark(p)], l) && !LineMatches(g, l) ==>
      Occupies(l, i) && LineWinner(g[i := Mark(p)], l) == p
  {
  }
}
