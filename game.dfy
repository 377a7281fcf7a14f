/** The turn-based state machine of the game: the message shown above the
    board, the lock on input once a line is won, and the game object whose
    methods start a game, pass the turn, place a mark and check for the end
    of the game. */
module Game {
  import opened Board

  /** The three messages the game shows. */
  datatype Status = CurrentPlayer(player: Player) | WinnerPlayer(player: Player) | GameTied

  function Name(p: Player): string {
    if p == X then "X" else "O"
  }

  /** The text of a status message. */
  function Render(s: Status): (text: string)
    ensures s.CurrentPlayer? ==> |text| == 18 && text[..17] == "Current Player - "
    ensures s.WinnerPlayer? ==> |text| == 17 && text[..16] == "Winner Player - "
    ensures s.GameTied? ==> text == "Game Tied !"
    ensures !s.GameTied? ==> text[|text| - 1] == (if s.player == X then 'X' else 'O')
  {
    match s
    case CurrentPlayer(p) => "Current Player - " + Name(p)
    case WinnerPlayer(p) => "Winner Player - " + Name(p)
    case GameTied => "Game Tied !"
  }

  /** Different statuses show different texts. */
  lemma RenderInjective(s: Status, t: Status)
    requires Render(s) == Render(t)
    ensures s == t
  {
  }

  /** The status after the game-over check, given the status shown before
      it: a found winner replaces the message, and a full grid then replaces
      that with the tie message. */
  function CheckedStatus(g: Grid, shown: Status): Status {
    var answer := Answer(g);
    var afterWin := if answer != Empty then WinnerPlayer(answer.player) else shown;
    if Filled(g) == 9 then GameTied else afterWin
  }

  /** What the message after a move says, in terms of the grid alone: a tie
      exactly when every cell is filled (a winning line does not prevent
      it), a winner exactly when a line matches on a grid with an empty cell,
      and otherwise the player to move. */
  lemma CheckedStatusCases(g: Grid, p: Player)
    ensures var s := CheckedStatus(g, CurrentPlayer(p));
      && (s == GameTied <==> forall i | 0 <= i < 9 :: g[i] != Empty)
      && (s.WinnerPlayer? <==> HasWinningLine(g) && exists i | 0 <= i < 9 :: g[i] == Empty)
      && (s.WinnerPlayer? ==> Answer(g) == Mark(s.player))
      && (s.CurrentPlayer? <==> !HasWinningLine(g) && exists i | 0 <= i < 9 :: g[i] == Empty)
      && (s.CurrentPlayer? ==> s.player == p)
  {
  }

  /** Every matching line on `g` carries the mark of `q`. */
  predicate WinsBelongTo(g: Grid, q: Player) {
    forall j | 0 <= j < |WinningPositions| ::
      LineMatches(g, WinningPositions[j]) ==> LineWinner(g, WinningPositions[j]) == q
  }

  /** The invariant of every state reachable from a new game: marks are
      balanced with the player to move, the message is the one the last
      check left, input is accepted exactly while no line matches, and all
      matching lines belong to the player who moved last. */
  predicate Consistent(g: Grid, p: Player, shown: Status, accepting: bool) {
    && Balanced(g, p)
    && shown == CheckedStatus(g, CurrentPlayer(p))
    && accepting == !HasWinningLine(g)
    && WinsBelongTo(g, Other(p))
  }

  /** A new game is consistent. */
  lemma {:induction false} InitialConsistent()
    ensures Consistent(EmptyGrid, X, CurrentPlayer(X), true)
  {
    EmptyGridBalanced();
    assert Filled(EmptyGrid) < 9 by {
      assert EmptyGrid[0] == Empty;
    }
    AnswerSpec(EmptyGrid);
  }

  /** A move accepted on a consistent state leads to a consistent state. */
  lemma {:induction false} MoveKeepsConsistent(g: Grid, p: Player, shown: Status, i: Index)
    requires Consistent(g, p, shown, true) && g[i] == Empty
    ensures var h := g[i := Mark(p)];
      Consistent(h, Other(p), CheckedStatus(h, CurrentPlayer(Other(p))), !HasWinningLine(h))
  {
    var h := g[i := Mark(p)];
    PlaceKeepsBalance(g, p, i);
    OtherTwice(p);
    forall j | 0 <= j < |WinningPositions| && LineMatches(h, WinningPositions[j])
      ensures LineWinner(h, WinningPositions[j]) == p
    {
      PlaceMatches(g, i, p, WinningPositions[j]);
    }
  }

  /** On a consistent state the scan's answer, whichever line it came from,
      is the mark of the player who moved last; the winner message names that
      player, and a tie is only shown after X's fifth mark. */
  lemma {:induction false} WinnerIsLastMover(g: Grid, p: Player, shown: Status, accepting: bool)
    requires Consistent(g, p, shown, accepting)
    ensures Answer(g) == Empty || Answer(g) == Mark(Other(p))
    ensures !accepting <==> Answer(g) == Mark(Other(p))
    ensures shown.WinnerPlayer? ==> shown.player == Other(p)
    ensures shown == GameTied ==> p == O
  {
    AnswerSpec(g);
    if shown == GameTied {
      FullGridMarks(g, p);
    }
  }

  /** The game: the grid, the player to move, the message shown and the lock
      that disables every box once a line is won. */
  class Game {
    var grid: array<Cell>
    var current: Player
    var status: Status
    var accepting: bool

    ghost predicate Valid()
      reads this
    {
      grid.Length == 9
    }

    /** The state is one a game can reach. */
    ghost predicate Reachable()
      reads this, grid
    {
      Valid() && Consistent(grid[..], current, status, accepting)
    }

    /** Loading the page starts a game. */
    constructor ()
      ensures fresh(grid) && Reachable()
      ensures grid[..] == EmptyGrid && current == X
      ensures status == CurrentPlayer(X) && accepting
    {
      grid := new Cell[9](_ => Empty);
      current := X;
      accepting := true;
      status := CurrentPlayer(X);
      new;
      assert grid[..] == EmptyGrid;
      InitialConsistent();
    }

    /** Starts a new game on a fresh empty grid, X to move, input accepted. */
    method Init()
      modifies this
      ensures fresh(grid) && Reachable()
      ensures grid[..] == EmptyGrid && current == X
      ensures status == CurrentPlayer(X) && accepting
    {
      current := X;
      grid := new Cell[9](_ => Empty);
      accepting := true;
      status := CurrentPlayer(X);
      assert grid[..] == EmptyGrid;
      InitialConsistent();
    }

    /** Passes the turn to the other player and shows whose turn it is. */
    method SwapTurn()
      modifies this`current, this`status
      ensures current == Other(old(current)) && old(current) == Other(current)
      ensures status == CurrentPlayer(current)
    {
      if current == X {
        current := O;
      } else {
        current := X;
      }
      status := CurrentPlayer(current);
    }

    /** Scans the eight lines in order, locking input on every matching line
        and remembering the mark of the last one, then counts the filled
        cells. */
    method CheckGameOver()
      requires Valid()
      modifies this`status, this`accepting
      ensures accepting == (old(accepting) && !HasWinningLine(grid[..]))
      ensures status == CheckedStatus(grid[..], old(status))
    {
      var answer := Empty;
      var k := 0;
      while k < |WinningPositions|
        invariant 0 <= k <= |WinningPositions|
        invariant answer == LastMatch(grid[..], k)
        invariant accepting == (old(accepting) && answer == Empty)
        invariant status == old(status)
      {
        var line := WinningPositions[k];
        if LineMatches(grid[..], line) {
          if grid[line.a] == Mark(X) {
            answer := Mark(X);
          } else {
            answer := Mark(O);
          }
          accepting := false;
        }
        k := k + 1;
      }
      AnswerSpec(grid[..]);
      if answer != Empty {
        status := WinnerPlayer(answer.player);
      }

      var fillCount := 0;
      k := 0;
      while k < grid.Length
        invariant 0 <= k <= grid.Length
        invariant fillCount == Filled(grid[..k])
      {
        assert grid[..k + 1][..k] == grid[..k];
        if grid[k] != Empty {
          fillCount := fillCount + 1;
        }
        k := k + 1;
      }
      assert grid[..k] == grid[..];
      if fillCount == 9 {
        status := GameTied;
      }
    }

    /** A click on box `i`: an empty box gets the mark of the player to move,
        the turn passes, and the game-over check runs; anything else (an
        occupied box, an index off the grid) changes nothing. */
    method HandleClick(i: int)
      requires Valid()
      modifies this`current, this`status, this`accepting, grid
      ensures if 0 <= i < 9 && old(grid[i]) == Empty then
          && grid[..] == old(grid[..])[i := Mark(old(current))]
          && current == Other(old(current))
          && status == CheckedStatus(grid[..], CurrentPlayer(current))
          && accepting == (old(accepting) && !HasWinningLine(grid[..]))
        else
          && grid[..] == old(grid[..])
          && current == old(current) && status == old(status)
          && accepting == old(accepting)
    {
      if 0 <= i < grid.Length && grid[i] == Empty {
        grid[i] := Mark(current);
        SwapTurn();
        CheckGameOver();
      }
    }

    /** A click as the page delivers it: ignored while input is locked,
        otherwise handled. Keeps the state reachable. */
    method Click(i: int)
      requires Reachable()
      modifies this`current, this`status, this`accepting, grid
      ensures Reachable()
      ensures if old(accepting) && 0 <= i < 9 && old(grid[i]) == Empty then
          && grid[..] == old(grid[..])[i := Mark(old(current))]
          && current == Other(old(current))
        else
          && grid[..] == old(grid[..])
          && current == old(current) && status == old(status)
          && accepting == old(accepting)
    {
      if accepting {
        ghost var g, p, shown := grid[..], current, status;
        HandleClick(i);
        if 0 <= i < 9 && g[i] == Empty {
          MoveKeepsConsistent(g, p, shown, i);
        }
      }
    }
  }

  /** X fills the diagonal 0-4-8 with the ninth mark of the game (X on
      0, 2, 4, 7, 8 and O on 1, 3, 5, 6, no line won before): the scan
      finds X and locks input, yet the message is the tie, which is written
      after the winner message. */
  lemma TieHidesWin()
    ensures var g: Grid := [Mark(X), Mark(O), Mark(X), Mark(O), Mark(X), Mark(O), Mark(O), Mark(X), Mark(X)];
      && !HasWinningLine(g[8 := Empty])
      && Answer(g) == Mark(X)
      && CheckedStatus(g, CurrentPlayer(O)) == GameTied
  {
  }
}
