/**
  The game of Hex: the board, the moves, and the depth-first search that looks for a winning chain.
  Player 1 joins the first row to the last one, player 2 the first column to the last one.
 */
module Hex {
  import Bits

  datatype Player = Free | Player1 | Player2

  /** A position: column q, row r. */
  datatype Cell = Cell(q: int, r: int) {
    function Plus(d: Cell): Cell {
      Cell(q + d.q, r + d.r)
    }
  }

  const DIRECTIONS: seq<Cell> := [Cell(1, 0), Cell(1, -1), Cell(0, -1), Cell(-1, 0), Cell(-1, 1), Cell(0, 1)]

  /** Coordinates are 16-bit signed, and a search looks one step beyond the board. */
  const MAX_ROWS: nat := 0x7FFF

  /** The move counters are 16-bit unsigned. */
  const MOVE_LIMIT: nat := 0x1_0000

  function NextPlayer(player: Player): (next: Player)
    requires player != Free
    ensures next != Free && next != player
  {
    if player == Player1 then Player2 else Player1
  }

  type Board = map<Cell, Player>

  ghost predicate Adjacent(a: Cell, b: Cell) {
    exists k :: 0 <= k < |DIRECTIONS| && b == a.Plus(DIRECTIONS[k])
  }

  predicate Owns(board: Board, player: Player, c: Cell) {
    c in board && board[c] == player
  }

  /** Consecutive cells of the path are neighbours, and all of them are the player's. */
  ghost predicate IsChain(board: Board, player: Player, path: seq<Cell>) {
    && (forall i :: 0 <= i < |path| ==> Owns(board, player, path[i]))
    && (forall i :: 0 < i < |path| ==> Adjacent(path[i - 1], path[i]))
  }

  ghost predicate NoRepeats(path: seq<Cell>) {
    forall i, j :: 0 <= i < j < |path| ==> path[i] != path[j]
  }

  predicate OnNearEdge(player: Player, c: Cell) {
    if player == Player1 then c.r == 0 else c.q == 0
  }

  predicate OnFarEdge(nrows: nat, player: Player, c: Cell) {
    if player == Player1 then c.r >= nrows - 1 else c.q >= nrows - 1
  }

  ghost predicate IsWinningPath(nrows: nat, board: Board, player: Player, path: seq<Cell>) {
    && path != []
    && IsChain(board, player, path)
    && OnNearEdge(player, path[0])
    && OnFarEdge(nrows, player, path[|path| - 1])
  }

  /** The rules of the game: the player has joined the two edges. */
  ghost predicate Connects(nrows: nat, board: Board, player: Player) {
    exists path :: IsWinningPath(nrows, board, player, path)
  }

  /** The first cell is never compared with the far edge, so the search sees only longer paths. */
  ghost predicate SearchFinds(nrows: nat, board: Board, player: Player) {
    exists path :: IsWinningPath(nrows, board, player, path) && 2 <= |path|
  }

  ghost predicate WellFormedBoard(nrows: nat, board: Board) {
    forall c :: c in board <==> 0 <= c.q < nrows && 0 <= c.r < nrows
  }

  function Occupied(board: Board): set<Cell> {
    set c | c in board && board[c] != Free
  }

  ghost predicate NobodyWon(nrows: nat, board: Board) {
    !SearchFinds(nrows, board, Player1) && !SearchFinds(nrows, board, Player2)
  }

  /** What IsGameOver takes for a full board. */
  predicate CounterSaysFull(nrows: nat, board: Board) {
    |Occupied(board)| % MOVE_LIMIT == nrows * nrows % MOVE_LIMIT
  }

  /** What IsGameOver answers as long as there is no winner from an earlier move. */
  ghost predicate GameOver(nrows: nat, board: Board, current: Player) {
    SearchFinds(nrows, board, current) || CounterSaysFull(nrows, board)
  }

  // ----- the meaning of an exhausted search

  /** Every one of the first k neighbours of c that the player owns has been seen. */
  ghost predicate NeighboursSeen(board: Board, player: Player, seen: set<Cell>, c: Cell, k: nat) {
    forall i :: 0 <= i < k && i < |DIRECTIONS| && Owns(board, player, c.Plus(DIRECTIONS[i]))
      ==> c.Plus(DIRECTIONS[i]) in seen
  }

  /** Nothing more can be found from c: all its neighbours are seen and it is not on the far edge. */
  ghost predicate Exhausted(nrows: nat, board: Board, player: Player, seen: set<Cell>, c: Cell) {
    NeighboursSeen(board, player, seen, c, |DIRECTIONS|) && !OnFarEdge(nrows, player, c)
  }

  /** A chain that starts in a set closed under neighbours never leaves it. */
  lemma {:induction false} ChainStaysInside(board: Board, player: Player, seen: set<Cell>, path: seq<Cell>, k: nat)
    requires IsChain(board, player, path) && k < |path| && path[0] in seen
    requires forall c :: c in seen ==> NeighboursSeen(board, player, seen, c, |DIRECTIONS|)
    ensures path[k] in seen
  {
    if 0 < k {
      ChainStaysInside(board, player, seen, path, k - 1);
      assert Adjacent(path[k - 1], path[k]);
      assert Owns(board, player, path[k]);
    }
  }

  /** Completeness: an exhausted search from `start` rules out every longer path from it. */
  lemma NoPathFrom(nrows: nat, board: Board, player: Player, seen: set<Cell>, start: Cell)
    requires start in seen
    requires forall c :: c in seen ==> NeighboursSeen(board, player, seen, c, |DIRECTIONS|)
    requires forall c :: c in seen && c != start ==> !OnFarEdge(nrows, player, c)
    requires OnFarEdge(nrows, player, start) ==> nrows <= 1
    requires WellFormedBoard(nrows, board)
    ensures forall path :: IsWinningPath(nrows, board, player, path) && 2 <= |path| ==> path[0] != start
  {
    forall path | IsWinningPath(nrows, board, player, path) && 2 <= |path|
      ensures path[0] != start
    {
      if nrows <= 1 {
        OneRowChain(nrows, board, player, path, 1);
      } else if path[0] in seen {
        ChainStaysInside(board, player, seen, path, |path| - 1);
      }
    }
  }

  lemma OneRowHasNoNeighbours(nrows: nat, board: Board, player: Player)
    requires WellFormedBoard(nrows, board) && nrows <= 1
    ensures forall a, b :: Owns(board, player, a) && Owns(board, player, b) ==> !Adjacent(a, b)
  {
  }

  /** So a chain on a board of one row has one cell. */
  lemma OneRowChain(nrows: nat, board: Board, player: Player, path: seq<Cell>, i: nat)
    requires WellFormedBoard(nrows, board) && nrows <= 1 && IsChain(board, player, path)
    ensures !(0 < i < |path| && Owns(board, player, path[i]))
  {
    OneRowHasNoNeighbours(nrows, board, player);
    ChainStep(board, player, path, i);
  }

  lemma ChainStep(board: Board, player: Player, path: seq<Cell>, i: nat)
    requires IsChain(board, player, path)
    ensures 0 < i < |path| ==> Owns(board, player, path[i - 1]) && Adjacent(path[i - 1], path[i])
  {
  }

  /** On every board but the one with a single row, the search agrees with the rules. */
  lemma SearchAgreesWithRules(nrows: nat, board: Board, player: Player)
    requires WellFormedBoard(nrows, board) && player != Free
    ensures SearchFinds(nrows, board, player) <==> Connects(nrows, board, player) && nrows != 1
  {
    if Connects(nrows, board, player) && nrows != 1 {
      var path :| IsWinningPath(nrows, board, player, path);
      assert Owns(board, player, path[0]);
      assert 2 <= |path|;
    }
    if SearchFinds(nrows, board, player) {
      var path :| IsWinningPath(nrows, board, player, path) && 2 <= |path|;
      if nrows == 1 {
        OneRowChain(nrows, board, player, path, 1);
      }
    }
  }

  /** The board of one row: occupying its only cell joins the edges, and the search misses it. */
  lemma SingleCellIsMissed(board: Board, player: Player)
    requires WellFormedBoard(1, board) && player != Free && Owns(board, player, Cell(0, 0))
    ensures Connects(1, board, player) && !SearchFinds(1, board, player)
  {
    assert IsWinningPath(1, board, player, [Cell(0, 0)]);
    SearchAgreesWithRules(1, board, player);
  }

  /** A move by one player neither makes nor breaks a chain of the other. */
  lemma MoveKeepsOther(nrows: nat, board: Board, c: Cell, mover: Player, other: Player)
    requires c in board && board[c] == Free && mover != other && other != Free
    ensures SearchFinds(nrows, board[c := mover], other) <==> SearchFinds(nrows, board, other)
  {
    var board' := board[c := mover];
    assert forall x :: Owns(board', other, x) <==> Owns(board, other, x);
    forall path ensures IsWinningPath(nrows, board', other, path) <==> IsWinningPath(nrows, board, other, path) {
      if IsWinningPath(nrows, board', other, path) {
        assert IsChain(board, other, path);
      }
      if IsWinningPath(nrows, board, other, path) {
        assert IsChain(board', other, path);
      }
    }
  }

  /** A chain survives every later move. */
  lemma MoveKeepsChain(board: Board, c: Cell, mover: Player, player: Player, path: seq<Cell>)
    requires c in board && board[c] == Free && player != Free
    requires IsChain(board, player, path)
    ensures IsChain(board[c := mover], player, path)
  {
    forall i | 0 <= i < |path| ensures Owns(board[c := mover], player, path[i]) {
      assert Owns(board, player, path[i]);
    }
  }

  lemma MoveKeepsFinds(nrows: nat, board: Board, c: Cell, mover: Player, player: Player)
    requires c in board && board[c] == Free && player != Free
    ensures SearchFinds(nrows, board, player) ==> SearchFinds(nrows, board[c := mover], player)
  {
    if SearchFinds(nrows, board, player) {
      var path :| IsWinningPath(nrows, board, player, path) && 2 <= |path|;
      MoveKeepsChain(board, c, mover, player, path);
      assert IsWinningPath(nrows, board[c := mover], player, path);
    }
  }

  lemma OccupiedAfterMove(board: Board, c: Cell, mover: Player)
    requires c in board && board[c] == Free && mover != Free
    ensures |Occupied(board[c := mover])| == |Occupied(board)| + 1
    ensures |Occupied(board[c := mover])| % MOVE_LIMIT == (|Occupied(board)| % MOVE_LIMIT + 1) % MOVE_LIMIT
  {
    assert Occupied(board[c := mover]) == Occupied(board) + {c};
  }

  lemma ChainExtends(board: Board, player: Player, path: seq<Cell>, c: Cell)
    requires IsChain(board, player, path) && path != []
    requires Owns(board, player, c) && Adjacent(path[|path| - 1], c)
    ensures IsChain(board, player, path + [c])
  {
  }

  // ----- the board and its search

  class HexBoard {
    const nrows: nat
    var board: Board
    var movesPlayed: nat
    var winner: Player
    var winnerPath: seq<Cell>
    var evaluated: set<Cell>

    /** What every method relies on, whoever has won. */
    ghost predicate Shape()
      reads this
    {
      && nrows <= MAX_ROWS
      && WellFormedBoard(nrows, board)
      && movesPlayed == |Occupied(board)| % MOVE_LIMIT
    }

    /** The winner is decided exactly when a player has a chain that the search can find. */
    ghost predicate Valid()
      reads this
    {
      && Shape()
      && evaluated == {}
      && (winner == Free <==> !SearchFinds(nrows, board, Player1) && !SearchFinds(nrows, board, Player2))
      && (winner == Free ==> winnerPath == [])
      && (winner != Free ==> IsWinningPath(nrows, board, winner, winnerPath) && NoRepeats(winnerPath))
    }

    constructor (rows: nat)
      requires rows <= MAX_ROWS
      ensures Valid()
      ensures nrows == rows && winner == Free && board == BoardAfter(rows, [])
    {
      hide SearchFinds, IsWinningPath, NoRepeats;
      nrows := rows;
      board := map q, r | 0 <= q < rows && 0 <= r < rows :: Cell(q, r) := Free;
      movesPlayed, winner, winnerPath, evaluated := 0, Free, [], {};
      new;
      assert Occupied(board) == {};
      NoChainOnEmptyBoard();
    }

    lemma NoChainOnEmptyBoard()
      requires Occupied(board) == {}
      ensures !SearchFinds(nrows, board, Player1) && !SearchFinds(nrows, board, Player2)
    {
      forall player: Player, c | player != Free ensures !Owns(board, player, c) {
        assert Owns(board, player, c) ==> c in Occupied(board);
      }
    }

    predicate IsFree(c: Cell)
      reads this
    {
      Owns(board, Free, c)
    }

    predicate HasWinner()
      reads this
    {
      winner != Free
    }

    /** Named as in the source, where it answers whether the moves have run out. */
    predicate HasValidMove()
      reads this
    {
      movesPlayed == nrows * nrows % MOVE_LIMIT
    }

    method SetWinner(player: Player)
      requires !HasWinner()
      modifies this`winner
      ensures winner == player
    {
      winner := player;
    }

    /** What the search has established when it returns with no winner. */
    ghost predicate SearchFailed(player: Player, current: Cell, k: nat, before: set<Cell>)
      reads this
    {
      && before <= evaluated
      && NeighboursSeen(board, player, evaluated, current, k)
      && forall c :: c in evaluated && c !in before ==> Exhausted(nrows, board, player, evaluated, c)
    }

    /** The search's state: the path from the near edge to `current` consists of evaluated cells. */
    ghost predicate Searching(player: Player, current: Cell)
      reads this
    {
      && Shape() && player != Free
      && evaluated <= board.Keys
      && winnerPath != [] && winnerPath[|winnerPath| - 1] == current
      && IsChain(board, player, winnerPath) && NoRepeats(winnerPath)
      && (forall i :: 0 <= i < |winnerPath| ==> winnerPath[i] in evaluated)
    }

    /** The path found: it extends `before` to the far edge. */
    ghost predicate SearchSucceeded(player: Player, before: seq<Cell>)
      reads this
    {
      && winner == player
      && before < winnerPath
      && IsChain(board, player, winnerPath) && NoRepeats(winnerPath)
      && OnFarEdge(nrows, player, winnerPath[|winnerPath| - 1])
    }

    method IsPlayerWinner(current: Cell, player: Player) returns (won: bool)
      requires Searching(player, current) && !HasWinner()
      modifies this`winner, this`winnerPath, this`evaluated
      ensures evaluated <= board.Keys
      ensures won == HasWinner()
      ensures won ==> SearchSucceeded(player, old(winnerPath))
      ensures !won ==> winnerPath == old(winnerPath)
      ensures !won ==> SearchFailed(player, current, |DIRECTIONS|, old(evaluated))
      decreases board.Keys - evaluated, 1
    {
      for k := 0 to |DIRECTIONS|
        invariant Searching(player, current) && !HasWinner()
        invariant winnerPath == old(winnerPath)
        invariant SearchFailed(player, current, k, old(evaluated))
      {
        ghost var before := evaluated;
        var goOn := VisitNeighbor(current, k, player);
        if !goOn {
          return true;
        }
        ExtendFailure(player, current, k, old(evaluated), before);
      }
      return false;
    }

    /** The callback that the search gives to ForEachNeighbor: whether to go on to the next one. */
    method VisitNeighbor(current: Cell, k: nat, player: Player) returns (goOn: bool)
      requires Searching(player, current) && !HasWinner() && k < |DIRECTIONS|
      modifies this`winner, this`winnerPath, this`evaluated
      ensures evaluated <= board.Keys
      ensures goOn == !HasWinner()
      ensures !goOn ==> SearchSucceeded(player, old(winnerPath))
      ensures goOn ==> winnerPath == old(winnerPath)
      ensures goOn ==> old(evaluated) <= evaluated
      ensures goOn && Owns(board, player, current.Plus(DIRECTIONS[k])) ==> current.Plus(DIRECTIONS[k]) in evaluated
      ensures goOn ==>
        forall c :: c in evaluated && c !in old(evaluated) ==> Exhausted(nrows, board, player, evaluated, c)
      decreases board.Keys - evaluated, 0
    {
      var neighbor := current.Plus(DIRECTIONS[k]);
      if neighbor in evaluated {
        return true;
      }
      if neighbor !in board || board[neighbor] != player {
        return true;
      }
      assert Adjacent(current, neighbor);
      ChainExtends(board, player, winnerPath, neighbor);
      winnerPath := winnerPath + [neighbor];
      evaluated := evaluated + {neighbor};
      if OnFarEdge(nrows, player, neighbor) {
        SetWinner(player);
        return false;
      }
      var found := IsPlayerWinner(neighbor, player);
      if !found {
        winnerPath := winnerPath[..|winnerPath| - 1];
        return true;
      }
      return false;
    }

    /** A visit that goes on extends the failed search of `current` by one neighbour. */
    lemma ExtendFailure(player: Player, current: Cell, k: nat, first: set<Cell>, before: set<Cell>)
      requires k < |DIRECTIONS| && first <= before <= evaluated
      requires NeighboursSeen(board, player, before, current, k)
      requires forall c :: c in before && c !in first ==> Exhausted(nrows, board, player, before, c)
      requires Owns(board, player, current.Plus(DIRECTIONS[k])) ==> current.Plus(DIRECTIONS[k]) in evaluated
      requires forall c :: c in evaluated && c !in before ==> Exhausted(nrows, board, player, evaluated, c)
      ensures SearchFailed(player, current, k + 1, first)
    {
    }

    /** The starting cells before the c-th of the near edge. */
    function NearEdgeCell(player: Player, c: nat): Cell {
      if player == Player1 then Cell(c, 0) else Cell(0, c)
    }

    /** No longer path starts at one of the first n cells of the near edge. */
    ghost predicate NoPathFromFirst(player: Player, n: nat)
      reads this
    {
      forall path :: IsWinningPath(nrows, board, player, path) && 2 <= |path|
        ==> forall c :: 0 <= c < n ==> path[0] != NearEdgeCell(player, c)
    }

    lemma NoPathAtAll(player: Player)
      requires Shape() && player != Free && NoPathFromFirst(player, nrows)
      ensures !SearchFinds(nrows, board, player)
    {
      forall path: seq<Cell> | path != []
        ensures !(IsWinningPath(nrows, board, player, path) && 2 <= |path|)
      {
        var c := if player == Player1 then path[0].q else path[0].r;
        assert Owns(board, player, path[0]) && OnNearEdge(player, path[0]) ==>
          0 <= c < nrows && path[0] == NearEdgeCell(player, c);
      }
    }

    /** Searches from one cell of the near edge. */
    method SearchFrom(player: Player, c: nat)
      requires Shape() && player != Free && !HasWinner() && winnerPath == [] && c < nrows
      modifies this`winner, this`winnerPath, this`evaluated
      ensures HasWinner() ==>
        winner == player && IsWinningPath(nrows, board, player, winnerPath) && NoRepeats(winnerPath) && 2 <= |winnerPath|
      ensures !HasWinner() ==> winnerPath == []
      ensures !HasWinner() ==>
        forall path :: IsWinningPath(nrows, board, player, path) && 2 <= |path| ==> path[0] != NearEdgeCell(player, c)
    {
      evaluated := {};
      assert winnerPath == [];
      var start := NearEdgeCell(player, c);
      assert start in board;
      if board[start] != player {
        forall path | IsWinningPath(nrows, board, player, path) && 2 <= |path| ensures path[0] != start {
          assert Owns(board, player, path[0]);
        }
        return;
      }
      winnerPath := winnerPath + [start];
      evaluated := evaluated + {start};
      var found := IsPlayerWinner(start, player);
      if !found {
        NoPathFrom(nrows, board, player, evaluated, start);
        assert |winnerPath| == 1;
        winnerPath := winnerPath[..|winnerPath| - 1];
      }
    }

    /**
      With no earlier winner the search decides the player's case; the answer also says whether
      the moves have run out.
     */
    method IsGameOver(current: Player) returns (over: bool)
      requires Shape() && current != Free && evaluated == {}
      requires !HasWinner() ==> winnerPath == []
      modifies this`winner, this`winnerPath, this`evaluated
      ensures Shape() && evaluated == {}
      ensures old(winner) != Free ==> winner == old(winner) && winnerPath == old(winnerPath) && over
      ensures old(winner) == Free ==>
        && winner == (if SearchFinds(nrows, board, current) then current else Free)
        && (HasWinner() ==> IsWinningPath(nrows, board, current, winnerPath) && NoRepeats(winnerPath))
        && (!HasWinner() ==> winnerPath == [])
        && over == GameOver(nrows, board, current)
    {
      if HasWinner() {
        return true;
      }
      assert winnerPath == [];
      for c := 0 to nrows
        invariant Shape() && !HasWinner() && winnerPath == []
        invariant NoPathFromFirst(current, c)
      {
        SearchFrom(current, c);
        if HasWinner() {
          break;
        }
      }
      if !HasWinner() {
        NoPathAtAll(current);
      }
      evaluated := {};
      if HasWinner() {
        assert winnerPath != [];
        return true;
      }
      assert winnerPath == [];
      return HasValidMove();
    }

    method SetPlayer(c: Cell, player: Player)
      requires Shape() && IsFree(c) && player != Free
      modifies this`board, this`movesPlayed
      ensures Shape()
      ensures board == old(board)[c := player]
    {
      OccupiedAfterMove(board, c, player);
      board := board[c := player];
      movesPlayed := (movesPlayed + 1) % MOVE_LIMIT;
    }

    /** A move on a cell that is not free changes nothing. */
    method PlayerPlayed(c: Cell, player: Player) returns (played: bool)
      requires Valid() && player != Free
      modifies this
      ensures Valid()
      ensures played == old(IsFree(c))
      ensures board == if played then old(board)[c := player] else old(board)
      ensures !played ==> winner == old(winner) && winnerPath == old(winnerPath)
      ensures old(winner) != Free ==> winner == old(winner) && winnerPath == old(winnerPath)
      ensures old(winner) == Free && played ==> winner == (if SearchFinds(nrows, board, player) then player else Free)
    {
      if !IsFree(c) {
        return false;
      }
      ghost var before := board;
      SetPlayer(c, player);
      if winner == Free {
        MoveKeepsOther(nrows, before, c, player, NextPlayer(player));
      } else {
        MoveKeepsChain(before, c, player, winner, winnerPath);
        MoveKeepsFinds(nrows, before, c, player, Player1);
        MoveKeepsFinds(nrows, before, c, player, Player2);
      }
      var over := IsGameOver(player);
      return true;
    }
  }

  /** By the rules, a board of any size but one has a winner exactly when a player connects the edges. */
  lemma WinnerFollowsRules(b: HexBoard)
    requires b.Valid() && b.nrows != 1
    ensures b.winner == Free <==> !Connects(b.nrows, b.board, Player1) && !Connects(b.nrows, b.board, Player2)
    ensures b.winner != Free ==> Connects(b.nrows, b.board, b.winner)
  {
    SearchAgreesWithRules(b.nrows, b.board, Player1);
    SearchAgreesWithRules(b.nrows, b.board, Player2);
  }

  // ----- the rules in coordinates

  /** Two cells are neighbours when they are one step apart along a column, a row or the falling diagonal. */
  lemma NeighboursAreOneApart(a: Cell, b: Cell)
    ensures Adjacent(a, b) <==>
      a != b && -1 <= b.q - a.q <= 1 && -1 <= b.r - a.r <= 1 && -1 <= (b.q - a.q) + (b.r - a.r) <= 1
  {
    var d := Cell(b.q - a.q, b.r - a.r);
    assert b == a.Plus(d);
    if a != b && -1 <= d.q <= 1 && -1 <= d.r <= 1 && -1 <= d.q + d.r <= 1 {
      var k := if d == Cell(1, 0) then 0 else if d == Cell(1, -1) then 1 else if d == Cell(0, -1) then 2
               else if d == Cell(-1, 0) then 3 else if d == Cell(-1, 1) then 4 else 5;
      assert DIRECTIONS[k] == d;
    }
  }

  /** A path over cells of one player, each one step from the one before. */
  ghost predicate IsTrail(board: Board, player: Player, path: seq<Cell>) {
    && path != []
    && (forall i :: 0 <= i < |path| ==> path[i] in board && board[path[i]] == player)
    && (forall i {:trigger path[i]} :: 0 < i < |path| ==>
          var dq, dr := path[i].q - path[i - 1].q, path[i].r - path[i - 1].r;
          (dq != 0 || dr != 0) && -1 <= dq <= 1 && -1 <= dr <= 1 && -1 <= dq + dr <= 1)
  }

  /** Player 1 joins row 0 to the last row, and player 2 joins column 0 to the last column. */
  lemma RulesInCoordinates(nrows: nat, board: Board)
    requires WellFormedBoard(nrows, board)
    ensures Connects(nrows, board, Player1)
      <==> exists path: seq<Cell> :: IsTrail(board, Player1, path) && path[0].r == 0 && path[|path| - 1].r == nrows - 1
    ensures Connects(nrows, board, Player2)
      <==> exists path: seq<Cell> :: IsTrail(board, Player2, path) && path[0].q == 0 && path[|path| - 1].q == nrows - 1
  {
    hide IsTrail, IsChain;
    forall path: seq<Cell> | path != []
      ensures IsTrail(board, Player1, path) && path[0].r == 0 && path[|path| - 1].r == nrows - 1
        <==> IsWinningPath(nrows, board, Player1, path)
      ensures IsTrail(board, Player2, path) && path[0].q == 0 && path[|path| - 1].q == nrows - 1
        <==> IsWinningPath(nrows, board, Player2, path)
    {
      TrailIsChain(board, Player1, path);
      TrailIsChain(board, Player2, path);
      LastIsOnBoard(nrows, board, Player1, path);
      LastIsOnBoard(nrows, board, Player2, path);
    }
    TrailNotEmpty(board);
  }

  lemma LastIsOnBoard(nrows: nat, board: Board, player: Player, path: seq<Cell>)
    requires WellFormedBoard(nrows, board) && path != []
    ensures IsChain(board, player, path) ==> path[|path| - 1].q < nrows && path[|path| - 1].r < nrows
  {
    assert IsChain(board, player, path) ==> Owns(board, player, path[|path| - 1]);
  }

  lemma TrailNotEmpty(board: Board)
    ensures !IsTrail(board, Player1, []) && !IsTrail(board, Player2, [])
  {
  }

  lemma TrailIsChain(board: Board, player: Player, path: seq<Cell>)
    requires path != []
    ensures IsTrail(board, player, path) <==> IsChain(board, player, path)
  {
    hide Adjacent;
    forall i | 0 < i < |path|
      ensures var dq, dr := path[i].q - path[i - 1].q, path[i].r - path[i - 1].r;
        Adjacent(path[i - 1], path[i])
        <==> (dq != 0 || dr != 0) && -1 <= dq <= 1 && -1 <= dr <= 1 && -1 <= dq + dr <= 1
    {
      NeighboursAreOneApart(path[i - 1], path[i]);
    }
  }

  // ----- whole games

  datatype Move = Move(cell: Cell, player: Player)

  /** The board after some moves; a move on a cell that is not free is ignored. */
  function BoardAfter(rows: nat, moves: seq<Move>): Board {
    if moves == [] then map q, r | 0 <= q < rows && 0 <= r < rows :: Cell(q, r) := Free
    else
      var board, move := BoardAfter(rows, moves[..|moves| - 1]), moves[|moves| - 1];
      if Owns(board, Free, move.cell) then board[move.cell := move.player] else board
  }

  /** By the rules: the player whose move first connects that player's edges. */
  ghost function FirstToConnect(rows: nat, moves: seq<Move>): Player {
    if moves == [] then Free
    else
      var earlier, move := FirstToConnect(rows, moves[..|moves| - 1]), moves[|moves| - 1];
      var before, after := BoardAfter(rows, moves[..|moves| - 1]), BoardAfter(rows, moves);
      if earlier == Free && after != before && Connects(rows, after, move.player) then move.player else earlier
  }

  /** Every game on more than one row, played to any point, has the winner that the rules say. */
  method Play(rows: nat, moves: seq<Move>) returns (winner: Player)
    requires rows <= MAX_ROWS && rows != 1 && forall i :: 0 <= i < |moves| ==> moves[i].player != Free
    ensures winner == FirstToConnect(rows, moves)
  {
    hide Connects, SearchFinds, WellFormedBoard;
    var board := new HexBoard(rows);
    for n := 0 to |moves|
      invariant board.Valid() && board.nrows == rows
      invariant board.board == BoardAfter(rows, moves[..n]) && board.winner == FirstToConnect(rows, moves[..n])
    {
      assert moves[..n + 1][..n] == moves[..n] && moves[..n + 1][n] == moves[n];
      var played := board.PlayerPlayed(moves[n].cell, moves[n].player);
      SearchAgreesWithRules(rows, board.board, moves[n].player);
    }
    assert moves[..|moves|] == moves;
    winner := board.winner;
  }

  // ----- when the moves run out

  function Grid(cols: nat, rows: nat): set<Cell> {
    set q, r | 0 <= q < cols && 0 <= r < rows :: Cell(q, r)
  }

  function Row(cols: nat, row: nat): set<Cell> {
    set q | 0 <= q < cols :: Cell(q, row)
  }

  lemma {:induction false} RowSize(cols: nat, row: nat)
    ensures |Row(cols, row)| == cols
  {
    if 0 < cols {
      RowSize(cols - 1, row);
      assert Row(cols, row) == Row(cols - 1, row) + {Cell(cols - 1, row)};
    }
  }

  lemma {:induction false} GridSize(cols: nat, rows: nat)
    ensures |Grid(cols, rows)| == cols * rows
  {
    if rows == 0 {
      assert Grid(cols, rows) == {};
    } else {
      GridSize(cols, rows - 1);
      RowSize(cols, rows - 1);
      assert Grid(cols, rows) == Grid(cols, rows - 1) + Row(cols, rows - 1);
      assert Grid(cols, rows - 1) !! Row(cols, rows - 1);
      assert cols * rows == cols * (rows - 1) + cols;
    }
  }

  lemma CounterIsExact(nrows: nat, board: Board)
    requires WellFormedBoard(nrows, board) && nrows <= 255
    ensures CounterSaysFull(nrows, board) <==> Occupied(board) == board.Keys
  {
    assert board.Keys == Grid(nrows, nrows);
    GridSize(nrows, nrows);
    SquareBound(nrows);
    SubsetSize(Occupied(board), board.Keys);
  }

  lemma SquareBound(n: nat)
    requires n <= 255
    ensures 0 <= n * n < MOVE_LIMIT
  {
    assert n * n <= 255 * n;
  }

  lemma SubsetSize(small: set<Cell>, big: set<Cell>)
    requires small <= big
    ensures |small| <= |big|
    ensures |small| == |big| <==> small == big
  {
    assert |big| == |small| + |big - small|;
  }

  lemma WrapOnce(n: int)
    ensures (n - MOVE_LIMIT) % MOVE_LIMIT == n % MOVE_LIMIT
  {
  }

  // ----- a game on 256 rows or more whose counter has wrapped

  /** Player 1 takes the cells from place `start` up to `stop`, row by row. */
  function RowByRow(rows: nat, start: nat, stop: nat): seq<Move>
    requires 0 < rows
    decreases stop
  {
    if stop <= start then []
    else RowByRow(rows, start, stop - 1) + [Move(Cell((stop - 1) % rows, (stop - 1) / rows), Player1)]
  }

  function Place(rows: nat, c: Cell): int {
    rows * c.r + c.q
  }

  /** The cells from place `start` up to `stop` are player 1's, and the others are free. */
  ghost predicate Taken(rows: nat, board: Board, start: nat, stop: nat) {
    && WellFormedBoard(rows, board)
    && forall c :: c in board ==> board[c] == if start <= Place(rows, c) < stop then Player1 else Free
  }

  lemma CellAtPlace(rows: nat, i: nat, c: Cell)
    requires 0 < rows && 0 <= c.q < rows
    ensures Place(rows, c) == i <==> c == Cell(i % rows, i / rows)
  {
    if Place(rows, c) == i {
      Bits.ModIs(i, rows, c.r, c.q);
      Bits.QuotientIs(i, rows, c.r, c.q);
    }
  }

  lemma PlaceOnBoard(rows: nat, i: nat)
    requires 0 < rows && i < rows * rows
    ensures 0 <= i % rows < rows && 0 <= i / rows < rows
  {
    var r := i / rows;
    assert i == rows * r + i % rows;
    if rows <= r {
      Bits.MultipleIsLarge(rows, r - rows + 1);
      Bits.Distribute(rows, rows, r - rows);
      Bits.Distribute(rows, r - rows, 1);
    }
  }

  lemma {:induction false} RowByRowTakes(rows: nat, start: nat, stop: nat)
    requires 0 < rows && start <= stop <= rows * rows
    ensures var board := BoardAfter(rows, RowByRow(rows, start, stop));
      Taken(rows, board, start, stop) && |Occupied(board)| == stop - start
    decreases stop
  {
    hide BoardAfter, Taken, Occupied, Place;
    if stop == start {
      NothingTaken(rows, start);
    } else {
      var i := stop - 1;
      var c := Cell(i % rows, i / rows);
      RowByRowTakes(rows, start, i);
      PlaceOnBoard(rows, i);
      CellAtPlace(rows, i, c);
      AfterOneMore(rows, RowByRow(rows, start, i), Move(c, Player1));
      OneMoreTaken(rows, BoardAfter(rows, RowByRow(rows, start, i)), start, i, c);
    }
  }

  lemma NothingTaken(rows: nat, start: nat)
    ensures Taken(rows, BoardAfter(rows, []), start, start) && Occupied(BoardAfter(rows, [])) == {}
  {
  }

  lemma AfterOneMore(rows: nat, moves: seq<Move>, move: Move)
    ensures BoardAfter(rows, moves + [move])
         == if Owns(BoardAfter(rows, moves), Free, move.cell) then BoardAfter(rows, moves)[move.cell := move.player]
            else BoardAfter(rows, moves)
  {
    assert (moves + [move])[..|moves|] == moves;
  }

  lemma OneMoreTaken(rows: nat, board: Board, start: nat, i: nat, c: Cell)
    requires 0 < rows && start <= i && Taken(rows, board, start, i)
    requires c == Cell(i % rows, i / rows) && 0 <= c.q < rows && 0 <= c.r < rows && Place(rows, c) == i
    ensures Owns(board, Free, c) && Taken(rows, board[c := Player1], start, i + 1)
    ensures |Occupied(board[c := Player1])| == |Occupied(board)| + 1
  {
    hide Place;
    forall d | d in board ensures Place(rows, d) == i <==> d == c {
      CellAtPlace(rows, i, d);
    }
    assert Occupied(board[c := Player1]) == Occupied(board) + {c};
  }

  /** Nobody has won and the board is not full, and yet the counter has come round. */
  lemma CounterWraps(rows: nat)
    requires 256 <= rows <= MAX_ROWS
    ensures MOVE_LIMIT <= rows * rows
    ensures var board := BoardAfter(rows, RowByRow(rows, MOVE_LIMIT, rows * rows));
      && NobodyWon(rows, board) && CounterSaysFull(rows, board) && Occupied(board) != board.Keys
  {
    SquareAtLeast(rows);
    RowByRowTakes(rows, MOVE_LIMIT, rows * rows);
    var board := BoardAfter(rows, RowByRow(rows, MOVE_LIMIT, rows * rows));
    WrapOnce(rows * rows);
    assert Cell(0, 0) in board && Place(rows, Cell(0, 0)) == 0;
    FirstRowIsFree(rows, board);
  }

  lemma SquareAtLeast(n: nat)
    requires 256 <= n
    ensures MOVE_LIMIT <= n * n
  {
    assert 256 * n <= n * n;
  }

  lemma FirstRowIsFree(rows: nat, board: Board)
    requires rows <= MAX_ROWS && Taken(rows, board, MOVE_LIMIT, rows * rows)
    ensures NobodyWon(rows, board)
  {
    forall c | c in board && c.r == 0 ensures !Owns(board, Player1, c) {
      assert Place(rows, c) == c.q;
    }
    forall path ensures !IsWinningPath(rows, board, Player1, path) && !IsWinningPath(rows, board, Player2, path) {
      if path != [] {
        assert IsChain(board, Player1, path) ==> Owns(board, Player1, path[0]);
        assert IsChain(board, Player2, path) ==> Owns(board, Player2, path[0]);
      }
    }
  }

  lemma {:induction false} BoardAfterIsBoard(rows: nat, moves: seq<Move>)
    ensures WellFormedBoard(rows, BoardAfter(rows, moves))
    decreases |moves|
  {
    if moves != [] {
      BoardAfterIsBoard(rows, moves[..|moves| - 1]);
    }
  }

  /**
    As long as nobody has won, IsGameOver says that the board is full; in all games it says so rightly exactly up to
    255 rows.
   */
  lemma GameOverMeansFullUpTo255(rows: nat)
    requires rows <= MAX_ROWS
    ensures (forall moves, current :: current != Free && NobodyWon(rows, BoardAfter(rows, moves)) ==>
               var board := BoardAfter(rows, moves);
               GameOver(rows, board, current) <==> Occupied(board) == board.Keys)
      <==> rows <= 255
  {
    if rows <= 255 {
      forall moves, current | current != Free && NobodyWon(rows, BoardAfter(rows, moves))
        ensures var board := BoardAfter(rows, moves);
          GameOver(rows, board, current) <==> Occupied(board) == board.Keys
      {
        BoardAfterIsBoard(rows, moves);
        CounterIsExact(rows, BoardAfter(rows, moves));
      }
    } else {
      CounterWraps(rows);
      var moves := RowByRow(rows, MOVE_LIMIT, rows * rows);
      assert GameOver(rows, BoardAfter(rows, moves), Player1);
    }
  }

  /** On 256 rows the game is over before the first move. */
  lemma EmptyBoardIsOver(current: Player)
    requires current != Free
    ensures GameOver(256, BoardAfter(256, []), current) && NobodyWon(256, BoardAfter(256, []))
  {
    CounterWraps(256);
    assert RowByRow(256, MOVE_LIMIT, MOVE_LIMIT) == [];
  }
}
