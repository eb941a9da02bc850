/**
 * The 3x3 board: cells, the eight winning lines scanned in a fixed order,
 * the ascending list of empty cells, and the `Board` object whose cells
 * are updated in place.
 */
module TicTacToe {
  import opened Wrappers

  /** A cell is empty, held by the human (Z) or held by the computer (K). */
  datatype Cell = Empty | Z | K

  /** A board position, 0..8, row-major. */
  type Pos = p: nat | p < 9

  /** The nine cells of a board. */
  type Grid = b: seq<Cell> | |b| == 9 witness [Empty, Empty, Empty, Empty, Empty, Empty, Empty, Empty, Empty]

  const InitialGrid: Grid := [Empty, Empty, Empty, Empty, Empty, Empty, Empty, Empty, Empty]

  /** The winning lines in scan order: rows, then columns, then diagonals. */
  const Lines: seq<(Pos, Pos, Pos)> := [
    (0, 1, 2), (3, 4, 5), (6, 7, 8),
    (0, 3, 6), (1, 4, 7), (2, 5, 8),
    (0, 4, 8), (2, 4, 6)
  ]

  /** Line `k` holds three equal non-Empty cells. */
  predicate LineWon(b: Grid, k: nat)
    requires k < |Lines|
  {
    var (x, y, z) := Lines[k];
    b[x] != Empty && b[x] == b[y] && b[y] == b[z]
  }

  /** The owner of the first won line among lines k.., if any. */
  function WinnerFrom(b: Grid, k: nat): (r: Option<Cell>)
    requires k <= |Lines|
    decreases |Lines| - k
    ensures r != Some(Empty)
  {
    if k == |Lines| then None
    else if LineWon(b, k) then Some(b[Lines[k].0])
    else WinnerFrom(b, k + 1)
  }

  /** The scan finds nothing exactly when no line is won, and otherwise reports the first won line's owner. */
  lemma {:induction false} WinnerFromSpec(b: Grid, k: nat)
    requires k <= |Lines|
    decreases |Lines| - k
    ensures WinnerFrom(b, k) == None <==> forall j :: k <= j < |Lines| ==> !LineWon(b, j)
    ensures WinnerFrom(b, k).Some? ==>
              exists j :: k <= j < |Lines| && LineWon(b, j) && WinnerFrom(b, k).value == b[Lines[j].0] &&
                          forall i :: k <= i < j ==> !LineWon(b, i)
  {
    if k < |Lines| {
      WinnerFromSpec(b, k + 1);
      if LineWon(b, k) {
        assert WinnerFrom(b, k) == Some(b[Lines[k].0]);
      } else {
        assert WinnerFrom(b, k) == WinnerFrom(b, k + 1);
      }
    }
  }

  /** The owner of the first won line in table order, or None. */
  function Winner(b: Grid): Option<Cell> {
    WinnerFrom(b, 0)
  }

  /** The indices k.. whose cell is Empty, ascending. */
  function EmptyFrom(b: seq<Cell>, k: nat): seq<nat>
    requires k <= |b|
    decreases |b| - k
  {
    if k == |b| then []
    else if b[k] == Empty then [k] + EmptyFrom(b, k + 1)
    else EmptyFrom(b, k + 1)
  }

  /** Exactly the Empty indices from k on are listed, each in range, strictly ascending. */
  lemma {:induction false} EmptyFromSpec(b: seq<Cell>, k: nat)
    requires k <= |b|
    decreases |b| - k
    ensures forall i :: i in EmptyFrom(b, k) <==> k <= i < |b| && b[i] == Empty
    ensures forall i :: 0 <= i < |EmptyFrom(b, k)| ==> k <= EmptyFrom(b, k)[i] < |b| && b[EmptyFrom(b, k)[i]] == Empty
    ensures forall i, j :: 0 <= i < j < |EmptyFrom(b, k)| ==> EmptyFrom(b, k)[i] < EmptyFrom(b, k)[j]
  {
    if k < |b| {
      EmptyFromSpec(b, k + 1);
    }
  }

  /** The indices whose cell is Empty, ascending. */
  function EmptyCells(b: seq<Cell>): seq<nat> {
    EmptyFrom(b, 0)
  }

  /** No cell is Empty. */
  predicate Full(b: seq<Cell>) {
    forall i :: 0 <= i < |b| ==> b[i] != Empty
  }

  /** A board is full exactly when it has no empty cell to list. */
  lemma FullIffNoEmptyCells(b: seq<Cell>)
    ensures Full(b) <==> EmptyCells(b) == []
  {
    if !Full(b) {
      var i :| 0 <= i < |b| && b[i] == Empty;
      EmptyFromSpec(b, 0);
      assert i in EmptyCells(b);
    } else {
      EmptyFromFull(b, 0);
    }
  }

  lemma {:induction false} EmptyFromFull(b: seq<Cell>, k: nat)
    requires k <= |b| && Full(b)
    decreases |b| - k
    ensures EmptyFrom(b, k) == []
  {
    if k < |b| {
      EmptyFromFull(b, k + 1);
    }
  }

  /** Taking an empty cell removes exactly one entry from the empty list. */
  lemma {:induction false} EmptyFromPlace(b: seq<Cell>, p: nat, c: Cell, k: nat)
    requires p < |b| && b[p] == Empty && c != Empty && k <= |b|
    decreases |b| - k
    ensures |EmptyFrom(b[p := c], k)| == if k <= p then |EmptyFrom(b, k)| - 1 else |EmptyFrom(b, k)|
  {
    if k < |b| {
      EmptyFromPlace(b, p, c, k + 1);
    }
  }

  /** Marking an Empty cell makes the empty list one entry shorter. */
  lemma EmptyCellsPlace(b: seq<Cell>, p: nat, c: Cell)
    requires p < |b| && b[p] == Empty && c != Empty
    ensures |EmptyCells(b[p := c])| == |EmptyCells(b)| - 1
  {
    EmptyFromPlace(b, p, c, 0);
  }

  /** Marking an Empty cell takes exactly that index out of the empty list and keeps the others. */
  lemma EmptyCellsPlaceMembers(b: seq<Cell>, p: nat, c: Cell)
    requires p < |b| && b[p] == Empty && c != Empty
    ensures forall i :: i in EmptyCells(b[p := c]) <==> i in EmptyCells(b) && i != p
  {
    EmptyFromSpec(b, 0);
    EmptyFromSpec(b[p := c], 0);
  }

  /** On an all-Empty board every index from k on is listed. */
  lemma {:induction false} EmptyFromAllEmpty(b: seq<Cell>, k: nat)
    requires k <= |b| && forall i :: 0 <= i < |b| ==> b[i] == Empty
    decreases |b| - k
    ensures |EmptyFrom(b, k)| == |b| - k
  {
    if k < |b| {
      EmptyFromAllEmpty(b, k + 1);
    }
  }

  /** The fresh board has no winner. */
  lemma InitialNoWinner()
    ensures Winner(InitialGrid) == None
  {
    forall j | 0 <= j < |Lines|
      ensures !LineWon(InitialGrid, j)
    {
      var x := Lines[j].0;
      assert InitialGrid[x] == Empty;
    }
    WinnerFromSpec(InitialGrid, 0);
  }

  /** The fresh board has nine empty cells. */
  lemma InitialEmptyCount()
    ensures |EmptyCells(InitialGrid)| == 9
  {
    EmptyFromAllEmpty(InitialGrid, 0);
  }

  /**
   * On a board without a winner, a move can only create lines owned by
   * the mover: the winner afterwards is none or the mover.
   */
  lemma WinnerAfterPlace(b: Grid, p: Pos, c: Cell)
    requires Winner(b) == None && b[p] == Empty && c != Empty
    ensures Winner(b[p := c]) == None || Winner(b[p := c]) == Some(c)
  {
    var b' := b[p := c];
    WinnerFromSpec(b, 0);
    WinnerFromSpec(b', 0);
    if Winner(b').Some? {
      var j :| 0 <= j < |Lines| && LineWon(b', j) && Winner(b').value == b'[Lines[j].0];
      assert !LineWon(b, j);
    }
  }

  /** The board object: nine cells updated in place. */
  class Board {
    const cells: array<Cell>

    predicate Valid() {
      cells.Length == 9
    }

    constructor ()
      ensures Valid() && fresh(cells)
      ensures cells[..] == InitialGrid
    {
      cells := new Cell[9](_ => Empty);
    }

    /** Marks `position` for `player` iff it is on the board and Empty. */
    method MakeMove(position: nat, player: Cell) returns (ok: bool)
      requires Valid()
      modifies cells
      ensures ok <==> position < 9 && old(cells[..])[position] == Empty
      ensures cells[..] == if ok then old(cells[..])[position := player] else old(cells[..])
    {
      if position < 9 && cells[position] == Empty {
        cells[position] := player;
        ok := true;
      } else {
        ok := false;
      }
    }

    /** The indices of the Empty cells, each listed once, in ascending order. */
    function GetEmptyCells(): (r: seq<nat>)
      requires Valid()
      reads cells
      ensures forall i :: i in r <==> 0 <= i < 9 && cells[i] == Empty
      ensures forall i, j :: 0 <= i < j < |r| ==> r[i] < r[j]
    {
      EmptyFromSpec(cells[..], 0);
      EmptyCells(cells[..])
    }

    /** The board is full exactly when there is no empty cell to list. */
    function IsFull(): (r: bool)
      requires Valid()
      reads cells
      ensures r <==> EmptyCells(cells[..]) == []
    {
      FullIffNoEmptyCells(cells[..]);
      Full(cells[..])
    }

    /** None exactly when no line is won; otherwise the owner of the first won line in table order. */
    function CheckWinner(): (r: Option<Cell>)
      requires Valid()
      reads cells
      ensures r == None <==> forall j :: 0 <= j < |Lines| ==> !LineWon(cells[..], j)
      ensures r.Some? ==>
                exists j :: 0 <= j < |Lines| && LineWon(cells[..], j) && r.value == cells[Lines[j].0] &&
                            forall i :: 0 <= i < j ==> !LineWon(cells[..], i)
    {
      WinnerFromSpec(cells[..], 0);
      Winner(cells[..])
    }
  }
}
