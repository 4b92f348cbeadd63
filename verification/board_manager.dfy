/**
 * The board engine: a w x h board of tiles (empty, bomb or radar), which
 * cells the player has discovered, the player's flags, and two hint grids
 * counting the bombs and the radars around every cell. Stepping on a tile
 * reveals it, ends the game on a bomb, and flood-reveals a cave of zero-hint
 * cells together with the ring of cells around it.
 */
module Board {
  import opened DFS

  const BoardEmpty := 0
  const BoardBomb := 1
  const BoardRadar := 2

  /** A value, or the IllegalArgumentException the engine throws instead. */
  datatype Result<T> = Ok(value: T) | IllegalArgument(message: string)

  // ---------------------------------------------------------------------
  // Hints
  // ---------------------------------------------------------------------

  predicate AllInBounds(board: array2<int>, cells: seq<Cell>)
  {
    forall c :: c in cells ==> InBounds(c, board.Length0, board.Length1)
  }

  /** How many of cells hold value, counting repeated cells again. */
  function CountIn(board: array2<int>, cells: seq<Cell>, value: int): (n: nat)
    reads board
    requires AllInBounds(board, cells)
    ensures n <= |cells|
  {
    if cells == [] then 0
    else
      var last := cells[|cells| - 1];
      assert last in cells;
      CountIn(board, cells[..|cells| - 1], value) + (if board[last.x, last.y] == value then 1 else 0)
  }

  /** The cells of s that hold value. */
  ghost function HoldingIn(board: array2<int>, s: seq<Cell>, value: int): set<Cell>
    reads board
    requires AllInBounds(board, s)
  {
    set n | n in s && board[n.x, n.y] == value
  }

  lemma {:induction false} CountInIsCardinality(board: array2<int>, s: seq<Cell>, value: int)
    requires AllInBounds(board, s) && Distinct(s)
    ensures CountIn(board, s, value) == |HoldingIn(board, s, value)|
  {
    if s != [] {
      var init, last := s[..|s| - 1], s[|s| - 1];
      DistinctInit(s);
      CountInIsCardinality(board, init, value);
      HoldingInSnoc(board, s, value);
    }
  }

  lemma DistinctInit(s: seq<Cell>)
    requires Distinct(s) && s != []
    ensures Distinct(s[..|s| - 1]) && s[|s| - 1] !in s[..|s| - 1]
  {
    var init := s[..|s| - 1];
    forall i, j | 0 <= i < j < |init| ensures init[i] != init[j] {
      assert init[i] == s[i] && init[j] == s[j];
    }
  }

  lemma HoldingInSnoc(board: array2<int>, s: seq<Cell>, value: int)
    requires AllInBounds(board, s) && s != []
    ensures s[|s| - 1] in s
    ensures var last := s[|s| - 1];
            HoldingIn(board, s, value) ==
              HoldingIn(board, s[..|s| - 1], value) + (if board[last.x, last.y] == value then {last} else {})
  {
    assert s == s[..|s| - 1] + [s[|s| - 1]];
  }

  /** The cells around c, on the board, that hold value. */
  ghost function AdjacentHolding(board: array2<int>, c: Cell, value: int): set<Cell>
    reads board
  {
    set i, j | c.x - 1 <= i <= c.x + 1 && c.y - 1 <= j <= c.y + 1
               && InBounds(Cell(i, j), board.Length0, board.Length1)
               && Adjacent(c, Cell(i, j)) && board[i, j] == value
      :: Cell(i, j)
  }

  /**
   * Counting the neighbour list, as createHints does, counts exactly the
   * adjacent cells that hold value.
   */
  lemma CountingFindsAdjacent(board: array2<int>, c: Cell, value: int)
    requires InBounds(c, board.Length0, board.Length1)
    ensures CountIn(board, Neighbors(c, board.Length0, board.Length1), value) == |AdjacentHolding(board, c, value)|
  {
    var ns := Neighbors(c, board.Length0, board.Length1);
    NeighborsAreAdjacent(c, board.Length0, board.Length1);
    CountInIsCardinality(board, ns, value);
    assert HoldingIn(board, ns, value) == AdjacentHolding(board, c, value);
  }

  /**
   * The hint of a cell: 0 on a cell holding value, else the number of
   * adjacent cells holding value.
   */
  ghost function HintAt(board: array2<int>, c: Cell, value: int): (hint: int)
    reads board
    requires InBounds(c, board.Length0, board.Length1)
    ensures 0 <= hint <= 8
  {
    CountingFindsAdjacent(board, c, value);
    if board[c.x, c.y] == value then 0 else |AdjacentHolding(board, c, value)|
  }

  /** A cell without bombs around it and without a bomb on it has no bomb next to it. */
  lemma ZeroHintHasNoBombNeighbor(board: array2<int>, c: Cell, n: Cell)
    requires InBounds(c, board.Length0, board.Length1) && InBounds(n, board.Length0, board.Length1)
    requires Adjacent(c, n) && board[c.x, c.y] != BoardBomb && HintAt(board, c, BoardBomb) == 0
    ensures board[n.x, n.y] != BoardBomb
  {
    var bombs := AdjacentHolding(board, c, BoardBomb);
    assert bombs == {};
    assert n !in bombs;
  }

  /** hints holds createHints(board, value). */
  ghost predicate IsHintGrid(board: array2<int>, hints: array2<int>, value: int)
    reads board, hints
  {
    && hints.Length0 == board.Length0 && hints.Length1 == board.Length1
    && forall i, j {:trigger HintAt(board, Cell(i, j), value)} ::
         0 <= i < board.Length0 && 0 <= j < board.Length1 ==> hints[i, j] == HintAt(board, Cell(i, j), value)
  }

  // ---------------------------------------------------------------------
  // The revealed ring around a cave
  // ---------------------------------------------------------------------

  /** d is c or one of its eight neighbours. */
  predicate Near(d: Cell, c: Cell)
  {
    -1 <= d.x - c.x <= 1 && -1 <= d.y - c.y <= 1
  }

  /** c is a cell of r or touches one. */
  ghost predicate Covered(r: seq<Cell>, c: Cell)
  {
    exists d :: d in r && Near(d, c)
  }

  /** A zero-hint cell in the ring around a zero cave belongs to the cave. */
  lemma CoveredZeroIsInCave(hints: array2<int>, start: Cell, r: seq<Cell>, c: Cell)
    requires IsCave(hints, start, 0, r) && Covered(r, c) && Matches(hints, c, 0)
    ensures c in r
  {
    var d :| d in r && Near(d, c);
    if d != c {
      var k :| 0 <= k < |r| && r[k] == d;
      assert Adjacent(r[k], c);
    }
  }

  /**
   * A zero cave that starts on a cell without a bomb, in a hint grid built
   * from the board, holds no bomb and has no bomb around it.
   */
  lemma {:induction false} CaveIsSafe(board: array2<int>, hints: array2<int>, start: Cell, r: seq<Cell>)
    requires IsHintGrid(board, hints, BoardBomb)
    requires InBounds(start, board.Length0, board.Length1) && board[start.x, start.y] != BoardBomb
    requires IsCave(hints, start, 0, r)
    ensures forall c :: InBounds(c, board.Length0, board.Length1) && Covered(r, c) ==>
              board[c.x, c.y] != BoardBomb
  {
    forall c | InBounds(c, board.Length0, board.Length1) && Covered(r, c)
      ensures board[c.x, c.y] != BoardBomb
    {
      var d :| d in r && Near(d, c);
      var k :| 0 <= k < |r| && r[k] == d;
      CaveCellIsSafe(board, hints, start, r, k);
      if d != c {
        ZeroHintHasNoBombNeighbor(board, d, c);
      }
    }
  }

  lemma {:induction false} CaveCellIsSafe(board: array2<int>, hints: array2<int>, start: Cell, r: seq<Cell>, k: nat)
    requires IsHintGrid(board, hints, BoardBomb)
    requires InBounds(start, board.Length0, board.Length1) && board[start.x, start.y] != BoardBomb
    requires IsCave(hints, start, 0, r) && k < |r|
    ensures board[r[k].x, r[k].y] != BoardBomb
    decreases k
  {
    if k > 0 {
      assert TouchesEarlier(r, k);
      var j :| 0 <= j < k && Adjacent(r[j], r[k]);
      CaveCellIsSafe(board, hints, start, r, j);
      assert Matches(hints, r[j], 0);
      ZeroHintHasNoBombNeighbor(board, r[j], r[k]);
    }
  }

  // ---------------------------------------------------------------------
  // Counting cells
  // ---------------------------------------------------------------------

  /** Row i of a grid with cols columns. */
  ghost function Row(i: int, cols: int): set<Cell>
  {
    set j | 0 <= j < cols :: Cell(i, j)
  }

  lemma {:induction false} RowSize(i: int, cols: nat)
    ensures |Row(i, cols)| == cols
  {
    if cols > 0 {
      RowSize(i, cols - 1);
      RowSnoc(i, cols);
    } else {
      assert Row(i, cols) == {};
    }
  }

  lemma RowSnoc(i: int, cols: nat)
    requires cols > 0
    ensures Row(i, cols) == Row(i, cols - 1) + {Cell(i, cols - 1)}
  {
    forall c | c in Row(i, cols)
      ensures c in Row(i, cols - 1) + {Cell(i, cols - 1)}
    {
      var j :| 0 <= j < cols && c == Cell(i, j);
      if j < cols - 1 {
        assert c in Row(i, cols - 1);
      }
    }
    forall c | c in Row(i, cols - 1)
      ensures c in Row(i, cols)
    {
      var j :| 0 <= j < cols - 1 && c == Cell(i, j);
    }
    assert Cell(i, cols - 1) in Row(i, cols);
  }

  /** A rows x cols grid has rows * cols cells. */
  lemma {:induction false} RectSize(rows: nat, cols: nat)
    ensures |Rect(rows, cols)| == rows * cols
  {
    if rows > 0 {
      RectSize(rows - 1, cols);
      RowSize(rows - 1, cols);
      RectSplit(rows, cols);
      MulStep(rows - 1, cols);
    } else {
      assert Rect(rows, cols) == {};
    }
  }

  lemma RectSplit(rows: nat, cols: nat)
    requires rows > 0
    ensures Rect(rows, cols) == Rect(rows - 1, cols) + Row(rows - 1, cols)
    ensures Rect(rows - 1, cols) !! Row(rows - 1, cols)
  {
    forall c | c in Rect(rows, cols)
      ensures c in Rect(rows - 1, cols) + Row(rows - 1, cols)
    {
      var i, j :| 0 <= i < rows && 0 <= j < cols && c == Cell(i, j);
      if i < rows - 1 {
        assert c in Rect(rows - 1, cols);
      } else {
        assert c in Row(rows - 1, cols);
      }
    }
    forall c | c in Rect(rows - 1, cols) + Row(rows - 1, cols)
      ensures c in Rect(rows, cols)
    {
      if c in Row(rows - 1, cols) {
        var j :| 0 <= j < cols && c == Cell(rows - 1, j);
      } else {
        var i, j :| 0 <= i < rows - 1 && 0 <= j < cols && c == Cell(i, j);
      }
    }
    forall c | c in Row(rows - 1, cols)
      ensures c.x == rows - 1
    {
      var j :| 0 <= j < cols && c == Cell(rows - 1, j);
    }
    forall c | c in Rect(rows - 1, cols)
      ensures c.x < rows - 1
    {
      var i, j :| 0 <= i < rows - 1 && 0 <= j < cols && c == Cell(i, j);
    }
  }

  lemma MulStep(a: nat, b: nat)
    ensures (a + 1) * b == a * b + b
  {
  }

  /** The cells of the board that hold val. */
  ghost function CellsHolding(board: array2<int>, val: int): set<Cell>
    reads board
  {
    set i, j | 0 <= i < board.Length0 && 0 <= j < board.Length1 && board[i, j] == val :: Cell(i, j)
  }

  /** On a board where no cell holds val, every cell is free for it. */
  lemma NoneHolding(board: array2<int>, val: int)
    requires forall i, j :: 0 <= i < board.Length0 && 0 <= j < board.Length1 ==> board[i, j] != val
    ensures CellsHolding(board, val) == {}
    ensures |CellsNotHolding(board, val)| == board.Length0 * board.Length1
  {
    RectSize(board.Length0, board.Length1);
    assert CellsNotHolding(board, val) == Rect(board.Length0, board.Length1);
  }

  /** The cells of the board that do not hold val: where randomFill may place it. */
  function CellsNotHolding(board: array2<int>, val: int): set<Cell>
    reads board
  {
    set i, j | 0 <= i < board.Length0 && 0 <= j < board.Length1 && board[i, j] != val :: Cell(i, j)
  }

  // ---------------------------------------------------------------------
  // The engine
  // ---------------------------------------------------------------------

  class BoardManager {
    const w: int
    const h: int
    const board: array2<int>
    const discovered: array2<bool>
    const flags: array2<int>
    const bombHints: array2<int>
    const powerHints: array2<int>
    /** How many bombs the constructor places; a quarter as many radars follow. */
    const bombCount: int

    /** The shape of the state, and the hint grids computed from the board. */
    ghost predicate Wf()
      reads this, board, bombHints, powerHints, flags
    {
      && w >= 1 && h >= 1
      && board.Length0 == w && board.Length1 == h
      && discovered.Length0 == w && discovered.Length1 == h
      && flags.Length0 == w && flags.Length1 == h
      && board != bombHints && board != powerHints && bombHints != powerHints
      && flags != board && flags != bombHints && flags != powerHints
      && (forall i, j :: 0 <= i < w && 0 <= j < h ==>
            board[i, j] == BoardEmpty || board[i, j] == BoardBomb || board[i, j] == BoardRadar)
      && board[0, 0] == BoardEmpty
      && IsHintGrid(board, bombHints, BoardBomb)
      && IsHintGrid(board, powerHints, BoardRadar)
      && (forall i, j :: 0 <= i < w && 0 <= j < h ==> flags[i, j] == 0 || flags[i, j] == 1)
    }

    ghost predicate AllDiscovered()
      reads this, board, bombHints, powerHints, flags, discovered
      requires Wf()
    {
      forall i, j :: 0 <= i < w && 0 <= j < h ==> discovered[i, j]
    }

    ghost predicate NoBombDiscovered()
      reads this, board, bombHints, powerHints, flags, discovered
      requires Wf()
    {
      forall i, j :: 0 <= i < w && 0 <= j < h && discovered[i, j] ==> board[i, j] != BoardBomb
    }

    /** Every discovered cell with no bomb around it has all its neighbours discovered. */
    ghost predicate FloodClosed()
      reads this, board, bombHints, powerHints, flags, discovered
      requires Wf()
    {
      forall c, n {:trigger Adjacent(c, n)} ::
        (InBounds(c, w, h) && InBounds(n, w, h) && Adjacent(c, n)
         && discovered[c.x, c.y] && bombHints[c.x, c.y] == 0) ==> discovered[n.x, n.y]
    }

    /** FloodClosed, except possibly around the cell just stepped on. */
    ghost predicate FloodClosedBut(s: Cell)
      reads this, board, bombHints, powerHints, flags, discovered
      requires Wf()
    {
      forall c, n {:trigger Adjacent(c, n)} ::
        (InBounds(c, w, h) && InBounds(n, w, h) && Adjacent(c, n) && c != s
         && discovered[c.x, c.y] && bombHints[c.x, c.y] == 0) ==> discovered[n.x, n.y]
    }

    /**
     * The invariant of a running engine: the shape, the flood-fill closure,
     * and "a bomb is visible only once the whole board is revealed".
     */
    ghost predicate Valid()
      reads this, board, bombHints, powerHints, flags, discovered
    {
      Wf() && FloodClosed() && (AllDiscovered() || NoBombDiscovered())
    }

    /**
     * The constructor: an empty w x h board, bombCount (40) bombs and then
     * bombCount / 4 radars placed at random, the top-left tile cleared, and
     * the two hint grids computed from the result.
     */
    constructor (w: int, h: int)
      requires w >= 1 && h >= 1 && w * h >= 40
      ensures Valid()
      ensures this.w == w && this.h == h && bombCount == 40
      ensures fresh(board) && fresh(discovered) && fresh(flags) && fresh(bombHints) && fresh(powerHints)
      ensures forall i, j :: 0 <= i < w && 0 <= j < h ==> !discovered[i, j] && flags[i, j] == 0
    {
      this.w := w;
      this.h := h;
      bombCount := 40;
      var b := PlaceTiles(w, h, 40, 40 / 4);
      discovered := new bool[w, h]((i, j) => false);
      flags := new int[w, h]((i, j) => 0);
      var bh := CreateHints(b, BoardBomb);
      var ph := CreateHints(b, BoardRadar);
      board := b;
      bombHints := bh;
      powerHints := ph;
      new;
      NothingDiscoveredIsValid();
    }

    /** A well-formed board on which nothing is discovered yet is a valid engine state. */
    lemma NothingDiscoveredIsValid()
      requires Wf()
      requires forall i, j :: 0 <= i < w && 0 <= j < h ==> !discovered[i, j]
      ensures Valid()
    {
    }

    /**
     * The first half of the constructor: a fresh w x h board of empty
     * tiles, filled with bombCount bombs and then radarCount radars, and
     * with its top-left tile cleared afterwards.
     */
    static method PlaceTiles(w: int, h: int, bombCount: int, radarCount: int) returns (b: array2<int>)
      requires w >= 1 && h >= 1
      requires bombCount <= w * h && radarCount <= w * h
      ensures fresh(b) && b.Length0 == w && b.Length1 == h
      ensures forall i, j :: 0 <= i < w && 0 <= j < h ==>
                b[i, j] == BoardEmpty || b[i, j] == BoardBomb || b[i, j] == BoardRadar
      ensures b[0, 0] == BoardEmpty
    {
      b := new int[w, h]((i, j) => BoardEmpty);
      NoneHolding(b, BoardBomb);
      RandomFill(b, bombCount, BoardBomb);
      NoneHolding(b, BoardRadar);
      RandomFill(b, radarCount, BoardRadar);
      b[0, 0] := BoardEmpty;
    }

    /**
     * randomFill: count times, draw cells until one does not hold val, and
     * put val there. The draws are left out: each placement is any cell not
     * holding val, and there must be enough of them for the draws to end.
     */
    static method RandomFill(board: array2<int>, count: int, val: int)
      requires count <= |CellsNotHolding(board, val)|
      modifies board
      ensures old(CellsHolding(board, val)) <= CellsHolding(board, val)
      ensures |CellsHolding(board, val)| == |old(CellsHolding(board, val))| + if count > 0 then count else 0
      ensures forall i, j :: 0 <= i < board.Length0 && 0 <= j < board.Length1 && board[i, j] != old(board[i, j]) ==>
                board[i, j] == val
    {
      ghost var held0 := CellsHolding(board, val);
      var i := 0;
      while i < count
        invariant count <= 0 ==> i == 0
        invariant count > 0 ==> 0 <= i <= count
        invariant held0 <= CellsHolding(board, val)
        invariant |CellsHolding(board, val)| == |held0| + i
        invariant |CellsNotHolding(board, val)| >= count - i
        invariant forall i, j :: 0 <= i < board.Length0 && 0 <= j < board.Length1 && board[i, j] != old(board[i, j]) ==>
                    board[i, j] == val
      {
        ghost var held := CellsHolding(board, val);
        ghost var free := CellsNotHolding(board, val);
        var x, y :| 0 <= x < board.Length0 && 0 <= y < board.Length1 && board[x, y] != val;
        assert Cell(x, y) in free && Cell(x, y) !in held;
        board[x, y] := val;
        assert CellsHolding(board, val) == held + {Cell(x, y)};
        assert CellsNotHolding(board, val) == free - {Cell(x, y)};
        i := i + 1;
      }
    }

    /**
     * createHints: a fresh grid holding, for every cell, 0 if the cell
     * holds value and otherwise the number of its neighbours that do.
     */
    static method CreateHints(board: array2<int>, value: int) returns (hints: array2<int>)
      requires board.Length0 > 0
      ensures fresh(hints)
      ensures IsHintGrid(board, hints, value)
    {
      hints := new int[board.Length0, board.Length1]((i, j) => 0);
      for i := 0 to hints.Length0
        invariant forall i', j' {:trigger HintAt(board, Cell(i', j'), value)} ::
                    0 <= i' < i && 0 <= j' < hints.Length1 ==> hints[i', j'] == HintAt(board, Cell(i', j'), value)
        invariant forall i', j' :: i <= i' < hints.Length0 && 0 <= j' < hints.Length1 ==> hints[i', j'] == 0
      {
        for j := 0 to hints.Length1
          invariant forall i', j' {:trigger HintAt(board, Cell(i', j'), value)} ::
                      0 <= i' < i && 0 <= j' < hints.Length1 ==> hints[i', j'] == HintAt(board, Cell(i', j'), value)
          invariant forall j' {:trigger HintAt(board, Cell(i, j'), value)} ::
                      0 <= j' < j ==> hints[i, j'] == HintAt(board, Cell(i, j'), value)
          invariant forall j' :: j <= j' < hints.Length1 ==> hints[i, j'] == 0
          invariant forall i', j' :: i < i' < hints.Length0 && 0 <= j' < hints.Length1 ==> hints[i', j'] == 0
        {
          if board[i, j] == value {
            continue;
          }
          var explosiveNeighbors := CountNeighbors(board, i, j, value);
          hints[i, j] := explosiveNeighbors;
        }
      }
    }

    /**
     * The inner loop of createHints: count the neighbours of (x, y) that
     * hold value, one by one along the neighbour list.
     */
    static method CountNeighbors(board: array2<int>, x: int, y: int, value: int) returns (count: int)
      requires 0 <= x < board.Length0 && 0 <= y < board.Length1
      ensures count == |AdjacentHolding(board, Cell(x, y), value)|
      ensures board[x, y] != value ==> count == HintAt(board, Cell(x, y), value)
    {
      var neighborCoords := GetNeighbors(x, y, board);
      count := 0;
      for k := 0 to |neighborCoords|
        invariant count == CountIn(board, neighborCoords[..k], value)
      {
        assert neighborCoords[..k + 1][..k] == neighborCoords[..k];
        assert neighborCoords[k] in neighborCoords;
        if board[neighborCoords[k].x, neighborCoords[k].y] == value {
          count := count + 1;
        }
      }
      assert neighborCoords[..|neighborCoords|] == neighborCoords;
      CountingFindsAdjacent(board, Cell(x, y), value);
    }

    /** isDiscovered; a discovered bomb means the whole board is revealed. */
    function IsDiscovered(x: int, y: int): (b: bool)
      reads this, board, bombHints, powerHints, flags, discovered
      requires Valid() && 0 <= x < w && 0 <= y < h
      ensures b && board[x, y] == BoardBomb ==> AllDiscovered()
      ensures b && bombHints[x, y] == 0 ==>
                forall n :: InBounds(n, w, h) && Adjacent(Cell(x, y), n) ==> discovered[n.x, n.y]
    {
      discovered[x, y]
    }

    /** getTile: one of the three tile values; the top-left tile is never a bomb. */
    function GetTile(x: int, y: int): (t: int)
      reads this, board, bombHints, powerHints, flags
      requires Wf() && 0 <= x < w && 0 <= y < h
      ensures t == BoardEmpty || t == BoardBomb || t == BoardRadar
      ensures x == 0 && y == 0 ==> t == BoardEmpty
    {
      board[x, y]
    }

    /**
     * getHint: the number of bombs (val == BOARD_BOMB) or radars
     * (val == BOARD_RADAR) around a cell not holding one; any other val is
     * an illegal argument.
     */
    function GetHint(x: int, y: int, val: int): (r: Result<int>)
      reads this, board, bombHints, powerHints, flags
      requires Wf() && 0 <= x < w && 0 <= y < h
      ensures r.Ok? <==> val == BoardBomb || val == BoardRadar
      ensures r.Ok? ==> r.value == HintAt(board, Cell(x, y), val) && 0 <= r.value <= 8
    {
      if val == BoardBomb then Ok(bombHints[x, y])
      else if val == BoardRadar then Ok(powerHints[x, y])
      else IllegalArgument("val is inval(id)")
    }

    /** gameOver: every cell becomes discovered. */
    method GameOver()
      requires Wf()
      modifies discovered
      ensures Valid() && AllDiscovered()
    {
      for i := 0 to discovered.Length0
        invariant forall i', j :: 0 <= i' < i && 0 <= j < discovered.Length1 ==> discovered[i', j]
      {
        for j := 0 to discovered.Length1
          invariant forall i', j' :: 0 <= i' < i && 0 <= j' < discovered.Length1 ==> discovered[i', j']
          invariant forall j' :: 0 <= j' < j ==> discovered[i, j']
        {
          discovered[i, j] := true;
        }
      }
    }

    /**
     * stepOnTile: nothing happens on a discovered cell. Otherwise the cell
     * is discovered; a bomb reveals the whole board; a cell with no bomb
     * around it reveals its zero cave and every neighbour of the cave; any
     * other cell reveals only itself. Flags are not consulted.
     */
    method StepOnTile(x: int, y: int)
      requires Valid() && 0 <= x < w && 0 <= y < h
      modifies discovered
      ensures Valid()
      ensures discovered[x, y]
      ensures forall i, j :: 0 <= i < w && 0 <= j < h && old(discovered[i, j]) ==> discovered[i, j]
      ensures old(discovered[x, y]) ==>
                forall i, j :: 0 <= i < w && 0 <= j < h ==> discovered[i, j] == old(discovered[i, j])
      ensures !old(discovered[x, y]) && board[x, y] == BoardBomb ==> AllDiscovered()
      ensures !old(discovered[x, y]) && board[x, y] != BoardBomb ==> NoBombDiscovered()
      ensures !old(discovered[x, y]) && board[x, y] != BoardBomb && bombHints[x, y] != 0 ==>
                forall i, j :: 0 <= i < w && 0 <= j < h ==>
                  discovered[i, j] == (old(discovered[i, j]) || (i == x && j == y))
      ensures !old(discovered[x, y]) && board[x, y] != BoardBomb && bombHints[x, y] == 0 ==>
                exists r :: IsCave(bombHints, Cell(x, y), 0, r) &&
                  forall i, j :: 0 <= i < w && 0 <= j < h ==>
                    discovered[i, j] == (old(discovered[i, j]) || Covered(r, Cell(i, j)))
    {
      if discovered[x, y] {
        return;
      }
      assert old(NoBombDiscovered()) by {
        assert !old(discovered[x, y]);
      }
      discovered[x, y] := true;
      if board[x, y] == BoardBomb {
        GameOver();
      } else if bombHints[x, y] == 0 {
        assert FloodClosedBut(Cell(x, y)) by {
          forall c, n | InBounds(c, w, h) && InBounds(n, w, h) && Adjacent(c, n) && c != Cell(x, y)
                        && discovered[c.x, c.y] && bombHints[c.x, c.y] == 0
            ensures discovered[n.x, n.y]
          {
            assert old(discovered[c.x, c.y]);
          }
        }
        label stepped:
        FloodReveal(x, y);
        ghost var r :| IsCave(bombHints, Cell(x, y), 0, r) &&
          forall i, j :: 0 <= i < w && 0 <= j < h ==>
            discovered[i, j] == (old@stepped(discovered[i, j]) || Covered(r, Cell(i, j)));
        assert Covered(r, Cell(x, y)) by {
          assert Matches(bombHints, Cell(x, y), 0);
          assert r[0] in r && Near(r[0], Cell(x, y));
        }
        forall i, j | 0 <= i < w && 0 <= j < h
          ensures discovered[i, j] == (old(discovered[i, j]) || Covered(r, Cell(i, j)))
        {
          assert old@stepped(discovered[i, j]) == (old(discovered[i, j]) || (i == x && j == y));
        }
      } else {
        discovered[x, y] := true;
        assert NoBombDiscovered();
        assert FloodClosed() by {
          forall c, n | InBounds(c, w, h) && InBounds(n, w, h) && Adjacent(c, n)
                        && discovered[c.x, c.y] && bombHints[c.x, c.y] == 0
            ensures discovered[n.x, n.y]
          {
            assert old(discovered[c.x, c.y]);
          }
        }
      }
    }

    /**
     * stepOnTile's branch for a cell with no bomb around it, entered once
     * that cell is discovered: find its zero cave and reveal the cave and
     * the ring of cells around it.
     */
    method FloodReveal(x: int, y: int)
      requires Wf() && 0 <= x < w && 0 <= y < h && discovered[x, y]
      requires board[x, y] != BoardBomb && bombHints[x, y] == 0
      requires FloodClosedBut(Cell(x, y)) && NoBombDiscovered()
      modifies discovered
      ensures Valid() && NoBombDiscovered()
      ensures exists r :: IsCave(bombHints, Cell(x, y), 0, r) &&
                forall i, j :: 0 <= i < w && 0 <= j < h ==>
                  discovered[i, j] == (old(discovered[i, j]) || Covered(r, Cell(i, j)))
    {
      var cave := Cave(bombHints, board, x, y, 0);
      assert Matches(bombHints, Cell(x, y), 0);
      assert Covered(cave, Cell(x, y)) by { assert cave[0] in cave && Near(cave[0], Cell(x, y)); }
      RevealCave(cave);
      CaveIsSafe(board, bombHints, Cell(x, y), cave);
      assert NoBombDiscovered() by {
        forall i, j | 0 <= i < w && 0 <= j < h && discovered[i, j]
          ensures board[i, j] != BoardBomb
        {
          if !old(discovered[i, j]) && (i != x || j != y) {
            assert Covered(cave, Cell(i, j));
          }
        }
      }
      assert FloodClosed() by {
        forall c, n | InBounds(c, w, h) && InBounds(n, w, h) && Adjacent(c, n)
                      && discovered[c.x, c.y] && bombHints[c.x, c.y] == 0
          ensures discovered[n.x, n.y]
        {
          if !old(discovered[c.x, c.y]) || c == Cell(x, y) {
            CoveredZeroIsInCave(bombHints, Cell(x, y), cave, c);
            assert c in cave && Near(c, n);
          }
        }
      }
    }

    /**
     * The loop of stepOnTile's zero branch: discover every cell of the
     * cave together with its neighbours.
     */
    method RevealCave(cave: seq<Cell>)
      requires Wf() && forall c :: c in cave ==> InBounds(c, w, h)
      modifies discovered
      ensures forall i, j :: 0 <= i < w && 0 <= j < h ==>
                discovered[i, j] == (old(discovered[i, j]) || Covered(cave, Cell(i, j)))
    {
      for k := 0 to |cave|
        invariant forall i, j :: 0 <= i < w && 0 <= j < h ==>
                    discovered[i, j] == (old(discovered[i, j]) || Covered(cave[..k], Cell(i, j)))
      {
        assert cave[k] in cave;
        RevealAround(cave[k]);
        forall i, j | 0 <= i < w && 0 <= j < h
          ensures Covered(cave[..k + 1], Cell(i, j)) <==> Covered(cave[..k], Cell(i, j)) || Near(cave[k], Cell(i, j))
        {
          assert cave[..k + 1] == cave[..k] + [cave[k]];
          if Near(cave[k], Cell(i, j)) {
            assert cave[k] in cave[..k + 1];
          }
        }
      }
      assert cave[..|cave|] == cave;
    }

    /** The body of that loop: discover coord and every neighbour of it. */
    method RevealAround(coord: Cell)
      requires Wf() && InBounds(coord, w, h)
      modifies discovered
      ensures forall i, j :: 0 <= i < w && 0 <= j < h ==>
                discovered[i, j] == (old(discovered[i, j]) || Near(coord, Cell(i, j)))
    {
      discovered[coord.x, coord.y] := true;
      var neighbors := GetNeighbors(coord.x, coord.y, board);
      for m := 0 to |neighbors|
        invariant forall i, j :: 0 <= i < w && 0 <= j < h ==>
                    discovered[i, j] == (old(discovered[i, j]) || Cell(i, j) == coord || Cell(i, j) in neighbors[..m])
      {
        assert neighbors[m] in neighbors;
        discovered[neighbors[m].x, neighbors[m].y] := true;
        assert neighbors[..m + 1] == neighbors[..m] + [neighbors[m]];
      }
      assert neighbors[..|neighbors|] == neighbors;
      forall i, j | 0 <= i < w && 0 <= j < h && Near(coord, Cell(i, j)) && Cell(i, j) != coord
        ensures Cell(i, j) in neighbors
      {
        assert Adjacent(coord, Cell(i, j));
      }
    }

    /**
     * flagTile: nothing happens on a discovered cell; otherwise the flag of
     * the cell is toggled between 0 and 1, and no other cell changes.
     */
    method FlagTile(x: int, y: int)
      requires Valid() && 0 <= x < w && 0 <= y < h
      modifies flags
      ensures Valid()
      ensures old(discovered[x, y]) ==> flags[x, y] == old(flags[x, y])
      ensures !old(discovered[x, y]) ==> flags[x, y] == 1 - old(flags[x, y])
      ensures forall i, j :: 0 <= i < w && 0 <= j < h && (i != x || j != y) ==> flags[i, j] == old(flags[i, j])
    {
      if discovered[x, y] {
        return;
      }
      if flags[x, y] == 1 {
        flags[x, y] := 0;
      } else {
        flags[x, y] := 1;
      }
    }
  }
}
