/**
 * Grid search over a rectangular grid of integers: the 8-neighbourhood of a
 * cell, and a recursive depth-first flood fill that collects the maximal
 * 8-connected region of cells holding one value (a "cave").
 */
module DFS {

  /** A grid coordinate; x indexes the first dimension, y the second. */
  datatype Cell = Cell(x: int, y: int)

  predicate InBounds(c: Cell, rows: int, cols: int)
  {
    0 <= c.x < rows && 0 <= c.y < cols
  }

  /** Distinct cells that touch horizontally, vertically or diagonally. */
  predicate Adjacent(a: Cell, b: Cell)
  {
    a != b && -1 <= a.x - b.x <= 1 && -1 <= a.y - b.y <= 1
  }

  predicate Distinct(s: seq<Cell>)
  {
    forall i, j :: 0 <= i < j < |s| ==> s[i] != s[j]
  }

  // ---------------------------------------------------------------------
  // Neighbours
  // ---------------------------------------------------------------------

  /** The p-th cell (p in 0..8) of the 3x3 block centred on c, row-major; p == 4 is c. */
  function Candidate(c: Cell, p: nat): Cell
  {
    Cell(c.x + p / 3 - 1, c.y + p % 3 - 1)
  }

  predicate Kept(c: Cell, p: nat, rows: int, cols: int)
  {
    p != 4 && InBounds(Candidate(c, p), rows, cols)
  }

  /** The neighbours found among the first n candidates, in row-major offset order. */
  function NeighborsUpTo(c: Cell, rows: int, cols: int, n: nat): seq<Cell>
    requires n <= 9
  {
    if n == 0 then []
    else NeighborsUpTo(c, rows, cols, n - 1)
         + (if Kept(c, n - 1, rows, cols) then [Candidate(c, n - 1)] else [])
  }

  lemma CandidateInjective(c: Cell, p: nat, q: nat)
    requires p < 9 && q < 9 && p != q
    ensures Candidate(c, p) != Candidate(c, q)
  {
    assert p / 3 != q / 3 || p % 3 != q % 3;
  }

  lemma {:induction false} NeighborsUpToFacts(c: Cell, rows: int, cols: int, n: nat)
    requires n <= 9
    ensures |NeighborsUpTo(c, rows, cols, n)| <= if n > 4 then n - 1 else n
    ensures forall m :: m in NeighborsUpTo(c, rows, cols, n) <==>
                        exists p :: 0 <= p < n && Kept(c, p, rows, cols) && m == Candidate(c, p)
    ensures Distinct(NeighborsUpTo(c, rows, cols, n))
  {
    if n > 0 {
      NeighborsUpToFacts(c, rows, cols, n - 1);
      var prev := NeighborsUpTo(c, rows, cols, n - 1);
      if Kept(c, n - 1, rows, cols) {
        var last := Candidate(c, n - 1);
        forall m | m in prev
          ensures m != last
        {
          var p :| 0 <= p < n - 1 && Kept(c, p, rows, cols) && m == Candidate(c, p);
          CandidateInjective(c, p, n - 1);
        }
        var r := prev + [last];
        assert r == NeighborsUpTo(c, rows, cols, n);
        forall i, j | 0 <= i < j < |r|
          ensures r[i] != r[j]
        {
          if j == |prev| {
            assert r[i] in prev;
          } else {
            assert r[i] == prev[i] && r[j] == prev[j];
          }
        }
      } else {
        assert NeighborsUpTo(c, rows, cols, n) == prev;
      }
    }
  }

  /** The candidate index of a cell within the 3x3 block centred on c. */
  function IndexOf(c: Cell, m: Cell): (p: nat)
    requires -1 <= m.x - c.x <= 1 && -1 <= m.y - c.y <= 1
    ensures p < 9 && Candidate(c, p) == m
  {
    var dx, dy := m.x - c.x, m.y - c.y;
    if dx == -1 then (if dy == -1 then 0 else if dy == 0 then 1 else 2)
    else if dx == 0 then (if dy == -1 then 3 else if dy == 0 then 4 else 5)
    else (if dy == -1 then 6 else if dy == 0 then 7 else 8)
  }

  /**
   * The in-bounds 8-neighbourhood of c in a rows x cols grid, in row-major
   * offset order: at most 8 cells, without repetition.
   */
  function Neighbors(c: Cell, rows: int, cols: int): (r: seq<Cell>)
    ensures |r| <= 8
    ensures forall m :: m in r ==> InBounds(m, rows, cols)
  {
    NeighborsUpToFacts(c, rows, cols, 9);
    NeighborsUpTo(c, rows, cols, 9)
  }

  /** The neighbours are distinct, and they are exactly the adjacent cells on the grid. */
  lemma NeighborsAreAdjacent(c: Cell, rows: int, cols: int)
    ensures Distinct(Neighbors(c, rows, cols))
    ensures forall m :: m in Neighbors(c, rows, cols) <==> InBounds(m, rows, cols) && Adjacent(c, m)
  {
    NeighborsUpToFacts(c, rows, cols, 9);
    var r := NeighborsUpTo(c, rows, cols, 9);
    forall m | InBounds(m, rows, cols) && Adjacent(c, m)
      ensures m in r
    {
      var p := IndexOf(c, m);
      assert Kept(c, p, rows, cols);
    }
  }

  /** A corner cell of a grid at least 2 x 2 has exactly three neighbours. */
  lemma CornerHasThreeNeighbors(rows: int, cols: int)
    requires rows >= 2 && cols >= 2
    ensures Neighbors(Cell(0, 0), rows, cols) == [Cell(0, 1), Cell(1, 0), Cell(1, 1)]
  {
    var c := Cell(0, 0);
    assert !Kept(c, 0, rows, cols) && !Kept(c, 1, rows, cols) && !Kept(c, 2, rows, cols);
    assert !Kept(c, 3, rows, cols) && !Kept(c, 4, rows, cols) && !Kept(c, 6, rows, cols);
    assert Kept(c, 5, rows, cols) && Kept(c, 7, rows, cols) && Kept(c, 8, rows, cols);
    assert NeighborsUpTo(c, rows, cols, 1) == [];
    assert NeighborsUpTo(c, rows, cols, 2) == [];
    assert NeighborsUpTo(c, rows, cols, 3) == [];
    assert NeighborsUpTo(c, rows, cols, 4) == [];
    assert NeighborsUpTo(c, rows, cols, 5) == [];
    assert NeighborsUpTo(c, rows, cols, 6) == [Cell(0, 1)];
    assert NeighborsUpTo(c, rows, cols, 7) == [Cell(0, 1)];
    assert NeighborsUpTo(c, rows, cols, 8) == [Cell(0, 1), Cell(1, 0)];
    assert NeighborsUpTo(c, rows, cols, 9) == [Cell(0, 1), Cell(1, 0), Cell(1, 1)];
  }

  /** An interior cell has all eight neighbours, in row-major order. */
  lemma InteriorHasEightNeighbors(c: Cell, rows: int, cols: int)
    requires 1 <= c.x < rows - 1 && 1 <= c.y < cols - 1
    ensures |Neighbors(c, rows, cols)| == 8
    ensures Neighbors(c, rows, cols)[0] == Cell(c.x - 1, c.y - 1)
    ensures Neighbors(c, rows, cols)[7] == Cell(c.x + 1, c.y + 1)
  {
    assert forall p :: 0 <= p < 9 && p != 4 ==> Kept(c, p, rows, cols);
    assert NeighborsUpTo(c, rows, cols, 1) == [Cell(c.x - 1, c.y - 1)];
    assert |NeighborsUpTo(c, rows, cols, 2)| == 2;
    assert |NeighborsUpTo(c, rows, cols, 3)| == 3;
    assert |NeighborsUpTo(c, rows, cols, 4)| == 4;
    assert |NeighborsUpTo(c, rows, cols, 5)| == 4;
    assert |NeighborsUpTo(c, rows, cols, 6)| == 5;
    assert |NeighborsUpTo(c, rows, cols, 7)| == 6;
    assert |NeighborsUpTo(c, rows, cols, 8)| == 7;
    assert NeighborsUpTo(c, rows, cols, 9)[7] == Candidate(c, 8);
    assert NeighborsUpTo(c, rows, cols, 9)[0] == NeighborsUpTo(c, rows, cols, 1)[0];
  }

  /** Offset (i, j) is candidate 3 * (i + 1) + (j + 1) of the 3x3 block. */
  lemma CandidateAt(c: Cell, i: int, j: int)
    requires -1 <= i <= 1 && -1 <= j <= 1
    ensures Candidate(c, 3 * (i + 1) + (j + 1)) == Cell(c.x + i, c.y + j)
  {
    if i == -1 {
      if j == -1 { assert Candidate(c, 0) == Cell(c.x - 1, c.y - 1); }
      else if j == 0 { assert Candidate(c, 1) == Cell(c.x - 1, c.y); }
      else { assert Candidate(c, 2) == Cell(c.x - 1, c.y + 1); }
    } else if i == 0 {
      if j == -1 { assert Candidate(c, 3) == Cell(c.x, c.y - 1); }
      else if j == 0 { assert Candidate(c, 4) == c; }
      else { assert Candidate(c, 5) == Cell(c.x, c.y + 1); }
    } else {
      if j == -1 { assert Candidate(c, 6) == Cell(c.x + 1, c.y - 1); }
      else if j == 0 { assert Candidate(c, 7) == Cell(c.x + 1, c.y); }
      else { assert Candidate(c, 8) == Cell(c.x + 1, c.y + 1); }
    }
  }

  /**
   * getNeighbors: two nested loops over the offsets -1..1, keeping the
   * in-bounds cells other than (x, y) itself, in the order they are met.
   */
  method GetNeighbors(x: int, y: int, board: array2<int>) returns (ns: seq<Cell>)
    ensures ns == Neighbors(Cell(x, y), board.Length0, board.Length1)
    ensures forall m :: m in ns <==> InBounds(m, board.Length0, board.Length1) && Adjacent(Cell(x, y), m)
  {
    ghost var c := Cell(x, y);
    ns := [];
    for i := -1 to 2
      invariant ns == NeighborsUpTo(c, board.Length0, board.Length1, 3 * (i + 1))
    {
      for j := -1 to 2
        invariant ns == NeighborsUpTo(c, board.Length0, board.Length1, 3 * (i + 1) + (j + 1))
      {
        ghost var p: nat := 3 * (i + 1) + (j + 1);
        CandidateAt(c, i, j);
        var newX := x + i;
        var newY := y + j;
        if newX >= 0 && newX < board.Length0 && newY >= 0 && newY < board.Length1 && !(i == 0 && j == 0) {
          ns := ns + [Cell(newX, newY)];
        }
      }
    }
    NeighborsAreAdjacent(c, board.Length0, board.Length1);
  }

  // ---------------------------------------------------------------------
  // Flood fill
  // ---------------------------------------------------------------------

  /** c lies on the grid and holds value. */
  predicate Matches(hints: array2<int>, c: Cell, value: int)
    reads hints
  {
    InBounds(c, hints.Length0, hints.Length1) && hints[c.x, c.y] == value
  }

  /** The k-th element of r touches an element before it. */
  ghost predicate TouchesEarlier(r: seq<Cell>, k: int)
    requires 0 <= k < |r|
  {
    exists j :: 0 <= j < k && Adjacent(r[j], r[k])
  }

  /** Every element after the first touches some earlier element. */
  ghost predicate Linked(r: seq<Cell>)
  {
    forall k :: 0 < k < |r| ==> TouchesEarlier(r, k)
  }

  /** No matching cell touches r without being in r. */
  ghost predicate ClosedUnder(hints: array2<int>, value: int, r: seq<Cell>)
    reads hints
  {
    forall k, n {:trigger Adjacent(r[k], n)} :: 0 <= k < |r| && Adjacent(r[k], n) && Matches(hints, n, value) ==> n in r
  }

  /**
   * r lists, without repetition, the maximal 8-connected region of cells
   * holding value that contains start, beginning with start; r is empty
   * when start is off the grid or does not hold value.
   */
  ghost predicate IsCave(hints: array2<int>, start: Cell, value: int, r: seq<Cell>)
    reads hints
  {
    && (Matches(hints, start, value) ==> |r| > 0 && r[0] == start)
    && (!Matches(hints, start, value) ==> r == [])
    && (forall k :: 0 <= k < |r| ==> Matches(hints, r[k], value))
    && Distinct(r)
    && Linked(r)
    && ClosedUnder(hints, value, r)
  }

  /** The offsets dfs recurses on, in its order. */
  const Directions: seq<(int, int)> :=
    [(0, 1), (0, -1), (1, 0), (-1, 0), (1, 1), (1, -1), (-1, 1), (-1, -1)]

  function Step(c: Cell, d: (int, int)): Cell
  {
    Cell(c.x + d.0, c.y + d.1)
  }

  /** The index in Directions of the step from c to an adjacent cell n. */
  function DirectionTo(c: Cell, n: Cell): (d: nat)
    requires Adjacent(c, n)
    ensures d < |Directions| && Step(c, Directions[d]) == n
  {
    var dx, dy := n.x - c.x, n.y - c.y;
    if dx == 0 then (if dy == 1 then 0 else 1)
    else if dy == 0 then (if dx == 1 then 2 else 3)
    else if dx == 1 then (if dy == 1 then 4 else 5)
    else (if dy == 1 then 6 else 7)
  }

  lemma DirectionIsAdjacent(c: Cell, d: nat)
    requires d < |Directions|
    ensures Adjacent(c, Step(c, Directions[d]))
  {
  }

  /** The cells of a rows x cols grid. */
  ghost function Rect(rows: int, cols: int): set<Cell>
  {
    set i, j | 0 <= i < rows && 0 <= j < cols :: Cell(i, j)
  }

  /** The cells marked true in visited. */
  ghost function VisitedCells(visited: array2<bool>): set<Cell>
    reads visited
  {
    set i, j | 0 <= i < visited.Length0 && 0 <= j < visited.Length1 && visited[i, j] :: Cell(i, j)
  }

  ghost function Elements(s: seq<Cell>): set<Cell>
  {
    set c | c in s
  }

  /**
   * s is what a search appended to its result while the cells in v0 were
   * already visited: cells that hold value and were not in v0, without
   * repetition, each after the first touching an earlier one.
   */
  ghost predicate Grown(hints: array2<int>, value: int, v0: set<Cell>, s: seq<Cell>)
    reads hints
  {
    && (forall k :: 0 <= k < |s| ==> Matches(hints, s[k], value) && s[k] !in v0)
    && Distinct(s)
    && Linked(s)
  }

  /** Every matching neighbour of a cell of s lies in v. */
  ghost predicate ClosedIn(hints: array2<int>, value: int, s: seq<Cell>, v: set<Cell>)
    reads hints
  {
    forall k, n {:trigger Adjacent(s[k], n)} ::
      0 <= k < |s| && Adjacent(s[k], n) && Matches(hints, n, value) ==> n in v
  }

  lemma {:induction false} GrownAppend(hints: array2<int>, value: int, v0: set<Cell>, v1: set<Cell>, s: seq<Cell>, t: seq<Cell>)
    requires Grown(hints, value, v0, s) && |s| > 0
    requires v1 == v0 + Elements(s) && Grown(hints, value, v1, t)
    requires t != [] ==> Adjacent(s[0], t[0])
    ensures Grown(hints, value, v0, s + t)
  {
    var u := s + t;
    forall k | 0 < k < |u|
      ensures TouchesEarlier(u, k)
    {
      if k < |s| {
        assert TouchesEarlier(s, k);
        var j :| 0 <= j < k && Adjacent(s[j], s[k]);
        assert u[j] == s[j] && u[k] == s[k];
      } else if k == |s| {
        assert u[0] == s[0] && u[k] == t[0];
      } else {
        assert TouchesEarlier(t, k - |s|);
        var j :| 0 <= j < k - |s| && Adjacent(t[j], t[k - |s|]);
        assert u[j + |s|] == t[j] && u[k] == t[k - |s|];
      }
    }
    forall i, j | 0 <= i < j < |u|
      ensures u[i] != u[j]
    {
      if i < |s| <= j {
        assert u[i] == s[i] && u[i] in Elements(s) && u[j] == t[j - |s|];
      } else if j < |s| {
        assert u[i] == s[i] && u[j] == s[j];
      } else {
        assert u[i] == t[i - |s|] && u[j] == t[j - |s|];
      }
    }
    forall k | 0 <= k < |u|
      ensures Matches(hints, u[k], value) && u[k] !in v0
    {
      if k < |s| { assert u[k] == s[k]; } else { assert u[k] == t[k - |s|]; }
    }
  }

  lemma ClosedInAppend(hints: array2<int>, value: int, s: seq<Cell>, t: seq<Cell>, v: set<Cell>, v': set<Cell>)
    requires ClosedIn(hints, value, s, v) && ClosedIn(hints, value, t, v') && v <= v'
    ensures ClosedIn(hints, value, s + t, v')
  {
    var u := s + t;
    forall k, n | 0 <= k < |u| && Adjacent(u[k], n) && Matches(hints, n, value)
      ensures n in v'
    {
      if k < |s| { assert u[k] == s[k]; } else { assert u[k] == t[k - |s|]; }
    }
  }

  /** The neighbours in the first d + 1 directions stay visited once visited. */
  lemma VisitedThrough(hints: array2<int>, value: int, c: Cell, d: nat, v1: set<Cell>, v2: set<Cell>)
    requires d < |Directions| && v1 <= v2
    requires forall e :: 0 <= e < d && Matches(hints, Step(c, Directions[e]), value) ==>
               Step(c, Directions[e]) in v1
    requires Matches(hints, Step(c, Directions[d]), value) ==> Step(c, Directions[d]) in v2
    ensures forall e :: 0 <= e <= d && Matches(hints, Step(c, Directions[e]), value) ==>
              Step(c, Directions[e]) in v2
  {
  }

  /**
   * dfs: visit (x, y) if it is on the grid, unvisited and holds value, then
   * recurse on its eight neighbours. The cells it appends to the result are
   * exactly the cells it marks visited; each held value and was unvisited,
   * each after the first touches an earlier one, and on return every
   * matching neighbour of an appended cell is visited.
   */
  method Dfs(hints: array2<int>, board: array2<int>, x: int, y: int, value: int,
             visited: array2<bool>, result: seq<Cell>) returns (result': seq<Cell>)
    requires visited.Length0 >= hints.Length0 && visited.Length1 >= hints.Length1
    modifies visited
    decreases Rect(hints.Length0, hints.Length1) - VisitedCells(visited), 0
    ensures |result| <= |result'| && result'[..|result|] == result
    ensures !Matches(hints, Cell(x, y), value) || Cell(x, y) in old(VisitedCells(visited)) ==> result' == result
    ensures Matches(hints, Cell(x, y), value) && Cell(x, y) !in old(VisitedCells(visited)) ==>
              |result'| > |result| && result'[|result|] == Cell(x, y)
    ensures Grown(hints, value, old(VisitedCells(visited)), result'[|result|..])
    ensures VisitedCells(visited) == old(VisitedCells(visited)) + Elements(result'[|result|..])
    ensures ClosedIn(hints, value, result'[|result|..], VisitedCells(visited))
  {
    if x < 0 || x >= hints.Length0 || y < 0 || y >= hints.Length1 || visited[x, y] || hints[x, y] != value {
      assert Cell(x, y) in VisitedCells(visited) || !Matches(hints, Cell(x, y), value);
      assert result[|result|..] == [];
      return result;
    }
    ghost var c := Cell(x, y);
    ghost var n0 := |result|;
    ghost var v0 := VisitedCells(visited);
    assert c !in v0;
    visited[x, y] := true;
    assert VisitedCells(visited) == v0 + {c};
    result' := result + [Cell(x, y)];
    assert result'[n0..] == [c] && result'[n0 + 1..] == [];
    for d := 0 to |Directions|
      invariant n0 < |result'| && result'[..n0] == result && result'[n0] == c
      invariant Grown(hints, value, v0, result'[n0..])
      invariant VisitedCells(visited) == v0 + Elements(result'[n0..])
      invariant ClosedIn(hints, value, result'[n0 + 1..], VisitedCells(visited))
      invariant forall e :: 0 <= e < d && Matches(hints, Step(c, Directions[e]), value) ==>
                  Step(c, Directions[e]) in VisitedCells(visited)
    {
      assert c in VisitedCells(visited) && c in Rect(hints.Length0, hints.Length1);
      ghost var v1 := VisitedCells(visited);
      result' := DfsNeighbor(hints, board, x, y, d, value, visited, v0, n0, result');
      VisitedThrough(hints, value, c, d, v1, VisitedCells(visited));
    }
    assert result'[n0..] == [c] + result'[n0 + 1..];
    forall n | Adjacent(c, n) && Matches(hints, n, value)
      ensures n in VisitedCells(visited)
    {
      var e := DirectionTo(c, n);
    }
    ClosedInAppend(hints, value, [c], result'[n0 + 1..], VisitedCells(visited), VisitedCells(visited));
  }

  /**
   * One turn of dfs's loop over the directions: recurse on the d-th
   * neighbour of (x, y), a cell dfs has just visited and put at position n0
   * of the result. What dfs has appended since then keeps its properties, and
   * afterwards that neighbour is visited if it holds value.
   */
  method DfsNeighbor(hints: array2<int>, board: array2<int>, x: int, y: int, d: nat, value: int,
                     visited: array2<bool>, ghost v0: set<Cell>, ghost n0: nat, result: seq<Cell>)
    returns (result': seq<Cell>)
    requires visited.Length0 >= hints.Length0 && visited.Length1 >= hints.Length1
    requires d < |Directions|
    requires n0 < |result| && result[n0] == Cell(x, y)
    requires Grown(hints, value, v0, result[n0..])
    requires VisitedCells(visited) == v0 + Elements(result[n0..])
    requires ClosedIn(hints, value, result[n0 + 1..], VisitedCells(visited))
    modifies visited
    decreases Rect(hints.Length0, hints.Length1) - VisitedCells(visited), 1
    ensures |result| <= |result'| && result'[..|result|] == result
    ensures Grown(hints, value, v0, result'[n0..])
    ensures VisitedCells(visited) == v0 + Elements(result'[n0..])
    ensures ClosedIn(hints, value, result'[n0 + 1..], VisitedCells(visited))
    ensures old(VisitedCells(visited)) <= VisitedCells(visited)
    ensures Matches(hints, Step(Cell(x, y), Directions[d]), value) ==>
              Step(Cell(x, y), Directions[d]) in VisitedCells(visited)
  {
    ghost var c := Cell(x, y);
    ghost var v1 := VisitedCells(visited);
    var newX := x + Directions[d].0;
    var newY := y + Directions[d].1;
    ghost var nb := Cell(newX, newY);
    DirectionIsAdjacent(c, d);
    result' := Dfs(hints, board, newX, newY, value, visited, result);
    ghost var added := result'[|result|..];
    assert result' == result + added;
    assert result'[n0..] == result[n0..] + added;
    assert result'[n0 + 1..] == result[n0 + 1..] + added;
    assert Elements(result'[n0..]) == Elements(result[n0..]) + Elements(added);
    if Matches(hints, nb, value) && nb !in v1 {
      assert added[0] == nb;
    }
    assert result[n0..][0] == c;
    GrownAppend(hints, value, v0, v1, result[n0..], added);
    ClosedInAppend(hints, value, result[n0 + 1..], added, v1, VisitedCells(visited));
  }

  /**
   * cave: flood-fill from (startX, startY) with a fresh visited grid, giving
   * the region of cells holding value that the start cell belongs to.
   */
  method Cave(hints: array2<int>, board: array2<int>, startX: int, startY: int, value: int)
    returns (result: seq<Cell>)
    requires hints.Length0 > 0
    ensures IsCave(hints, Cell(startX, startY), value, result)
  {
    var visited := new bool[hints.Length0, hints.Length1]((i, j) => false);
    assert VisitedCells(visited) == {};
    result := Dfs(hints, board, startX, startY, value, visited, []);
    assert result[0..] == result;
  }

  /**
   * The region is the least set closed under matching neighbours that holds
   * the start cell: any such set contains every cell of a cave.
   */
  lemma {:induction false} CaveIsLeast(hints: array2<int>, start: Cell, value: int, r: seq<Cell>, s: set<Cell>)
    requires IsCave(hints, start, value, r)
    requires Matches(hints, start, value) ==> start in s
    requires forall c, n :: c in s && Adjacent(c, n) && Matches(hints, n, value) ==> n in s
    ensures forall c :: c in r ==> c in s
  {
    forall k | 0 <= k < |r|
      ensures r[k] in s
    {
      CaveElementIn(hints, start, value, r, s, k);
    }
  }

  lemma {:induction false} CaveElementIn(hints: array2<int>, start: Cell, value: int, r: seq<Cell>, s: set<Cell>, k: nat)
    requires IsCave(hints, start, value, r)
    requires Matches(hints, start, value) ==> start in s
    requires forall c, n :: c in s && Adjacent(c, n) && Matches(hints, n, value) ==> n in s
    requires k < |r|
    ensures r[k] in s
    decreases k
  {
    if k > 0 {
      assert TouchesEarlier(r, k);
      var j :| 0 <= j < k && Adjacent(r[j], r[k]);
      CaveElementIn(hints, start, value, r, s, j);
    }
  }

  /** Two caves from the same start hold the same cells. */
  lemma CaveIsUnique(hints: array2<int>, start: Cell, value: int, r1: seq<Cell>, r2: seq<Cell>)
    requires IsCave(hints, start, value, r1) && IsCave(hints, start, value, r2)
    ensures forall c :: c in r1 <==> c in r2
  {
    var s1 := set c | c in r1;
    var s2 := set c | c in r2;
    CaveIsLeast(hints, start, value, r1, s2);
    CaveIsLeast(hints, start, value, r2, s1);
  }
}
