/**
 * The minesweeper board `GamePole` of minesweeper/main.py.
 *
 * The board is a class whose grid is a flat array of `Cell` records in
 * row-major order: cell (r, c) of a grid of side n is `pole[Idx(n, r, c)]`.
 * `random.randint` is injected as a `RandomSource` whose only promise is
 * that a draw lies in the requested range.
 */
module Minesweeper {
  import opened Wrappers
  import opened Decimal

  // ---------------------------------------------------------------------
  // Cells
  // ---------------------------------------------------------------------

  /** GamePole.Cell: the mine counter, the mine flag and the open flag. */
  datatype Cell = Cell(aroundMines: int, mine: bool, flOpen: bool)
  {
    /** Cell.__str__: "#" while closed, "*" for an open mine, else the counter in decimal. */
    function ToString(): string
    {
      if !flOpen then "#" else if mine then "*" else IntToString(aroundMines)
    }
  }

  /** The cell `init` allocates, `Cell(0, False)`: no counted mines, no mine, closed. */
  const FreshCell := Cell(0, false, false)

  /** The cell after its open flag is set. */
  function Opened(c: Cell): (d: Cell)
    ensures d.flOpen && d.mine == c.mine && d.aroundMines == c.aroundMines
  {
    c.(flOpen := true)
  }

  /** The text of a cell tells apart closed cells, open mines and the counter of open safe cells. */
  lemma CellTextCases(c: Cell)
    ensures c.ToString() == "#" <==> !c.flOpen
    ensures c.ToString() == "*" <==> c.flOpen && c.mine
    ensures c.flOpen && !c.mine ==> ParseInt(c.ToString()) == Some(c.aroundMines)
  {
    IntToStringShape(c.aroundMines);
    IntRoundTrip(c.aroundMines);
  }

  /** Opening is idempotent and never closes a cell. */
  lemma OpenedIdempotent(c: Cell)
    ensures Opened(Opened(c)) == Opened(c)
    ensures c.flOpen ==> Opened(c) == c
  {
  }

  // ---------------------------------------------------------------------
  // Errors and field validation
  // ---------------------------------------------------------------------

  /** Which ValueError a validator raises. */
  datatype Violation = SizeNotPositive | MineCountNegative | CapacityExceeded

  /** Which lookup raises IndexError in `open_cell`. */
  datatype Fault = RowOutOfRange | ColumnOutOfRange | GridLookup

  datatype Error = ValueError(violation: Violation) | IndexError(fault: Fault)

  /** GamePole._validate_size. */
  function ValidateSize(size: int): (v: Option<Violation>)
    ensures v == None <==> size > 0
    ensures v != None ==> v == Some(SizeNotPositive)
  {
    if size <= 0 then Some(SizeNotPositive) else None
  }

  /** GamePole._validate_mine_count. */
  function ValidateMineCount(mineCount: int): (v: Option<Violation>)
    ensures v == None <==> mineCount >= 0
    ensures v != None ==> v == Some(MineCountNegative)
  {
    if mineCount < 0 then Some(MineCountNegative) else None
  }

  /**
   * The check of the `size` setter. `mineCount` is `None` while the mine
   * count has not been set yet (the first assignment in `__init__`).
   */
  function CheckSize(newSize: int, mineCount: Option<int>): Option<Violation>
  {
    if ValidateSize(newSize).Some? then ValidateSize(newSize)
    else if mineCount.Some? && newSize * newSize < mineCount.value then Some(CapacityExceeded)
    else None
  }

  /** The check of the `mine_count` setter; `size` is `None` while no size is set. */
  function CheckMineCount(newMineCount: int, size: Option<int>): Option<Violation>
  {
    if ValidateMineCount(newMineCount).Some? then ValidateMineCount(newMineCount)
    else if size.Some? && size.value * size.value < newMineCount then Some(CapacityExceeded)
    else None
  }

  /** `__init__` assigns the size first (no mine count yet), then the mine count. */
  function CheckConstruction(size: int, mineCount: int): Option<Violation>
  {
    if CheckSize(size, None).Some? then CheckSize(size, None)
    else CheckMineCount(mineCount, Some(size))
  }

  /** The joint constraint on the two fields: a positive side and room for every mine. */
  predicate ValidFields(size: int, mineCount: int)
  {
    0 < size && 0 <= mineCount <= size * size
  }

  /** Construction fails on the size first, then on a negative count, then on capacity. */
  lemma ConstructionVerdict(size: int, mineCount: int)
    ensures CheckConstruction(size, mineCount) == None <==> ValidFields(size, mineCount)
    ensures size <= 0 ==> CheckConstruction(size, mineCount) == Some(SizeNotPositive)
    ensures size > 0 && mineCount < 0 ==> CheckConstruction(size, mineCount) == Some(MineCountNegative)
    ensures size > 0 && mineCount >= 0 && size * size < mineCount ==>
              CheckConstruction(size, mineCount) == Some(CapacityExceeded)
  {
  }

  /** Once both fields exist, each setter applies the same capacity check as the other. */
  lemma SettersAgreeOnCapacity(size: int, mineCount: int)
    requires size > 0 && mineCount >= 0
    ensures CheckSize(size, Some(mineCount)) == CheckMineCount(mineCount, Some(size))
    ensures CheckSize(size, Some(mineCount)) == None <==> ValidFields(size, mineCount)
  {
  }

  // ---------------------------------------------------------------------
  // Row-major grid arithmetic
  // ---------------------------------------------------------------------

  /** Monotonicity of multiplication by a non-negative factor; the solver needs no proof steps. */
  lemma MulLe(a: int, b: int, n: int)
    requires 0 <= a <= b && 0 <= n
    ensures a * n <= b * n
  {
  }

  /** Euclidean division of q * n + m by n gives back q and m. */
  lemma {:induction false} DivModUnique(k: int, n: int, q: int, m: int)
    requires 0 < n && 0 <= m < n && 0 <= q && k == q * n + m
    ensures k / n == q && k % n == m
  {
    var q', m' := k / n, k % n;
    if q' < q {
      MulLe(q' + 1, q, n);
      assert false;
    } else if q < q' {
      MulLe(q + 1, q', n);
      assert false;
    }
  }

  /** The flat index of cell (r, c) in a row-major grid of side n. */
  function Idx(n: int, r: int, c: int): (k: int)
    requires 0 <= r < n && 0 <= c < n
    ensures 0 <= k < n * n
    ensures k / n == r && k % n == c
  {
    MulLe(r + 1, n, n);
    MulLe(0, r, n);
    DivModUnique(r * n + c, n, r, c);
    r * n + c
  }

  /**
   * obtain_random_cell_placement: a draw `i` in [0, n²) names the cell
   * (i // n, i % n), which is inside the grid and whose flat index is `i`.
   */
  lemma {:induction false} PlacementInBounds(i: int, n: int)
    requires 0 < n && 0 <= i < n * n
    ensures 0 <= i / n < n && 0 <= i % n < n
    ensures Idx(n, i / n, i % n) == i
  {
    var q, m := i / n, i % n;
    assert i == q * n + m;
    if q < 0 {
      MulLe(1, -q, n);
      assert false;
    } else if q >= n {
      MulLe(n, q, n);
      assert false;
    }
  }

  // ---------------------------------------------------------------------
  // Counting mines
  // ---------------------------------------------------------------------

  function MineBit(c: Cell): nat
  {
    if c.mine then 1 else 0
  }

  /** The number of mine cells in a grid. */
  function CountMines(s: seq<Cell>): (k: nat)
    ensures k <= |s|
  {
    if s == [] then 0 else CountMines(s[..|s| - 1]) + MineBit(s[|s| - 1])
  }

  /** Replacing one cell changes the count by the difference of the two mine flags. */
  lemma {:induction false} CountMinesUpdate(s: seq<Cell>, k: int, v: Cell)
    requires 0 <= k < |s|
    ensures CountMines(s[k := v]) == CountMines(s) - MineBit(s[k]) + MineBit(v)
  {
    var t := s[k := v];
    if k == |s| - 1 {
      assert t[..|t| - 1] == s[..|s| - 1];
    } else {
      assert t[..|t| - 1] == s[..|s| - 1][k := v];
      CountMinesUpdate(s[..|s| - 1], k, v);
    }
  }

  /** The count depends on the mine flags only. */
  lemma {:induction false} CountMinesSameFlags(s: seq<Cell>, t: seq<Cell>)
    requires |s| == |t|
    requires forall i :: 0 <= i < |s| ==> s[i].mine == t[i].mine
    ensures CountMines(s) == CountMines(t)
  {
    if s != [] {
      CountMinesSameFlags(s[..|s| - 1], t[..|t| - 1]);
    }
  }

  /** A grid holding fewer mines than cells has a cell without a mine. */
  lemma {:induction false} FreeCellExists(s: seq<Cell>)
    requires CountMines(s) < |s|
    ensures exists k :: 0 <= k < |s| && !s[k].mine
  {
    var last := |s| - 1;
    if s[last].mine {
      FreeCellExists(s[..last]);
      var k :| 0 <= k < last && !s[..last][k].mine;
      assert s[k] == s[..last][k];
    }
  }

  /** A grid every cell of which is a mine holds as many mines as cells, and conversely. */
  lemma {:induction false} AllMinesCount(s: seq<Cell>)
    ensures CountMines(s) == |s| <==> forall k :: 0 <= k < |s| ==> s[k].mine
  {
    if s != [] {
      var prefix := s[..|s| - 1];
      AllMinesCount(prefix);
      if CountMines(s) == |s| {
        forall k | 0 <= k < |s| - 1 ensures s[k].mine {
          assert s[k] == prefix[k];
        }
      }
    }
  }

  // ---------------------------------------------------------------------
  // The mine counters
  // ---------------------------------------------------------------------

  /** 1 if (r, c) lies inside the grid and holds a mine, else 0. */
  function MineAt(s: seq<Cell>, n: int, r: int, c: int): nat
    requires |s| == n * n
  {
    if 0 <= r < n && 0 <= c < n && s[Idx(n, r, c)].mine then 1 else 0
  }

  function RowOfThree(s: seq<Cell>, n: int, r: int, c: int): nat
    requires |s| == n * n
  {
    MineAt(s, n, r, c - 1) + MineAt(s, n, r, c) + MineAt(s, n, r, c + 1)
  }

  /** Mines in the in-bounds part of the 3×3 block centred on (r, c), the centre included. */
  function BlockMines(s: seq<Cell>, n: int, r: int, c: int): nat
    requires |s| == n * n
  {
    RowOfThree(s, n, r - 1, c) + RowOfThree(s, n, r, c) + RowOfThree(s, n, r + 1, c)
  }

  /** Mines among the up to eight in-bounds neighbours of (r, c). */
  function NeighbourMines(s: seq<Cell>, n: int, r: int, c: int): nat
    requires |s| == n * n
  {
    MineAt(s, n, r - 1, c - 1) + MineAt(s, n, r - 1, c) + MineAt(s, n, r - 1, c + 1) +
    MineAt(s, n, r, c - 1) + MineAt(s, n, r, c + 1) +
    MineAt(s, n, r + 1, c - 1) + MineAt(s, n, r + 1, c) + MineAt(s, n, r + 1, c + 1)
  }

  /** Every counter equals the mines of its 3×3 block, as `update_around_mines` builds them. */
  ghost predicate CountersConsistent(s: seq<Cell>, n: int)
    requires |s| == n * n
  {
    forall r, c {:trigger BlockMines(s, n, r, c)} :: 0 <= r < n && 0 <= c < n ==>
      s[Idx(n, r, c)].aroundMines == BlockMines(s, n, r, c)
  }

  predicate InBlock(r: int, c: int, centreRow: int, centreCol: int)
  {
    centreRow - 1 <= r <= centreRow + 1 && centreCol - 1 <= c <= centreCol + 1
  }

  /**
   * What a consistent counter means: a safe cell counts its mine
   * neighbours, a mine cell counts them plus itself.
   */
  lemma CounterMeaning(s: seq<Cell>, n: int, r: int, c: int)
    requires |s| == n * n && CountersConsistent(s, n)
    requires 0 <= r < n && 0 <= c < n
    ensures s[Idx(n, r, c)].aroundMines == NeighbourMines(s, n, r, c) + MineBit(s[Idx(n, r, c)])
  {
    assert s[Idx(n, r, c)].aroundMines == BlockMines(s, n, r, c);
    assert MineAt(s, n, r, c) == MineBit(s[Idx(n, r, c)]);
  }

  /** Two grids with the same mine flags have the same block counts. */
  lemma SameMinesSameBlocks(s: seq<Cell>, t: seq<Cell>, n: int)
    requires |s| == |t| == n * n
    requires forall k :: 0 <= k < |s| ==> s[k].mine == t[k].mine
    ensures forall r, c :: BlockMines(s, n, r, c) == BlockMines(t, n, r, c)
  {
    assert forall r, c :: MineAt(s, n, r, c) == MineAt(t, n, r, c);
  }

  /** Counters are consistent whatever the open flags are. */
  lemma ConsistencyIgnoresOpenFlags(s: seq<Cell>, t: seq<Cell>, n: int)
    requires |s| == |t| == n * n
    requires forall k :: 0 <= k < |s| ==> s[k].mine == t[k].mine && s[k].aroundMines == t[k].aroundMines
    requires CountersConsistent(s, n)
    ensures CountersConsistent(t, n)
  {
    SameMinesSameBlocks(s, t, n);
  }

  /** A freshly allocated grid has no mines and consistent (zero) counters. */
  lemma FreshGrid(s: seq<Cell>, n: int)
    requires |s| == n * n
    requires forall k :: 0 <= k < |s| ==> s[k] == FreshCell
    ensures CountMines(s) == 0
    ensures CountersConsistent(s, n)
  {
    CountMinesSameFlags(s, seq(|s|, _ => FreshCell));
    FreshCountIsZero(|s|);
  }

  lemma {:induction false} FreshCountIsZero(len: nat)
    ensures CountMines(seq(len, _ => FreshCell)) == 0
  {
    if len > 0 {
      assert seq(len, _ => FreshCell)[..len - 1] == seq(len - 1, _ => FreshCell);
      FreshCountIsZero(len - 1);
    }
  }

  /** Turning cell t into a mine changes the mine bit of (r, c) only when (r, c) is t. */
  lemma MineAtAfterPlacement(s: seq<Cell>, n: int, tr: int, tc: int)
    requires |s| == n * n && 0 <= tr < n && 0 <= tc < n
    requires !s[Idx(n, tr, tc)].mine
    ensures var t := s[Idx(n, tr, tc) := s[Idx(n, tr, tc)].(mine := true)];
      forall r, c :: MineAt(t, n, r, c) == MineAt(s, n, r, c) + (if r == tr && c == tc then 1 else 0)
  {
  }

  /** Placing a mine at t adds one to the block count of exactly the cells around t. */
  lemma BlockAfterPlacement(s: seq<Cell>, n: int, tr: int, tc: int, r: int, c: int)
    requires |s| == n * n && 0 <= tr < n && 0 <= tc < n
    requires !s[Idx(n, tr, tc)].mine
    ensures var t := s[Idx(n, tr, tc) := s[Idx(n, tr, tc)].(mine := true)];
      BlockMines(t, n, r, c) == BlockMines(s, n, r, c) + (if InBlock(r, c, tr, tc) then 1 else 0)
  {
    MineAtAfterPlacement(s, n, tr, tc);
  }

  /**
   * One round of _scatter_mines keeps the counters consistent: `after` has
   * a mine at t where `before` had none, and one more on each counter of
   * the block around t.
   */
  lemma ConsistentAfterPlacement(before: seq<Cell>, after: seq<Cell>, n: int, tr: int, tc: int)
    requires |before| == |after| == n * n && 0 <= tr < n && 0 <= tc < n
    requires CountersConsistent(before, n)
    requires !before[Idx(n, tr, tc)].mine
    requires forall k :: 0 <= k < |after| ==> after[k].mine == (before[k].mine || k == Idx(n, tr, tc))
    requires forall r, c :: 0 <= r < n && 0 <= c < n ==>
      after[Idx(n, r, c)].aroundMines == before[Idx(n, r, c)].aroundMines + (if InBlock(r, c, tr, tc) then 1 else 0)
    ensures CountersConsistent(after, n)
  {
    var marked := before[Idx(n, tr, tc) := before[Idx(n, tr, tc)].(mine := true)];
    SameMinesSameBlocks(marked, after, n);
    forall r, c | 0 <= r < n && 0 <= c < n
      ensures after[Idx(n, r, c)].aroundMines == BlockMines(after, n, r, c)
    {
      BlockAfterPlacement(before, n, tr, tc, r, c);
    }
  }

  /**
   * On a 2×2 board full of mines every counter is 4: the counter includes
   * the cell itself, so it is not the neighbour count 3.
   */
  lemma FullTwoByTwo(s: seq<Cell>)
    requires |s| == 4 && CountMines(s) == 4 && CountersConsistent(s, 2)
    ensures forall k :: 0 <= k < 4 ==> s[k].aroundMines == 4
  {
    AllMinesCount(s);
    forall k | 0 <= k < 4 ensures s[k].aroundMines == 4 {
      PlacementInBounds(k, 2);
      var r, c := k / 2, k % 2;
      assert MineAt(s, 2, 0, 0) == 1 && MineAt(s, 2, 0, 1) == 1;
      assert MineAt(s, 2, 1, 0) == 1 && MineAt(s, 2, 1, 1) == 1;
      assert s[Idx(2, r, c)].aroundMines == BlockMines(s, 2, r, c);
    }
  }

  // ---------------------------------------------------------------------
  // The random source
  // ---------------------------------------------------------------------

  /**
   * `random.randint`, injected. The body is some generator; the board
   * relies only on the range promised by the contract.
   */
  class RandomSource {
    var state: nat

    constructor (seed: nat)
      ensures state == seed
    {
      state := seed;
    }

    /** A draw in [low, high], both ends included. */
    method RandInt(low: int, high: int) returns (r: int)
      requires low <= high
      modifies this
      ensures low <= r <= high
    {
      state := (state * 1103515245 + 12345) % 0x8000_0000;
      r := low + state % (high - low + 1);
    }
  }

  // ---------------------------------------------------------------------
  // The board
  // ---------------------------------------------------------------------

  class GamePole {
    var size: int
    var mineCount: int
    /** The side of the grid as built by the last `Init`; the setters leave the grid alone. */
    var side: int
    /** The grid in row-major order: cell (r, c) is pole[Idx(side, r, c)]. */
    var pole: array<Cell>

    ghost predicate Valid()
      reads this, pole
    {
      && ValidFields(size, mineCount)
      && 0 < side
      && pole.Length == side * side
      && CountersConsistent(pole[..], side)
    }

    /** The successful path of `__init__`: both fields set, then `init`. */
    constructor (size: int, mineCount: int, rng: RandomSource)
      requires ValidFields(size, mineCount)
      modifies rng
      ensures Valid() && fresh(pole)
      ensures this.size == size && this.mineCount == mineCount && side == size
      ensures CountMines(pole[..]) == mineCount
      ensures forall k :: 0 <= k < pole.Length ==> !pole[k].flOpen
    {
      this.size := size;
      this.mineCount := mineCount;
      side := 0;
      pole := new Cell[0];
      new;
      Init(rng);
    }

    /**
     * `GamePole(size, mine_count)`: the ValueError of the first failing
     * setter, or a board whose grid holds exactly `mineCount` mines.
     */
    static method Create(size: int, mineCount: int, rng: RandomSource) returns (r: Result<GamePole, Error>)
      modifies rng
      ensures r.Failure? <==> CheckConstruction(size, mineCount).Some?
      ensures r.Failure? ==> r.error == ValueError(CheckConstruction(size, mineCount).value)
      ensures r.Failure? ==> unchanged(rng)
      ensures r.Success? ==> var gp := r.value;
        && fresh(gp) && fresh(gp.pole) && gp.Valid()
        && gp.size == size && gp.mineCount == mineCount && gp.side == size
        && CountMines(gp.pole[..]) == mineCount
        && forall k :: 0 <= k < gp.pole.Length ==> !gp.pole[k].flOpen
    {
      ConstructionVerdict(size, mineCount);
      var check := CheckConstruction(size, mineCount);
      if check.Some? {
        return Failure(ValueError(check.value));
      }
      var gp := new GamePole(size, mineCount, rng);
      return Success(gp);
    }

    /** The `size` setter: validates against the current mine count; the grid is kept. */
    method SetSize(newSize: int) returns (r: Outcome<Error>)
      requires Valid()
      modifies this`size
      ensures Valid()
      ensures newSize <= 0 ==> r == Fail(ValueError(SizeNotPositive))
      ensures newSize > 0 && newSize * newSize < mineCount ==> r == Fail(ValueError(CapacityExceeded))
      ensures r == Pass <==> ValidFields(newSize, mineCount)
      ensures size == (if r == Pass then newSize else old(size))
    {
      var check := CheckSize(newSize, Some(mineCount));
      if check.Some? {
        return Fail(ValueError(check.value));
      }
      size := newSize;
      return Pass;
    }

    /** The `mine_count` setter: validates against the current size; the grid is kept. */
    method SetMineCount(newMineCount: int) returns (r: Outcome<Error>)
      requires Valid()
      modifies this`mineCount
      ensures Valid()
      ensures newMineCount < 0 ==> r == Fail(ValueError(MineCountNegative))
      ensures newMineCount >= 0 && size * size < newMineCount ==> r == Fail(ValueError(CapacityExceeded))
      ensures r == Pass <==> ValidFields(size, newMineCount)
      ensures mineCount == (if r == Pass then newMineCount else old(mineCount))
    {
      var check := CheckMineCount(newMineCount, Some(size));
      if check.Some? {
        return Fail(ValueError(check.value));
      }
      mineCount := newMineCount;
      return Pass;
    }

    /** `init`: a fresh size×size grid, then `_scatter_mines`. */
    method Init(rng: RandomSource)
      requires ValidFields(size, mineCount)
      modifies this, rng
      ensures Valid() && fresh(pole)
      ensures size == old(size) && mineCount == old(mineCount) && side == size
      ensures CountMines(pole[..]) == mineCount
      ensures forall k :: 0 <= k < pole.Length ==> !pole[k].flOpen
    {
      side := size;
      pole := new Cell[size * size](_ => FreshCell);
      ScatterMines(rng);
    }

    /** obtain_random_cell_placement: a drawn linear index split into row and column. */
    method ObtainRandomCellPlacement(rng: RandomSource) returns (row: int, col: int)
      requires 0 < size
      modifies rng
      ensures 0 <= row < size && 0 <= col < size
    {
      MulLe(1, size, size);
      var placement := rng.RandInt(0, size * size - 1);
      PlacementInBounds(placement, size);
      row, col := placement / size, placement % size;
    }

    /** update_around_mines: adds one to every in-bounds counter of the 3×3 block around the target. */
    method UpdateAroundMines(targetRow: int, targetCol: int)
      requires side == size && pole.Length == side * side
      requires 0 <= targetRow < side && 0 <= targetCol < side
      modifies pole
      ensures forall k :: 0 <= k < pole.Length ==>
        pole[k].mine == old(pole[k].mine) && pole[k].flOpen == old(pole[k].flOpen)
      ensures forall r, c :: 0 <= r < side && 0 <= c < side ==>
        pole[Idx(side, r, c)].aroundMines ==
          old(pole[Idx(side, r, c)].aroundMines) + (if InBlock(r, c, targetRow, targetCol) then 1 else 0)
    {
      for rowOffset := -1 to 2
        invariant forall k :: 0 <= k < pole.Length ==>
          pole[k].mine == old(pole[k].mine) && pole[k].flOpen == old(pole[k].flOpen)
        invariant forall r, c :: 0 <= r < side && 0 <= c < side ==>
          pole[Idx(side, r, c)].aroundMines == old(pole[Idx(side, r, c)].aroundMines) +
            (if targetRow - 1 <= r < targetRow + rowOffset && targetCol - 1 <= c <= targetCol + 1 then 1 else 0)
      {
        for colOffset := -1 to 2
          invariant forall k :: 0 <= k < pole.Length ==>
            pole[k].mine == old(pole[k].mine) && pole[k].flOpen == old(pole[k].flOpen)
          invariant forall r, c :: 0 <= r < side && 0 <= c < side ==>
            pole[Idx(side, r, c)].aroundMines == old(pole[Idx(side, r, c)].aroundMines) +
              (if (targetRow - 1 <= r < targetRow + rowOffset && targetCol - 1 <= c <= targetCol + 1)
                  || (r == targetRow + rowOffset && targetCol - 1 <= c < targetCol + colOffset)
               then 1 else 0)
        {
          var neighborRow, neighborCol := targetRow + rowOffset, targetCol + colOffset;
          if 0 <= neighborRow < size && 0 <= neighborCol < size {
            var k := Idx(side, neighborRow, neighborCol);
            pole[k] := pole[k].(aroundMines := pole[k].aroundMines + 1);
          }
        }
      }
    }

    /**
     * _scatter_mines: nothing to do without mines; otherwise `mineCount`
     * rounds, each of which turns one more cell into a mine.
     */
    method ScatterMines(rng: RandomSource)
      requires ValidFields(size, mineCount) && side == size && pole.Length == side * side
      requires forall k :: 0 <= k < pole.Length ==> pole[k] == FreshCell
      modifies pole, rng
      ensures CountMines(pole[..]) == mineCount
      ensures CountersConsistent(pole[..], side)
      ensures forall k :: 0 <= k < pole.Length ==> !pole[k].flOpen
      ensures mineCount == 0 ==> pole[..] == old(pole[..])
    {
      FreshGrid(pole[..], side);
      if mineCount == 0 {
        return;
      }
      for placed := 0 to mineCount
        invariant CountMines(pole[..]) == placed
        invariant CountersConsistent(pole[..], side)
        invariant forall k :: 0 <= k < pole.Length ==> !pole[k].flOpen
      {
        var _, _ := PlaceMine(rng);
      }
    }

    /**
     * The draw-and-retry loop in _scatter_mines, represented by the cell it
     * ends on: the drawn cell, or, if it holds a mine, some cell without one,
     * which exists because fewer than mineCount <= size² mines are placed.
     */
    method DrawFreeCell(rng: RandomSource) returns (row: int, col: int)
      requires ValidFields(size, mineCount) && side == size && pole.Length == side * side
      requires CountMines(pole[..]) < mineCount
      modifies rng
      ensures 0 <= row < side && 0 <= col < side
      ensures !pole[Idx(side, row, col)].mine
    {
      row, col := ObtainRandomCellPlacement(rng);
      if pole[Idx(side, row, col)].mine {
        FreeCellExists(pole[..]);
        var free :| 0 <= free < pole.Length && !pole[..][free].mine;
        PlacementInBounds(free, side);
        row, col := free / side, free % side;
      }
    }

    /**
     * One round of the loop in _scatter_mines: draw a cell without a mine,
     * make it a mine, update the counters around it.
     */
    method PlaceMine(rng: RandomSource) returns (targetRow: int, targetCol: int)
      requires ValidFields(size, mineCount) && side == size && pole.Length == side * side
      requires CountMines(pole[..]) < mineCount
      requires CountersConsistent(pole[..], side)
      modifies pole, rng
      ensures 0 <= targetRow < side && 0 <= targetCol < side
      ensures !old(pole[Idx(side, targetRow, targetCol)].mine)
      ensures forall k :: 0 <= k < pole.Length ==>
        pole[k].mine == (old(pole[k].mine) || k == Idx(side, targetRow, targetCol))
      ensures forall k :: 0 <= k < pole.Length ==> pole[k].flOpen == old(pole[k].flOpen)
      ensures CountMines(pole[..]) == old(CountMines(pole[..])) + 1
      ensures CountersConsistent(pole[..], side)
    {
      targetRow, targetCol := DrawFreeCell(rng);
      ghost var before := pole[..];
      var k := Idx(side, targetRow, targetCol);
      pole[k] := pole[k].(mine := true);
      CountMinesUpdate(before, k, pole[k]);
      ghost var marked := pole[..];
      UpdateAroundMines(targetRow, targetCol);
      CountMinesSameFlags(marked, pole[..]);
      ghost var after := pole[..];
      assert forall i :: 0 <= i < |after| ==> after[i].mine == (before[i].mine || i == k);
      forall r, c | 0 <= r < side && 0 <= c < side
        ensures after[Idx(side, r, c)].aroundMines ==
          before[Idx(side, r, c)].aroundMines + (if InBlock(r, c, targetRow, targetCol) then 1 else 0)
      {
        assert marked[Idx(side, r, c)].aroundMines == before[Idx(side, r, c)].aroundMines;
      }
      ConsistentAfterPlacement(before, after, side, targetRow, targetCol);
    }

    /**
     * open_cell: IndexError for a row, then a column, outside [0, size);
     * IndexError again when the grid built for an earlier size is too small;
     * otherwise exactly that cell is opened.
     */
    method OpenCell(cellRow: int, cellCol: int) returns (r: Outcome<Error>)
      requires Valid()
      modifies pole
      ensures Valid()
      ensures !(0 <= cellRow < size) ==> r == Fail(IndexError(RowOutOfRange))
      ensures 0 <= cellRow < size && !(0 <= cellCol < size) ==> r == Fail(IndexError(ColumnOutOfRange))
      ensures 0 <= cellRow < size && 0 <= cellCol < size && (cellRow >= side || cellCol >= side) ==>
                r == Fail(IndexError(GridLookup))
      ensures r == Pass <==> 0 <= cellRow < size && 0 <= cellCol < size && cellRow < side && cellCol < side
      ensures r.Fail? ==> pole[..] == old(pole[..])
      ensures r.Pass? ==>
        && 0 <= cellRow < side && 0 <= cellCol < side
        && pole[..] == old(pole[..])[Idx(side, cellRow, cellCol) := Opened(old(pole[Idx(side, cellRow, cellCol)]))]
    {
      if !(0 <= cellRow < size) {
        return Fail(IndexError(RowOutOfRange));
      }
      if !(0 <= cellCol < size) {
        return Fail(IndexError(ColumnOutOfRange));
      }
      if cellRow >= side || cellCol >= side {
        return Fail(IndexError(GridLookup));
      }
      ghost var before := pole[..];
      var k := Idx(side, cellRow, cellCol);
      pole[k] := Opened(pole[k]);
      ConsistencyIgnoresOpenFlags(before, pole[..], side);
      return Pass;
    }

    /** open_all: every cell of the grid opened, nothing else changed. */
    method OpenAll()
      requires Valid()
      modifies pole
      ensures Valid()
      ensures forall k :: 0 <= k < pole.Length ==> pole[k] == Opened(old(pole[k]))
    {
      for row := 0 to side
        invariant row * side <= pole.Length
        invariant forall k :: 0 <= k < row * side ==> pole[k] == Opened(old(pole[k]))
        invariant forall k :: row * side <= k < pole.Length ==> pole[k] == old(pole[k])
      {
        ghost var base := row * side;
        MulLe(row + 1, side, side);
        assert base + side == (row + 1) * side;
        for col := 0 to side
          invariant base + col <= pole.Length
          invariant forall k :: 0 <= k < base + col ==> pole[k] == Opened(old(pole[k]))
          invariant forall k :: base + col <= k < pole.Length ==> pole[k] == old(pole[k])
        {
          var k := Idx(side, row, col);
          assert k == base + col;
          pole[k] := Opened(pole[k]);
        }
      }
      ConsistencyIgnoresOpenFlags(old(pole[..]), pole[..], side);
    }
  }
}
