/** Where the bits of the codewords go in the matrix, and the mask laid over them.
    Everything here holds for any odd size of at least seven and any reservation. */
module QrPlacement {
  import opened GaloisField
  import opened QrCodewords

  datatype Cell = Cell(row: int, col: int)

  type Reservation = (int, int) -> bool

  predicate Inside(n: nat, cell: Cell) { 0 <= cell.row < n && 0 <= cell.col < n }

  predicate Placeable(n: nat) { n >= 7 && n % 2 == 1 }

  // ----- the walk: two columns at a time from the right, skipping column 6 -----

  function Pairs(n: nat): nat { n / 2 }

  /** The right column of pair `p`. */
  function Right(n: nat, p: int): int {
    if n - 1 - 2 * p > 6 then n - 1 - 2 * p else n - 2 - 2 * p
  }

  /** Bit 1 of right + 1 is clear. */
  predicate Upward(right: int) { (right + 1) / 2 % 2 == 0 }

  /** The cell at step `k` of the walk over pair `p`. */
  function CellOf(n: nat, p: int, k: int): Cell {
    var right := Right(n, p);
    Cell(if Upward(right) then n - 1 - k / 2 else k / 2, right - k % 2)
  }

  function PairOf(n: nat, cell: Cell): int {
    if cell.col > 6 then (n - 1 - cell.col) / 2 else (n - 2 - cell.col) / 2
  }

  function StepOf(n: nat, cell: Cell): int {
    var right := Right(n, PairOf(n, cell));
    2 * (if Upward(right) then n - 1 - cell.row else cell.row) + (right - cell.col)
  }

  predicate Before(n: nat, cell: Cell, p: int, k: int) {
    PairOf(n, cell) < p || (PairOf(n, cell) == p && StepOf(n, cell) < k)
  }

  /** Each step of each pair is a cell, whose pair and step they are. */
  lemma StepIsCell(n: nat, p: int, k: int)
    requires Placeable(n) && 0 <= p < Pairs(n) && 0 <= k < 2 * n
    ensures Inside(n, CellOf(n, p, k)) && CellOf(n, p, k).col != 6
    ensures PairOf(n, CellOf(n, p, k)) == p && StepOf(n, CellOf(n, p, k)) == k
  {}

  /** Each cell outside of column 6 is a step of the walk. */
  lemma CellIsStep(n: nat, cell: Cell)
    requires Placeable(n) && Inside(n, cell) && cell.col != 6
    ensures 0 <= PairOf(n, cell) < Pairs(n) && 0 <= StepOf(n, cell) < 2 * n
    ensures CellOf(n, PairOf(n, cell), StepOf(n, cell)) == cell
  {}

  /** On a symbol the pairs are walked upwards and downwards in turn, upwards first. */
  lemma DirectionsAlternate(version: nat, p: nat)
    requires 1 <= version && p < Pairs(Size(version))
    ensures Upward(Right(Size(version), p)) <==> p % 2 == 0
  {}

  /** The free cells met before step `k` of pair `p`, in order. */
  function Visited(n: nat, res: Reservation, p: nat, k: nat): seq<Cell>
    decreases p, k
  {
    if k > 0 then
      var cell := CellOf(n, p, k - 1);
      Visited(n, res, p, k - 1) + if res(cell.row, cell.col) then [] else [cell]
    else if p > 0 then Visited(n, res, p - 1, 2 * n)
    else []
  }

  /** The cells that carry data, in the order the data fills them. */
  function DataCells(n: nat, res: Reservation): seq<Cell> { Visited(n, res, Pairs(n), 0) }

  predicate Distinct<T(==)>(s: seq<T>) { forall i, j :: 0 <= i < j < |s| ==> s[i] != s[j] }

  lemma {:induction false} VisitedCells(n: nat, res: Reservation, p: nat, k: nat)
    requires Placeable(n) && (p < Pairs(n) || (p == Pairs(n) && k == 0)) && k <= 2 * n
    ensures forall cell :: cell in Visited(n, res, p, k) <==>
      Inside(n, cell) && cell.col != 6 && !res(cell.row, cell.col) && Before(n, cell, p, k)
    ensures Distinct(Visited(n, res, p, k))
    decreases p, k
  {
    hide CellOf, PairOf, StepOf;
    var v := Visited(n, res, p, k);
    if k > 0 {
      var last := CellOf(n, p, k - 1);
      VisitedCells(n, res, p, k - 1);
      StepIsCell(n, p, k - 1);
      forall cell ensures cell in v <==>
        Inside(n, cell) && cell.col != 6 && !res(cell.row, cell.col) && Before(n, cell, p, k)
      {
        if Inside(n, cell) && cell.col != 6 {
          CellIsStep(n, cell);
        }
      }
    } else if p > 0 {
      VisitedCells(n, res, p - 1, 2 * n);
      forall cell ensures cell in v <==>
        Inside(n, cell) && cell.col != 6 && !res(cell.row, cell.col) && Before(n, cell, p, k)
      {
        if Inside(n, cell) && cell.col != 6 {
          CellIsStep(n, cell);
        }
      }
    } else {
      forall cell | Inside(n, cell) && cell.col != 6 ensures !Before(n, cell, 0, 0) {
        CellIsStep(n, cell);
      }
    }
  }

  /** The walk is a bijection: it meets every free cell, once, and no reserved one. */
  lemma DataCellsAreTheFreeCells(n: nat, res: Reservation)
    requires Placeable(n)
    requires forall r :: 0 <= r < n ==> res(r, 6)
    ensures Distinct(DataCells(n, res))
    ensures forall cell :: cell in DataCells(n, res) <==> Inside(n, cell) && !res(cell.row, cell.col)
  {
    VisitedCells(n, res, Pairs(n), 0);
    forall cell | Inside(n, cell) && cell.col != 6 ensures Before(n, cell, Pairs(n), 0) {
      CellIsStep(n, cell);
    }
  }

  // ----- placing -----

  /** The bit `m` of the codewords, and zero once they are used up. */
  predicate DataBit(data: seq<Byte>, m: nat) {
    m / 8 < |data| && Bit(data[m / 8], 7 - m % 8)
  }

  lemma DataBitIsFlatten(data: seq<Byte>, m: nat)
    requires m < 8 * |data|
    ensures DataBit(data, m) == Flatten(data)[m]
  {
    hide Bit, Flatten;
    FlattenAt(data, m / 8);
    var slice := Flatten(data)[8 * (m / 8)..8 * (m / 8) + 8];
    assert slice[m % 8] == Flatten(data)[m];
  }

  /** Read back along the walk, the cells hold the bits of the codewords, followed only by zeros. */
  lemma DataBitsThenZeros(data: seq<Byte>, count: nat)
    requires 8 * |data| <= count
    ensures seq(count, m requires 0 <= m => DataBit(data, m)) == Flatten(data) + seq(count - 8 * |data|, _ => false)
  {
    hide Bit, Flatten;
    forall m | 0 <= m < count
      ensures DataBit(data, m) == (Flatten(data) + seq(count - 8 * |data|, _ => false))[m]
    {
      if m < 8 * |data| {
        DataBitIsFlatten(data, m);
      }
    }
  }

  /** The matrix agrees with the reservation. */
  ghost predicate Reflects(reserved: array2<bool>, n: nat, res: Reservation)
    reads reserved
  {
    && reserved.Length0 == reserved.Length1 == n
    && forall r, c :: 0 <= r < n && 0 <= c < n ==> reserved[r, c] == res(r, c)
  }

  ghost predicate Holds(modules: array2<bool>, n: nat, cells: seq<Cell>, data: seq<Byte>)
    requires modules.Length0 == modules.Length1 == n
    reads modules
  {
    forall m :: 0 <= m < |cells| ==>
      Inside(n, cells[m]) && modules[cells[m].row, cells[m].col] == DataBit(data, m)
  }

  /** What the matrix is after step `k` of pair `p`: the free cells met so far hold the
      first bits of the data, and `before` still shows everywhere else. */
  ghost predicate PlacedUpTo(modules: array2<bool>, n: nat, res: Reservation, data: seq<Byte>,
                             before: Reservation, p: nat, k: nat, count: nat)
    requires modules.Length0 == modules.Length1 == n
    reads modules
  {
    && count == |Visited(n, res, p, k)|
    && Holds(modules, n, Visited(n, res, p, k), data)
    && forall r, c :: 0 <= r < n && 0 <= c < n && Cell(r, c) !in Visited(n, res, p, k) ==> modules[r, c] == before(r, c)
  }

  /** One step of the walk. */
  method PlaceCell(modules: array2<bool>, reserved: array2<bool>, data: seq<Byte>, row: nat, col: nat, bitIndex: nat,
                   ghost n: nat, ghost res: Reservation, ghost before: Reservation, ghost p: nat, ghost k: nat)
    returns (next: nat)
    requires Placeable(n) && modules.Length0 == modules.Length1 == n && modules != reserved
    requires Reflects(reserved, n, res)
    requires p < Pairs(n) && k < 2 * n && CellOf(n, p, k) == Cell(row, col)
    requires PlacedUpTo(modules, n, res, data, before, p, k, bitIndex)
    modifies modules
    ensures PlacedUpTo(modules, n, res, data, before, p, k + 1, next)
  {
    hide DataBit, Before, CellOf, PairOf, StepOf;
    StepIsCell(n, p, k);
    NotBeforeItself(n, res, p, k);
    next := bitIndex;
    if reserved[row, col] {
      return;
    }
    modules[row, col] := DataBit(data, bitIndex);
    next := bitIndex + 1;
  }

  /** Lays the bits of the codewords along the walk. */
  method PlaceData(modules: array2<bool>, reserved: array2<bool>, data: seq<Byte>,
                   ghost n: nat, ghost res: Reservation, ghost before: Reservation)
    requires Placeable(n) && modules.Length0 == modules.Length1 == n && modules != reserved
    requires Reflects(reserved, n, res)
    requires forall r, c :: 0 <= r < n && 0 <= c < n ==> modules[r, c] == before(r, c)
    modifies modules
    ensures Holds(modules, n, DataCells(n, res), data)
    ensures forall r, c :: 0 <= r < n && 0 <= c < n && Cell(r, c) !in DataCells(n, res) ==> modules[r, c] == before(r, c)
  {
    hide DataBit, Before, PlacedUpTo, CellOf, Reflects, Holds;
    var size := modules.Length0;
    var bitIndex := 0;
    var right := size - 1;
    ghost var p := 0;
    NothingPlaced(modules, n, res, data, before);
    while right >= 1
      invariant 0 <= p <= Pairs(n)
      invariant right == if n - 1 - 2 * p >= 6 then n - 1 - 2 * p else n - 2 - 2 * p
      invariant PlacedUpTo(modules, n, res, data, before, p, 0, bitIndex)
    {
      if right == 6 {
        right := right - 1;
      }
      for vert := 0 to size
        invariant PlacedUpTo(modules, n, res, data, before, p, 2 * vert, bitIndex)
      {
        for j := 0 to 2
          invariant PlacedUpTo(modules, n, res, data, before, p, 2 * vert + j, bitIndex)
        {
          var col := right - j;
          var upward := (right + 1) / 2 % 2 == 0;
          var row := if upward then size - 1 - vert else vert;
          CellOfStep(n, p, vert, j);
          bitIndex := PlaceCell(modules, reserved, data, row, col, bitIndex, n, res, before, p, 2 * vert + j);
        }
      }
      PairDone(modules, n, res, data, before, p, bitIndex);
      right := right - 2;
      p := p + 1;
    }
    AllPlaced(modules, n, res, data, before, bitIndex);
  }

  lemma CellOfStep(n: nat, p: nat, vert: nat, j: nat)
    requires j < 2
    ensures var right := Right(n, p);
            CellOf(n, p, 2 * vert + j) == Cell(if Upward(right) then n - 1 - vert else vert, right - j)
  {}

  lemma NothingPlaced(modules: array2<bool>, n: nat, res: Reservation, data: seq<Byte>, before: Reservation)
    requires modules.Length0 == modules.Length1 == n
    requires forall r, c :: 0 <= r < n && 0 <= c < n ==> modules[r, c] == before(r, c)
    ensures PlacedUpTo(modules, n, res, data, before, 0, 0, 0)
  {}

  lemma PairDone(modules: array2<bool>, n: nat, res: Reservation, data: seq<Byte>, before: Reservation, p: nat, count: nat)
    requires modules.Length0 == modules.Length1 == n
    requires PlacedUpTo(modules, n, res, data, before, p, 2 * n, count)
    ensures PlacedUpTo(modules, n, res, data, before, p + 1, 0, count)
  {
    hide DataBit;
    assert Visited(n, res, p + 1, 0) == Visited(n, res, p, 2 * n);
  }

  lemma AllPlaced(modules: array2<bool>, n: nat, res: Reservation, data: seq<Byte>, before: Reservation, count: nat)
    requires modules.Length0 == modules.Length1 == n
    requires PlacedUpTo(modules, n, res, data, before, Pairs(n), 0, count)
    ensures Holds(modules, n, DataCells(n, res), data)
    ensures forall r, c :: 0 <= r < n && 0 <= c < n && Cell(r, c) !in DataCells(n, res) ==> modules[r, c] == before(r, c)
  {}

  lemma NotBeforeItself(n: nat, res: Reservation, p: nat, k: nat)
    requires Placeable(n) && p < Pairs(n) && k < 2 * n
    ensures CellOf(n, p, k) !in Visited(n, res, p, k)
  {
    VisitedCells(n, res, p, k);
    StepIsCell(n, p, k);
  }
}
