/** There are enough free cells in a symbol for the codewords of its version, and the
    function patterns do not damage one another. */
module QrCapacity {
  import opened QrCodewords
  import opened QrPatterns
  import opened QrPlacement
  import QrFormat

  /** The reservation the function patterns of a version make. */
  function ReservedIn(version: nat): Reservation {
    (r, c) => PatternAt(version, r, c) != Free
  }

  // ----- what is reserved -----

  /** The timing column is reserved from end to end. */
  lemma ColumnSixReserved(version: nat, r: int)
    requires 1 <= version <= 40 && 0 <= r < Size(version)
    ensures ReservedIn(version)(r, 6) && ReservedIn(version)(6, r)
  {
    hide VersionWord, Near, Positions;
  }

  /** The format information and the dark module only take reserved cells. */
  lemma FormatCellsReserved(version: nat, r: int, c: int)
    requires 1 <= version <= 40 && 0 <= r < Size(version) && 0 <= c < Size(version)
    requires QrFormat.FormatBit(Size(version), r, c) >= 0 || (r == Size(version) - 8 && c == 8)
    ensures ReservedIn(version)(r, c)
  {
    hide VersionWord, AlignmentMark, Near, Positions, FinderMark;
  }

  // ----- the patterns are whole -----

  /** Alignment patterns keep clear of the corners of the finder patterns. */
  lemma AlignmentClearOfFinders(version: nat, r: int, c: int)
    requires 1 <= version <= 40 && OnAlignment(Positions(version), r, c)
    ensures var n := Size(version);
            && (r > 8 || c > 8) && (r > 8 || c < n - 8) && (r < n - 8 || c > 8)
  {
    hide Positions;
    var ps := Positions(version);
    PositionsSpaced(version);
    var i, j, last := Near(ps, r), Near(ps, c), |ps| - 1;
    assert 0 < i ==> ps[i] - ps[0] >= 12;
    assert 0 < j ==> ps[j] - ps[0] >= 12;
    assert i < last ==> ps[last] - ps[i] >= 12;
    assert j < last ==> ps[last] - ps[j] >= 12;
  }

  /** Each of the three finder patterns and its separator is drawn whole: nothing that
      is drawn later touches it. */
  lemma FindersIntact(version: nat, r: int, c: int)
    requires 1 <= version <= 40
    ensures 0 <= r <= 7 && 0 <= c <= 7 ==> PatternAt(version, r, c) == FinderMark(r, c)
    ensures 0 <= r <= 7 && -1 <= c <= 6 ==>
      PatternAt(version, r, Size(version) - 7 + c) == FinderMark(r, c)
    ensures -1 <= r <= 6 && 0 <= c <= 7 ==>
      PatternAt(version, Size(version) - 7 + r, c) == FinderMark(r, c)
  {
    hide VersionWord, AlignmentMark, Near, Positions, FinderMark, OnAlignment;
    var n := Size(version);
    if 0 <= r <= 7 && 0 <= c <= 7 && OnAlignment(Positions(version), r, c) {
      AlignmentClearOfFinders(version, r, c);
    }
    if 0 <= r <= 7 && -1 <= c <= 6 && OnAlignment(Positions(version), r, n - 7 + c) {
      AlignmentClearOfFinders(version, r, n - 7 + c);
    }
    if -1 <= r <= 6 && 0 <= c <= 7 && OnAlignment(Positions(version), n - 7 + r, c) {
      AlignmentClearOfFinders(version, n - 7 + r, c);
    }
  }

  /** Alignment patterns keep clear of the format cells and of the version information. */
  lemma AlignmentClearOfFormat(version: nat, i: nat, j: nat, r: int, c: int)
    requires 1 <= version <= 40 && -2 <= r <= 2 && -2 <= c <= 2
    requires i < |Positions(version)| && j < |Positions(version)| && !Corner(Positions(version), i, j)
    ensures var n, y, x := Size(version), Positions(version)[i] + r, Positions(version)[j] + c;
            VersionBit(n, y, x) == -1 && !FormatCell(n, y, x) && !(y == n - 8 && x == 8)
  {
    hide Positions;
    var ps := Positions(version);
    PositionsSpaced(version);
    var last := |ps| - 1;
    assert 0 < i ==> ps[i] - ps[0] >= 12;
    assert 0 < j ==> ps[j] - ps[0] >= 12;
    assert i < last ==> ps[last] - ps[i] >= 12;
    assert j < last ==> ps[last] - ps[j] >= 12;
  }

  /** Each alignment pattern is drawn whole, those that lie on a timing line included. */
  lemma AlignmentIntact(version: nat, i: nat, j: nat, r: int, c: int)
    requires 1 <= version <= 40 && -2 <= r <= 2 && -2 <= c <= 2
    requires i < |Positions(version)| && j < |Positions(version)| && !Corner(Positions(version), i, j)
    ensures PatternAt(version, Positions(version)[i] + r, Positions(version)[j] + c) == AlignmentMark(r, c)
  {
    hide Positions, VersionWord, AlignmentMark, VersionBit, FormatCell, Near, Spaced;
    AlignmentClearOfFormat(version, i, j, r, c);
    var ps := Positions(version);
    PositionsSpaced(version);
    NearIsUnique(ps, i);
    NearIsUnique(ps, j);
    assert Near(ps, ps[i] + r) == i && Near(ps, ps[j] + c) == j;
  }

  /** The timing lines alternate from one finder to the other, also where an alignment
      pattern is drawn over them. */
  lemma TimingIntact(version: nat, k: int)
    requires 1 <= version <= 40 && 8 <= k < Size(version) - 8
    ensures PatternAt(version, 6, k) == Ink(k % 2 == 0)
    ensures PatternAt(version, k, 6) == Ink(k % 2 == 0)
  {
    hide VersionWord, Positions;
    var ps := Positions(version);
    PositionsSpaced(version);
    if |ps| > 0 {
      NearIsUnique(ps, 0);
      assert ps[0] == 6;
      var j := Near(ps, k);
      if j >= 0 {
        assert ps[j] % 2 == 0;
      }
    }
  }

  // ----- counting cells: every region is a set of rows times a set of columns -----

  function Range(lo: int, hi: int): (xs: set<int>)
    ensures forall x :: x in xs <==> lo <= x < hi
    decreases hi - lo
  {
    if lo >= hi then {} else Range(lo, hi - 1) + {hi - 1}
  }

  function Block(rows: set<int>, cols: set<int>): set<Cell> {
    set r, c | r in rows && c in cols :: Cell(r, c)
  }

  lemma {:induction false} RangeSize(lo: int, hi: int)
    requires lo <= hi
    ensures |Range(lo, hi)| == hi - lo
    decreases hi - lo
  {
    if lo < hi {
      RangeSize(lo, hi - 1);
      assert Range(lo, hi) == Range(lo, hi - 1) + {hi - 1};
    }
  }

  lemma BlockWithoutRow(rows: set<int>, r: int, cols: set<int>)
    requires r in rows
    ensures Block(rows, cols) == Block(rows - {r}, cols) + Block({r}, cols)
    ensures Block(rows - {r}, cols) !! Block({r}, cols)
  {}

  lemma {:induction false} BlockSize(rows: set<int>, cols: set<int>)
    ensures |Block(rows, cols)| == |rows| * |cols|
  {
    hide Block;
    if forall r :: r !in rows {
      assert rows == {};
      NoRows(cols);
    } else {
      var r :| r in rows;
      BlockWithoutRow(rows, r, cols);
      BlockSize(rows - {r}, cols);
      RowSize(r, cols);
      TimesOneLess(|rows|, |cols|);
    }
  }

  lemma NoRows(cols: set<int>)
    ensures Block({}, cols) == {}
  {}

  lemma TimesOneLess(a: nat, b: nat)
    ensures a * b == (a - 1) * b + b
  {}

  lemma {:induction false} RowSize(r: int, cols: set<int>)
    ensures |Block({r}, cols)| == |cols|
  {
    if forall c :: c !in cols {
      assert cols == {} && Block({r}, cols) == {};
    } else {
      var c :| c in cols;
      RowSize(r, cols - {c});
      assert Block({r}, cols) == Block({r}, cols - {c}) + {Cell(r, c)};
    }
  }

  lemma BlockAtMost(rows: set<int>, cols: set<int>, h: nat, w: nat)
    requires |rows| <= h && |cols| <= w
    ensures |Block(rows, cols)| <= h * w
  {
    BlockSize(rows, cols);
    ProductMonotone(|rows|, h, |cols|);
    ProductMonotone(|cols|, w, h);
  }

  /** The rows within two of a position, from number `lo` up to number `hi`. */
  function Band(ps: seq<int>, lo: nat, hi: nat): set<int>
    requires lo <= hi <= |ps|
    decreases hi
  {
    if lo == hi then {} else Band(ps, lo, hi - 1) + Range(ps[hi - 1] - 2, ps[hi - 1] + 3)
  }

  lemma {:induction false} BandSize(ps: seq<int>, lo: nat, hi: nat)
    requires lo <= hi <= |ps|
    ensures |Band(ps, lo, hi)| <= 5 * (hi - lo)
    decreases hi
  {
    hide Range;
    if lo < hi {
      BandSize(ps, lo, hi - 1);
      RangeSize(ps[hi - 1] - 2, ps[hi - 1] + 3);
    }
  }

  lemma {:induction false} BandHolds(ps: seq<int>, lo: nat, hi: nat, k: nat, x: int)
    requires lo <= k < hi <= |ps| && Abs(x - ps[k]) <= 2
    ensures x in Band(ps, lo, hi)
    decreases hi
  {
    if k < hi - 1 {
      BandHolds(ps, lo, hi - 1, k, x);
    }
  }

  // ----- the regions that cover the reserved cells -----

  function Corners(n: nat): set<Cell> {
    Block(Range(0, 9), Range(0, 9)) + Block(Range(0, 9), Range(n - 8, n)) + Block(Range(n - 8, n), Range(0, 9))
  }

  function TimingLines(n: nat): set<Cell> {
    Block({6}, Range(9, n - 8)) + Block(Range(9, n - 8), {6})
  }

  function Crossings(ps: seq<int>): set<Cell>
    requires |ps| >= 2
  {
    var k := |ps|;
    Block(Band(ps, 1, k), Band(ps, 1, k))
    + Block({4, 5, 7, 8}, Band(ps, 1, k - 1)) + Block(Band(ps, 1, k - 1), {4, 5, 7, 8})
  }

  function VersionAreas(n: nat): set<Cell> {
    Block(Range(0, 6), Range(n - 11, n - 8)) + Block(Range(n - 11, n - 8), Range(0, 6))
  }

  function Cover(version: nat): set<Cell> {
    var n, ps := Size(version), Positions(version);
    Corners(n) + TimingLines(n) + (if |ps| >= 2 then Crossings(ps) else {})
    + if version >= 7 then VersionAreas(n) else {}
  }

  lemma CornersSize(n: nat)
    requires n >= 21
    ensures |Corners(n)| <= 225
  {
    hide Range;
    RangeSize(0, 9);
    RangeSize(n - 8, n);
    BlockAtMost(Range(0, 9), Range(0, 9), 9, 9);
    BlockAtMost(Range(0, 9), Range(n - 8, n), 9, 8);
    BlockAtMost(Range(n - 8, n), Range(0, 9), 8, 9);
  }

  lemma TimingSize(n: nat)
    requires n >= 21
    ensures |TimingLines(n)| <= 2 * (n - 17)
  {
    hide Range;
    RangeSize(9, n - 8);
    BlockAtMost({6}, Range(9, n - 8), 1, n - 17);
    BlockAtMost(Range(9, n - 8), {6}, n - 17, 1);
  }

  lemma CrossingsSize(ps: seq<int>)
    requires |ps| >= 2
    ensures |Crossings(ps)| <= 25 * (|ps| - 1) * (|ps| - 1) + 40 * (|ps| - 2)
  {
    hide Band;
    var k := |ps|;
    BandSize(ps, 1, k);
    BandSize(ps, 1, k - 1);
    var many, edge := Band(ps, 1, k), Band(ps, 1, k - 1);
    BlockAtMost(many, many, 5 * (k - 1), 5 * (k - 1));
    BlockAtMost({4, 5, 7, 8}, edge, 4, 5 * (k - 2));
    BlockAtMost(edge, {4, 5, 7, 8}, 5 * (k - 2), 4);
    assert (5 * (k - 1)) * (5 * (k - 1)) == 25 * (k - 1) * (k - 1);
  }

  lemma VersionAreasSize(n: nat)
    requires n >= 45
    ensures |VersionAreas(n)| <= 36
  {
    hide Range;
    RangeSize(0, 6);
    RangeSize(n - 11, n - 8);
    BlockAtMost(Range(0, 6), Range(n - 11, n - 8), 6, 3);
    BlockAtMost(Range(n - 11, n - 8), Range(0, 6), 3, 6);
  }

  /** Every reserved cell lies in one of the regions. */
  lemma ReservedIsCovered(version: nat, r: int, c: int)
    requires 1 <= version <= 40 && 0 <= r < Size(version) && 0 <= c < Size(version)
    requires ReservedIn(version)(r, c)
    ensures Cell(r, c) in Cover(version)
  {
    hide VersionWord, Positions, AlignmentMark, FinderMark, Near, Band, Crossings;
    var n, ps := Size(version), Positions(version);
    if OnAlignment(ps, r, c) {
      CrossingCovered(version, r, c);
    }
  }

  lemma CrossingCovered(version: nat, r: int, c: int)
    requires 1 <= version <= 40 && 0 <= r < Size(version) && 0 <= c < Size(version)
    requires OnAlignment(Positions(version), r, c)
    ensures |Positions(version)| >= 2
    ensures Cell(r, c) in Crossings(Positions(version)) || r == 6 || c == 6
  {
    hide Positions, Near;
    var ps := Positions(version);
    PositionsSpaced(version);
    var i, j, k := Near(ps, r), Near(ps, c), |ps|;
    hide Band, Block;
    InBlocks(ps, r, c);
    if i == 0 {
      BandHolds(ps, 1, k - 1, j, c);
    } else if j == 0 {
      BandHolds(ps, 1, k - 1, i, r);
    } else {
      BandHolds(ps, 1, k, i, r);
      BandHolds(ps, 1, k, j, c);
    }
  }

  lemma InBlocks(ps: seq<int>, r: int, c: int)
    requires |ps| >= 2
    ensures var many, edge := Band(ps, 1, |ps|), Band(ps, 1, |ps| - 1);
            && (r in many && c in many ==> Cell(r, c) in Block(many, many))
            && (r in {4, 5, 7, 8} && c in edge ==> Cell(r, c) in Block({4, 5, 7, 8}, edge))
            && (r in edge && c in {4, 5, 7, 8} ==> Cell(r, c) in Block(edge, {4, 5, 7, 8}))
  {
    hide Band;
  }

  /** At most this many cells are reserved. */
  function ReservedBound(version: nat): int {
    var k := PositionCount(version);
    225 + 2 * (Size(version) - 17)
    + (if version >= 2 then 25 * (k - 1) * (k - 1) + 40 * (k - 2) else 0)
    + if version >= 7 then 36 else 0
  }

  lemma CoverSize(version: nat)
    requires 1 <= version <= 40
    ensures |Cover(version)| <= ReservedBound(version)
  {
    hide Positions, Corners, TimingLines, Crossings, VersionAreas, PositionCount;
    var n, ps := Size(version), Positions(version);
    CornersSize(n);
    TimingSize(n);
    PositionsSpaced(version);
    if version >= 2 {
      CrossingsSize(ps);
    }
    if version >= 7 {
      VersionAreasSize(n);
    }
  }

  lemma RoomInTable(version: nat)
    requires 1 <= version <= 40
    ensures Size(version) * Size(version) - ReservedBound(version) >= 8 * Info(version).total
  {
    hide Info, ReservedBound;
    if version <= 20 {
      RoomInSmall(version);
    } else {
      RoomInLarge(version);
    }
  }

  lemma RoomInSmall(version: nat)
    requires 1 <= version <= 20
    ensures Size(version) * Size(version) - ReservedBound(version) >= 8 * Info(version).total
  {}

  lemma RoomInLarge(version: nat)
    requires 21 <= version <= 40
    ensures Size(version) * Size(version) - ReservedBound(version) >= 8 * Info(version).total
  {}

  lemma {:induction false} DistinctSize(s: seq<Cell>)
    requires Distinct(s)
    ensures |set cell | cell in s| == |s|
  {
    if s != [] {
      var init, last := s[..|s| - 1], s[|s| - 1];
      DistinctSize(init);
      assert (set cell | cell in s) == (set cell | cell in init) + {last};
      assert last !in init;
    }
  }

  /** The free cells of a symbol are enough for all the codewords of its version. */
  lemma EnoughCells(version: nat)
    requires 1 <= version <= 40
    ensures |DataCells(Size(version), ReservedIn(version))| >= 8 * Info(version).total
  {
    hide PatternAt, Info, DataCells, Cover, ReservedBound;
    var n, res := Size(version), ReservedIn(version);
    var cells := DataCells(n, res);
    forall r | 0 <= r < n ensures res(r, 6) {
      ColumnSixReserved(version, r);
    }
    DataCellsAreTheFreeCells(n, res);
    DistinctSize(cells);
    var free := set cell | cell in cells;
    var all := Block(Range(0, n), Range(0, n));
    forall cell | cell in all ensures cell in free + Cover(version) {
      if res(cell.row, cell.col) {
        ReservedIsCovered(version, cell.row, cell.col);
      }
    }
    SubsetSize(all, free + Cover(version));
    RangeSize(0, n);
    BlockSize(Range(0, n), Range(0, n));
    CoverSize(version);
    RoomInTable(version);
  }

  lemma {:induction false} SubsetSize(a: set<Cell>, b: set<Cell>)
    requires a <= b
    ensures |a| <= |b|
  {
    assert |b| == |a| + |b - a| by { assert b == a + (b - a); }
  }
}
