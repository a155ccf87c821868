/** The patterns of a symbol and the order of its cells against the drawings and tables of
    ISO/IEC 18004:2015. */
module QrStandard {
  import opened QrCodewords
  import opened QrPatterns
  import opened QrPlacement

  // ----- finder and alignment patterns (sections 6.3.3 to 6.3.6) -----

  const FINDER_DRAWN: seq<string> :=
    [".........",
     ".#######.",
     ".#.....#.",
     ".#.###.#.",
     ".#.###.#.",
     ".#.###.#.",
     ".#.....#.",
     ".#######.",
     "........."]

  const ALIGNMENT_DRAWN: seq<string> :=
    ["#####",
     "#...#",
     "#.#.#",
     "#...#",
     "#####"]

  lemma Drawings(i: nat)
    ensures |FINDER_DRAWN| == 9 && |ALIGNMENT_DRAWN| == 5
    ensures i < 9 ==> |FINDER_DRAWN[i]| == 9
    ensures i < 5 ==> |ALIGNMENT_DRAWN[i]| == 5
  {}

  /** A finder pattern, its separator around it, is the drawing. */
  lemma FinderIsDrawn(r: int, c: int)
    requires -1 <= r <= 7 && -1 <= c <= 7
    ensures |FINDER_DRAWN| == 9 && |FINDER_DRAWN[r + 1]| == 9
    ensures FinderMark(r, c) == Ink(FINDER_DRAWN[r + 1][c + 1] == '#')
  {
    Drawings(r + 1);
    if r == -1 || r == 7 {
    } else if r == 0 || r == 6 {
    } else if r == 1 || r == 5 {
    } else {
    }
  }

  lemma AlignmentIsDrawn(r: int, c: int)
    requires -2 <= r <= 2 && -2 <= c <= 2
    ensures |ALIGNMENT_DRAWN| == 5 && |ALIGNMENT_DRAWN[r + 2]| == 5
    ensures AlignmentMark(r, c) == Ink(ALIGNMENT_DRAWN[r + 2][c + 2] == '#')
  {
    Drawings(r + 2);
  }

  // ----- where alignment patterns are (annex E) -----

  function PositionTable(version: nat): seq<int>
    requires 1 <= version <= 40
  {
    match version
    case 1 => []
    case 2 => [6, 18]
    case 3 => [6, 22]
    case 4 => [6, 26]
    case 5 => [6, 30]
    case 6 => [6, 34]
    case 7 => [6, 22, 38]
    case 8 => [6, 24, 42]
    case 9 => [6, 26, 46]
    case 10 => [6, 28, 50]
    case 11 => [6, 30, 54]
    case 12 => [6, 32, 58]
    case 13 => [6, 34, 62]
    case 14 => [6, 26, 46, 66]
    case 15 => [6, 26, 48, 70]
    case 16 => [6, 26, 50, 74]
    case 17 => [6, 30, 54, 78]
    case 18 => [6, 30, 56, 82]
    case 19 => [6, 30, 58, 86]
    case 20 => [6, 34, 62, 90]
    case 21 => [6, 28, 50, 72, 94]
    case 22 => [6, 26, 50, 74, 98]
    case 23 => [6, 30, 54, 78, 102]
    case 24 => [6, 28, 54, 80, 106]
    case 25 => [6, 32, 58, 84, 110]
    case 26 => [6, 30, 58, 86, 114]
    case 27 => [6, 34, 62, 90, 118]
    case 28 => [6, 26, 50, 74, 98, 122]
    case 29 => [6, 30, 54, 78, 102, 126]
    case 30 => [6, 26, 52, 78, 104, 130]
    case 31 => [6, 30, 56, 82, 108, 134]
    case 32 => [6, 34, 60, 86, 112, 138]
    case 33 => [6, 30, 58, 86, 114, 142]
    case 34 => [6, 34, 62, 90, 118, 146]
    case 35 => [6, 30, 54, 78, 102, 126, 150]
    case 36 => [6, 24, 50, 76, 102, 128, 154]
    case 37 => [6, 28, 54, 80, 106, 132, 158]
    case 38 => [6, 32, 58, 84, 110, 136, 162]
    case 39 => [6, 26, 54, 82, 110, 138, 166]
    case _ => [6, 30, 58, 86, 114, 142, 170]
  }

  /** The positions, counted back from the last one. */
  lemma PositionsAre(version: nat, count: nat, step: nat)
    requires 2 <= version <= 40 && count == version / 7 + 2 && (version != 32 ==> (4 * version + 4 + 2 * count - 3) / (2 * count - 2) * 2 == step)
    requires version == 32 ==> step == 26
    ensures |Positions(version)| == count && forall k :: 0 <= k < count ==>
      Positions(version)[k] == if k == 0 then 6 else 4 * version + 10 - (count - 1 - k) * step
  {
    assert PositionCount(version) == count && PositionStep(version) == step;
    hide PositionCount, PositionStep;
    forall k | 0 < k < count ensures Positions(version)[k] == 4 * version + 10 - (count - 1 - k) * step {
      FromEndIs(version, count - 1 - k);
    }
  }

  lemma Positions1To4(version: nat)
    requires 1 <= version <= 4
    ensures Positions(version) == PositionTable(version)
  {
    if version == 1 {
    } else if version == 2 {
      PositionsAre(version, 2, 12);
    } else if version == 3 {
      PositionsAre(version, 2, 16);
    } else if version == 4 {
      PositionsAre(version, 2, 20);
    }
  }

  lemma Positions5To8(version: nat)
    requires 5 <= version <= 8
    ensures Positions(version) == PositionTable(version)
  {
    hide Positions;
    if version == 5 {
      PositionsAre(version, 2, 24);
    } else if version == 6 {
      PositionsAre(version, 2, 28);
    } else if version == 7 {
      PositionsAre(version, 3, 16);
    } else if version == 8 {
      PositionsAre(version, 3, 18);
    }
  }

  lemma Positions9To12(version: nat)
    requires 9 <= version <= 12
    ensures Positions(version) == PositionTable(version)
  {
    hide Positions;
    if version == 9 {
      PositionsAre(version, 3, 20);
    } else if version == 10 {
      PositionsAre(version, 3, 22);
    } else if version == 11 {
      PositionsAre(version, 3, 24);
    } else if version == 12 {
      PositionsAre(version, 3, 26);
    }
  }

  lemma Positions13To16(version: nat)
    requires 13 <= version <= 16
    ensures Positions(version) == PositionTable(version)
  {
    hide Positions;
    if version == 13 {
      PositionsAre(version, 3, 28);
    } else if version == 14 {
      PositionsAre(version, 4, 20);
    } else if version == 15 {
      PositionsAre(version, 4, 22);
    } else if version == 16 {
      PositionsAre(version, 4, 24);
    }
  }

  lemma Positions17To18(version: nat)
    requires 17 <= version <= 18
    ensures Positions(version) == PositionTable(version)
  {
    hide Positions;
    if version == 17 {
      PositionsAre(17, 4, 24);
    } else {
      PositionsAre(18, 4, 26);
    }
  }

  lemma Positions19To20(version: nat)
    requires 19 <= version <= 20
    ensures Positions(version) == PositionTable(version)
  {
    hide Positions;
    if version == 19 {
      PositionsAre(19, 4, 28);
    } else {
      PositionsAre(20, 4, 28);
    }
  }

  lemma Positions21To22(version: nat)
    requires 21 <= version <= 22
    ensures Positions(version) == PositionTable(version)
  {
    hide Positions;
    if version == 21 {
      PositionsAre(21, 5, 22);
    } else {
      PositionsAre(22, 5, 24);
    }
  }

  lemma Positions23To24(version: nat)
    requires 23 <= version <= 24
    ensures Positions(version) == PositionTable(version)
  {
    hide Positions;
    if version == 23 {
      PositionsAre(23, 5, 24);
    } else {
      PositionsAre(24, 5, 26);
    }
  }

  lemma Positions25To26(version: nat)
    requires 25 <= version <= 26
    ensures Positions(version) == PositionTable(version)
  {
    hide Positions;
    if version == 25 {
      PositionsAre(25, 5, 26);
    } else {
      PositionsAre(26, 5, 28);
    }
  }

  lemma Positions27To28(version: nat)
    requires 27 <= version <= 28
    ensures Positions(version) == PositionTable(version)
  {
    hide Positions;
    if version == 27 {
      PositionsAre(27, 5, 28);
    } else {
      PositionsAre(28, 6, 24);
    }
  }

  lemma Positions29To30(version: nat)
    requires 29 <= version <= 30
    ensures Positions(version) == PositionTable(version)
  {
    hide Positions;
    if version == 29 {
      PositionsAre(29, 6, 24);
    } else {
      PositionsAre(30, 6, 26);
    }
  }

  lemma Positions31To32(version: nat)
    requires 31 <= version <= 32
    ensures Positions(version) == PositionTable(version)
  {
    hide Positions;
    if version == 31 {
      PositionsAre(31, 6, 26);
    } else {
      PositionsAre(32, 6, 26);
    }
  }

  lemma Positions33To34(version: nat)
    requires 33 <= version <= 34
    ensures Positions(version) == PositionTable(version)
  {
    hide Positions;
    if version == 33 {
      PositionsAre(33, 6, 28);
    } else {
      PositionsAre(34, 6, 28);
    }
  }

  lemma Positions35To36(version: nat)
    requires 35 <= version <= 36
    ensures Positions(version) == PositionTable(version)
  {
    hide Positions;
    if version == 35 {
      PositionsAre(35, 7, 24);
    } else {
      PositionsAre(36, 7, 26);
    }
  }

  lemma Positions37To38(version: nat)
    requires 37 <= version <= 38
    ensures Positions(version) == PositionTable(version)
  {
    hide Positions;
    if version == 37 {
      PositionsAre(37, 7, 26);
    } else {
      PositionsAre(38, 7, 26);
    }
  }

  lemma Positions39To40(version: nat)
    requires 39 <= version <= 40
    ensures Positions(version) == PositionTable(version)
  {
    hide Positions;
    if version == 39 {
      PositionsAre(39, 7, 28);
    } else {
      PositionsAre(40, 7, 28);
    }
  }

  /** The computed positions are the table of the standard, for every version. */
  lemma PositionsOfTable(version: nat)
    requires 1 <= version <= 40
    ensures Positions(version) == PositionTable(version)
  {
    hide Positions, PositionTable;
    if version <= 4 {
      Positions1To4(version);
    } else if version <= 8 {
      Positions5To8(version);
    } else if version <= 12 {
      Positions9To12(version);
    } else if version <= 16 {
      Positions13To16(version);
    } else if version <= 18 {
      Positions17To18(version);
    } else if version <= 20 {
      Positions19To20(version);
    } else if version <= 22 {
      Positions21To22(version);
    } else if version <= 24 {
      Positions23To24(version);
    } else if version <= 26 {
      Positions25To26(version);
    } else if version <= 28 {
      Positions27To28(version);
    } else if version <= 30 {
      Positions29To30(version);
    } else if version <= 32 {
      Positions31To32(version);
    } else if version <= 34 {
      Positions33To34(version);
    } else if version <= 36 {
      Positions35To36(version);
    } else if version <= 38 {
      Positions37To38(version);
    } else {
      Positions39To40(version);
    }
  }

  // ----- version information (section 7.10) -----

  /** The bits of the version information, the least significant first, go three by three
      along the six rows above the bottom left finder, and once more turned about the
      diagonal. */
  lemma VersionCells(version: nat, i: nat)
    requires 7 <= version <= 40 && i < 18
    ensures var a, b := i / 3, Size(version) - 11 + i % 3;
            PatternAt(version, a, b) == PatternAt(version, b, a) == Ink(VersionWord(version)[17 - i])
  {
    hide VersionWord, WithFormat, Positions;
  }

  /** One cell beside the lower left finder is dark in every symbol. */
  lemma DarkModule(version: nat)
    requires 1 <= version <= 40
    ensures PatternAt(version, Size(version) - 8, 8) == Dark
  {
    hide VersionWord, Positions;
  }

  // ----- the order of the cells (section 7.7.3) -----

  /** The walk begins in the lower right corner. In a pair of columns it goes left, then on
      to the next row, up or down, and back to the right; each pair is left of the last one,
      the timing column being passed over, and the last pair are the two columns on the left. */
  lemma WalkGoesOn(version: nat, p: nat, k: nat)
    requires 1 <= version <= 40
    ensures var n := Size(version);
            && CellOf(n, 0, 0) == Cell(n - 1, n - 1)
            && (p < Pairs(n) && 2 * k + 1 < 2 * n ==>
                  CellOf(n, p, 2 * k + 1) == Cell(CellOf(n, p, 2 * k).row, CellOf(n, p, 2 * k).col - 1))
            && (p < Pairs(n) && 2 * k + 2 < 2 * n ==>
                  CellOf(n, p, 2 * k + 2) == Cell(CellOf(n, p, 2 * k).row + (if p % 2 == 0 then -1 else 1), CellOf(n, p, 2 * k).col))
            && (p + 1 < Pairs(n) ==> Right(n, p + 1) == Right(n, p) - if Right(n, p) == 8 then 3 else 2)
            && Right(n, Pairs(n) - 1) == 1
  {
    hide Upward, Right, CellOf;
    var n := Size(version);
    PairsGoLeft(version, p);
    if p < Pairs(n) {
      DirectionsAlternate(version, p);
      StepsInPair(n, p, k);
    }
    UpFirst(version);
    FirstCell(n);
  }

  lemma FirstCell(n: nat)
    requires n > 7 && Upward(Right(n, 0))
    ensures CellOf(n, 0, 0) == Cell(n - 1, n - 1)
  {
    hide Upward;
  }

  lemma StepsInPair(n: nat, p: nat, k: nat)
    ensures CellOf(n, p, 2 * k + 1) == Cell(CellOf(n, p, 2 * k).row, CellOf(n, p, 2 * k).col - 1)
    ensures CellOf(n, p, 2 * k + 2) == Cell(CellOf(n, p, 2 * k).row + (if Upward(Right(n, p)) then -1 else 1), CellOf(n, p, 2 * k).col)
  {
    hide Upward, Right;
  }

  lemma PairsGoLeft(version: nat, p: nat)
    requires 1 <= version <= 40
    ensures var n := Size(version);
            && (p + 1 < Pairs(n) ==> Right(n, p + 1) == Right(n, p) - if Right(n, p) == 8 then 3 else 2)
            && Right(n, Pairs(n) - 1) == 1
  {}

  lemma UpFirst(version: nat)
    requires 1 <= version <= 40
    ensures Upward(Right(Size(version), 0))
  {}

  // ----- codewords in a version (table 1) -----

  /** The cells of a symbol that carry data: all of them, less finders with their separators,
      timing, alignment patterns off the timing lines and on them, format and version. */
  function DataModules(version: nat): int
    requires 1 <= version <= 40
  {
    var n, k := Size(version), version / 7 + 2;
    n * n - 3 * 64 - 2 * (n - 16) - 31
      - (if version >= 2 then 25 * (k * k - 3) - 10 * (k - 2) else 0)
      - (if version >= 7 then 36 else 0)
  }

  /** The codewords of the table are as many as fit into these cells. */
  lemma TotalsAreCapacity(version: nat)
    requires 1 <= version <= 40
    ensures 8 * Info(version).total <= DataModules(version) < 8 * Info(version).total + 8
  {
    hide Info, DataModules;
    if version <= 20 {
      TotalsTo20(version);
    } else {
      TotalsTo40(version);
    }
  }

  lemma TotalsTo20(version: nat)
    requires 1 <= version <= 20
    ensures 8 * Info(version).total <= DataModules(version) < 8 * Info(version).total + 8
  {}

  lemma TotalsTo40(version: nat)
    requires 21 <= version <= 40
    ensures 8 * Info(version).total <= DataModules(version) < 8 * Info(version).total + 8
  {}
}
