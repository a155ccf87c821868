/** The whole encoder, and a reader that undoes it. */
module QrEncoder {
  import opened Wrappers
  import opened GaloisField
  import opened QrCodewords
  import opened QrPlacement
  import opened QrFormat
  import opened QrPenalty
  import opened QrCapacity
  import QrPatterns
  import ReedSolomon

  // ----- the reader, which only looks at the matrix -----

  /** The version a matrix of `n` cells a side is of. */
  function VersionOfSize(n: nat): Option<nat> {
    if n >= 21 && n <= 177 && n % 4 == 1 then Some((n - 17) / 4) else None
  }

  /** The cell of the first copy that carries format bit `i`. */
  function FormatCellOf(i: nat): Cell
    requires i < 15
  {
    if i <= 5 then Cell(i, 8) else if i == 6 then Cell(7, 8) else if i == 7 then Cell(8, 8)
    else if i == 8 then Cell(8, 7) else Cell(8, 14 - i)
  }

  function FormatBits(g: Grid): (word: seq<bool>)
    requires Square(g) && |g| >= 21
    ensures |word| == 15
  {
    seq(15, k requires 0 <= k < 15 => g[FormatCellOf(14 - k).row][FormatCellOf(14 - k).col])
  }

  /** The same bits from the second copy: along row 8 from the right edge, then down column 8
      to the lower edge. */
  function FormatBitsAgain(g: Grid): (word: seq<bool>)
    requires Square(g) && |g| >= 21
    ensures |word| == 15
  {
    seq(15, k requires 0 <= k < 15 => if k >= 7 then g[8][|g| - 15 + k] else g[|g| - 1 - k][8])
  }

  predicate CellsInside(cells: seq<Cell>, n: nat) { forall m :: 0 <= m < |cells| ==> Inside(n, cells[m]) }

  /** The bits along a list of cells, the picture of the mask taken off. */
  function Unmasked(g: Grid, cells: seq<Cell>, mask: nat): (bits: seq<bool>)
    requires Square(g) && CellsInside(cells, |g|) && mask < 8
    ensures |bits| == |cells|
  {
    seq(|cells|, m requires 0 <= m < |cells| =>
      g[cells[m].row][cells[m].col] != Darkens(mask, cells[m].row, cells[m].col))
  }

  /** The codewords of the symbol: walk its free cells, take the mask off, group the bits. */
  function ReadWords(g: Grid, version: nat, mask: nat): Option<seq<Byte>>
    requires Square(g)
    requires 1 <= version <= 40 && mask < 8
  {
    var cells := DataCells(|g|, ReservedIn(version));
    var total := Info(version).total;
    if !CellsInside(cells, |g|) || |cells| < 8 * total then None
    else Some(Regroup(Unmasked(g, cells, mask), total))
  }

  /** Reads a symbol of level M: version from its size, mask from the format cells,
      codewords from the walk, blocks from the interleaving, bytes from the stream. */
  function Decode(g: Grid): Option<seq<Byte>>
    requires Square(g)
  {
    match VersionOfSize(|g|)
    case None => None
    case Some(version) =>
      match ReadFormat(FormatBits(g))
      case None => None
      case Some((level, mask)) =>
        if level != LEVEL_M then None
        else
          match ReadWords(g, version, mask)
          case None => None
          case Some(words) =>
            if |words| != Info(version).total then None else ReadMessage(version, words)
  }

  // ----- one candidate per mask -----

  /** What the matrix for a mask shows, cell by cell. */
  ghost predicate IsCandidate(g: Grid, version: nat, data: seq<Byte>, mask: nat)
    requires 1 <= version <= 40 && mask < 8
  {
    var n := Size(version);
    var cells := DataCells(n, ReservedIn(version));
    && |g| == n && Square(g) && CellsInside(cells, n)
    // the free cells: the data, masked
    && Unmasked(g, cells, mask) == seq(|cells|, m requires 0 <= m => DataBit(data, m))
    // the reserved cells: format information, the dark module, function patterns
    && forall r, c :: 0 <= r < n && 0 <= c < n && ReservedIn(version)(r, c) ==>
         g[r][c] == if r == n - 8 && c == 8 then true
                    else if FormatBit(n, r, c) >= 0 then FormatWord(mask)[14 - FormatBit(n, r, c)]
                    else QrPatterns.PatternAt(version, r, c) == QrPatterns.Dark
  }

  /** A version, the codewords and a mask leave nothing open. */
  lemma CandidateIsUnique(g: Grid, h: Grid, version: nat, data: seq<Byte>, mask: nat)
    requires 1 <= version <= 40 && mask < 8
    requires IsCandidate(g, version, data, mask) && IsCandidate(h, version, data, mask)
    ensures g == h
  {
    hide FormatWord, Darkens, DataBit, DataCells, QrPatterns.PatternAt, FormatBit;
    var n, res := Size(version), ReservedIn(version);
    var cells := DataCells(n, res);
    FreeCells(version);
    forall r, c | 0 <= r < n && 0 <= c < n ensures g[r][c] == h[r][c] {
      if !res(r, c) {
        var m :| 0 <= m < |cells| && cells[m] == Cell(r, c);
        assert Unmasked(g, cells, mask)[m] == Unmasked(h, cells, mask)[m];
      }
    }
    forall r | 0 <= r < n ensures g[r] == h[r] {}
  }

  lemma FreeCells(version: nat)
    requires 1 <= version <= 40
    ensures var n := Size(version); var cells := DataCells(n, ReservedIn(version));
            && Distinct(cells) && CellsInside(cells, n)
            && forall cell :: cell in cells <==> Inside(n, cell) && !ReservedIn(version)(cell.row, cell.col)
  {
    hide DataCells, QrPatterns.PatternAt;
    forall r | 0 <= r < Size(version) ensures ReservedIn(version)(r, 6) {
      ColumnSixReserved(version, r);
    }
    DataCellsAreTheFreeCells(Size(version), ReservedIn(version));
  }

  /** The format cells of a candidate hold the format word, and so does the second copy. */
  lemma CandidateFormat(g: Grid, version: nat, data: seq<Byte>, mask: nat)
    requires 1 <= version <= 40 && mask < 8 && IsCandidate(g, version, data, mask)
    ensures FormatBits(g) == FormatWord(mask)
  {
    hide FormatWord, Unmasked, DataCells, DataBit, QrPatterns.PatternAt;
    var n := Size(version);
    forall k | 0 <= k < 15 ensures FormatBits(g)[k] == FormatWord(mask)[k] {
      var cell := FormatCellOf(14 - k);
      assert FormatBit(n, cell.row, cell.col) == 14 - k;
      FormatCellsReserved(version, cell.row, cell.col);
    }
  }

  lemma CandidateFormatAgain(g: Grid, version: nat, data: seq<Byte>, mask: nat)
    requires 1 <= version <= 40 && mask < 8 && IsCandidate(g, version, data, mask)
    ensures FormatBitsAgain(g) == FormatWord(mask)
  {
    hide FormatWord, Unmasked, DataCells, DataBit, QrPatterns.PatternAt;
    var n := Size(version);
    forall k | 0 <= k < 15 ensures FormatBitsAgain(g)[k] == FormatWord(mask)[k] {
      var r, c := if k >= 7 then 8 else n - 1 - k, if k >= 7 then n - 15 + k else 8;
      assert FormatBit(n, r, c) == 14 - k;
      FormatCellsReserved(version, r, c);
    }
  }

  lemma CandidateWords(g: Grid, version: nat, data: seq<Byte>, mask: nat)
    requires 1 <= version <= 40 && mask < 8 && |data| == Info(version).total
    requires IsCandidate(g, version, data, mask)
    ensures ReadWords(g, version, mask) == Some(data)
  {
    hide FormatWord, Info, Unmasked, DataCells, DataBit, QrPatterns.PatternAt, FormatBit, Regroup, Darkens;
    var cells := DataCells(Size(version), ReservedIn(version));
    EnoughCells(version);
    var bits := Unmasked(g, cells, mask);
    var k := 8 * |data|;
    forall m | 0 <= m < k ensures bits[m] == Flatten(data)[m] {
      DataBitIsFlatten(data, m);
    }
    assert bits == Flatten(data) + bits[k..];
    RegroupFlatten(data, bits[k..]);
  }

  /** Every candidate, whatever its mask, reads as the same message. */
  lemma CandidateDecodes(g: Grid, version: nat, data: seq<Byte>, mask: nat)
    requires 1 <= version <= 40 && mask < 8 && |data| == Info(version).total
    requires IsCandidate(g, version, data, mask)
    ensures Decode(g) == ReadMessage(version, data)
  {
    CandidateSize(g, version, data, mask);
    CandidateFormat(g, version, data, mask);
    ReadFormatOfWord(mask);
    CandidateWords(g, version, data, mask);
    hide *;
    assert VersionOfSize(|g|) == Some(version) by { SizeTellsVersion(version); }
    DecodeSteps(g, version, mask, data);
  }

  lemma SizeTellsVersion(version: nat)
    requires 1 <= version <= 40
    ensures VersionOfSize(Size(version)) == Some(version)
  {}

  lemma CandidateSize(g: Grid, version: nat, data: seq<Byte>, mask: nat)
    requires 1 <= version <= 40 && mask < 8 && IsCandidate(g, version, data, mask)
    ensures Square(g) && |g| == Size(version) >= 21
  {}

  lemma DecodeSteps(g: Grid, version: nat, mask: nat, data: seq<Byte>)
    requires Square(g) && VersionOfSize(|g|) == Some(version) && 1 <= version <= 40 && |g| >= 21 && mask < 8
    requires |data| == Info(version).total
    requires ReadFormat(FormatBits(g)) == Some((LEVEL_M, mask)) && ReadWords(g, version, mask) == Some(data)
    ensures Decode(g) == ReadMessage(version, data)
  {
    hide Info, ReadFormat, ReadWords, FormatBits;
  }

  // ----- drawing -----

  /** The matrix for one mask. */
  method Candidate(version: nat, data: seq<Byte>, mask: nat) returns (modules: array2<bool>)
    requires 1 <= version <= 40 && mask < 8
    ensures fresh(modules) && modules.Length0 == modules.Length1 == Size(version)
    ensures IsCandidate(GridOf(modules), version, data, mask)
  {
    hide QrPatterns.PatternAt, DataCells, DataBit, Darkens, FormatWord, FormatBit;
    var canvas := QrPatterns.FunctionPatterns(version);
    ghost var n, res := Size(version), ReservedIn(version);
    ghost var before := (r, c) => QrPatterns.PatternAt(version, r, c) == QrPatterns.Dark;
    modules := canvas.modules;
    assert forall r, c :: 0 <= r < n && 0 <= c < n ==> canvas.Inside(r, c);
    PlaceData(modules, canvas.reserved, data, n, res, before);
    ApplyMask(modules, canvas.reserved, mask, n, res);
    WriteFormat(modules, mask, n);
    FreeCells(version);
    forall r, c | 0 <= r < n && 0 <= c < n && (FormatBit(n, r, c) >= 0 || (r == n - 8 && c == 8)) ensures res(r, c) {
      FormatCellsReserved(version, r, c);
    }
  }

  /** The candidate kept: none has a smaller penalty, and none of a lower mask an equal one. */
  ghost predicate IsBest(g: Grid, version: nat, data: seq<Byte>, mask: nat, tried: nat)
    requires 1 <= version <= 40 && mask < tried <= 8
  {
    && IsCandidate(g, version, data, mask)
    && forall k, h :: 0 <= k < tried && IsCandidate(h, version, data, k) ==>
         Penalty(g) <= Penalty(h) && (k < mask ==> Penalty(g) < Penalty(h))
  }

  /** Tries the eight masks and keeps the candidate of least penalty. */
  method BestCandidate(version: nat, data: seq<Byte>) returns (best: array2<bool>, ghost bestMask: nat)
    requires 1 <= version <= 40
    ensures best.Length0 == best.Length1 == Size(version)
    ensures bestMask < 8 && IsBest(GridOf(best), version, data, bestMask, 8)
  {
    hide IsCandidate, Penalty;
    best, bestMask := new bool[0, 0], 0;
    var bestScore: Option<int> := None;  // no score yet: infinity
    for mask := 0 to 8
      invariant bestScore.None? <==> mask == 0
      invariant mask > 0 ==>
        && best.Length0 == best.Length1 == Size(version) && bestScore == Some(Penalty(GridOf(best)))
        && bestMask < mask && IsBest(GridOf(best), version, data, bestMask, mask)
    {
      var modules := Candidate(version, data, mask);
      var score := Score(modules);
      OnlyCandidate(GridOf(modules), version, data, mask);
      if bestScore.None? || score < bestScore.value {
        bestScore := Some(score);
        best := modules;
        bestMask := mask;
      }
    }
  }

  /** The symbol of a message, or nothing when the message is longer than any symbol holds. */
  method QrModules(t: ReedSolomon.Tables, bytes: seq<Byte>)
    returns (r: Option<array2<bool>>, ghost version: nat, ghost data: seq<Byte>, ghost mask: nat)
    requires t.Valid()
    ensures r.None? <==> |bytes| > 2331
    ensures r.Some? ==>
      && r.value.Length0 == r.value.Length1 == Size(version)
      && Decode(GridOf(r.value)) == Some(bytes)
      // the smallest version that holds the message
      && Fits(version, |bytes|) && (forall v :: 1 <= v < version ==> !Fits(v, |bytes|))
      // codewords that are all protected by their blocks
      && |data| == Info(version).total && Sound(Info(version)) && BlocksAreCodewords(Info(version), data)
      && Flatten(ReadBlocks(Info(version), data, Info(version).blocks)) == Stream(version, bytes)
      // the mask of least penalty, the lowest one on a tie
      && mask < 8 && IsBest(GridOf(r.value), version, data, mask, 8)
  {
    hide Info, Sound, BlocksAreCodewords, IsCandidate, Decode, Penalty, Stream, BitsNeeded, ReadMessage, ReadBlocks, Flatten;
    LongestMessage(|bytes|);
    version, data, mask := 0, [], 0;
    var v := SmallestVersion(|bytes|);
    if v.None? {
      return None, version, data, mask;
    }
    version := v.value;
    var words := Codewords(t, v.value, bytes);
    data := words;
    var best;
    best, mask := BestCandidate(v.value, words);
    CandidateDecodes(GridOf(best), version, data, mask);
    return Some(best), version, data, mask;
  }

  lemma OnlyCandidate(g: Grid, version: nat, data: seq<Byte>, mask: nat)
    requires 1 <= version <= 40 && mask < 8 && IsCandidate(g, version, data, mask)
    ensures forall h :: IsCandidate(h, version, data, mask) ==> h == g
  {
    hide IsCandidate;
    forall h | IsCandidate(h, version, data, mask) ensures h == g {
      CandidateIsUnique(g, h, version, data, mask);
    }
  }
}
