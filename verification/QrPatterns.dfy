/** The function patterns of a symbol: what is drawn before any data, and where data
    may not go. */
module QrPatterns {
  import opened BchCode
  import opened QrCodewords

  datatype Mark = Free | Light | Dark

  function Ink(dark: bool): Mark { if dark then Dark else Light }

  function Abs(x: int): nat { if x < 0 then -x else x }

  function Max(x: int, y: int): int { if x < y then y else x }

  // ----- alignment positions -----

  function PositionCount(version: nat): nat { version / 7 + 2 }

  function PositionStep(version: nat): nat {
    if version == 32 then 26
    else
      var d := 2 * PositionCount(version) - 2;
      (Size(version) - 13 + d - 1) / d * 2
  }

  /** Six, then evenly spaced positions that end seven cells before the edge. */
  function Positions(version: nat): seq<int> {
    if version == 1 then []
    else
      seq(PositionCount(version), k =>
        if k == 0 then 6 else FromEnd(version, PositionCount(version) - 1 - k))
  }

  /** The position that comes `m` places before the last one. */
  function FromEnd(version: nat, m: int): int {
    Size(version) - 7 - m * PositionStep(version)
  }

  lemma NextFromEnd(version: nat, m: int)
    ensures FromEnd(version, 0) == Size(version) - 7
    ensures FromEnd(version, m + 1) == FromEnd(version, m) - PositionStep(version)
  {
    hide PositionStep;
    assert (m + 1) * PositionStep(version) == m * PositionStep(version) + PositionStep(version);
  }

  lemma PositionFacts(version: nat)
    requires 2 <= version <= 40
    ensures PositionCount(version) >= 2
    ensures PositionStep(version) >= 12 && PositionStep(version) % 2 == 0
    ensures FromEnd(version, PositionCount(version) - 2) >= 18
  {
    var c := PositionCount(version);
    if version != 32 {
      var q := PositionStep(version) / 2;
      RoundUp(4 * version + 4, 2 * c - 2);
      StepBounds(version, c, q);
    }
  }

  lemma StepBounds(version: nat, c: nat, q: int)
    requires 2 <= version <= 40 && c == version / 7 + 2
    requires (2 * c - 2) * (q - 1) < 4 * version + 4 <= (2 * c - 2) * q
    ensures q >= 6 && (version != 32 ==> 4 * version + 10 - (c - 2) * (2 * q) >= 18)
  {
    if c == 2 {} else if c == 3 {} else if c == 4 {} else if c == 5 {} else if c == 6 {} else {}
  }

  lemma RoundUp(a: nat, d: nat)
    requires a >= 1 && d >= 1
    ensures var q := (a + d - 1) / d; d * (q - 1) < a <= d * q
  {
    var q, r := (a + d - 1) / d, (a + d - 1) % d;
    assert a + d - 1 == d * q + r;
    assert d * (q - 1) == d * q - d;
  }

  /** At least twelve apart, so that no two alignment patterns meet. */
  predicate Spaced(ps: seq<int>) {
    forall i, j :: 0 <= i < j < |ps| ==> ps[j] - ps[i] >= 12
  }

  /** The positions are even and spaced, and run from 6 to n - 7. */
  lemma PositionsSpaced(version: nat)
    requires 1 <= version <= 40
    ensures var ps := Positions(version);
            && Spaced(ps)
            && (forall i :: 0 <= i < |ps| ==> ps[i] % 2 == 0 && 6 <= ps[i] <= Size(version) - 7)
            && (version == 1 ==> ps == [])
            && (version >= 2 ==> |ps| == PositionCount(version) >= 2 && ps[0] == 6 && ps[|ps| - 1] == Size(version) - 7)
  {
    hide PositionStep, PositionCount, FromEnd;
    if version >= 2 {
      PositionFacts(version);
      NextFromEnd(version, 0);
      var c, ps := PositionCount(version), Positions(version);
      forall i | 0 < i < c
        ensures ps[i] % 2 == 0 && 18 <= ps[i] <= Size(version) - 7
      {
        FromEndApart(version, 0, c - 1 - i);
        FromEndApart(version, c - 1 - i, c - 2);
      }
      forall i, j | 0 < i < j < c ensures ps[j] - ps[i] >= 12 {
        FromEndApart(version, c - 1 - j, c - 1 - i);
      }
    }
  }

  lemma FromEndIs(version: nat, m: int)
    ensures FromEnd(version, m) == Size(version) - 7 - m * PositionStep(version)
  {
    hide PositionStep;
  }

  lemma FromEndApart(version: nat, m: nat, k: nat)
    requires 2 <= version <= 40 && m <= k
    ensures FromEnd(version, m) - FromEnd(version, k) >= if m < k then 12 else 0
    ensures FromEnd(version, k) % 2 == 0
  {
    PositionFacts(version);
    FromEndIs(version, m);
    FromEndIs(version, k);
    hide PositionStep, PositionCount, FromEnd;
    Multiples(m, k, PositionStep(version));
    EvenLess(Size(version) - 7, k * PositionStep(version));
  }

  lemma EvenLess(a: int, b: int)
    requires a % 2 == 0 && b % 2 == 0
    ensures (a - b) % 2 == 0
  {}

  lemma Multiples(m: nat, k: nat, s: nat)
    requires m <= k && s >= 12 && s % 2 == 0
    ensures k * s - m * s >= if m < k then 12 else 0
    ensures k * s % 2 == 0
  {
    TimesEven(k, s / 2);
    TimesLess(k, m, s);
    if k > m {
      TimesGrows(k - m, s);
    }
  }

  lemma TimesEven(k: int, h: int)
    ensures k * (2 * h) == 2 * (k * h)
  {}

  lemma TimesLess(k: int, m: int, s: int)
    ensures (k - m) * s == k * s - m * s
  {}

  method AlignmentPositions(version: nat) returns (positions: seq<int>)
    requires 1 <= version <= 40
    ensures positions == Positions(version)
  {
    if version == 1 {
      return [];
    }
    var count := version / 7 + 2;
    var d := 2 * count - 2;
    var step := if version == 32 then 26 else (Size(version) - 13 + d - 1) / d * 2;
    assert step == PositionStep(version);
    hide FromEnd, PositionStep;
    positions := [6];
    var pos := Size(version) - 7;
    NextFromEnd(version, 0);
    while |positions| < count
      invariant 1 <= |positions| <= count
      invariant pos == FromEnd(version, |positions| - 1)
      invariant positions[0] == 6
      invariant forall k :: 1 <= k < |positions| ==> positions[k] == FromEnd(version, |positions| - 1 - k)
    {
      NextFromEnd(version, |positions| - 1);
      positions := positions[..1] + [pos] + positions[1..];
      pos := pos - step;
    }
    assert forall k :: 0 <= k < count ==> positions[k] == Positions(version)[k];
  }

  // ----- what each cell shows -----

  /** A finder pattern with its separator, seen from its top left corner. */
  function FinderMark(r: int, c: int): Mark {
    var edge := Max(Abs(r - 3), Abs(c - 3));
    Ink(edge != 2 && edge != 4)
  }

  /** An alignment pattern, seen from its centre. */
  function AlignmentMark(r: int, c: int): Mark { Ink(Max(Abs(r), Abs(c)) != 1) }

  predicate InFinder(row: int, col: int, r: int, c: int) {
    row - 1 <= r <= row + 7 && col - 1 <= c <= col + 7
  }

  function Finders(n: nat, r: int, c: int): Mark {
    if InFinder(0, 0, r, c) then FinderMark(r, c)
    else if InFinder(0, n - 7, r, c) then FinderMark(r, c - (n - 7))
    else if InFinder(n - 7, 0, r, c) then FinderMark(r - (n - 7), c)
    else Free
  }

  function WithTiming(n: nat, r: int, c: int): Mark {
    if r == 6 && 8 <= c < n - 8 then Ink(c % 2 == 0)
    else if c == 6 && 8 <= r < n - 8 then Ink(r % 2 == 0)
    else Finders(n, r, c)
  }

  /** The last position within two of `x`, or -1. */
  function Near(ps: seq<int>, x: int): (k: int)
    ensures -1 <= k < |ps|
    ensures k >= 0 ==> Abs(x - ps[k]) <= 2
    ensures k == -1 ==> forall i :: 0 <= i < |ps| ==> Abs(x - ps[i]) > 2
  {
    if ps == [] then -1
    else if Abs(x - ps[|ps| - 1]) <= 2 then |ps| - 1
    else Near(ps[..|ps| - 1], x)
  }

  /** The crossing taken by a finder pattern. */
  predicate Corner(ps: seq<int>, i: int, j: int) {
    (i == 0 && j == 0) || (i == 0 && j == |ps| - 1) || (i == |ps| - 1 && j == 0)
  }

  predicate OnAlignment(ps: seq<int>, r: int, c: int) {
    Near(ps, r) >= 0 && Near(ps, c) >= 0 && !Corner(ps, Near(ps, r), Near(ps, c))
  }

  function WithAlignment(ps: seq<int>, n: nat, r: int, c: int): Mark {
    if OnAlignment(ps, r, c) then AlignmentMark(r - ps[Near(ps, r)], c - ps[Near(ps, c)])
    else WithTiming(n, r, c)
  }

  /** The cells kept for the two copies of the format information. */
  predicate FormatCell(n: nat, r: int, c: int) {
    || (r == 8 && 0 <= c <= 8 && c != 6) || (c == 8 && 0 <= r <= 8 && r != 6)
    || (r == 8 && n - 8 <= c < n) || (c == 8 && n - 8 <= r < n)
  }

  function WithFormat(ps: seq<int>, n: nat, r: int, c: int): Mark {
    if r == n - 8 && c == 8 then Dark
    else if FormatCell(n, r, c) then Light
    else WithAlignment(ps, n, r, c)
  }

  /** x^12 + x^11 + x^10 + x^9 + x^8 + x^5 + x^2 + 1, that is 0x1f25. */
  const VERSION_GENERATOR: seq<bool> :=
    [true, true, true, true, true, false, false, true, false, false, true, false, true]

  /** The eighteen bits of the version information, the most significant first. */
  function VersionWord(version: nat): (w: seq<bool>)
    ensures |w| == 18
  {
    Encode(ToBits(version, 6), VERSION_GENERATOR)
  }

  /** The generator is the number the encoder is written with. */
  lemma VersionConstant()
    ensures FromBits(VERSION_GENERATOR) == 0x1f25
  {
    var g := VERSION_GENERATOR;
    FromBitsEleven(g[..11]);
    assert g[..13] == g;
    FromBitsMore(g, 11);
    FromBitsMore(g, 12);
  }

  /** The version information is the one word of the code whose first bits are the version. */
  lemma VersionWordIsTheCodeword(version: nat, w: seq<bool>)
    requires 1 <= version <= 40 && |w| == 18
    ensures w == VersionWord(version) <==> FromBits(w[..6]) == version && InCode(w, VERSION_GENERATOR)
  {
    hide FromBits, ToBits, InCode, Encode;
    assert Exp2(6) == 64 by { assert Exp2(3) == 8; }
    FromToBits(version, 6);
    EncodeIsTheCodeword(ToBits(version, 6), VERSION_GENERATOR, VersionWord(version));
    if FromBits(w[..6]) == version {
      ToFromBits(w[..6]);
      EncodeIsTheCodeword(ToBits(version, 6), VERSION_GENERATOR, w);
    }
  }

  /** Which bit of the version information a cell holds, or -1. */
  function VersionBit(n: nat, r: int, c: int): int {
    if 0 <= r < 6 && n - 11 <= c < n - 8 then 3 * r + (c - (n - 11))
    else if 0 <= c < 6 && n - 11 <= r < n - 8 then 3 * c + (r - (n - 11))
    else -1
  }

  /** The whole picture, before data. */
  function PatternAt(version: nat, r: int, c: int): Mark {
    var i := VersionBit(Size(version), r, c);
    if version >= 7 && i >= 0 then Ink(VersionWord(version)[17 - i])
    else WithFormat(Positions(version), Size(version), r, c)
  }

  // ----- drawing -----

  /** The matrix of a symbol and the matrix of its reserved cells. */
  class Canvas {
    const n: nat
    const modules: array2<bool>
    const reserved: array2<bool>

    ghost predicate Valid() {
      && modules.Length0 == modules.Length1 == reserved.Length0 == reserved.Length1 == n
      && modules != reserved
    }

    predicate Inside(r: int, c: int) { 0 <= r < n && 0 <= c < n }

    ghost predicate Shows(r: int, c: int, m: Mark)
      requires Valid() && Inside(r, c)
      reads modules, reserved
    {
      modules[r, c] == (m == Dark) && reserved[r, c] == (m != Free)
    }

    constructor (n: nat)
      ensures Valid() && this.n == n && fresh(modules) && fresh(reserved)
      ensures forall r, c :: Inside(r, c) ==> Shows(r, c, Free)
    {
      this.n := n;
      modules := new bool[n, n]((_, _) => false);
      reserved := new bool[n, n]((_, _) => false);
    }

    /** Draws and reserves one cell; outside of the matrix nothing happens. */
    method Set(row: int, col: int, dark: bool)
      requires Valid()
      modifies modules, reserved
      ensures Inside(row, col) ==> Shows(row, col, Ink(dark))
      ensures forall r, c :: Inside(r, c) && (r != row || c != col) ==>
        modules[r, c] == old(modules[r, c]) && reserved[r, c] == old(reserved[r, c])
    {
      if row < 0 || col < 0 || row >= n || col >= n {
        return;
      }
      modules[row, col] := dark;
      reserved[row, col] := true;
    }

    method DrawFinder(row: int, col: int)
      requires Valid()
      modifies modules, reserved
      ensures forall r, c :: Inside(r, c) && InFinder(row, col, r, c) ==> Shows(r, c, FinderMark(r - row, c - col))
      ensures forall r, c :: Inside(r, c) && !InFinder(row, col, r, c) ==>
        modules[r, c] == old(modules[r, c]) && reserved[r, c] == old(reserved[r, c])
    {
      for r := -1 to 8
        invariant forall y, x :: Inside(y, x) && InFinder(row, col, y, x) && y - row < r ==>
          Shows(y, x, FinderMark(y - row, x - col))
        invariant forall y, x :: Inside(y, x) && !(InFinder(row, col, y, x) && y - row < r) ==>
          modules[y, x] == old(modules[y, x]) && reserved[y, x] == old(reserved[y, x])
      {
        for c := -1 to 8
          invariant forall y, x :: Inside(y, x) && InFinder(row, col, y, x) && (y - row < r || (y - row == r && x - col < c)) ==>
            Shows(y, x, FinderMark(y - row, x - col))
          invariant forall y, x ::
            Inside(y, x) && !(InFinder(row, col, y, x) && (y - row < r || (y - row == r && x - col < c))) ==>
            modules[y, x] == old(modules[y, x]) && reserved[y, x] == old(reserved[y, x])
        {
          var edge := Max(Abs(r - 3), Abs(c - 3));
          Set(row + r, col + c, edge != 2 && edge != 4);
        }
      }
    }

    method DrawTiming()
      requires Valid()
      requires forall r, c :: Inside(r, c) ==> Shows(r, c, Finders(n, r, c))
      modifies modules, reserved
      ensures forall r, c :: Inside(r, c) ==> Shows(r, c, WithTiming(n, r, c))
    {
      var i := 8;
      while i < n - 8
        invariant i >= 8
        invariant forall r, c :: Inside(r, c) ==>
          Shows(r, c, if (r == 6 && 8 <= c < n - 8 && c < i) || (c == 6 && 8 <= r < n - 8 && r < i) then WithTiming(n, r, c)
                      else Finders(n, r, c))
      {
        Set(6, i, i % 2 == 0);
        Set(i, 6, i % 2 == 0);
        i := i + 1;
      }
    }

    method DrawAlignment(row: int, col: int)
      requires Valid()
      modifies modules, reserved
      ensures forall r, c :: Inside(r, c) && Abs(r - row) <= 2 && Abs(c - col) <= 2 ==>
        Shows(r, c, AlignmentMark(r - row, c - col))
      ensures forall r, c :: Inside(r, c) && !(Abs(r - row) <= 2 && Abs(c - col) <= 2) ==>
        modules[r, c] == old(modules[r, c]) && reserved[r, c] == old(reserved[r, c])
    {
      for r := -2 to 3
        invariant forall y, x :: Inside(y, x) && -2 <= y - row < r && -2 <= x - col <= 2 ==>
          Shows(y, x, AlignmentMark(y - row, x - col))
        invariant forall y, x :: Inside(y, x) && !(-2 <= y - row < r && -2 <= x - col <= 2) ==>
          modules[y, x] == old(modules[y, x]) && reserved[y, x] == old(reserved[y, x])
      {
        for c := -2 to 3
          invariant forall y, x :: Inside(y, x) && -2 <= x - col <= 2 && -2 <= y - row && (y - row < r || (y - row == r && x - col < c)) ==>
            Shows(y, x, AlignmentMark(y - row, x - col))
          invariant forall y, x ::
            Inside(y, x) && !(-2 <= x - col <= 2 && -2 <= y - row && (y - row < r || (y - row == r && x - col < c))) ==>
            modules[y, x] == old(modules[y, x]) && reserved[y, x] == old(reserved[y, x])
        {
          Set(row + r, col + c, Max(Abs(r), Abs(c)) != 1);
        }
      }
    }

    /** The crossings of one row of positions, but for the corners. */
    method DrawAlignmentRow(ps: seq<int>, i: nat)
      requires Valid() && i < |ps| && Spaced(ps)
      requires forall r, c :: Inside(r, c) ==>
        Shows(r, c, if Near(ps, r) < i then WithAlignment(ps, n, r, c) else WithTiming(n, r, c))
      modifies modules, reserved
      ensures forall r, c :: Inside(r, c) ==>
        Shows(r, c, if Near(ps, r) < i + 1 then WithAlignment(ps, n, r, c) else WithTiming(n, r, c))
    {
      hide Near, AlignmentMark, WithTiming, WithAlignment, Spaced, Corner;
      NearIsUnique(ps, i);
      OffCrossings(ps, n);
      var last := |ps| - 1;
      for j := 0 to |ps|
        invariant forall r, c :: Inside(r, c) ==>
          Shows(r, c, if Near(ps, r) < i || (Near(ps, r) == i && Near(ps, c) < j) then WithAlignment(ps, n, r, c)
                      else WithTiming(n, r, c))
      {
        NearIsUnique(ps, j);
        CrossingMarks(ps, n, i, j);
        CornerIs(ps, i, j);
        if (i == 0 && j == 0) || (i == 0 && j == last) || (i == last && j == 0) {
          continue;
        }
        DrawAlignment(ps[i], ps[j]);
      }
    }

    method DrawAlignments(version: nat)
      requires Valid() && 1 <= version <= 40 && n == Size(version)
      requires forall r, c :: Inside(r, c) ==> Shows(r, c, WithTiming(n, r, c))
      modifies modules, reserved
      ensures forall r, c :: Inside(r, c) ==> Shows(r, c, WithAlignment(Positions(version), n, r, c))
    {
      hide Near, AlignmentMark, WithTiming, Positions, Spaced;
      var ps := AlignmentPositions(version);
      PositionsSpaced(version);
      for i := 0 to |ps|
        invariant forall r, c :: Inside(r, c) ==>
          Shows(r, c, if Near(ps, r) < i then WithAlignment(ps, n, r, c) else WithTiming(n, r, c))
      {
        DrawAlignmentRow(ps, i);
      }
    }

    method ReserveFormat(version: nat)
      requires Valid() && 1 <= version <= 40 && n == Size(version)
      requires forall r, c :: Inside(r, c) ==> Shows(r, c, WithAlignment(Positions(version), n, r, c))
      modifies modules, reserved
      ensures forall r, c :: Inside(r, c) ==> Shows(r, c, WithFormat(Positions(version), n, r, c))
    {
      ghost var ps := Positions(version);
      for i := 0 to 9
        invariant forall r, c :: Inside(r, c) ==>
          Shows(r, c, if (r == 8 && 0 <= c < i && c != 6) || (c == 8 && 0 <= r < i && r != 6) then Light
                      else WithAlignment(ps, n, r, c))
      {
        if i != 6 {
          Set(8, i, false);
          Set(i, 8, false);
        }
      }
      for i := 0 to 8
        invariant forall r, c :: Inside(r, c) ==>
          Shows(r, c, if (r == 8 && 0 <= c <= 8 && c != 6) || (c == 8 && 0 <= r <= 8 && r != 6) then Light
                      else if (r == 8 && n - i <= c < n) || (c == 8 && n - i <= r < n) then Light
                      else WithAlignment(ps, n, r, c))
      {
        Set(8, n - 1 - i, false);
        Set(n - 1 - i, 8, false);
      }
      Set(n - 8, 8, true);
    }

    method DrawVersion(version: nat)
      requires Valid() && 1 <= version <= 40 && n == Size(version)
      requires forall r, c :: Inside(r, c) ==> Shows(r, c, WithFormat(Positions(version), n, r, c))
      modifies modules, reserved
      ensures forall r, c :: Inside(r, c) ==> Shows(r, c, PatternAt(version, r, c))
    {
      hide VersionWord, WithFormat, Positions;
      if version < 7 {
        return;
      }
      ghost var ps := Positions(version);
      var info := VersionInformation(version);
      for i := 0 to 18
        invariant forall r, c :: Inside(r, c) ==>
          Shows(r, c, if 0 <= VersionBit(n, r, c) < i then Ink(info[17 - VersionBit(n, r, c)]) else WithFormat(ps, n, r, c))
      {
        var dark := info[17 - i];
        var a := i / 3;
        var b := n - 11 + i % 3;
        forall r, c ensures VersionBit(n, r, c) == i <==> (r == a && c == b) || (r == b && c == a) {
          VersionCells(n, r, c, i);
        }
        Set(a, b, dark);
        Set(b, a, dark);
      }
    }
  }

  lemma CornerIs(ps: seq<int>, i: nat, j: nat)
    ensures Corner(ps, i, j) <==> (i == 0 && j == 0) || (i == 0 && j == |ps| - 1) || (i == |ps| - 1 && j == 0)
  {}

  lemma OffCrossings(ps: seq<int>, n: nat)
    ensures forall r, c :: Near(ps, c) < 0 ==> WithAlignment(ps, n, r, c) == WithTiming(n, r, c)
  {
    hide Near, WithTiming;
  }

  /** What the cells around one crossing show. */
  lemma CrossingMarks(ps: seq<int>, n: nat, i: nat, j: nat)
    requires i < |ps| && j < |ps|
    ensures forall r, c :: Near(ps, r) == i && Near(ps, c) == j ==>
      WithAlignment(ps, n, r, c) == if Corner(ps, i, j) then WithTiming(n, r, c) else AlignmentMark(r - ps[i], c - ps[j])
  {
    hide Near, AlignmentMark, WithTiming;
  }

  lemma NearIsUnique(ps: seq<int>, k: int)
    requires 0 <= k < |ps| && Spaced(ps)
    ensures forall x :: Near(ps, x) == k <==> Abs(x - ps[k]) <= 2
  {
    forall x ensures Near(ps, x) == k <==> Abs(x - ps[k]) <= 2 {
      var i := Near(ps, x);
      assert 0 <= i < k ==> ps[k] - ps[i] >= 12;
      assert k < i ==> ps[i] - ps[k] >= 12;
    }
  }

  lemma VersionCells(n: nat, r: int, c: int, i: nat)
    requires n >= 45 && i < 18
    ensures VersionBit(n, r, c) == i <==> (r == i / 3 && c == n - 11 + i % 3) || (r == n - 11 + i % 3 && c == i / 3)
  {}

  /** The version number followed by the remainder of its division: the bits are
      cleared from the top, the generator being added under each one that is set. */
  method VersionInformation(version: nat) returns (info: seq<bool>)
    requires version < 64
    ensures info == VersionWord(version)
  {
    var high := ToBits(version, 6) + Zeros(12);
    var bits := high;
    for k := 0 to 6
      invariant bits == Divide(high, VERSION_GENERATOR, k)
    {
      if bits[k] {
        bits := Xor(bits, At(VERSION_GENERATOR, k, 18));
      }
    }
    info := seq(18, i requires 0 <= i < 18 => high[i] || bits[i]);
    assert info == VersionWord(version);
  }

  /** All the function patterns of a version. */
  method FunctionPatterns(version: nat) returns (canvas: Canvas)
    requires 1 <= version <= 40
    ensures canvas.Valid() && canvas.n == Size(version)
    ensures fresh(canvas) && fresh(canvas.modules) && fresh(canvas.reserved)
    ensures forall r, c :: canvas.Inside(r, c) ==> canvas.Shows(r, c, PatternAt(version, r, c))
  {
    var n := Size(version);
    canvas := new Canvas(n);
    canvas.DrawFinder(0, 0);
    canvas.DrawFinder(0, n - 7);
    canvas.DrawFinder(n - 7, 0);
    canvas.DrawTiming();
    canvas.DrawAlignments(version);
    canvas.ReserveFormat(version);
    canvas.DrawVersion(version);
  }
}
