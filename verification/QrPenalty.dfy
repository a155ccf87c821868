/** The penalty that decides which mask is kept (section 7.8.3 of ISO/IEC 18004:2015). */
module QrPenalty {

  /** The cells of a square matrix, row by row. */
  type Grid = seq<seq<bool>>

  predicate Square(g: Grid) { forall r :: 0 <= r < |g| ==> |g[r]| == |g| }

  ghost function GridOf(m: array2<bool>): (g: Grid)
    requires m.Length0 == m.Length1
    reads m
    ensures |g| == m.Length0 && Square(g)
    ensures forall r, c :: 0 <= r < |g| && 0 <= c < |g| ==> g[r][c] == m[r, c]
  {
    seq(m.Length0, r requires 0 <= r < m.Length0 reads m =>
      seq(m.Length1, c requires 0 <= c < m.Length1 reads m => m[r, c]))
  }

  function Row(g: Grid, i: nat): seq<bool>
    requires i < |g|
  {
    g[i]
  }

  function Column(g: Grid, i: nat): (line: seq<bool>)
    requires Square(g) && i < |g|
    ensures |line| == |g|
  {
    seq(|g|, r requires 0 <= r < |g| => g[r][i])
  }

  // ----- feature 1: runs of five cells or more -----

  /** The length of the run of equal cells that ends the line. */
  function LastRun(line: seq<bool>): (k: nat)
    ensures k <= |line| && (line != [] ==> k >= 1)
  {
    if |line| <= 1 then |line|
    else if line[|line| - 1] == line[|line| - 2] then LastRun(line[..|line| - 1]) + 1
    else 1
  }

  /** A run of k cells costs 3 when k is 5, and 1 more for each cell beyond. */
  function RunCost(k: nat): nat { if k >= 5 then k - 2 else 0 }

  /** The cost of the maximal runs of a line, taken from its end. */
  function RunsCost(line: seq<bool>): nat {
    if line == [] then 0
    else RunsCost(line[..|line| - LastRun(line)]) + RunCost(LastRun(line))
  }

  lemma {:induction false} LastRunIsARun(line: seq<bool>)
    requires line != []
    ensures forall i :: |line| - LastRun(line) <= i < |line| ==> line[i] == line[|line| - 1]
    ensures LastRun(line) < |line| ==> line[|line| - LastRun(line) - 1] != line[|line| - 1]
  {
    if |line| >= 2 && line[|line| - 1] == line[|line| - 2] {
      LastRunIsARun(line[..|line| - 1]);
    }
  }

  lemma RunsStep(line: seq<bool>, i: nat)
    requires 1 <= i < |line|
    ensures LastRun(line[..i + 1]) == if line[i] == line[i - 1] then LastRun(line[..i]) + 1 else 1
    ensures RunsCost(line[..i + 1]) + RunCost(LastRun(line[..i]))
         == RunsCost(line[..i]) + (if line[i] == line[i - 1] then RunCost(LastRun(line[..i]) + 1) else RunCost(LastRun(line[..i])))
  {
    var a, b := line[..i], line[..i + 1];
    assert b[..i] == a;
    if line[i] == line[i - 1] {
      assert b[..|b| - LastRun(b)] == a[..|a| - LastRun(a)];
    } else {
      assert b[..|b| - 1] == a;
    }
  }

  method Runs(line: seq<bool>) returns (score: nat)
    requires line != []
    ensures score == RunsCost(line)
  {
    score := 0;
    var run := 1;
    assert RunsCost(line[..1]) == 0;
    for i := 1 to |line|
      invariant run == LastRun(line[..i]) && score == RunsCost(line[..i])
    {
      RunsStep(line, i);
      if line[i] == line[i - 1] {
        run := run + 1;
        if run == 5 {
          score := score + 3;
        } else if run > 5 {
          score := score + 1;
        }
      } else {
        run := 1;
      }
    }
    assert line[..|line|] == line;
  }

  // ----- feature 3: patterns that look like a finder -----

  const FINDER: seq<bool> := [true, false, true, true, true, false, true]

  predicate Matches(line: seq<bool>, at: nat)
    requires at + 7 <= |line|
  {
    line[at..at + 7] == FINDER
  }

  predicate Quiet(line: seq<bool>, at: nat)
    requires at + 4 <= |line|
  {
    forall k :: at <= k < at + 4 ==> !line[k]
  }

  /** A finder pattern with four light cells after it or before it. */
  predicate FinderLike(line: seq<bool>, i: nat)
    requires i + 11 <= |line|
  {
    (Matches(line, i) && Quiet(line, i + 7)) || (Quiet(line, i) && Matches(line, i + 4))
  }

  /** Forty for each of the first `k` places where such a pattern stands. */
  function FindersCost(line: seq<bool>, k: nat): nat
    requires k == 0 || k + 10 <= |line|
  {
    if k == 0 then 0 else FindersCost(line, k - 1) + if FinderLike(line, k - 1) then 40 else 0
  }

  function FinderPlaces(n: nat): nat { if n < 11 then 0 else n - 10 }

  method FinderScore(line: seq<bool>) returns (score: nat)
    ensures score == FindersCost(line, FinderPlaces(|line|))
  {
    score := 0;
    var i := 0;
    while i + 11 <= |line|
      invariant i <= FinderPlaces(|line|) && score == FindersCost(line, i)
    {
      if FinderLike(line, i) {
        score := score + 40;
      }
      i := i + 1;
    }
  }

  // ----- the whole score -----

  /** Features 1 over the first `k` rows and columns. */
  function AllRuns(g: Grid, k: nat): nat
    requires Square(g) && k <= |g|
  {
    if k == 0 then 0 else AllRuns(g, k - 1) + RunsCost(Row(g, k - 1)) + RunsCost(Column(g, k - 1))
  }

  function AllFinders(g: Grid, k: nat): nat
    requires Square(g) && k <= |g|
  {
    if k == 0 then 0
    else AllFinders(g, k - 1) + FindersCost(Row(g, k - 1), FinderPlaces(|g|)) + FindersCost(Column(g, k - 1), FinderPlaces(|g|))
  }

  /** A two by two block of one colour. */
  predicate SameBlock(g: Grid, r: nat, c: nat)
    requires Square(g) && r + 1 < |g| && c + 1 < |g|
  {
    g[r][c] == g[r][c + 1] == g[r + 1][c] == g[r + 1][c + 1]
  }

  function BlocksInRow(g: Grid, r: nat, k: nat): nat
    requires Square(g) && r + 1 < |g| && k < |g|
  {
    if k == 0 then 0 else BlocksInRow(g, r, k - 1) + if SameBlock(g, r, k - 1) then 3 else 0
  }

  function Blocks(g: Grid, k: nat): nat
    requires Square(g) && k < |g|
  {
    if k == 0 then 0 else Blocks(g, k - 1) + BlocksInRow(g, k - 1, |g| - 1)
  }

  function DarkIn(line: seq<bool>): nat {
    if line == [] then 0 else DarkIn(line[..|line| - 1]) + if line[|line| - 1] then 1 else 0
  }

  function Dark(g: Grid): nat {
    if g == [] then 0 else Dark(g[..|g| - 1]) + DarkIn(g[|g| - 1])
  }

  function Distance(x: int, y: int): nat { if x < y then y - x else x - y }

  /** Ten for each full step of five percent between the share of dark cells and one half. */
  function BalanceCost(dark: nat, cells: nat): int
    requires cells > 0
  {
    Steps(Distance(100 * dark, 50 * cells), 5 * cells) * 10
  }

  function Steps(d: nat, w: nat): int
    requires w > 0
  {
    d / w
  }

  function Penalty(g: Grid): int
    requires Square(g) && g != []
  {
    AllRuns(g, |g|) + Blocks(g, |g| - 1) + AllFinders(g, |g|) + BalanceCost(Dark(g), |g| * |g|)
  }

  method BalanceScore(dark: nat, cells: nat) returns (score: int)
    requires cells > 0
    ensures score == BalanceCost(dark, cells)
  {
    var ratio := (dark * 100) as real / cells as real;
    var off := if ratio < 50.0 then 50.0 - ratio else ratio - 50.0;
    OffCentre(dark * 100, cells, ratio);
    FloorIsSteps(off / 5.0, Distance(100 * dark, 50 * cells), 5 * cells);
    score := (off / 5.0).Floor * 10;
  }

  lemma OffCentre(a: nat, cells: nat, ratio: real)
    requires cells > 0 && ratio == a as real / cells as real
    ensures var off := if ratio < 50.0 then 50.0 - ratio else ratio - 50.0;
            off / 5.0 * (5 * cells) as real == Distance(a, 50 * cells) as real
  {
    var b := cells as real;
    assert ratio * b == a as real;
    assert (50 * cells) as real == 50.0 * b;
    assert (5 * cells) as real == 5.0 * b;
    var off := if ratio < 50.0 then 50.0 - ratio else ratio - 50.0;
    assert off / 5.0 * (5.0 * b) == off * b;
    if ratio < 50.0 {
      LessTimes(ratio, 50.0, b);
      assert off * b == 50.0 * b - ratio * b;
    } else {
      LessTimes(50.0, ratio, b);
      assert off * b == ratio * b - 50.0 * b;
    }
  }

  lemma LessTimes(x: real, y: real, w: real)
    requires w > 0.0
    ensures x < y <==> x * w < y * w
  {}

  /** The floor of a quotient of naturals is their integer quotient. */
  lemma FloorIsSteps(x: real, d: nat, w: nat)
    requires w > 0 && x * w as real == d as real
    ensures x.Floor == Steps(d, w)
  {
    var q := Steps(d, w);
    QuotientBounds(d, w);
    ProductAsReal(q, w);
    ProductAsReal(q + 1, w);
    hide Steps;
    Between(x, d as real, w as real, q as real, (q + 1) as real);
    FloorBetween(x, q);
  }

  lemma Between(x: real, d: real, w: real, low: real, high: real)
    requires w > 0.0 && x * w == d && low * w <= d < high * w
    ensures low <= x < high
  {
    LessTimes(x, low, w);
    LessTimes(x, high, w);
  }

  lemma FloorBetween(x: real, q: int)
    requires q as real <= x < (q + 1) as real
    ensures x.Floor == q
  {}

  lemma QuotientBounds(d: nat, w: nat)
    requires w > 0
    ensures 0 <= Steps(d, w) && Steps(d, w) * w <= d < (Steps(d, w) + 1) * w
  {
    assert d == d / w * w + d % w;
  }

  lemma {:induction false} ProductAsReal(q: nat, w: nat)
    ensures (q * w) as real == q as real * w as real
  {
    if q > 0 {
      ProductAsReal(q - 1, w);
      assert q * w == (q - 1) * w + w;
      assert q as real == (q - 1) as real + 1.0;
    }
  }

  method RunsScore(modules: array2<bool>) returns (score: nat)
    requires modules.Length0 == modules.Length1 > 0
    ensures score == AllRuns(GridOf(modules), modules.Length0)
  {
    hide RunsCost;
    var n := modules.Length0;
    ghost var g := GridOf(modules);
    score := 0;
    for i := 0 to n
      invariant score == AllRuns(g, i)
    {
      var row := seq(n, j requires 0 <= j < n reads modules => modules[i, j]);
      var col := seq(n, j requires 0 <= j < n reads modules => modules[j, i]);
      assert row == Row(g, i) && col == Column(g, i);
      var inRow := Runs(row);
      var inCol := Runs(col);
      score := score + inRow + inCol;
    }
  }

  method BlocksScore(modules: array2<bool>) returns (score: nat)
    requires modules.Length0 == modules.Length1 > 0
    ensures score == Blocks(GridOf(modules), modules.Length0 - 1)
  {
    var n := modules.Length0;
    ghost var g := GridOf(modules);
    score := 0;
    for row := 0 to n - 1
      invariant score == Blocks(g, row)
    {
      for col := 0 to n - 1
        invariant score == Blocks(g, row) + BlocksInRow(g, row, col)
      {
        var v := modules[row, col];
        if v == modules[row, col + 1] && v == modules[row + 1, col] && v == modules[row + 1, col + 1] {
          score := score + 3;
        }
      }
    }
  }

  method FindersScore(modules: array2<bool>) returns (score: nat)
    requires modules.Length0 == modules.Length1 > 0
    ensures score == AllFinders(GridOf(modules), modules.Length0)
  {
    hide FindersCost;
    var n := modules.Length0;
    ghost var g := GridOf(modules);
    score := 0;
    for i := 0 to n
      invariant score == AllFinders(g, i)
    {
      var row := seq(n, j requires 0 <= j < n reads modules => modules[i, j]);
      var col := seq(n, j requires 0 <= j < n reads modules => modules[j, i]);
      assert row == Row(g, i) && col == Column(g, i);
      var inRow := FinderScore(row);
      var inCol := FinderScore(col);
      score := score + inRow + inCol;
    }
  }

  method CountDark(modules: array2<bool>) returns (dark: nat)
    requires modules.Length0 == modules.Length1
    ensures dark == Dark(GridOf(modules))
  {
    var n := modules.Length0;
    ghost var g := GridOf(modules);
    dark := 0;
    for row := 0 to n
      invariant dark == Dark(g[..row])
    {
      for col := 0 to n
        invariant dark == Dark(g[..row]) + DarkIn(g[row][..col])
      {
        assert g[row][..col + 1][..col] == g[row][..col];
        dark := dark + if modules[row, col] then 1 else 0;
      }
      assert g[row][..n] == g[row];
      assert g[..row + 1][..row] == g[..row];
    }
    assert g[..n] == g;
  }

  /** The penalty of a matrix, feature by feature. */
  method Score(modules: array2<bool>) returns (score: int)
    requires modules.Length0 == modules.Length1 > 0
    ensures score == Penalty(GridOf(modules))
  {
    hide AllRuns, Blocks, AllFinders, Dark, BalanceCost;
    var n := modules.Length0;
    var runs := RunsScore(modules);
    var blocks := BlocksScore(modules);
    var finders := FindersScore(modules);
    var dark := CountDark(modules);
    assert n * n > 0;
    var balance := BalanceScore(dark, n * n);
    score := runs + blocks + finders + balance;
  }
}
