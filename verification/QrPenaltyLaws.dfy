/** The penalty counted: each feature by the set of places that show it, and the same for the
    matrix turned about its diagonal. */
module QrPenaltyLaws {
  import opened QrPenalty

  // ----- counting places -----

  function Count(q: int -> bool, n: nat): nat {
    if n == 0 then 0 else Count(q, n - 1) + if q(n - 1) then 1 else 0
  }

  function Among(q: int -> bool, n: nat): set<int> { set i | 0 <= i < n && q(i) }

  lemma {:induction false} CountIsSize(q: int -> bool, n: nat)
    ensures Count(q, n) == |Among(q, n)|
  {
    if n == 0 {
      assert Among(q, 0) == {};
    } else {
      CountIsSize(q, n - 1);
      AmongGrows(q, n - 1);
    }
  }

  lemma AmongGrows(q: int -> bool, n: nat)
    ensures |Among(q, n + 1)| == |Among(q, n)| + if q(n) then 1 else 0
  {
    if q(n) {
      assert Among(q, n + 1) == Among(q, n) + {n};
    } else {
      assert Among(q, n + 1) == Among(q, n);
    }
  }

  lemma {:induction false} SameCount(q: int -> bool, r: int -> bool, n: nat)
    requires forall i :: 0 <= i < n ==> q(i) == r(i)
    ensures Count(q, n) == Count(r, n)
  {
    if n > 0 {
      SameCount(q, r, n - 1);
    }
  }

  function CountAll(p: (int, int) -> bool, h: nat, w: nat): nat {
    if h == 0 then 0 else CountAll(p, h - 1, w) + Count(c => p(h - 1, c), w)
  }

  function Places(p: (int, int) -> bool, h: nat, w: nat): set<(int, int)> {
    set r, c | 0 <= r < h && 0 <= c < w && p(r, c) :: (r, c)
  }

  lemma {:induction false} InRow(r: int, s: set<int>)
    ensures |set c | c in s :: (r, c)| == |s|
  {
    var row := set c | c in s :: (r, c);
    if forall c :: c !in s {
      assert s == {};
      assert row == {};
    } else {
      var c :| c in s;
      InRow(r, s - {c});
      assert row == (set d | d in s - {c} :: (r, d)) + {(r, c)};
    }
  }

  lemma {:induction false} CountAllIsSize(p: (int, int) -> bool, h: nat, w: nat)
    ensures CountAll(p, h, w) == |Places(p, h, w)|
  {
    if h == 0 {
      assert Places(p, 0, w) == {};
    } else {
      CountAllIsSize(p, h - 1, w);
      CountIsSize(c => p(h - 1, c), w);
      PlacesGrow(p, h - 1, w);
    }
  }

  lemma PlacesGrow(p: (int, int) -> bool, h: nat, w: nat)
    ensures |Places(p, h + 1, w)| == |Places(p, h, w)| + |Among(c => p(h, c), w)|
  {
    var line := Among(c => p(h, c), w);
    var row := set c | c in line :: (h, c);
    InRow(h, line);
    assert row !! Places(p, h, w);
    forall x | x in Places(p, h + 1, w) ensures x in Places(p, h, w) + row {
      if x.0 == h {
        assert x.1 in line;
      }
    }
    forall x | x in Places(p, h, w) + row ensures x in Places(p, h + 1, w) {}
    assert Places(p, h + 1, w) == Places(p, h, w) + row;
  }

  lemma {:induction false} SameCountAll(p: (int, int) -> bool, q: (int, int) -> bool, h: nat, w: nat)
    requires forall r, c :: 0 <= r < h && 0 <= c < w ==> p(r, c) == q(r, c)
    ensures CountAll(p, h, w) == CountAll(q, h, w)
  {
    if h > 0 {
      SameCountAll(p, q, h - 1, w);
      SameCount(c => p(h - 1, c), c => q(h - 1, c), w);
    }
  }

  lemma {:induction false} LastColumn(p: (int, int) -> bool, h: nat, w: nat)
    ensures CountAll(p, h, w + 1) == CountAll(p, h, w) + Count(r => p(r, w), h)
  {
    if h > 0 {
      LastColumn(p, h - 1, w);
      CountMore(p, h - 1, w);
      CountMoreRows(p, h - 1, w);
    }
  }

  lemma CountMore(p: (int, int) -> bool, r: nat, w: nat)
    ensures Count(c => p(r, c), w + 1) == Count(c => p(r, c), w) + if p(r, w) then 1 else 0
  {}

  lemma CountMoreRows(p: (int, int) -> bool, h: nat, w: nat)
    ensures Count(r => p(r, w), h + 1) == Count(r => p(r, w), h) + if p(h, w) then 1 else 0
  {}

  /** Counting by rows is counting by columns. */
  lemma {:induction false} CountTurned(p: (int, int) -> bool, q: (int, int) -> bool, h: nat, w: nat)
    requires forall r, c :: q(c, r) == p(r, c)
    ensures CountAll(p, h, w) == CountAll(q, w, h)
  {
    if h == 0 {
      NoColumns(q, w);
    } else {
      CountTurned(p, q, h - 1, w);
      LastColumn(q, w, h - 1);
      SameCount(c => p(h - 1, c), c => q(c, h - 1), w);
    }
  }

  lemma {:induction false} NoColumns(p: (int, int) -> bool, h: nat)
    ensures CountAll(p, h, 0) == 0
  {
    if h > 0 {
      NoColumns(p, h - 1);
    }
  }

  // ----- the features by their places -----

  /** Five cells of one colour in a line, from place `i` on. */
  predicate FiveAlike(line: seq<bool>, i: int) {
    0 <= i && i + 5 <= |line| && line[i] == line[i + 1] == line[i + 2] == line[i + 3] == line[i + 4]
  }

  /** Five with which a run begins. */
  predicate FirstFive(line: seq<bool>, i: int) { FiveAlike(line, i) && (i == 0 || line[i - 1] != line[i]) }

  /** A stretch of a line that looks like the picture, `#` for dark. */
  predicate LooksLike(line: seq<bool>, i: int, picture: string) {
    0 <= i && i + |picture| <= |line| && forall k :: 0 <= k < |picture| ==> (line[i + k] <==> picture[k] == '#')
  }

  predicate FinderAt(line: seq<bool>, i: int) {
    LooksLike(line, i, "#.###.#....") || LooksLike(line, i, "....#.###.#")
  }

  /** What a place in a line may show. */
  datatype Feature = Five | First | Finder

  predicate Shown(f: Feature, line: seq<bool>, i: int) {
    match f
    case Five => FiveAlike(line, i)
    case First => FirstFive(line, i)
    case Finder => FinderAt(line, i)
  }

  function In(f: Feature, line: seq<bool>): int -> bool { i => Shown(f, line, i) }

  predicate BlockAt(g: Grid, r: int, c: int)
    requires Square(g)
  {
    0 <= r && r + 1 < |g| && 0 <= c && c + 1 < |g| && g[r][c] == g[r][c + 1] == g[r + 1][c] == g[r + 1][c + 1]
  }

  predicate DarkAt(g: Grid, r: int, c: int)
    requires Square(g)
  {
    0 <= r < |g| && 0 <= c < |g| && g[r][c]
  }

  /** A run of five or more costs one for each five alike in it, and two more. */
  lemma {:induction false} RunsCounted(line: seq<bool>)
    ensures RunsCost(line) == Count(In(Five, line), |line|) + 2 * Count(In(First, line), |line|)
  {
    RunsUpTo(line, |line|);
    assert line[..|line|] == line;
    CountStops(In(Five, line), |line| - 4, |line|);
    CountStops(In(First, line), |line| - 4, |line|);
  }

  lemma {:induction false} CountStops(q: int -> bool, m: int, n: nat)
    requires m <= n && forall i :: m <= i < n ==> !q(i)
    ensures Count(q, n) == Count(q, if m < 0 then 0 else m)
  {
    if m < n && n > 0 {
      CountStops(q, m, n - 1);
    }
  }

  lemma {:induction false} RunsUpTo(line: seq<bool>, n: nat)
    requires n <= |line|
    ensures RunsCost(line[..n])
         == Count(In(Five, line), if n < 4 then 0 else n - 4) + 2 * Count(In(First, line), if n < 4 then 0 else n - 4)
  {
    if n >= 1 {
      RunsUpTo(line, n - 1);
      RunGrows(line, n);
    }
  }

  lemma RunGrows(line: seq<bool>, n: nat)
    requires 1 <= n <= |line|
    ensures RunsCost(line[..n]) == RunsCost(line[..n - 1])
      + (if FiveAlike(line, n - 5) then 1 else 0) + (if FirstFive(line, n - 5) then 2 else 0)
  {
    if n == 1 {
      assert line[..1][..0] == [];
    } else {
      RunsStep(line, n - 1);
      LastRunIs(line, n);
    }
  }

  lemma {:induction false} LastRunIs(line: seq<bool>, n: nat)
    requires 1 <= n <= |line|
    ensures LastRun(line[..n]) >= 5 <==> FiveAlike(line, n - 5)
    ensures LastRun(line[..n]) == 5 <==> FirstFive(line, n - 5)
  {
    var a := line[..n];
    LastRunIsARun(a);
    var k := LastRun(a);
    assert forall i :: n - k <= i < n ==> line[i] == line[n - 1];
    assert k < n ==> line[n - k - 1] != line[n - 1];
  }

  lemma {:induction false} FindersCounted(line: seq<bool>, k: nat)
    requires k == 0 || k + 10 <= |line|
    ensures FindersCost(line, k) == 40 * Count(In(Finder, line), k)
  {
    if k > 0 {
      FindersCounted(line, k - 1);
      FinderIsLooks(line, k - 1);
    }
  }

  lemma FinderIsLooks(line: seq<bool>, i: nat)
    requires i + 11 <= |line|
    ensures FinderLike(line, i) <==> FinderAt(line, i)
  {
    MatchesLooks(line, i);
    MatchesLooks(line, i + 4);
    QuietLooks(line, i);
    QuietLooks(line, i + 7);
    hide Matches, Quiet, LooksLike;
    FinderPictures();
    LooksInTwo(line, i, "#.###.#", "....");
    LooksInTwo(line, i, "....", "#.###.#");
  }

  lemma FinderPictures()
    ensures "#.###.#" + "...." == "#.###.#...." && "...." + "#.###.#" == "....#.###.#"
  {}

  lemma MatchesLooks(line: seq<bool>, i: nat)
    requires i + 7 <= |line|
    ensures Matches(line, i) <==> LooksLike(line, i, "#.###.#")
  {
    assert forall k :: 0 <= k < 7 ==> (FINDER[k] <==> "#.###.#"[k] == '#');
    if LooksLike(line, i, "#.###.#") {
      assert forall k :: 0 <= k < 7 ==> line[i..i + 7][k] == FINDER[k];
    }
    if Matches(line, i) {
      forall k | 0 <= k < 7 ensures line[i + k] <==> "#.###.#"[k] == '#' {
        assert line[i..i + 7][k] == FINDER[k];
      }
    }
  }

  lemma QuietLooks(line: seq<bool>, i: nat)
    requires i + 4 <= |line|
    ensures Quiet(line, i) <==> LooksLike(line, i, "....")
  {
    if LooksLike(line, i, "....") {
      forall k | i <= k < i + 4 ensures !line[k] {
        assert line[i + (k - i)] <==> "...."[k - i] == '#';
      }
    }
  }

  lemma LooksInTwo(line: seq<bool>, i: nat, a: string, b: string)
    ensures LooksLike(line, i, a + b) <==> LooksLike(line, i, a) && LooksLike(line, i + |a|, b)
  {
    if LooksLike(line, i, a + b) {
      forall k | 0 <= k < |a| ensures line[i + k] <==> a[k] == '#' { assert (a + b)[k] == a[k]; }
      forall k | 0 <= k < |b| ensures line[i + |a| + k] <==> b[k] == '#' {
        assert (a + b)[|a| + k] == b[k] && line[i + (|a| + k)] == line[i + |a| + k];
      }
    }
    if LooksLike(line, i, a) && LooksLike(line, i + |a|, b) {
      forall k | 0 <= k < |a + b| ensures line[i + k] <==> (a + b)[k] == '#' {
        if k >= |a| { assert line[i + |a| + (k - |a|)] == line[i + k]; }
      }
    }
  }

  // ----- over the whole matrix -----

  /** A line of the matrix: a row, or a column. */
  function LineOf(g: Grid, i: int, column: bool): seq<bool>
    requires Square(g)
  {
    if i < 0 || i >= |g| then [] else if column then Column(g, i) else Row(g, i)
  }

  function InLines(f: Feature, g: Grid, column: bool): (int, int) -> bool
    requires Square(g)
  {
    (i, j) => Shown(f, LineOf(g, i, column), j)
  }

  /** How many places in the first `k` rows, or columns, show the feature. */
  function CountIn(f: Feature, g: Grid, column: bool, k: nat): nat
    requires Square(g)
  {
    CountAll(InLines(f, g, column), k, |g|)
  }

  lemma CountInStep(f: Feature, g: Grid, column: bool, k: nat)
    requires Square(g) && k < |g|
    ensures CountIn(f, g, column, k + 1) == CountIn(f, g, column, k) + Count(In(f, LineOf(g, k, column)), |g|)
  {
    hide Shown;
    var p, line := InLines(f, g, column), LineOf(g, k, column);
    SameCount(c => p(k, c), In(f, line), |g|);
  }

  lemma CountInNothing(f: Feature, g: Grid, column: bool)
    requires Square(g)
    ensures CountIn(f, g, column, 0) == 0
  {}

  lemma LinesStep(g: Grid, k: nat)
    requires Square(g) && k < |g|
    ensures AllRuns(g, k + 1) == AllRuns(g, k) + RunsCost(LineOf(g, k, false)) + RunsCost(LineOf(g, k, true))
    ensures AllFinders(g, k + 1) == AllFinders(g, k) + FindersCost(LineOf(g, k, false), FinderPlaces(|g|))
                                                     + FindersCost(LineOf(g, k, true), FinderPlaces(|g|))
  {
    hide RunsCost, FindersCost;
  }

  lemma NoLines(g: Grid)
    requires Square(g)
    ensures AllRuns(g, 0) == 0 && AllFinders(g, 0) == 0
  {}

  lemma RunsOfLine(g: Grid, k: nat, column: bool)
    requires Square(g) && k < |g|
    ensures RunsCost(LineOf(g, k, column))
      == CountIn(Five, g, column, k + 1) - CountIn(Five, g, column, k)
       + 2 * (CountIn(First, g, column, k + 1) - CountIn(First, g, column, k))
  {
    RunsCounted(LineOf(g, k, column));
    assert |LineOf(g, k, column)| == |g|;
    hide *;
    CountInStep(Five, g, column, k);
    CountInStep(First, g, column, k);
  }

  lemma {:induction false} RunsOfLines(g: Grid, k: nat)
    requires Square(g) && k <= |g|
    ensures AllRuns(g, k) == CountIn(Five, g, false, k) + 2 * CountIn(First, g, false, k)
                           + CountIn(Five, g, true, k) + 2 * CountIn(First, g, true, k)
  {
    hide *;
    if k > 0 {
      RunsOfLines(g, k - 1);
      LinesStep(g, k - 1);
      RunsOfLine(g, k - 1, false);
      RunsOfLine(g, k - 1, true);
    } else {
      NoLines(g);
      CountInNothing(Five, g, false);
      CountInNothing(First, g, false);
      CountInNothing(Five, g, true);
      CountInNothing(First, g, true);
    }
  }

  lemma FindersOfLine(line: seq<bool>)
    ensures FindersCost(line, FinderPlaces(|line|)) == 40 * Count(In(Finder, line), |line|)
  {
    FindersCounted(line, FinderPlaces(|line|));
    CountStops(In(Finder, line), |line| - 10, |line|);
  }

  lemma {:induction false} FindersOfLines(g: Grid, k: nat)
    requires Square(g) && k <= |g|
    ensures AllFinders(g, k) == 40 * (CountIn(Finder, g, false, k) + CountIn(Finder, g, true, k))
  {
    hide FindersCost, In, InLines, CountIn, AllFinders;
    if k > 0 {
      FindersOfLines(g, k - 1);
      LinesStep(g, k - 1);
      FindersOfLine(LineOf(g, k - 1, false));
      FindersOfLine(LineOf(g, k - 1, true));
      CountInStep(Finder, g, false, k - 1);
      CountInStep(Finder, g, true, k - 1);
    } else {
      NoLines(g);
      CountInNothing(Finder, g, false);
      CountInNothing(Finder, g, true);
    }
  }

  function InBlocks(g: Grid): (int, int) -> bool
    requires Square(g)
  {
    (r, c) => BlockAt(g, r, c)
  }

  function InDark(g: Grid): (int, int) -> bool
    requires Square(g)
  {
    (r, c) => DarkAt(g, r, c)
  }

  function InRowOf(p: (int, int) -> bool, r: int): int -> bool { c => p(r, c) }

  lemma CountAllStep(p: (int, int) -> bool, h: nat, w: nat)
    ensures CountAll(p, h + 1, w) == CountAll(p, h, w) + Count(InRowOf(p, h), w)
  {
    SameCount(c => p(h, c), InRowOf(p, h), w);
  }

  lemma {:induction false} BlocksOfRow(g: Grid, r: nat, k: nat)
    requires Square(g) && r + 1 < |g| && k < |g|
    ensures BlocksInRow(g, r, k) == 3 * Count(InRowOf(InBlocks(g), r), k)
  {
    if k > 0 {
      BlocksOfRow(g, r, k - 1);
    }
  }

  lemma {:induction false} BlocksCounted(g: Grid, k: nat)
    requires Square(g) && k < |g|
    ensures Blocks(g, k) == 3 * CountAll(InBlocks(g), k, |g| - 1)
  {
    hide BlocksInRow;
    if k > 0 {
      BlocksCounted(g, k - 1);
      BlocksOfRow(g, k - 1, |g| - 1);
      CountAllStep(InBlocks(g), k - 1, |g| - 1);
    }
  }

  lemma {:induction false} DarkOfLine(g: Grid, r: nat, k: nat)
    requires Square(g) && r < |g| && k <= |g|
    ensures DarkIn(g[r][..k]) == Count(InRowOf(InDark(g), r), k)
  {
    if k > 0 {
      DarkOfLine(g, r, k - 1);
      assert g[r][..k][..k - 1] == g[r][..k - 1];
    }
  }

  lemma {:induction false} DarkCounted(g: Grid, k: nat)
    requires Square(g) && k <= |g|
    ensures Dark(g[..k]) == CountAll(InDark(g), k, |g|)
  {
    hide DarkIn;
    if k > 0 {
      DarkCounted(g, k - 1);
      DarkOfLine(g, k - 1, |g|);
      assert g[k - 1][..|g|] == g[k - 1];
      assert g[..k][..k - 1] == g[..k - 1];
      CountAllStep(InDark(g), k - 1, |g|);
    }
  }

  /** The cells of a matrix of n by n at which something holds. */
  function Cells(p: (int, int) -> bool, g: Grid): nat { |Places(p, |g|, |g|)| }

  /** The penalty, feature by feature, as numbers of places: five alike in a line cost one,
      and two more where a run begins; a block costs three; a finder pattern with light
      cells beside it forty, along rows and along columns; then the share of dark cells. */
  lemma PenaltyCounts(g: Grid)
    requires Square(g) && g != []
    ensures Penalty(g)
      == Cells(InLines(Five, g, false), g) + 2 * Cells(InLines(First, g, false), g)
       + Cells(InLines(Five, g, true), g) + 2 * Cells(InLines(First, g, true), g)
       + 3 * Cells(InBlocks(g), g)
       + 40 * (Cells(InLines(Finder, g, false), g) + Cells(InLines(Finder, g, true), g))
       + BalanceCost(Cells(InDark(g), g), |g| * |g|)
  {
    var n := |g|;
    hide Shown, LineOf, BlockAt, DarkAt, AllRuns, AllFinders, Blocks, Dark, BalanceCost;
    RunsOfLines(g, n);
    FindersOfLines(g, n);
    BlocksCounted(g, n - 1);
    DarkCounted(g, n);
    assert g[..n] == g;
    hide CountAll;
    CountAllIsSize(InLines(Five, g, false), n, n);
    CountAllIsSize(InLines(First, g, false), n, n);
    CountAllIsSize(InLines(Five, g, true), n, n);
    CountAllIsSize(InLines(First, g, true), n, n);
    CountAllIsSize(InLines(Finder, g, false), n, n);
    CountAllIsSize(InLines(Finder, g, true), n, n);
    CountAllIsSize(InDark(g), n, n);
    CountAllIsSize(InBlocks(g), n - 1, n - 1);
    BlocksInside(g);
  }

  lemma BlocksInside(g: Grid)
    requires Square(g) && g != []
    ensures Places(InBlocks(g), |g| - 1, |g| - 1) == Places(InBlocks(g), |g|, |g|)
  {}

  /** Ten for each full step of five percent, counted in cells. */
  lemma BalanceIff(dark: nat, cells: nat, k: nat)
    requires cells > 0
    ensures BalanceCost(dark, cells) == 10 * k <==>
      5 * cells * k <= Distance(100 * dark, 50 * cells) < 5 * cells * (k + 1)
  {
    var d, w := Distance(100 * dark, 50 * cells), 5 * cells;
    QuotientBounds(d, w);
    var q := Steps(d, w);
    hide Steps, Distance;
    OnlyQuotient(d, w, q, k);
  }

  lemma OnlyQuotient(d: nat, w: nat, q: int, k: nat)
    requires w > 0 && q >= 0 && q * w <= d < (q + 1) * w
    ensures q == k <==> w * k <= d < w * (k + 1)
  {
    if q < k {
      assert (q + 1) * w <= k * w;
    } else if q > k {
      assert (k + 1) * w <= q * w;
    }
  }

  // ----- turned about the diagonal -----

  function Turned(g: Grid): (t: Grid)
    requires Square(g)
    ensures |t| == |g| && Square(t)
    ensures forall r, c :: 0 <= r < |g| && 0 <= c < |g| ==> t[r][c] == g[c][r]
  {
    seq(|g|, i requires 0 <= i < |g| => Column(g, i))
  }

  lemma LinesTurned(g: Grid, i: nat)
    requires Square(g) && i < |g|
    ensures Row(Turned(g), i) == Column(g, i) && Column(Turned(g), i) == Row(g, i)
  {}

  lemma {:induction false} RunsTurned(g: Grid, k: nat)
    requires Square(g) && k <= |g|
    ensures AllRuns(Turned(g), k) == AllRuns(g, k)
    ensures AllFinders(Turned(g), k) == AllFinders(g, k)
  {
    hide RunsCost, FindersCost, Turned, Row, Column;
    if k > 0 {
      RunsTurned(g, k - 1);
      LinesTurned(g, k - 1);
    }
  }

  lemma BlockTurned(g: Grid, r: int, c: int)
    requires Square(g)
    ensures BlockAt(Turned(g), c, r) == BlockAt(g, r, c)
  {
    hide Turned;
    var t := Turned(g);
    if 0 <= r && r + 1 < |g| && 0 <= c && c + 1 < |g| {
      assert t[c][r] == g[r][c] && t[c][r + 1] == g[r + 1][c];
      assert t[c + 1][r] == g[r][c + 1] && t[c + 1][r + 1] == g[r + 1][c + 1];
    }
  }

  lemma BlockCountTurned(g: Grid, n: nat)
    requires Square(g)
    ensures CountAll(InBlocks(Turned(g)), n, n) == CountAll(InBlocks(g), n, n)
  {
    hide BlockAt, Turned;
    forall r, c ensures InBlocks(Turned(g))(c, r) == InBlocks(g)(r, c) {
      BlockTurned(g, r, c);
    }
    hide InBlocks;
    CountTurned(InBlocks(g), InBlocks(Turned(g)), n, n);
  }

  lemma BlocksTurned(g: Grid)
    requires Square(g) && g != []
    ensures Blocks(Turned(g), |g| - 1) == Blocks(g, |g| - 1)
  {
    hide *;
    BlocksCounted(g, |g| - 1);
    BlocksCounted(Turned(g), |g| - 1);
    BlockCountTurned(g, |g| - 1);
  }

  lemma DarkTurned(g: Grid)
    requires Square(g)
    ensures Dark(Turned(g)) == Dark(g)
  {
    var n, t := |g|, Turned(g);
    forall r, c ensures InDark(t)(c, r) == InDark(g)(r, c) {
      hide Turned;
    }
    hide InDark, Turned;
    DarkCounted(g, n);
    DarkCounted(t, n);
    assert g[..n] == g && t[..n] == t;
    CountTurned(InDark(g), InDark(t), n, n);
  }

  /** Rows and columns count alike: the penalty of the turned matrix is the same. */
  lemma PenaltyTurned(g: Grid)
    requires Square(g) && g != []
    ensures Penalty(Turned(g)) == Penalty(g)
  {
    hide AllRuns, AllFinders, Blocks, Dark, BalanceCost, Turned;
    RunsTurned(g, |g|);
    BlocksTurned(g);
    DarkTurned(g);
  }
}
