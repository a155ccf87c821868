/** The mask of a symbol and the format information that names it. */
module QrFormat {
  import opened Wrappers
  import opened BchCode
  import opened QrCodewords
  import opened QrPlacement

  // ----- masks -----

  predicate MaskBit(mask: nat, row: int, col: int)
    requires row >= 0 && col >= 0
  {
    match mask
    case 0 => (row + col) % 2 == 0
    case 1 => row % 2 == 0
    case 2 => col % 3 == 0
    case 3 => (row + col) % 3 == 0
    case 4 => (row / 2 + col / 3) % 2 == 0
    case 5 => (row * col) % 2 + (row * col) % 3 == 0
    case 6 => ((row * col) % 2 + (row * col) % 3) % 2 == 0
    case _ => ((row + col) % 2 + (row * col) % 3) % 2 == 0
  }

  /** The eight masks as the standard draws them (section 7.8.2 of ISO/IEC 18004:2015): each
      picture is laid out side by side over the whole symbol, from its upper left corner on. */
  const MASK_PICTURES: seq<seq<string>> :=
    [["#.", ".#"],
     ["#", "."],
     ["#.."],
     ["#..", "..#", ".#."],
     ["###...", "###...", "...###", "...###"],
     ["######", "#.....", "#..#..", "#.#.#.", "#..#..", "#....."],
     ["######", "###...", "##.##.", "#.#.#.", "#.##.#", "#...##"],
     ["#.#.#.", "...###", "#...##", ".#.#.#", "###...", ".###.."]]

  predicate IsPicture(picture: seq<string>) {
    picture != [] && picture[0] != "" && forall r :: 0 <= r < |picture| ==> |picture[r]| == |picture[0]|
  }

  /** Whether the mask's picture is dark at a cell. */
  predicate Darkens(mask: nat, row: int, col: int)
    requires mask < 8 && row >= 0 && col >= 0
  {
    PicturesAreWhole(mask);
    var picture := MASK_PICTURES[mask];
    picture[row % |picture|][col % |picture[0]|] == '#'
  }

  lemma PicturesAreWhole(mask: nat)
    requires mask < 8
    ensures IsPicture(MASK_PICTURES[mask])
  {}

  lemma ProductParts(a: nat, x: nat, b: nat, y: nat)
    ensures (6 * a + x) * (6 * b + y) == 6 * (6 * a * b + a * y + b * x) + x * y
  {}

  lemma SixesAside(n: nat, rest: nat, m: nat)
    requires n == 6 * rest + m
    ensures n % 2 == m % 2 && n % 3 == m % 3
  {
    TwosAside(3 * rest, m);
    ThreesAside(2 * rest, m);
  }

  lemma RemaindersOfProduct(row: nat, col: nat)
    ensures (row * col) % 2 == ((row % 6) * (col % 6)) % 2
    ensures (row * col) % 3 == ((row % 6) * (col % 6)) % 3
  {
    var a, x, b, y := row / 6, row % 6, col / 6, col % 6;
    ProductParts(a, x, b, y);
    SixesAside(row * col, 6 * a * b + a * y + b * x, x * y);
  }

  lemma TwosAside(q: nat, n: nat)
    ensures (2 * q + n) % 2 == n % 2
  {}

  lemma ThreesAside(q: nat, n: nat)
    ensures (3 * q + n) % 3 == n % 3
  {}

  lemma SumOfTwos(row: nat, col: nat)
    ensures (row + col) % 2 == (row % 2 + col % 2) % 2 == (row % 6 + col % 6) % 2
  {
    TwosAside(row / 2 + col / 2, row % 2 + col % 2);
    TwosAside(3 * (row / 6 + col / 6), row % 6 + col % 6);
  }

  lemma SumOfThrees(row: nat, col: nat)
    ensures (row + col) % 3 == (row % 3 + col % 3) % 3
  {
    ThreesAside(row / 3 + col / 3, row % 3 + col % 3);
  }

  lemma Halves(row: nat, col: nat)
    ensures (row / 2 + col / 3) % 2 == (row % 4 / 2 + col % 6 / 3) % 2
  {
    var a, x, b, y := row / 4, row % 4, col / 6, col % 6;
    assert row / 2 == 2 * a + x / 2;
    assert col / 3 == 2 * b + y / 3;
    TwosAside(a + b, x / 2 + y / 3);
  }

  lemma Picture3(x: nat, y: nat)
    requires x < 3 && y < 3
    ensures |MASK_PICTURES[3]| == 3 && |MASK_PICTURES[3][x]| == 3 && |MASK_PICTURES[3][0]| == 3
    ensures MASK_PICTURES[3][x][y] == '#' <==> (x + y) % 3 == 0
  {}

  lemma Picture4(x: nat, y: nat)
    requires x < 4 && y < 6
    ensures |MASK_PICTURES[4]| == 4 && |MASK_PICTURES[4][x]| == 6 && |MASK_PICTURES[4][0]| == 6
    ensures MASK_PICTURES[4][x][y] == '#' <==> (x / 2 + y / 3) % 2 == 0
  {}

  lemma Picture5(x: nat, y: nat)
    requires x < 6 && y < 6
    ensures |MASK_PICTURES[5]| == 6 && |MASK_PICTURES[5][x]| == 6 && |MASK_PICTURES[5][0]| == 6
    ensures MASK_PICTURES[5][x][y] == '#' <==> (x * y) % 2 + (x * y) % 3 == 0
  {
    if x == 0 {
    } else if x == 1 {
    } else if x == 2 {
    } else if x == 3 {
    } else if x == 4 {
    } else {
    }
  }

  lemma Picture6(x: nat, y: nat)
    requires x < 6 && y < 6
    ensures |MASK_PICTURES[6]| == 6 && |MASK_PICTURES[6][x]| == 6 && |MASK_PICTURES[6][0]| == 6
    ensures MASK_PICTURES[6][x][y] == '#' <==> ((x * y) % 2 + (x * y) % 3) % 2 == 0
  {
    if x == 0 {
    } else if x == 1 {
    } else if x == 2 {
    } else if x == 3 {
    } else if x == 4 {
    } else {
    }
  }

  lemma Picture7(x: nat, y: nat)
    requires x < 6 && y < 6
    ensures |MASK_PICTURES[7]| == 6 && |MASK_PICTURES[7][x]| == 6 && |MASK_PICTURES[7][0]| == 6
    ensures MASK_PICTURES[7][x][y] == '#' <==> ((x + y) % 2 + (x * y) % 3) % 2 == 0
  {
    if x == 0 {
    } else if x == 1 {
    } else if x == 2 {
    } else if x == 3 {
    } else if x == 4 {
    } else {
    }
  }

  lemma SimpleMasks(mask: nat, row: nat, col: nat)
    requires mask < 3
    ensures MaskBit(mask, row, col) <==> Darkens(mask, row, col)
  {
    SumOfTwos(row, col);
    assert MASK_PICTURES[0] == ["#.", ".#"] && MASK_PICTURES[1] == ["#", "."] && MASK_PICTURES[2] == ["#.."];
  }

  /** The arithmetic of each mask draws its picture. */
  lemma MaskIsPicture(mask: nat, row: nat, col: nat)
    requires mask < 8
    ensures MaskBit(mask, row, col) <==> Darkens(mask, row, col)
  {
    if mask < 3 {
      SimpleMasks(mask, row, col);
    } else if mask == 3 {
      SumOfThrees(row, col);
      Picture3(row % 3, col % 3);
    } else if mask == 4 {
      Halves(row, col);
      Picture4(row % 4, col % 6);
    } else {
      ProductMasks(mask, row, col);
    }
  }

  lemma ProductMasks(mask: nat, row: nat, col: nat)
    requires 5 <= mask < 8
    ensures MaskBit(mask, row, col) <==> Darkens(mask, row, col)
  {
    RemaindersOfProduct(row, col);
    SumOfTwos(row, col);
    if mask == 5 {
      Picture5(row % 6, col % 6);
    } else if mask == 6 {
      Picture6(row % 6, col % 6);
    } else {
      Picture7(row % 6, col % 6);
    }
  }

  /** Inverts the free cells where the picture of the mask is dark, and no other cell. */
  method ApplyMask(modules: array2<bool>, reserved: array2<bool>, mask: nat, ghost n: nat, ghost res: Reservation)
    requires modules.Length0 == modules.Length1 == n && modules != reserved
    requires Reflects(reserved, n, res) && mask < 8
    modifies modules
    ensures forall r, c :: 0 <= r < n && 0 <= c < n ==>
      modules[r, c] == (old(modules[r, c]) != (!res(r, c) && Darkens(mask, r, c)))
  {
    hide MaskBit, Darkens;
    for row := 0 to modules.Length0
      invariant forall r, c :: 0 <= r < n && 0 <= c < n ==>
        modules[r, c] == (old(modules[r, c]) != (r < row && !res(r, c) && Darkens(mask, r, c)))
    {
      for col := 0 to modules.Length0
        invariant forall r, c :: 0 <= r < n && 0 <= c < n ==>
          modules[r, c] == (old(modules[r, c]) != ((r < row || (r == row && c < col)) && !res(r, c) && Darkens(mask, r, c)))
      {
        MaskIsPicture(mask, row, col);
        if !reserved[row, col] && MaskBit(mask, row, col) {
          modules[row, col] := !modules[row, col];
        }
      }
    }
  }

  // ----- format information -----

  /** x^10 + x^8 + x^5 + x^4 + x^2 + x + 1, that is 0x537. */
  const FORMAT_GENERATOR: seq<bool> := [true, false, true, false, false, true, true, false, true, true, true]

  /** The pattern 0x5412 the format word is combined with, so that it is never all light. */
  const FORMAT_MASK: seq<bool> :=
    [true, false, true, false, true, false, false, false, false, false, true, false, false, true, false]

  /** The indicator of error correction level M. */
  const LEVEL_M := 0

  /** The two generators and the mask are the numbers the encoder is written with. */
  lemma FormatConstants()
    ensures FromBits(FORMAT_GENERATOR) == 0x537 && FromBits(FORMAT_MASK) == 0x5412
  {
    FromBitsEleven(FORMAT_GENERATOR);
    hide FromBits;
    MaskConstant();
  }

  lemma MaskConstant()
    ensures FromBits(FORMAT_MASK) == 0x5412
  {
    FromBitsEleven(FORMAT_MASK[..11]);
    assert FORMAT_MASK[..15] == FORMAT_MASK;
    hide FromBits;
    FromBitsMore(FORMAT_MASK, 11);
    FromBitsMore(FORMAT_MASK, 12);
    FromBitsMore(FORMAT_MASK, 13);
    FromBitsMore(FORMAT_MASK, 14);
  }

  /** The fifteen bits of the format information, the most significant first. */
  function FormatWord(mask: nat): (w: seq<bool>)
    ensures |w| == 15
  {
    Xor(Encode(ToBits(8 * LEVEL_M + mask, 5), FORMAT_GENERATOR), FORMAT_MASK)
  }

  /** What a reader makes of fifteen format bits: the level and the mask, or nothing
      when the bits are not a word of the code. */
  function ReadFormat(word: seq<bool>): (r: Option<(nat, nat)>)
    requires |word| == 15
    ensures r.Some? ==> r.value.1 < 8
  {
    var w := Xor(word, FORMAT_MASK);
    if !InCode(w, FORMAT_GENERATOR) then None
    else
      var data := FromBits(w[..5]);
      Some((data / 8, data % 8))
  }

  lemma ReadFormatOfWord(mask: nat)
    requires mask < 8
    ensures ReadFormat(FormatWord(mask)) == Some((LEVEL_M, mask)) == Some((0, mask))
  {
    hide ToBits, FromBits, Encode, InCode;
    var data := ToBits(mask, 5);
    var w := Encode(data, FORMAT_GENERATOR);
    assert Xor(FormatWord(mask), FORMAT_MASK) == w;
    assert 8 <= Exp2(5) by { assert Exp2(3) == 8; }
    FromToBits(mask, 5);
    EncodeIsTheCodeword(data, FORMAT_GENERATOR, w);
  }

  /** The check bits come out of a ten-bit register. */
  method FormatInformation(mask: nat) returns (bits: seq<bool>)
    requires mask < 8
    ensures bits == FormatWord(mask)
  {
    hide ToBits, Encode, RegisterStep;
    var data := 8 * LEVEL_M + mask;
    var rem := ToBits(data, 10);
    for i := 0 to 10
      invariant rem == Register(ToBits(data, 10), FORMAT_GENERATOR, i)
    {
      rem := RegisterStep(rem, FORMAT_GENERATOR);
    }
    assert ToBits(data, 10) == Zeros(5) + ToBits(data, 5) by { SmallToBits(data, 5, 5); }
    RegisterEncodes(ToBits(data, 5), FORMAT_GENERATOR, 10);
    bits := Xor(ToBits(data, 5) + rem, FORMAT_MASK);
  }

  lemma {:induction false} SmallToBits(value: nat, extra: nat, length: nat)
    requires value < Exp2(length)
    ensures ToBits(value, extra + length) == Zeros(extra) + ToBits(value, length)
    decreases length, extra
  {
    if length > 0 {
      SmallToBits(value / 2, extra, length - 1);
    } else if extra > 0 {
      SmallToBits(0, extra - 1, 0);
      assert Zeros(extra) == Zeros(extra - 1) + [false];
    }
  }

  /** Which bit of the format information a cell carries, or -1. */
  function FormatBit(n: nat, r: int, c: int): int {
    if c == 8 && 0 <= r <= 5 then r
    else if c == 8 && r == 7 then 6
    else if c == 8 && r == 8 then 7
    else if c == 7 && r == 8 then 8
    else if r == 8 && 0 <= c <= 5 then 14 - c
    else if r == 8 && n - 8 <= c < n then n - 1 - c
    else if c == 8 && n - 7 <= r < n then r - (n - 15)
    else -1
  }

  predicate FirstCopy(r: int, c: int) { (c == 8 && 0 <= r <= 8 && r != 6) || (r == 8 && 0 <= c <= 7 && c != 6) }

  predicate SecondCopy(n: nat, r: int, c: int) { (r == 8 && n - 8 <= c < n) || (c == 8 && n - 7 <= r < n) }

  /** Down column 8 beside the top left finder, then along row 8. */
  method WriteFirstCopy(modules: array2<bool>, bits: seq<bool>, ghost n: nat)
    requires modules.Length0 == modules.Length1 == n && n >= 21 && |bits| == 15
    modifies modules
    ensures forall r, c :: 0 <= r < n && 0 <= c < n ==>
      modules[r, c] == if FirstCopy(r, c) then bits[14 - FormatBit(n, r, c)] else old(modules[r, c])
  {
    for i := 0 to 6
      invariant forall r, c :: 0 <= r < n && 0 <= c < n ==>
        modules[r, c] == if c == 8 && r < i then bits[14 - r] else old(modules[r, c])
    {
      modules[i, 8] := bits[14 - i];
    }
    modules[7, 8] := bits[14 - 6];
    modules[8, 8] := bits[14 - 7];
    modules[8, 7] := bits[14 - 8];
    for i := 9 to 15
      invariant forall r, c :: 0 <= r < n && 0 <= c < n ==>
        modules[r, c] == if (c == 8 && r <= 8 && r != 6) || (r == 8 && (c == 7 || (c <= 5 && 14 - c < i)))
                         then bits[14 - FormatBit(n, r, c)] else old(modules[r, c])
    {
      modules[8, 14 - i] := bits[14 - i];
    }
  }

  /** Along row 8 under the top right finder, then down column 8 beside the bottom left one. */
  method WriteSecondCopy(modules: array2<bool>, bits: seq<bool>, ghost n: nat)
    requires modules.Length0 == modules.Length1 == n && n >= 21 && |bits| == 15
    modifies modules
    ensures forall r, c :: 0 <= r < n && 0 <= c < n ==>
      modules[r, c] == if SecondCopy(n, r, c) then bits[14 - FormatBit(n, r, c)] else old(modules[r, c])
  {
    var size := modules.Length0;
    for i := 0 to 8
      invariant forall r, c :: 0 <= r < n && 0 <= c < n ==>
        modules[r, c] == if r == 8 && n - i <= c then bits[14 - (n - 1 - c)] else old(modules[r, c])
    {
      modules[8, size - 1 - i] := bits[14 - i];
    }
    for i := 8 to 15
      invariant forall r, c :: 0 <= r < n && 0 <= c < n ==>
        modules[r, c] == if (r == 8 && n - 8 <= c) || (c == 8 && n - 7 <= r < n - 15 + i)
                         then bits[14 - FormatBit(n, r, c)] else old(modules[r, c])
    {
      modules[size - 15 + i, 8] := bits[14 - i];
    }
  }

  /** Writes both copies of the format information and the dark module. */
  method WriteFormat(modules: array2<bool>, mask: nat, ghost n: nat)
    requires modules.Length0 == modules.Length1 == n && n >= 21 && mask < 8
    modifies modules
    ensures forall r, c :: 0 <= r < n && 0 <= c < n ==>
      modules[r, c] == if r == n - 8 && c == 8 then true
                       else if FormatBit(n, r, c) >= 0 then FormatWord(mask)[14 - FormatBit(n, r, c)]
                       else old(modules[r, c])
  {
    hide FormatWord;
    var bits := FormatInformation(mask);
    WriteFirstCopy(modules, bits, n);
    WriteSecondCopy(modules, bits, n);
    modules[modules.Length0 - 8, 8] := true;
  }
}
