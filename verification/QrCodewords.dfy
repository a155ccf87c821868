/** From the bytes of a message to the codewords of a symbol: the bit stream and its
    padding, the split into blocks with their error correction, and the interleaving. */
module QrCodewords {
  import opened Wrappers
  import opened GaloisField
  import ReedSolomon
  import ReedSolomonDistance

  // ----- bits, most significant first -----

  function ToBits(value: nat, length: nat): (bits: seq<bool>)
    ensures |bits| == length
  {
    if length == 0 then [] else ToBits(value / 2, length - 1) + [value % 2 == 1]
  }

  function FromBits(bits: seq<bool>): (value: nat)
    ensures value < Exp2(|bits|)
  {
    if bits == [] then 0
    else 2 * FromBits(bits[..|bits| - 1]) + if bits[|bits| - 1] then 1 else 0
  }

  function Exp2(n: nat): (r: nat)
    ensures r >= 1
  {
    if n == 0 then 1 else 2 * Exp2(n - 1)
  }

  lemma {:induction false} FromToBits(value: nat, length: nat)
    requires value < Exp2(length)
    ensures FromBits(ToBits(value, length)) == value
  {
    if length > 0 {
      FromToBits(value / 2, length - 1);
      assert ToBits(value, length)[..length - 1] == ToBits(value / 2, length - 1);
    }
  }

  lemma {:induction false} ToFromBits(bits: seq<bool>)
    ensures ToBits(FromBits(bits), |bits|) == bits
  {
    if bits != [] {
      ToFromBits(bits[..|bits| - 1]);
      assert FromBits(bits) / 2 == FromBits(bits[..|bits| - 1]);
    }
  }

  function Digit(b: bool): nat { if b then 1 else 0 }

  lemma FromBitsMore(bits: seq<bool>, k: nat)
    requires k < |bits|
    ensures FromBits(bits[..k + 1]) == 2 * FromBits(bits[..k]) + Digit(bits[k])
  {
    assert bits[..k + 1][..k] == bits[..k];
  }

  /** A number of eleven bits, written out. */
  lemma FromBitsEleven(bits: seq<bool>)
    requires |bits| == 11
    ensures FromBits(bits) == 1024 * Digit(bits[0]) + 512 * Digit(bits[1]) + 256 * Digit(bits[2])
      + 128 * Digit(bits[3]) + 64 * Digit(bits[4]) + 32 * Digit(bits[5]) + 16 * Digit(bits[6])
      + 8 * Digit(bits[7]) + 4 * Digit(bits[8]) + 2 * Digit(bits[9]) + Digit(bits[10])
  {
    assert bits[..11] == bits && FromBits(bits[..0]) == 0;
    FromBitsMore(bits, 0); FromBitsMore(bits, 1); FromBitsMore(bits, 2); FromBitsMore(bits, 3);
    FromBitsMore(bits, 4); FromBitsMore(bits, 5); FromBitsMore(bits, 6); FromBitsMore(bits, 7);
    FromBitsMore(bits, 8); FromBitsMore(bits, 9); FromBitsMore(bits, 10);
  }

  /** Bit `i` from the left is the one the shift by length - 1 - i brings to the end. */
  lemma {:induction false} BitByShift(value: nat, length: nat, i: nat)
    requires i < length
    ensures ToBits(value, length)[i] <==> (value / Exp2(length - 1 - i)) % 2 == 1
  {
    if i < length - 1 {
      BitByShift(value / 2, length - 1, i);
      HalveTwice(value, Exp2(length - 2 - i));
    }
  }

  lemma HalveTwice(value: nat, d: nat)
    requires d >= 1
    ensures (value / 2) / d == value / (2 * d)
  {
    var q := value / (2 * d);
    var r := value % (2 * d);
    assert value == q * (2 * d) + r;
    assert value / 2 == q * d + r / 2;
    assert 0 <= r / 2 < d;
    DivideUnique(value / 2, d, q, r / 2);
  }

  lemma DivideUnique(n: nat, d: nat, q: nat, r: nat)
    requires d >= 1 && n == q * d + r && r < d
    ensures n / d == q && n % d == r
  {
    var k := n / d - q;
    assert k * d == r - n % d;
    if k >= 1 {
      TimesGrows(k, d);
    } else if k <= -1 {
      TimesGrows(-k, d);
    }
  }

  lemma TimesGrows(k: int, d: nat)
    requires k >= 1
    ensures k * d >= d
  {}

  /** The bits of a byte as they are pushed, the highest first. */
  function ByteBits(b: Byte): (bits: seq<bool>)
    ensures |bits| == 8
  {
    seq(8, k requires 0 <= k < 8 => Bit(b, 7 - k))
  }

  function PushBit(b: Byte, bit: bool): Byte { (b << 1) | if bit then 1 else 0 }

  /** The byte eight bits are shifted into. */
  function BitsByte(bits: seq<bool>): Byte
    requires |bits| == 8
  {
    PushBits(0, bits)
  }

  function PushBits(b: Byte, bits: seq<bool>): Byte {
    if bits == [] then b else PushBit(PushBits(b, bits[..|bits| - 1]), bits[|bits| - 1])
  }

  lemma BitOfPush(b: Byte, bit: bool, i: nat)
    requires i < 8
    ensures Bit(PushBit(b, bit), i) == if i == 0 then bit else Bit(b, i - 1)
  {}

  lemma {:induction false} BitOfPushed(b: Byte, bits: seq<bool>, i: nat)
    requires i < |bits| <= 8
    ensures Bit(PushBits(b, bits), i) == bits[|bits| - 1 - i]
  {
    hide Bit, PushBit;
    var init := bits[..|bits| - 1];
    BitOfPush(PushBits(b, init), bits[|bits| - 1], i);
    if i > 0 {
      BitOfPushed(b, init, i - 1);
    }
  }

  lemma SameBits(a: Byte, b: Byte)
    requires forall i :: 0 <= i < 8 ==> Bit(a, i) == Bit(b, i)
    ensures a == b
  {
    hide Bit, Unit, Keep, Add;
    AllBits(a);
    AllBits(b);
    SameLowBits(a, b, 8);
  }

  lemma {:induction false} SameLowBits(a: Byte, b: Byte, k: nat)
    requires k <= 8 && forall i :: 0 <= i < 8 ==> Bit(a, i) == Bit(b, i)
    ensures LowBits(a, k) == LowBits(b, k)
  {
    hide Bit, Unit, Keep, Add;
    if k > 0 {
      SameLowBits(a, b, k - 1);
    }
  }

  lemma ByteRoundTrip(b: Byte)
    ensures BitsByte(ByteBits(b)) == b
  {
    hide Bit, PushBits;
    var bits := ByteBits(b);
    forall i | 0 <= i < 8 ensures Bit(BitsByte(bits), i) == Bit(b, i) {
      BitOfPushed(0, bits, i);
    }
    SameBits(BitsByte(bits), b);
  }

  lemma BitsRoundTrip(bits: seq<bool>)
    requires |bits| == 8
    ensures ByteBits(BitsByte(bits)) == bits
  {
    hide Bit, PushBits;
    forall k | 0 <= k < 8 ensures ByteBits(BitsByte(bits))[k] == bits[k] {
      BitOfPushed(0, bits, 7 - k);
    }
  }

  function Flatten(bytes: seq<Byte>): (bits: seq<bool>)
    ensures |bits| == 8 * |bytes|
  {
    if bytes == [] then [] else Flatten(bytes[..|bytes| - 1]) + ByteBits(bytes[|bytes| - 1])
  }

  /** The first `n` bytes of a bit string. */
  function Regroup(bits: seq<bool>, n: nat): (bytes: seq<Byte>)
    requires 8 * n <= |bits|
    ensures |bytes| == n
  {
    seq(n, i requires 0 <= i < n => BitsByte(bits[8 * i..8 * i + 8]))
  }

  lemma {:induction false} FlattenAt(bytes: seq<Byte>, i: nat)
    requires i < |bytes|
    ensures Flatten(bytes)[8 * i..8 * i + 8] == ByteBits(bytes[i])
  {
    if i < |bytes| - 1 {
      FlattenAt(bytes[..|bytes| - 1], i);
    }
  }

  lemma RegroupFlatten(bytes: seq<Byte>, suffix: seq<bool>)
    ensures Regroup(Flatten(bytes) + suffix, |bytes|) == bytes
  {
    hide Flatten, ByteBits, BitsByte;
    var bits := Flatten(bytes) + suffix;
    forall i | 0 <= i < |bytes| ensures Regroup(bits, |bytes|)[i] == bytes[i] {
      FlattenAt(bytes, i);
      SliceOfPrefix(Flatten(bytes), suffix, 8 * i, 8 * i + 8);
      ByteRoundTrip(bytes[i]);
    }
  }

  lemma SliceOfPrefix<T>(a: seq<T>, b: seq<T>, from: nat, to: nat)
    requires from <= to <= |a|
    ensures (a + b)[from..to] == a[from..to]
  {}

  lemma FlattenSnoc(bytes: seq<Byte>, b: Byte)
    ensures Flatten(bytes + [b]) == Flatten(bytes) + ByteBits(b)
  {
    hide ByteBits;
    assert (bytes + [b])[..|bytes|] == bytes;
  }

  lemma RegroupConcat(a: seq<bool>, b: seq<bool>, n: nat)
    requires |a| == 8 * n && |b| == 8
    ensures Regroup(a + b, n + 1) == Regroup(a, n) + [BitsByte(b)]
  {
    hide BitsByte;
    forall i | 0 <= i < n ensures Regroup(a + b, n + 1)[i] == Regroup(a, n)[i] {
      SliceOfPrefix(a, b, 8 * i, 8 * i + 8);
    }
    assert (a + b)[8 * n..8 * n + 8] == b;
  }

  lemma {:induction false} FlattenRegroup(bits: seq<bool>, n: nat)
    requires |bits| == 8 * n
    ensures Flatten(Regroup(bits, n)) == bits
  {
    hide ByteBits, BitsByte, Flatten, Regroup;
    if n == 0 {
      assert Regroup(bits, n) == [];
      assert Flatten([]) == [];
    } else {
      var init, last := bits[..8 * (n - 1)], bits[8 * (n - 1)..];
      assert bits == init + last;
      FlattenRegroup(init, n - 1);
      RegroupConcat(init, last, n - 1);
      FlattenSnoc(Regroup(init, n - 1), BitsByte(last));
      BitsRoundTrip(last);
    }
  }

  // ----- versions -----

  datatype VersionInfo = VersionInfo(total: nat, ecPerBlock: nat, blocks: nat)

  /** Total codewords, error correction codewords per block and blocks, at level M. */
  function Info(version: nat): VersionInfo
    requires 1 <= version <= 40
  {
    match version
    case 1 => VersionInfo(26, 10, 1)
    case 2 => VersionInfo(44, 16, 1)
    case 3 => VersionInfo(70, 26, 1)
    case 4 => VersionInfo(100, 18, 2)
    case 5 => VersionInfo(134, 24, 2)
    case 6 => VersionInfo(172, 16, 4)
    case 7 => VersionInfo(196, 18, 4)
    case 8 => VersionInfo(242, 22, 4)
    case 9 => VersionInfo(292, 22, 5)
    case 10 => VersionInfo(346, 26, 5)
    case 11 => VersionInfo(404, 30, 5)
    case 12 => VersionInfo(466, 22, 8)
    case 13 => VersionInfo(532, 22, 9)
    case 14 => VersionInfo(581, 24, 9)
    case 15 => VersionInfo(655, 24, 10)
    case 16 => VersionInfo(733, 28, 10)
    case 17 => VersionInfo(815, 28, 11)
    case 18 => VersionInfo(901, 26, 13)
    case 19 => VersionInfo(991, 26, 14)
    case 20 => VersionInfo(1085, 26, 16)
    case 21 => VersionInfo(1156, 26, 17)
    case 22 => VersionInfo(1258, 28, 17)
    case 23 => VersionInfo(1364, 28, 18)
    case 24 => VersionInfo(1474, 28, 20)
    case 25 => VersionInfo(1588, 28, 21)
    case 26 => VersionInfo(1706, 28, 23)
    case 27 => VersionInfo(1828, 28, 25)
    case 28 => VersionInfo(1921, 28, 26)
    case 29 => VersionInfo(2051, 28, 28)
    case 30 => VersionInfo(2185, 28, 29)
    case 31 => VersionInfo(2323, 28, 31)
    case 32 => VersionInfo(2465, 28, 33)
    case 33 => VersionInfo(2611, 28, 35)
    case 34 => VersionInfo(2761, 28, 37)
    case 35 => VersionInfo(2876, 28, 38)
    case 36 => VersionInfo(3034, 28, 40)
    case 37 => VersionInfo(3196, 28, 43)
    case 38 => VersionInfo(3362, 28, 45)
    case 39 => VersionInfo(3532, 28, 47)
    case 40 => VersionInfo(3706, 28, 49)
  }

  function Size(version: nat): nat { version * 4 + 17 }

  /** What every row of the table satisfies. */
  predicate Sound(info: VersionInfo) {
    && 1 <= info.blocks && 1 <= info.ecPerBlock <= 30
    && info.ecPerBlock < info.total / info.blocks < 255
    && 16 <= info.total - info.ecPerBlock * info.blocks <= 2334
  }

  lemma TableFacts(version: nat)
    requires 1 <= version <= 40
    ensures Sound(Info(version))
    ensures version <= 9 ==> DataCodewords(Info(version)) <= 182
  {}

  function DataCodewords(info: VersionInfo): int {
    info.total - info.ecPerBlock * info.blocks
  }

  function CountBits(version: nat): nat { if version <= 9 then 8 else 16 }

  function BitsNeeded(version: nat, bytes: nat): nat {
    4 + CountBits(version) + bytes * 8
  }

  predicate Fits(version: nat, bytes: nat) {
    1 <= version <= 40 && BitsNeeded(version, bytes) <= DataCodewords(Info(version)) * 8
  }

  /** The first version that holds the message, if any does. */
  method SmallestVersion(bytes: nat) returns (r: Option<nat>)
    ensures r.Some? ==> Fits(r.value, bytes) && forall v :: 1 <= v < r.value ==> !Fits(v, bytes)
    ensures r.None? <==> forall v :: 1 <= v <= 40 ==> !Fits(v, bytes)
  {
    for version := 1 to 41
      invariant forall v :: 1 <= v < version ==> !Fits(v, bytes)
    {
      if BitsNeeded(version, bytes) <= DataCodewords(Info(version)) * 8 {
        return Some(version);
      }
    }
    return None;
  }

  /** The longest message there is room for in any version. */
  lemma LongestMessage(bytes: nat)
    ensures (exists v :: Fits(v, bytes)) <==> bytes <= 2331
  {
    if bytes <= 2331 {
      assert Fits(40, bytes);
    }
  }

  lemma CountFieldHolds(version: nat, bytes: nat)
    requires Fits(version, bytes)
    ensures bytes < Exp2(CountBits(version))
  {
    TableFacts(version);
    assert Exp2(8) == 256;
    assert Exp2(16) == 65536 by { assert Exp2(12) == 4096; }
  }

  // ----- the bit stream -----

  /** The alternating padding codewords. */
  function Pads(n: nat): (p: seq<Byte>)
    ensures |p| == n
  {
    seq(n, i => if i % 2 == 0 then 0xec else 0x11)
  }

  function PadCount(version: nat, bytes: nat): nat
    requires Fits(version, bytes)
  {
    hide Info;
    DataCodewords(Info(version)) - bytes - 1 - CountBits(version) / 8
  }

  lemma PadsFill(version: nat, bytes: nat)
    requires Fits(version, bytes)
    ensures BitsNeeded(version, bytes) + 4 + 8 * PadCount(version, bytes) == DataCodewords(Info(version)) * 8
  {
    hide Info, DataCodewords;
  }

  /** Mode indicator, character count and bytes. */
  function Header(version: nat, bytes: seq<Byte>): (bits: seq<bool>)
    ensures |bits| == BitsNeeded(version, |bytes|)
  {
    ToBits(4, 4) + ToBits(|bytes|, CountBits(version)) + Flatten(bytes)
  }

  /** The whole stream: the header, a terminator of exactly four bits, the padding. */
  function Stream(version: nat, bytes: seq<Byte>): seq<bool>
    requires Fits(version, |bytes|)
  {
    Header(version, bytes) + ToBits(0, 4) + Flatten(Pads(PadCount(version, |bytes|)))
  }

  /** The stream fills the data codewords of the version exactly. */
  lemma StreamLength(version: nat, bytes: seq<Byte>)
    requires Fits(version, |bytes|)
    ensures |Stream(version, bytes)| == DataCodewords(Info(version)) * 8
  {
    hide Info, DataCodewords, Flatten, ToBits, Pads;
  }

  /** What a reader makes of a stream: the mode, the count, then that many bytes. */
  function ParseStream(version: nat, bits: seq<bool>): Option<seq<Byte>> {
    var c := CountBits(version);
    if |bits| < 4 + c || FromBits(bits[..4]) != 4 then None
    else
      var n := FromBits(bits[4..4 + c]);
      var body := bits[4 + c..];
      if |body| < 8 * n then None else Some(Regroup(body, n))
  }

  lemma ParseOfStream(version: nat, bytes: seq<Byte>)
    requires Fits(version, |bytes|)
    ensures ParseStream(version, Stream(version, bytes)) == Some(bytes)
  {
    hide ToBits, FromBits, Flatten, Regroup, Pads, Info;
    var c, bits := CountBits(version), Stream(version, bytes);
    var count := ToBits(|bytes|, c);
    var rest := ToBits(0, 4) + Flatten(Pads(PadCount(version, |bytes|)));
    assert bits == ToBits(4, 4) + (count + (Flatten(bytes) + rest));
    assert bits[..4] == ToBits(4, 4);
    assert bits[4..4 + c] == count;
    assert bits[4 + c..] == Flatten(bytes) + rest;
    assert 4 < Exp2(4) by { assert Exp2(2) == 4; }
    FromToBits(4, 4);
    CountFieldHolds(version, |bytes|);
    FromToBits(|bytes|, c);
    RegroupFlatten(bytes, rest);
  }

  method PushNumber(bits: seq<bool>, value: nat, length: nat) returns (r: seq<bool>)
    ensures r == bits + ToBits(value, length)
  {
    r := bits;
    for i := length downto 0
      invariant r == bits + ToBits(value, length)[..length - i]
    {
      BitByShift(value, length, length - 1 - i);
      r := r + [(value / Exp2(i)) % 2 == 1];
    }
  }

  method PushByte(bits: seq<bool>, b: Byte) returns (r: seq<bool>)
    ensures r == bits + ByteBits(b)
  {
    r := bits;
    for i := 8 downto 0
      invariant r == bits + ByteBits(b)[..8 - i]
    {
      r := r + [Bit(b, i)];
    }
  }

  /** The data bits, padded to the capacity of the version. */
  method DataBits(version: nat, bytes: seq<Byte>) returns (bits: seq<bool>)
    requires Fits(version, |bytes|)
    ensures bits == Stream(version, bytes) && |bits| == DataCodewords(Info(version)) * 8
  {
    hide ToBits, Bit, ByteBits, Info, Flatten, DataCodewords, PadCount, Pads;
    PadsFill(version, |bytes|);
    StreamLength(version, bytes);
    assert Flatten([]) == [] by { FlattenNothing(); }
    var capacity := DataCodewords(Info(version)) * 8;
    bits := PushNumber([], 4, 4);
    bits := PushNumber(bits, |bytes|, if version <= 9 then 8 else 16);
    ghost var start := bits;
    for k := 0 to |bytes|
      invariant bits == start + Flatten(bytes[..k])
    {
      bits := PushByte(bits, bytes[k]);
      FlattenSnoc(bytes[..k], bytes[k]);
      assert bytes[..k] + [bytes[k]] == bytes[..k + 1];
    }
    assert bytes[..|bytes|] == bytes;
    assert bits == Header(version, bytes);
    bits := PushNumber(bits, 0, if capacity - |bits| < 4 then capacity - |bits| else 4);
    bits := AlignToByte(bits);
    bits := Pad(bits, capacity, PadCount(version, |bytes|));
  }

  /** Zero bits up to the next multiple of eight: none when the length is one already. */
  method AlignToByte(bits: seq<bool>) returns (r: seq<bool>)
    ensures |r| % 8 == 0 && bits <= r && |r| - |bits| < 8
    ensures forall k :: |bits| <= k < |r| ==> !r[k]
  {
    r := bits;
    while |r| % 8 != 0
      invariant bits <= r && |r| <= (|bits| + 7) / 8 * 8
      invariant forall k :: |bits| <= k < |r| ==> !r[k]
      decreases (|bits| + 7) / 8 * 8 - |r|
    {
      r := r + [false];
    }
  }

  /** Alternating padding codewords up to the capacity. */
  method Pad(unpadded: seq<bool>, capacity: nat, ghost n: nat) returns (bits: seq<bool>)
    requires |unpadded| + 8 * n == capacity
    ensures bits == unpadded + Flatten(Pads(n))
  {
    hide Bit, ByteBits, Flatten;
    FlattenNothing();
    bits := unpadded;
    var pad: Byte := 0xec;
    ghost var j := 0;
    while |bits| < capacity
      invariant j <= n
      invariant bits == unpadded + Flatten(Pads(j))
      invariant pad == if j % 2 == 0 then 0xec else 0x11
    {
      bits := PushByte(bits, pad);
      FlattenSnoc(Pads(j), pad);
      assert Pads(j) + [pad] == Pads(j + 1);
      NextPad();
      pad := pad ^ (0xec ^ 0x11);
      j := j + 1;
    }
  }

  lemma FlattenNothing()
    ensures Flatten([]) == [] && Pads(0) == []
  {}

  lemma NextPad()
    ensures 0xec as Byte ^ (0xec ^ 0x11) == 0x11 && 0x11 as Byte ^ (0xec ^ 0x11) == 0xec
  {}

  /** The bits gathered eight by eight. */
  method GatherBytes(bits: seq<bool>) returns (data: seq<Byte>)
    requires |bits| % 8 == 0
    ensures data == Regroup(bits, |bits| / 8)
    ensures Flatten(data) == bits
  {
    hide PushBit;
    data := [];
    var i := 0;
    while i < |bits|
      invariant i == 8 * |data| <= |bits|
      invariant data == Regroup(bits, |data|)
    {
      var byte: Byte := 0;
      for j := 0 to 8
        invariant byte == PushBits(0, bits[i..i + j])
      {
        assert bits[i..i + j + 1][..j] == bits[i..i + j];
        byte := PushBit(byte, bits[i + j]);
      }
      data := data + [byte];
      i := i + 8;
    }
    FlattenRegroup(bits, |data|);
  }

  // ----- blocks and interleaving -----

  function ShortBlocks(info: VersionInfo): nat
    requires Sound(info)
    ensures 1 <= ShortBlocks(info) <= info.blocks
  {
    info.blocks - info.total % info.blocks
  }

  function ShortLength(info: VersionInfo): nat
    requires Sound(info)
    ensures ShortLength(info) >= 1
  {
    info.total / info.blocks - info.ecPerBlock
  }

  function BlockLength(info: VersionInfo, b: nat): nat
    requires Sound(info)
  {
    LengthOf(ShortLength(info), ShortBlocks(info), b)
  }

  function LengthOf(shortLength: nat, shortBlocks: nat, b: nat): nat {
    shortLength + if b < shortBlocks then 0 else 1
  }

  /** Where block `b` begins in the data: the short blocks come before the long ones. */
  function BlockStart(info: VersionInfo, b: nat): nat
    requires Sound(info)
  {
    StartOf(ShortLength(info), ShortBlocks(info), b)
  }

  function StartOf(shortLength: nat, shortBlocks: nat, b: nat): nat {
    b * shortLength + if b <= shortBlocks then 0 else b - shortBlocks
  }

  lemma BlocksCoverData(info: VersionInfo)
    requires Sound(info)
    ensures BlockStart(info, 0) == 0
    ensures BlockStart(info, info.blocks) == DataCodewords(info)
    ensures forall b :: 0 <= b < info.blocks ==>
      BlockStart(info, b + 1) == BlockStart(info, b) + BlockLength(info, b) <= DataCodewords(info)
    // the blocks differ by one codeword at most, the shorter ones first
    ensures forall b, c :: 0 <= b <= c < info.blocks ==> BlockLength(info, b) <= BlockLength(info, c) <= BlockLength(info, b) + 1
  {
    var n, s := info.blocks, ShortLength(info);
    var q, r := info.total / n, info.total % n;
    assert n * q + r == info.total;
    assert n * (q - info.ecPerBlock) == n * q - n * info.ecPerBlock;
    assert BlockStart(info, n) == DataCodewords(info);
    forall b | 0 <= b < n
      ensures BlockStart(info, b + 1) == BlockStart(info, b) + BlockLength(info, b) <= DataCodewords(info)
    {
      assert (b + 1) * s == b * s + s;
      ProductMonotone(b + 1, n, s);
    }
  }

  lemma ProductMonotone(a: nat, b: nat, s: nat)
    requires a <= b
    ensures a * s <= b * s
  {}

  /** Codewords of the blocks at place `i`, from the first `k` blocks, skipping those that are shorter. */
  function Column(blocks: seq<seq<Byte>>, i: nat, k: nat): seq<Byte>
    requires k <= |blocks|
  {
    if k == 0 then []
    else Column(blocks, i, k - 1) + if i < |blocks[k - 1]| then [blocks[k - 1][i]] else []
  }

  function Columns(blocks: seq<seq<Byte>>, n: nat): seq<Byte> {
    if n == 0 then [] else Columns(blocks, n - 1) + Column(blocks, n - 1, |blocks|)
  }

  /** A column that only the blocks from number `from` on reach. */
  lemma {:induction false} ColumnAt(blocks: seq<seq<Byte>>, i: nat, from: nat, k: nat)
    requires from <= k <= |blocks|
    requires forall b :: 0 <= b < |blocks| ==> (i < |blocks[b]| <==> from <= b)
    ensures |Column(blocks, i, k)| == k - from
    ensures forall b :: from <= b < k ==> Column(blocks, i, k)[b - from] == blocks[b][i]
  {
    if from < k {
      ColumnAt(blocks, i, from, k - 1);
    } else if k > 0 {
      EmptyColumn(blocks, i, k);
    }
  }

  lemma {:induction false} EmptyColumn(blocks: seq<seq<Byte>>, i: nat, k: nat)
    requires k <= |blocks|
    requires forall b :: 0 <= b < k ==> |blocks[b]| <= i
    ensures Column(blocks, i, k) == []
  {
    if k > 0 {
      EmptyColumn(blocks, i, k - 1);
    }
  }

  /** While every block reaches column n, codeword i of block b stands at i * |blocks| + b. */
  lemma {:induction false} ColumnsSize(blocks: seq<seq<Byte>>, n: nat)
    requires forall b :: 0 <= b < |blocks| ==> n <= |blocks[b]|
    ensures |Columns(blocks, n)| == n * |blocks|
  {
    if n > 0 {
      ColumnsSize(blocks, n - 1);
      ColumnAt(blocks, n - 1, 0, |blocks|);
      assert n * |blocks| == (n - 1) * |blocks| + |blocks|;
    }
  }

  lemma {:induction false} ColumnsAt(blocks: seq<seq<Byte>>, n: nat, i: nat, b: nat)
    requires forall b :: 0 <= b < |blocks| ==> n <= |blocks[b]|
    requires i < n && b < |blocks|
    ensures i * |blocks| + b < |Columns(blocks, n)| && Columns(blocks, n)[i * |blocks| + b] == blocks[b][i]
  {
    hide Column;
    ColumnsSize(blocks, n - 1);
    ColumnAt(blocks, n - 1, 0, |blocks|);
    if i < n - 1 {
      ColumnsAt(blocks, n - 1, i, b);
    }
  }

  // ----- what a reader does to undo the interleaving -----

  /** Where data codeword `i` of block `b` is found. */
  function DataPosition(info: VersionInfo, b: nat, i: nat): nat
    requires Sound(info)
  {
    PlaceOf(ShortLength(info), ShortBlocks(info), info.blocks, b, i)
  }

  function PlaceOf(shortLength: nat, shortBlocks: nat, blocks: nat, b: nat, i: nat): nat {
    if i < shortLength || b < shortBlocks then i * blocks + b else shortLength * blocks + (b - shortBlocks)
  }

  function EcPosition(info: VersionInfo, b: nat, i: nat): nat
    requires Sound(info)
  {
    EcPlaceOf(DataCodewords(info), info.blocks, b, i)
  }

  function EcPlaceOf(dataCodewords: nat, blocks: nat, b: nat, i: nat): nat { dataCodewords + (i * blocks + b) }

  lemma PlaceInRange(s: nat, sb: nat, n: nat, b: nat, i: nat)
    requires sb <= n && b < n && i < LengthOf(s, sb, b)
    ensures PlaceOf(s, sb, n, b, i) < s * n + (n - sb)
  {
    if i < s {
      RowsFit(i, s, n, b);
    }
  }

  lemma PositionsInRange(info: VersionInfo, b: nat, i: nat)
    requires Sound(info) && b < info.blocks
    ensures DataCodewords(info) <= info.total
    ensures i < BlockLength(info, b) ==> DataPosition(info, b, i) < DataCodewords(info)
    ensures i < info.ecPerBlock ==> EcPosition(info, b, i) < info.total
  {
    DataSize(info);
    ProductMonotone(0, info.ecPerBlock, info.blocks);
    hide BlockStart, DataCodewords, ShortLength, ShortBlocks, Sound, LengthOf, PlaceOf;
    if i < BlockLength(info, b) {
      PlaceInRange(ShortLength(info), ShortBlocks(info), info.blocks, b, i);
    }
    if i < info.ecPerBlock {
      RowsFit(i, info.ecPerBlock, info.blocks, b);
    }
  }

  /** The data codewords: full columns, then one that only the long blocks reach. */
  lemma DataSize(info: VersionInfo)
    requires Sound(info)
    ensures DataCodewords(info) == ShortLength(info) * info.blocks + (info.blocks - ShortBlocks(info))
    ensures DataCodewords(info) + info.ecPerBlock * info.blocks == info.total
  {
    BlocksCoverData(info);
  }

  lemma RowsFit(i: nat, rows: nat, n: nat, b: nat)
    requires i < rows && b < n
    ensures i * n + b < rows * n
  {
    ProductMonotone(i + 1, rows, n);
    assert (i + 1) * n == i * n + n;
  }

  lemma AllPositionsInRange(info: VersionInfo, b: nat)
    requires Sound(info) && b < info.blocks
    ensures forall i :: 0 <= i < BlockLength(info, b) ==> DataPosition(info, b, i) < info.total
    ensures forall i :: 0 <= i < info.ecPerBlock ==> EcPosition(info, b, i) < info.total
  {
    hide ShortLength, ShortBlocks, DataPosition, EcPosition, BlockLength, DataCodewords;
    forall i: nat
      ensures i < BlockLength(info, b) ==> DataPosition(info, b, i) < info.total
      ensures i < info.ecPerBlock ==> EcPosition(info, b, i) < info.total
    {
      PositionsInRange(info, b, i);
    }
  }

  function ReadData(info: VersionInfo, words: seq<Byte>, b: nat): (block: seq<Byte>)
    requires Sound(info) && b < info.blocks && |words| == info.total
    ensures |block| == BlockLength(info, b)
  {
    hide ShortLength, ShortBlocks, DataPosition, BlockLength, DataCodewords;
    AllPositionsInRange(info, b);
    seq(BlockLength(info, b), i requires 0 <= i < BlockLength(info, b) => words[DataPosition(info, b, i)])
  }

  function ReadEc(info: VersionInfo, words: seq<Byte>, b: nat): (block: seq<Byte>)
    requires Sound(info) && b < info.blocks && |words| == info.total
    ensures |block| == info.ecPerBlock
  {
    hide EcPosition, DataCodewords;
    AllPositionsInRange(info, b);
    seq(info.ecPerBlock, i requires 0 <= i < info.ecPerBlock => words[EcPosition(info, b, i)])
  }

  /** The data of the first `k` blocks, put end to end. */
  function ReadBlocks(info: VersionInfo, words: seq<Byte>, k: nat): seq<Byte>
    requires Sound(info) && k <= info.blocks && |words| == info.total
  {
    if k == 0 then [] else ReadBlocks(info, words, k - 1) + ReadData(info, words, k - 1)
  }

  /** The message carried by the codewords of a symbol, read without correcting errors. */
  function ReadMessage(version: nat, words: seq<Byte>): Option<seq<Byte>>
    requires 1 <= version <= 40 && |words| == Info(version).total
  {
    hide Info, Sound;
    TableFacts(version);
    ParseStream(version, Flatten(ReadBlocks(Info(version), words, Info(version).blocks)))
  }

  /** Every block of the symbol is a word of its Reed-Solomon code. */
  ghost predicate BlocksAreCodewords(info: VersionInfo, words: seq<Byte>)
    requires Sound(info) && |words| == info.total
  {
    forall b :: 0 <= b < info.blocks ==>
      ReedSolomon.IsCodeword(ReadData(info, words, b) + ReadEc(info, words, b), info.ecPerBlock)
  }

  /** A block of a symbol that was read with at most half as many wrong codewords as it has
      error correction codewords can only be that block. */
  lemma DamagedBlockIsRecoverable(info: VersionInfo, words: seq<Byte>, b: nat, read: seq<Byte>, other: seq<Byte>)
    requires Sound(info) && |words| == info.total && BlocksAreCodewords(info, words) && b < info.blocks
    requires |read| == |other| == BlockLength(info, b) + info.ecPerBlock
    requires ReedSolomon.IsCodeword(other, info.ecPerBlock)
    requires 2 * ReedSolomonDistance.Distance(read, ReadData(info, words, b) + ReadEc(info, words, b)) <= info.ecPerBlock
    requires 2 * ReedSolomonDistance.Distance(read, other) <= info.ecPerBlock
    ensures other == ReadData(info, words, b) + ReadEc(info, words, b)
  {
    hide ReadData, ReadEc, ReedSolomon.IsCodeword;
    var data, ec := ReadData(info, words, b), ReadEc(info, words, b);
    ReedSolomon.SyndromesCharacterize(data, ec);
    ReedSolomonDistance.ErrorsAreCorrectable(data, info.ecPerBlock, read, other);
  }

  // ----- the codewords of a message -----

  ghost predicate Split(info: VersionInfo, data: seq<Byte>, blocks: seq<seq<Byte>>)
    requires Sound(info) && |data| == DataCodewords(info) && |blocks| <= info.blocks
  {
    BlocksCoverData(info);
    forall b :: 0 <= b < |blocks| ==> blocks[b] == data[BlockStart(info, b)..BlockStart(info, b + 1)]
  }

  ghost predicate Protected(info: VersionInfo, blocks: seq<seq<Byte>>, ecBlocks: seq<seq<Byte>>)
    requires Sound(info)
  {
    && |ecBlocks| == |blocks|
    && forall b :: 0 <= b < |blocks| ==>
         |ecBlocks[b]| == info.ecPerBlock
         && ReedSolomon.IsCodeword(blocks[b] + ecBlocks[b], info.ecPerBlock)
  }

  lemma SplitSnoc(info: VersionInfo, data: seq<Byte>, blocks: seq<seq<Byte>>, block: seq<Byte>)
    requires Sound(info) && |data| == DataCodewords(info) && |blocks| < info.blocks && Split(info, data, blocks)
    requires BlockStart(info, |blocks|) <= BlockStart(info, |blocks| + 1) <= |data|
    requires block == data[BlockStart(info, |blocks|)..BlockStart(info, |blocks| + 1)]
    ensures Split(info, data, blocks + [block])
  {
    hide BlockStart, DataCodewords, Sound;
  }

  lemma ProtectedSnoc(info: VersionInfo, blocks: seq<seq<Byte>>, ecBlocks: seq<seq<Byte>>, block: seq<Byte>, ec: seq<Byte>)
    requires Sound(info) && Protected(info, blocks, ecBlocks)
    requires |ec| == info.ecPerBlock && ReedSolomon.IsCodeword(block + ec, info.ecPerBlock)
    ensures Protected(info, blocks + [block], ecBlocks + [ec])
  {
    hide ReedSolomon.IsCodeword, Sound;
  }

  lemma NothingSplit(info: VersionInfo, data: seq<Byte>)
    requires Sound(info) && |data| == DataCodewords(info)
    ensures Split(info, data, []) && Protected(info, [], [])
  {}

  /** The data cut into blocks, each with its error correction. */
  method SplitBlocks(t: ReedSolomon.Tables, info: VersionInfo, data: seq<Byte>)
    returns (blocks: seq<seq<Byte>>, ecBlocks: seq<seq<Byte>>)
    requires t.Valid() && Sound(info) && |data| == DataCodewords(info)
    ensures |blocks| == info.blocks
    ensures Split(info, data, blocks) && Protected(info, blocks, ecBlocks)
  {
    var shortBlocks := info.blocks - info.total % info.blocks;
    var shortLength := info.total / info.blocks - info.ecPerBlock;
    assert shortBlocks == ShortBlocks(info) && shortLength == ShortLength(info);
    hide ShortBlocks, ShortLength, StartOf, BlockStart, ReedSolomon.IsCodeword, DataCodewords, Split, Protected, Sound;
    BlocksCoverData(info);
    NothingSplit(info, data);
    blocks, ecBlocks := [], [];
    var offset := 0;
    for b := 0 to info.blocks
      invariant |blocks| == b && offset == BlockStart(info, b)
      invariant Split(info, data, blocks) && Protected(info, blocks, ecBlocks)
    {
      var length := shortLength + if b < shortBlocks then 0 else 1;
      assert BlockStart(info, b + 1) == offset + length <= |data|;
      var block := data[offset..offset + length];
      offset := offset + length;
      var ec := ReedSolomon.ErrorCorrection(t, block, info.ecPerBlock);
      SplitSnoc(info, data, blocks, block);
      ProtectedSnoc(info, blocks, ecBlocks, block, ec);
      blocks := blocks + [block];
      ecBlocks := ecBlocks + [ec];
    }
  }

  method PushColumn(out: seq<Byte>, blocks: seq<seq<Byte>>, i: nat) returns (r: seq<Byte>)
    ensures r == out + Column(blocks, i, |blocks|)
  {
    r := out;
    for b := 0 to |blocks|
      invariant r == out + Column(blocks, i, b)
    {
      if i < |blocks[b]| {
        r := r + [blocks[b][i]];
      }
    }
  }

  method PushColumns(out: seq<Byte>, blocks: seq<seq<Byte>>, n: nat) returns (r: seq<Byte>)
    ensures r == out + Columns(blocks, n)
  {
    hide Column;
    r := out;
    for i := 0 to n
      invariant r == out + Columns(blocks, i)
    {
      r := PushColumn(r, blocks, i);
    }
  }

  /** The lengths the split gives: short blocks first, one codeword longer after them. */
  lemma SplitLengths(info: VersionInfo, data: seq<Byte>, blocks: seq<seq<Byte>>)
    requires Sound(info) && |data| == DataCodewords(info)
    requires |blocks| == info.blocks && Split(info, data, blocks)
    ensures forall b :: 0 <= b < |blocks| ==> |blocks[b]| == BlockLength(info, b)
  {
    hide BlockStart, BlockLength, DataCodewords;
    BlocksCoverData(info);
    forall b | 0 <= b < |blocks| ensures |blocks[b]| == BlockLength(info, b) {
      assert blocks[b] == data[BlockStart(info, b)..BlockStart(info, b + 1)];
    }
  }

  lemma InterleavedData(info: VersionInfo, blocks: seq<seq<Byte>>, b: nat, i: nat)
    requires Sound(info) && |blocks| == info.blocks
    requires forall b :: 0 <= b < |blocks| ==> |blocks[b]| == BlockLength(info, b)
    requires b < |blocks| && i < |blocks[b]|
    ensures var cols := Columns(blocks, ShortLength(info) + 1);
            && |cols| == DataCodewords(info)
            && DataPosition(info, b, i) < |cols| && cols[DataPosition(info, b, i)] == blocks[b][i]
  {
    var s, sb, n := ShortLength(info), ShortBlocks(info), |blocks|;
    ColumnsSize(blocks, s);
    ColumnAt(blocks, s, sb, n);
    BlocksCoverData(info);
    assert |Columns(blocks, s + 1)| == s * n + (n - sb);
    if i < s {
      ColumnsAt(blocks, s, i, b);
    }
  }

  lemma InterleavedEc(info: VersionInfo, ecBlocks: seq<seq<Byte>>, b: nat, i: nat)
    requires Sound(info) && |ecBlocks| == info.blocks
    requires forall b :: 0 <= b < |ecBlocks| ==> |ecBlocks[b]| == info.ecPerBlock
    requires b < |ecBlocks| && i < info.ecPerBlock
    ensures var cols := Columns(ecBlocks, info.ecPerBlock);
            && |cols| + DataCodewords(info) == info.total
            && i * |ecBlocks| + b < |cols| && cols[i * |ecBlocks| + b] == ecBlocks[b][i]
  {
    ColumnsSize(ecBlocks, info.ecPerBlock);
    ColumnsAt(ecBlocks, info.ecPerBlock, i, b);
  }

  /** De-interleaving gives every data block and every error correction block back. */
  lemma Deinterleaves(info: VersionInfo, blocks: seq<seq<Byte>>, ecBlocks: seq<seq<Byte>>, words: seq<Byte>)
    requires Sound(info) && |blocks| == |ecBlocks| == info.blocks
    requires forall b :: 0 <= b < |blocks| ==> |blocks[b]| == BlockLength(info, b)
    requires forall b :: 0 <= b < |blocks| ==> |ecBlocks[b]| == info.ecPerBlock
    requires words == Columns(blocks, ShortLength(info) + 1) + Columns(ecBlocks, info.ecPerBlock)
    ensures |words| == info.total
    ensures forall b :: 0 <= b < |blocks| ==>
      ReadData(info, words, b) == blocks[b] && ReadEc(info, words, b) == ecBlocks[b]
  {
    hide Columns, ShortLength, BlockLength, DataPosition, EcPosition, DataCodewords, ReadData, ReadEc;
    assert BlockLength(info, 0) >= 1 by { hide *; LengthIsPositive(info, 0); }
    InterleavedData(info, blocks, 0, 0);
    InterleavedEc(info, ecBlocks, 0, 0);
    forall b | 0 <= b < |blocks|
      ensures ReadData(info, words, b) == blocks[b] && ReadEc(info, words, b) == ecBlocks[b]
    {
      DeinterleavesBlock(info, blocks, ecBlocks, words, b);
    }
  }

  lemma LengthIsPositive(info: VersionInfo, b: nat)
    requires Sound(info)
    ensures BlockLength(info, b) >= 1
  {
  }

  lemma DeinterleavesBlock(info: VersionInfo, blocks: seq<seq<Byte>>, ecBlocks: seq<seq<Byte>>, words: seq<Byte>, b: nat)
    requires Sound(info) && |blocks| == |ecBlocks| == info.blocks
    requires forall b :: 0 <= b < |blocks| ==> |blocks[b]| == BlockLength(info, b)
    requires forall b :: 0 <= b < |blocks| ==> |ecBlocks[b]| == info.ecPerBlock
    requires words == Columns(blocks, ShortLength(info) + 1) + Columns(ecBlocks, info.ecPerBlock)
    requires |words| == info.total && b < |blocks|
    ensures ReadData(info, words, b) == blocks[b] && ReadEc(info, words, b) == ecBlocks[b]
  {
    hide Columns, ShortLength, BlockLength, DataPosition, EcPosition, DataCodewords, ReadData, ReadEc, Sound;
    DeinterleavesData(info, blocks, Columns(ecBlocks, info.ecPerBlock), words, b);
    LengthIsPositive(info, b);
    InterleavedData(info, blocks, b, 0);
    DeinterleavesEc(info, Columns(blocks, ShortLength(info) + 1), ecBlocks, words, b);
  }

  lemma DeinterleavesData(info: VersionInfo, blocks: seq<seq<Byte>>, rest: seq<Byte>, words: seq<Byte>, b: nat)
    requires Sound(info) && |blocks| == info.blocks
    requires forall b :: 0 <= b < |blocks| ==> |blocks[b]| == BlockLength(info, b)
    requires words == Columns(blocks, ShortLength(info) + 1) + rest
    requires |words| == info.total && b < |blocks|
    ensures ReadData(info, words, b) == blocks[b]
  {
    hide Columns, ShortLength, BlockLength, DataPosition, DataCodewords, Sound;
    forall i | 0 <= i < |blocks[b]| ensures ReadData(info, words, b)[i] == blocks[b][i] {
      InterleavedData(info, blocks, b, i);
    }
  }

  lemma DeinterleavesEc(info: VersionInfo, before: seq<Byte>, ecBlocks: seq<seq<Byte>>, words: seq<Byte>, b: nat)
    requires Sound(info) && |ecBlocks| == info.blocks && |before| == DataCodewords(info)
    requires forall b :: 0 <= b < |ecBlocks| ==> |ecBlocks[b]| == info.ecPerBlock
    requires words == before + Columns(ecBlocks, info.ecPerBlock)
    requires |words| == info.total && b < |ecBlocks|
    ensures ReadEc(info, words, b) == ecBlocks[b]
  {
    hide Columns, DataCodewords, Sound;
    forall i | 0 <= i < |ecBlocks[b]| ensures ReadEc(info, words, b)[i] == ecBlocks[b][i] {
      InterleavedEc(info, ecBlocks, b, i);
      assert EcPosition(info, b, i) == DataCodewords(info) + (i * |ecBlocks| + b);
    }
  }

  lemma {:induction false} ReadBlocksIsData(info: VersionInfo, data: seq<Byte>, blocks: seq<seq<Byte>>, words: seq<Byte>, k: nat)
    requires Sound(info) && |data| == DataCodewords(info) && |words| == info.total
    requires |blocks| == info.blocks && Split(info, data, blocks) && k <= |blocks|
    requires forall b :: 0 <= b < |blocks| ==> ReadData(info, words, b) == blocks[b]
    ensures BlockStart(info, k) <= |data|
    ensures ReadBlocks(info, words, k) == data[..BlockStart(info, k)]
  {
    BlocksCoverData(info);
    if k > 0 {
      ReadBlocksIsData(info, data, blocks, words, k - 1);
      var i, j := BlockStart(info, k - 1), BlockStart(info, k);
      assert blocks[k - 1] == data[i..j];
      assert data[..j] == data[..i] + data[i..j];
    }
  }

  lemma InterleavedSplit(info: VersionInfo, data: seq<Byte>, blocks: seq<seq<Byte>>, ecBlocks: seq<seq<Byte>>, words: seq<Byte>)
    requires Sound(info) && |data| == DataCodewords(info)
    requires |blocks| == info.blocks && Split(info, data, blocks) && Protected(info, blocks, ecBlocks)
    requires words == Columns(blocks, ShortLength(info) + 1) + Columns(ecBlocks, info.ecPerBlock)
    ensures |words| == info.total
    ensures ReadBlocks(info, words, info.blocks) == data
    ensures BlocksAreCodewords(info, words)
  {
    hide Columns, ReadBlocks, ReadData, ReadEc, BlockStart, BlockLength;
    SplitLengths(info, data, blocks);
    Deinterleaves(info, blocks, ecBlocks, words);
    BlocksCoverData(info);
    ReadBlocksIsData(info, data, blocks, words, |blocks|);
    assert data[..|data|] == data;
  }

  /** The codewords of a message, interleaved the way the symbol carries them. */
  method Codewords(t: ReedSolomon.Tables, version: nat, bytes: seq<Byte>) returns (out: seq<Byte>)
    requires t.Valid() && Fits(version, |bytes|)
    ensures |out| == Info(version).total && Sound(Info(version))
    ensures Flatten(ReadBlocks(Info(version), out, Info(version).blocks)) == Stream(version, bytes)
    ensures ReadMessage(version, out) == Some(bytes)
    ensures BlocksAreCodewords(Info(version), out)
  {
    hide Info, Flatten, Stream, Columns, ReadBlocks, Split, Protected;
    var bits := DataBits(version, bytes);
    var data := GatherBytes(bits);
    var info := Info(version);
    TableFacts(version);
    var blocks, ecBlocks := SplitBlocks(t, info, data);
    var shortLength := info.total / info.blocks - info.ecPerBlock;
    out := PushColumns([], blocks, shortLength + 1);
    out := PushColumns(out, ecBlocks, info.ecPerBlock);
    InterleavedSplit(info, data, blocks, ecBlocks, out);
    ParseOfStream(version, bytes);
  }

  // ----- the standard leaves no choice -----

  /** Every place of the interleaved data belongs to a block. */
  lemma EveryDataPlaceIsRead(info: VersionInfo, p: nat)
    requires Sound(info) && p < DataCodewords(info)
    ensures exists b, i :: 0 <= b < info.blocks && 0 <= i < BlockLength(info, b) && DataPosition(info, b, i) == p
  {
    hide DataCodewords, ShortLength, ShortBlocks, PlaceOf, LengthOf;
    var n, s, sb := info.blocks, ShortLength(info), ShortBlocks(info);
    DataSize(info);
    PlaceIsRead(s, sb, n, p);
    var b, i :| 0 <= b < n && 0 <= i < LengthOf(s, sb, b) && PlaceOf(s, sb, n, b, i) == p;
    assert DataPosition(info, b, i) == p && i < BlockLength(info, b);
  }

  /** So does every place of the interleaved error correction. */
  lemma EveryEcPlaceIsRead(info: VersionInfo, p: nat)
    requires Sound(info) && DataCodewords(info) <= p < info.total
    ensures exists b, i :: 0 <= b < info.blocks && 0 <= i < info.ecPerBlock && EcPosition(info, b, i) == p
  {
    var d, n := DataCodewords(info), info.blocks;
    assert n >= 1 && p - d < info.ecPerBlock * n;
    hide DataCodewords, Sound;
    EcPlaceIsRead(d, info.ecPerBlock, n, p);
    var b, i :| 0 <= b < n && 0 <= i < info.ecPerBlock && EcPlaceOf(d, n, b, i) == p;
    assert EcPosition(info, b, i) == p;
  }

  lemma EcPlaceIsRead(d: nat, ec: nat, n: nat, p: nat)
    requires n >= 1 && d <= p && p - d < ec * n
    ensures exists b, i :: 0 <= b < n && 0 <= i < ec && EcPlaceOf(d, n, b, i) == p
  {
    RowAndColumn(p - d, ec, n);
    assert EcPlaceOf(d, n, (p - d) % n, (p - d) / n) == p;
  }

  lemma RowAndColumn(p: nat, rows: nat, n: nat)
    requires n >= 1 && p < rows * n
    ensures p == p / n * n + p % n && p % n < n && p / n < rows
  {
    if p / n >= rows {
      ProductMonotone(rows, p / n, n);
    }
  }

  lemma PlaceIsRead(s: nat, sb: nat, n: nat, p: nat)
    requires 1 <= sb <= n && p < s * n + (n - sb)
    ensures exists b, i :: 0 <= b < n && 0 <= i < LengthOf(s, sb, b) && PlaceOf(s, sb, n, b, i) == p
  {
    if p < s * n {
      RowAndColumn(p, s, n);
      assert PlaceOf(s, sb, n, p % n, p / n) == p;
    } else {
      assert PlaceOf(s, sb, n, p - s * n + sb, s) == p;
    }
  }

  lemma {:induction false} SameBlocks(info: VersionInfo, a: seq<Byte>, b: seq<Byte>, k: nat)
    requires Sound(info) && |a| == |b| == info.total && k <= info.blocks
    requires ReadBlocks(info, a, k) == ReadBlocks(info, b, k)
    ensures forall j :: 0 <= j < k ==> ReadData(info, a, j) == ReadData(info, b, j)
  {
    hide ReadData, BlockLength;
    if k > 0 {
      var m := |ReadBlocks(info, a, k)| - BlockLength(info, k - 1);
      assert ReadBlocks(info, a, k)[m..] == ReadData(info, a, k - 1);
      assert ReadBlocks(info, b, k)[m..] == ReadData(info, b, k - 1);
      assert ReadBlocks(info, a, k)[..m] == ReadBlocks(info, a, k - 1);
      assert ReadBlocks(info, b, k)[..m] == ReadBlocks(info, b, k - 1);
      SameBlocks(info, a, b, k - 1);
    }
  }

  /** Codewords are determined by the data they carry, once every block is a word of its code. */
  lemma CodewordsDetermined(info: VersionInfo, a: seq<Byte>, b: seq<Byte>)
    requires Sound(info) && |a| == |b| == info.total
    requires Flatten(ReadBlocks(info, a, info.blocks)) == Flatten(ReadBlocks(info, b, info.blocks))
    requires BlocksAreCodewords(info, a) && BlocksAreCodewords(info, b)
    ensures a == b
  {
    hide ReadBlocks, BlockLength, ReedSolomon.IsCodeword, Flatten;
    RegroupFlatten(ReadBlocks(info, a, info.blocks), []);
    RegroupFlatten(ReadBlocks(info, b, info.blocks), []);
    SameBlocks(info, a, b, info.blocks);
    forall j | 0 <= j < info.blocks ensures ReadEc(info, a, j) == ReadEc(info, b, j) {
      ReedSolomon.CodewordIsUnique(ReadData(info, a, j), ReadEc(info, a, j), ReadEc(info, b, j));
    }
    forall p | 0 <= p < info.total ensures a[p] == b[p] {
      SamePlace(info, a, b, p);
    }
  }

  lemma SamePlace(info: VersionInfo, a: seq<Byte>, b: seq<Byte>, p: nat)
    requires Sound(info) && |a| == |b| == info.total && p < info.total
    requires forall j :: 0 <= j < info.blocks ==>
      ReadData(info, a, j) == ReadData(info, b, j) && ReadEc(info, a, j) == ReadEc(info, b, j)
    ensures a[p] == b[p]
  {
    hide BlockLength, DataPosition, EcPosition, DataCodewords;
    if p < DataCodewords(info) {
      EveryDataPlaceIsRead(info, p);
      var j, i :| 0 <= j < info.blocks && 0 <= i < BlockLength(info, j) && DataPosition(info, j, i) == p;
      assert ReadData(info, a, j)[i] == a[p] && ReadData(info, b, j)[i] == b[p];
    } else {
      EveryEcPlaceIsRead(info, p);
      var j, i :| 0 <= j < info.blocks && 0 <= i < info.ecPerBlock && EcPosition(info, j, i) == p;
      assert ReadEc(info, a, j)[i] == a[p] && ReadEc(info, b, j)[i] == b[p];
    }
  }
}
