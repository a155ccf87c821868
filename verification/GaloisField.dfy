/** Arithmetic in GF(256) with the QR polynomial x^8 + x^4 + x^3 + x^2 + 1 (0x11d),
    and the exponent and logarithm tables the encoder multiplies with. */
module GaloisField {

  type Byte = bv8

  /** Addition, which is its own inverse: the exclusive or. */
  function Add(a: Byte, b: Byte): Byte { a ^ b }

  /** The product of `a` and the generator x of the field, reduced modulo 0x11d. */
  function TimesX(a: Byte): Byte {
    if a & 0x80 != 0 then (a << 1) ^ 0x1d else a << 1
  }

  /** `a` times x^i. */
  function Shifted(a: Byte, i: nat): Byte {
    if i == 0 then a else TimesX(Shifted(a, i - 1))
  }

  /** x^i, the i-th power of the generator (written alpha in the standard). */
  function Power(i: nat): Byte { Shifted(1, i) }

  /** Bit `i` of a byte, the lowest being bit 0. */
  predicate Bit(b: Byte, i: nat) {
    if i == 0 then b & 0x01 != 0 else if i == 1 then b & 0x02 != 0
    else if i == 2 then b & 0x04 != 0 else if i == 3 then b & 0x08 != 0
    else if i == 4 then b & 0x10 != 0 else if i == 5 then b & 0x20 != 0
    else if i == 6 then b & 0x40 != 0 else i == 7 && b & 0x80 != 0
  }

  function Keep(c: bool, a: Byte): Byte { if c then a else 0 }

  /** The product of `a` and the polynomial made of the `k` lowest bits of `b`. */
  function PartialProduct(a: Byte, b: Byte, k: nat): Byte {
    if k == 0 then 0 else Add(PartialProduct(a, b, k - 1), Keep(Bit(b, k - 1), Shifted(a, k - 1)))
  }

  /** The field product by its definition: the sum of x^i * a over the bits i of b. */
  function Product(a: Byte, b: Byte): Byte { PartialProduct(a, b, 8) }

  // ----- addition -----

  lemma AddLaws(a: Byte, b: Byte, c: Byte)
    ensures Add(a, b) == Add(b, a)
    ensures Add(Add(a, b), c) == Add(a, Add(b, c))
    ensures Add(a, a) == 0 && Add(a, 0) == a && Add(0, a) == a
    ensures Add(a, b) == 0 <==> a == b
  {}

  lemma AddSwap(a: Byte, b: Byte, c: Byte, d: Byte)
    ensures Add(Add(a, b), Add(c, d)) == Add(Add(a, c), Add(b, d))
  {
    hide Add;
    AddLaws(a, b, Add(c, d));
    AddLaws(b, c, d);
    AddLaws(c, b, d);
    AddLaws(a, c, Add(b, d));
  }

  // ----- multiplication by powers of x -----

  lemma BitOfSum(a: Byte, b: Byte, i: nat)
    ensures Bit(Add(a, b), i) == (Bit(a, i) != Bit(b, i))
  {
    if i == 0 { assert (a ^ b) & 0x01 == (a & 0x01) ^ (b & 0x01); }
    else if i == 1 { assert (a ^ b) & 0x02 == (a & 0x02) ^ (b & 0x02); }
    else if i == 2 { assert (a ^ b) & 0x04 == (a & 0x04) ^ (b & 0x04); }
    else if i == 3 { assert (a ^ b) & 0x08 == (a & 0x08) ^ (b & 0x08); }
    else if i == 4 { assert (a ^ b) & 0x10 == (a & 0x10) ^ (b & 0x10); }
    else if i == 5 { assert (a ^ b) & 0x20 == (a & 0x20) ^ (b & 0x20); }
    else if i == 6 { assert (a ^ b) & 0x40 == (a & 0x40) ^ (b & 0x40); }
    else if i == 7 { assert (a ^ b) & 0x80 == (a & 0x80) ^ (b & 0x80); }
  }

  lemma KeepOfSum(c: bool, d: bool, a: Byte)
    ensures Keep(c != d, a) == Add(Keep(c, a), Keep(d, a))
  {}

  /** Doubling is a shift, and the low bits of 0x11d when the highest bit comes out. */
  lemma TimesXParts(a: Byte)
    ensures TimesX(a) == Add(a << 1, Keep(Bit(a, 7), 0x1d))
  {}

  lemma ShiftOfSum(a: Byte, b: Byte)
    ensures Add(a, b) << 1 == Add(a << 1, b << 1)
  {}

  lemma TimesXLinear(a: Byte, b: Byte)
    ensures TimesX(Add(a, b)) == Add(TimesX(a), TimesX(b))
  {
    hide Add, TimesX, Bit, Keep;
    TimesXParts(a);
    TimesXParts(b);
    TimesXParts(Add(a, b));
    BitOfSum(a, b, 7);
    ShiftOfSum(a, b);
    KeepOfSum(Bit(a, 7), Bit(b, 7), 0x1d);
    AddSwap(a << 1, b << 1, Keep(Bit(a, 7), 0x1d), Keep(Bit(b, 7), 0x1d));
  }

  lemma TimesXKeep(c: bool, a: Byte)
    ensures TimesX(Keep(c, a)) == Keep(c, TimesX(a))
  {}

  lemma KeepLinear(c: bool, a: Byte, b: Byte)
    ensures Keep(c, Add(a, b)) == Add(Keep(c, a), Keep(c, b))
  {}

  lemma {:induction false} ShiftedLinear(a: Byte, b: Byte, i: nat)
    ensures Shifted(Add(a, b), i) == Add(Shifted(a, i), Shifted(b, i))
  {
    hide Add, TimesX;
    if i > 0 {
      ShiftedLinear(a, b, i - 1);
      TimesXLinear(Shifted(a, i - 1), Shifted(b, i - 1));
    }
  }

  lemma {:induction false} ShiftedAdds(a: Byte, i: nat, j: nat)
    ensures Shifted(Shifted(a, i), j) == Shifted(a, i + j)
  {
    hide TimesX;
    if j > 0 {
      ShiftedAdds(a, i, j - 1);
    }
  }

  lemma {:induction false} ProductLinear(a: Byte, b: Byte, c: Byte, k: nat)
    ensures PartialProduct(Add(a, b), c, k) == Add(PartialProduct(a, c, k), PartialProduct(b, c, k))
  {
    hide Add, TimesX, Bit, Keep;
    if k == 0 {
      AddLaws(0, 0, 0);
    } else {
      var p, q := PartialProduct(a, c, k - 1), PartialProduct(b, c, k - 1);
      var s, t := Shifted(a, k - 1), Shifted(b, k - 1);
      ShiftedLinear(a, b, k - 1);
      ProductLinear(a, b, c, k - 1);
      KeepLinear(Bit(c, k - 1), s, t);
      AddSwap(p, q, Keep(Bit(c, k - 1), s), Keep(Bit(c, k - 1), t));
    }
  }

  lemma {:induction false} ProductTimesXLeft(a: Byte, b: Byte, k: nat)
    ensures PartialProduct(TimesX(a), b, k) == TimesX(PartialProduct(a, b, k))
  {
    hide Add, TimesX, Bit, Keep;
    if k == 0 {
      TimesXKeep(false, 0);
      assert Keep(false, 0) == 0 by { KeepZero(); }
      assert Keep(false, TimesX(0)) == 0 by { KeepZero(); }
    } else {
      var s := Shifted(a, k - 1);
      ShiftedAdds(a, 1, k - 1);
      ShiftedAdds(a, k - 1, 1);
      ShiftedOne(a);
      ShiftedOne(s);
      assert Shifted(TimesX(a), k - 1) == TimesX(s);
      ProductTimesXLeft(a, b, k - 1);
      TimesXKeep(Bit(b, k - 1), s);
      TimesXLinear(PartialProduct(a, b, k - 1), Keep(Bit(b, k - 1), s));
    }
  }

  lemma KeepZero()
    ensures forall a: Byte :: Keep(false, a) == 0
  {}

  lemma ShiftedOne(a: Byte)
    ensures Shifted(a, 1) == TimesX(a)
  {
    hide TimesX;
    assert Shifted(a, 0) == a;
  }

  // ----- the product is linear in its second factor too -----

  lemma {:induction false} ProductLinearRight(a: Byte, b: Byte, c: Byte, k: nat)
    ensures PartialProduct(a, Add(b, c), k) == Add(PartialProduct(a, b, k), PartialProduct(a, c, k))
  {
    hide Add, TimesX, Bit, Keep;
    if k == 0 {
      AddLaws(0, 0, 0);
    } else {
      var s := Shifted(a, k - 1);
      ProductLinearRight(a, b, c, k - 1);
      BitOfSum(b, c, k - 1);
      KeepOfSum(Bit(b, k - 1), Bit(c, k - 1), s);
      AddSwap(PartialProduct(a, b, k - 1), PartialProduct(a, c, k - 1),
              Keep(Bit(b, k - 1), s), Keep(Bit(c, k - 1), s));
    }
  }

  /** The byte whose only bit is bit `i`. */
  function Unit(i: nat): Byte {
    if i == 0 then 0x01 else if i == 1 then 0x02 else if i == 2 then 0x04 else if i == 3 then 0x08
    else if i == 4 then 0x10 else if i == 5 then 0x20 else if i == 6 then 0x40 else 0x80
  }

  /** The `k` lowest bits of `b`. */
  function LowBits(b: Byte, k: nat): Byte {
    if k == 0 then 0 else Add(LowBits(b, k - 1), Keep(Bit(b, k - 1), Unit(k - 1)))
  }

  lemma BitOfUnit(i: nat, j: nat)
    requires i < 8 && j < 8
    ensures Bit(Unit(i), j) <==> i == j
  {}

  lemma AllBits(b: Byte)
    ensures LowBits(b, 8) == b
  {
    assert LowBits(b, 1) == b & 0x01;
    assert LowBits(b, 2) == b & 0x03;
    assert LowBits(b, 3) == b & 0x07;
    assert LowBits(b, 4) == b & 0x0f;
    assert LowBits(b, 5) == b & 0x1f;
    assert LowBits(b, 6) == b & 0x3f;
    assert LowBits(b, 7) == b & 0x7f;
  }

  lemma {:induction false} ProductOfUnit(a: Byte, i: nat, k: nat)
    requires i < 8 && k <= 8
    ensures PartialProduct(a, Unit(i), k) == (if i < k then Shifted(a, i) else 0)
  {
    hide Add, TimesX, Bit, Unit;
    if k > 0 {
      ProductOfUnit(a, i, k - 1);
      BitOfUnit(i, k - 1);
      AddLaws(PartialProduct(a, Unit(i), k - 1), 0, 0);
      AddLaws(Shifted(a, i), 0, 0);
    }
  }

  lemma TimesXOfUnit(i: nat)
    requires i < 8
    ensures TimesX(Unit(i)) == if i < 7 then Unit(i + 1)
                               else Add(Unit(4), Add(Unit(3), Add(Unit(2), Unit(0))))
  {}

  /** x^8 = x^4 + x^3 + x^2 + 1 in the field. */
  lemma EighthPower(a: Byte)
    ensures Shifted(a, 8) == Add(Shifted(a, 4), Add(Shifted(a, 3), Add(Shifted(a, 2), a)))
  {
    assert Shifted(a, 2) == TimesX(TimesX(a)) by { hide TimesX; ShiftedOne(a); }
    assert Shifted(a, 3) == TimesX(Shifted(a, 2)) by { hide TimesX; }
    assert Shifted(a, 4) == TimesX(Shifted(a, 3)) by { hide TimesX; }
    assert Shifted(a, 5) == TimesX(Shifted(a, 4)) by { hide TimesX; }
    assert Shifted(a, 6) == TimesX(Shifted(a, 5)) by { hide TimesX; }
    assert Shifted(a, 7) == TimesX(Shifted(a, 6)) by { hide TimesX; }
    assert Shifted(a, 8) == TimesX(Shifted(a, 7)) by { hide TimesX; }
    EightSteps(a);
  }

  lemma EightSteps(a: Byte)
    ensures var a2 := TimesX(TimesX(a)); var a4 := TimesX(TimesX(a2));
            TimesX(TimesX(TimesX(TimesX(a4)))) == Add(a4, Add(TimesX(a2), Add(a2, a)))
  {}

  lemma ProductOfShiftedUnit(a: Byte, i: nat)
    requires i < 8
    ensures Product(a, TimesX(Unit(i))) == Product(TimesX(a), Unit(i))
  {
    hide Add, TimesX, Bit, Keep, Unit;
    TimesXOfUnit(i);
    ProductOfUnit(TimesX(a), i, 8);
    ShiftedOne(a);
    ShiftedAdds(a, 1, i);
    assert Product(TimesX(a), Unit(i)) == Shifted(a, i + 1);
    if i < 7 {
      ProductOfUnit(a, i + 1, 8);
    } else {
      ProductLinearRight(a, Unit(4), Add(Unit(3), Add(Unit(2), Unit(0))), 8);
      ProductLinearRight(a, Unit(3), Add(Unit(2), Unit(0)), 8);
      ProductLinearRight(a, Unit(2), Unit(0), 8);
      ProductOfUnit(a, 4, 8);
      ProductOfUnit(a, 3, 8);
      ProductOfUnit(a, 2, 8);
      ProductOfUnit(a, 0, 8);
      EighthPower(a);
    }
  }

  lemma {:induction false} ProductTimesXLow(a: Byte, b: Byte, k: nat)
    requires k <= 8
    ensures Product(a, TimesX(LowBits(b, k))) == Product(TimesX(a), LowBits(b, k))
  {
    hide Add, TimesX, Bit, Keep, Unit, PartialProduct;
    if k == 0 {
      assert TimesX(0) == 0 && Product(a, 0) == 0 && Product(TimesX(a), 0) == 0 by {
        ProductZero(a);
        ProductZero(TimesX(a));
      }
    } else {
      var low, top := LowBits(b, k - 1), Keep(Bit(b, k - 1), Unit(k - 1));
      ProductTimesXLow(a, b, k - 1);
      TimesXLinear(low, top);
      ProductLinearRight(a, TimesX(low), TimesX(top), 8);
      ProductLinearRight(TimesX(a), low, top, 8);
      if Bit(b, k - 1) {
        KeepTrue(Unit(k - 1));
        ProductOfShiftedUnit(a, k - 1);
      } else {
        KeepZero();
        ProductZero(a);
        ProductZero(TimesX(a));
      }
    }
  }

  lemma KeepTrue(a: Byte)
    ensures Keep(true, a) == a
  {}

  lemma ProductZero(a: Byte)
    ensures TimesX(0) == 0 && Product(a, 0) == 0
  {
    ProductLinearRight(a, 0, 0, 8);
    AddLaws(0, 0, 0);
    AddLaws(Product(a, 0), 0, 0);
  }

  lemma ProductTimesXRight(a: Byte, b: Byte)
    ensures Product(a, TimesX(b)) == TimesX(Product(a, b))
  {
    hide Add, TimesX, Bit, Keep, Unit;
    AllBits(b);
    ProductTimesXLow(a, b, 8);
    ProductTimesXLeft(a, b, 8);
  }

  // ----- every non-zero element is a power of x -----

  /** `b` is y, or y times one of the first fourteen powers of x. */
  predicate AmongFifteen(y: Byte, b: Byte) {
    var y1 := TimesX(y); var y2 := TimesX(y1); var y3 := TimesX(y2); var y4 := TimesX(y3);
    var y5 := TimesX(y4); var y6 := TimesX(y5); var y7 := TimesX(y6); var y8 := TimesX(y7);
    var y9 := TimesX(y8); var y10 := TimesX(y9); var y11 := TimesX(y10); var y12 := TimesX(y11);
    var y13 := TimesX(y12); var y14 := TimesX(y13);
    b == y || b == y1 || b == y2 || b == y3 || b == y4 || b == y5 || b == y6 || b == y7
    || b == y8 || b == y9 || b == y10 || b == y11 || b == y12 || b == y13 || b == y14
  }

  function FifteenUp(y: Byte): Byte {
    var y1 := TimesX(y); var y2 := TimesX(y1); var y3 := TimesX(y2); var y4 := TimesX(y3);
    var y5 := TimesX(y4); var y6 := TimesX(y5); var y7 := TimesX(y6); var y8 := TimesX(y7);
    var y9 := TimesX(y8); var y10 := TimesX(y9); var y11 := TimesX(y10); var y12 := TimesX(y11);
    var y13 := TimesX(y12); var y14 := TimesX(y13);
    TimesX(y14)
  }

  /** The first byte of each of the seventeen stretches of fifteen successive powers. */
  function Start(k: nat): Byte {
    if k == 0 then 1 else if k == 1 then 38 else if k == 2 then 96 else if k == 3 then 193
    else if k == 4 then 185 else if k == 5 then 15 else if k == 6 then 223 else if k == 7 then 26
    else if k == 8 then 59 else if k == 9 then 169 else if k == 10 then 85 else if k == 11 then 145
    else if k == 12 then 150 else if k == 13 then 100 else if k == 14 then 89 else if k == 15 then 36
    else if k == 16 then 44 else 1
  }

  /** The stretches cover the non-zero bytes. */
  lemma StretchesCover(b: Byte)
    requires b != 0
    ensures exists k :: 0 <= k < 17 && AmongFifteen(Start(k), b)
  {
    if forall k :: 0 <= k < 17 ==> !AmongFifteen(Start(k), b) {
      assert !AmongFifteen(Start(0), b) && !AmongFifteen(Start(1), b) && !AmongFifteen(Start(2), b) &&
          !AmongFifteen(Start(3), b) && !AmongFifteen(Start(4), b) && !AmongFifteen(Start(5), b) &&
          !AmongFifteen(Start(6), b) && !AmongFifteen(Start(7), b) && !AmongFifteen(Start(8), b) &&
          !AmongFifteen(Start(9), b) && !AmongFifteen(Start(10), b) && !AmongFifteen(Start(11), b) &&
          !AmongFifteen(Start(12), b) && !AmongFifteen(Start(13), b) && !AmongFifteen(Start(14), b) &&
          !AmongFifteen(Start(15), b) && !AmongFifteen(Start(16), b);
      StretchesCoverLiterally(b);
    }
  }

  lemma StretchesCoverLiterally(b: Byte)
    requires b != 0
    ensures AmongFifteen(1, b) || AmongFifteen(38, b) || AmongFifteen(96, b) || AmongFifteen(193, b) ||
         AmongFifteen(185, b) || AmongFifteen(15, b) || AmongFifteen(223, b) || AmongFifteen(26, b) ||
         AmongFifteen(59, b) || AmongFifteen(169, b) || AmongFifteen(85, b) || AmongFifteen(145, b) ||
         AmongFifteen(150, b) || AmongFifteen(100, b) || AmongFifteen(89, b) || AmongFifteen(36, b) ||
         AmongFifteen(44, b)
  {}

  lemma OneIsOnlyAtTheStart(k: nat)
    requires k < 17
    ensures AmongFifteen(Start(k), 1) <==> k == 0
  {
    hide AmongFifteen;
    OneIsOnlyAtTheStartLiterally();
  }

  lemma OneIsOnlyAtTheStartLiterally()
    ensures AmongFifteen(1, 1)
    ensures !AmongFifteen(38, 1) && !AmongFifteen(96, 1) && !AmongFifteen(193, 1) && !AmongFifteen(185, 1) &&
         !AmongFifteen(15, 1) && !AmongFifteen(223, 1) && !AmongFifteen(26, 1) && !AmongFifteen(59, 1) &&
         !AmongFifteen(169, 1) && !AmongFifteen(85, 1) && !AmongFifteen(145, 1) && !AmongFifteen(150, 1) &&
         !AmongFifteen(100, 1) && !AmongFifteen(89, 1) && !AmongFifteen(36, 1) && !AmongFifteen(44, 1)
    ensures !AmongFifteen(2, 1)
  {}

  lemma StretchesFollow(k: nat)
    requires k < 17
    ensures FifteenUp(Start(k)) == Start(k + 1)
  {
    hide FifteenUp;
    StretchesFollowLiterally();
  }

  lemma StretchesFollowLiterally()
    ensures FifteenUp(1) == 38 && FifteenUp(38) == 96 && FifteenUp(96) == 193 && FifteenUp(193) == 185 &&
         FifteenUp(185) == 15 && FifteenUp(15) == 223 && FifteenUp(223) == 26 && FifteenUp(26) == 59 &&
         FifteenUp(59) == 169 && FifteenUp(169) == 85 && FifteenUp(85) == 145 && FifteenUp(145) == 150 &&
         FifteenUp(150) == 100 && FifteenUp(100) == 89 && FifteenUp(89) == 36 && FifteenUp(36) == 44 &&
         FifteenUp(44) == 1
  {}

  lemma {:induction false} StretchStarts(k: nat)
    requires k <= 17
    ensures Power(15 * k) == Start(k)
  {
    hide TimesX, FifteenUp;
    if k > 0 {
      StretchStarts(k - 1);
      StretchesFollow(k - 1);
      FifteenUpPower(15 * (k - 1));
    }
  }

  lemma FivePowers(k: nat)
    ensures Power(k + 1) == TimesX(Power(k)) && Power(k + 2) == TimesX(Power(k + 1))
         && Power(k + 3) == TimesX(Power(k + 2)) && Power(k + 4) == TimesX(Power(k + 3))
         && Power(k + 5) == TimesX(Power(k + 4))
  {
    hide TimesX;
  }

  lemma FifteenUpPower(k: nat)
    ensures FifteenUp(Power(k)) == Power(k + 15)
  {
    hide TimesX;
    FivePowers(k);
    FivePowers(k + 5);
    FivePowers(k + 10);
  }

  lemma AmongFifteenPowers(k: nat, b: Byte)
    ensures AmongFifteen(Power(k), b) <==> exists n :: k <= n < k + 15 && b == Power(n)
  {
    hide TimesX;
    FivePowers(k);
    FivePowers(k + 5);
    FivePowers(k + 10);
    if n :| k <= n < k + 15 && b == Power(n) {
      assert n == k || n == k + 1 || n == k + 2 || n == k + 3 || n == k + 4 || n == k + 5 || n == k + 6 || n == k + 7
          || n == k + 8 || n == k + 9 || n == k + 10 || n == k + 11 || n == k + 12 || n == k + 13 || n == k + 14;
    }
  }

  /** x^255 = 1, so the powers repeat with period 255. */
  lemma PowerPeriod(i: nat)
    ensures Power(255) == 1 && Power(i + 255) == Power(i)
  {
    hide TimesX;
    StretchStarts(17);
    ShiftedAdds(1, 255, i);
  }

  /** x generates the field: every non-zero byte is one of its first 255 powers. */
  lemma Generates(b: Byte)
    requires b != 0
    ensures exists i :: 0 <= i < 255 && Power(i) == b
  {
    hide TimesX, AmongFifteen, Start;
    StretchesCover(b);
    var k :| 0 <= k < 17 && AmongFifteen(Start(k), b);
    StretchStarts(k);
    AmongFifteenPowers(15 * k, b);
  }

  /** The discrete logarithm of a non-zero byte. */
  ghost function Exponent(b: Byte): (i: nat)
    requires b != 0
    ensures i < 255 && Power(i) == b
  {
    Generates(b);
    var i :| 0 <= i < 255 && Power(i) == b;
    i
  }

  lemma PowerZero()
    ensures Power(0) == 1
  {}

  lemma TimesXNonzero(b: Byte)
    ensures TimesX(b) == 0 <==> b == 0
  {}

  lemma {:induction false} PowerNonzero(i: nat)
    ensures Power(i) != 0
  {
    hide TimesX;
    if i > 0 {
      PowerNonzero(i - 1);
      TimesXNonzero(Power(i - 1));
    }
  }

  // ----- the field laws -----

  lemma {:induction false} ProductOfPower(a: Byte, j: nat)
    ensures Product(a, Power(j)) == Shifted(a, j)
  {
    hide TimesX, PartialProduct;
    if j == 0 {
      ProductOfUnit(a, 0, 8);
    } else {
      ProductOfPower(a, j - 1);
      ProductTimesXRight(a, Power(j - 1));
    }
  }

  /** Exponents add: the law the two tables rest on. */
  lemma ProductOfPowers(i: nat, j: nat)
    ensures Product(Power(i), Power(j)) == Power(i + j)
  {
    hide TimesX, PartialProduct;
    ProductOfPower(Power(i), j);
    ShiftedAdds(1, i, j);
  }

  lemma ProductCommutes(a: Byte, b: Byte)
    ensures Product(a, b) == Product(b, a)
  {
    hide TimesX, PartialProduct, Add;
    ProductByZero(a);
    ProductByZero(b);
    if a != 0 && b != 0 {
      ProductOfPowers(Exponent(a), Exponent(b));
      ProductOfPowers(Exponent(b), Exponent(a));
    }
  }

  lemma ProductByZero(a: Byte)
    ensures Product(a, 0) == 0 && Product(0, a) == 0
  {
    hide Add, TimesX;
    ProductZero(a);
    ProductLinear(0, 0, a, 8);
    AddLaws(0, 0, 0);
    AddLaws(Product(0, a), Product(0, a), 0);
  }

  lemma ProductAssociates(a: Byte, b: Byte, c: Byte)
    ensures Product(Product(a, b), c) == Product(a, Product(b, c))
  {
    hide TimesX, PartialProduct, Add;
    ProductByZero(a);
    ProductByZero(b);
    ProductByZero(c);
    ProductByZero(Product(a, b));
    ProductByZero(Product(b, c));
    if a != 0 && b != 0 && c != 0 {
      var i, j, k := Exponent(a), Exponent(b), Exponent(c);
      ProductOfPowers(i, j);
      ProductOfPowers(j, k);
      ProductOfPowers(i + j, k);
      ProductOfPowers(i, j + k);
    }
  }

  lemma ProductDistributes(a: Byte, b: Byte, c: Byte)
    ensures Product(Add(a, b), c) == Add(Product(a, c), Product(b, c))
    ensures Product(a, Add(b, c)) == Add(Product(a, b), Product(a, c))
  {
    hide TimesX, Add;
    ProductLinear(a, b, c, 8);
    ProductLinearRight(a, b, c, 8);
  }

  /** One is neutral and there are no zero divisors. */
  lemma ProductUnits(a: Byte, b: Byte)
    ensures Product(a, 1) == a && Product(1, a) == a
    ensures Product(a, b) == 0 <==> a == 0 || b == 0
  {
    hide TimesX, PartialProduct, Add;
    ProductOfPower(a, 0);
    ProductCommutes(a, 1);
    ProductByZero(a);
    ProductByZero(b);
    if a != 0 && b != 0 {
      ProductOfPowers(Exponent(a), Exponent(b));
      PowerNonzero(Exponent(a) + Exponent(b));
    }
  }

  /** No smaller positive power of x than the 255th is one. */
  lemma OrderIs255(d: nat)
    requires 0 < d < 255
    ensures Power(d) != 1
  {
    hide TimesX, AmongFifteen, Start;
    var k := d / 15;
    OneIsOnlyAtTheStart(k);
    OneIsOnlyAtTheStartLiterally();
    StretchStarts(k);
    AmongFifteenPowers(15 * k, 1);
    ShiftedOne(1);
    TwoIsX();
    AmongFifteenPowers(1, 1);
  }

  lemma TwoIsX()
    ensures TimesX(1) == 2
  {}

  lemma PowersDistinct(i: nat, j: nat)
    requires i < j < 255
    ensures Power(i) != Power(j)
  {
    hide TimesX, PartialProduct, Add;
    if Power(i) == Power(j) {
      ProductOfPowers(i, j - i);
      ProductUnits(Power(i), Add(Power(j - i), 1));
      ProductDistributes(Power(i), Power(j - i), 1);
      AddLaws(Power(i), Power(i), 0);
      AddLaws(Power(j - i), 1, 0);
      PowerNonzero(i);
      OrderIs255(j - i);
    }
  }
}
