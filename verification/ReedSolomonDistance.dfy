/** What the error correction codewords are for: words of the code lie far apart, so that a
    block with some wrong codewords still belongs to only one of them. */
module ReedSolomonDistance {
  import opened GaloisField
  import opened ReedSolomon

  /** How many coefficients are not zero. */
  function Weight(w: seq<Byte>): nat {
    if w == [] then 0 else (if w[0] != 0 then 1 else 0) + Weight(w[1..])
  }

  /** In how many places two blocks differ. */
  function Distance(a: seq<Byte>, b: seq<Byte>): nat
    requires |a| == |b|
  {
    Weight(Sum(a, b))
  }

  /** The degrees of the coefficients that are not zero, the highest first. */
  function Support(w: seq<Byte>): (s: seq<nat>)
    ensures |s| == Weight(w)
    ensures forall i :: 0 <= i < |s| ==> s[i] < |w|
  {
    if w == [] then [] else (if w[0] != 0 then [|w| - 1] else []) + Support(w[1..])
  }

  /** The product of (X + x^d) over the degrees d: it vanishes there and nowhere else. */
  function Locator(degrees: seq<nat>): (l: seq<Byte>)
    ensures |l| == |degrees| + 1
  {
    if degrees == [] then [1] else TimesLinear(Locator(degrees[1..]), Power(degrees[0]))
  }

  lemma {:induction false} LocatorRoots(degrees: seq<nat>, x: Byte)
    ensures Eval(Locator(degrees), x) == 0 <==> exists i :: 0 <= i < |degrees| && Power(degrees[i]) == x
  {
    hide Add, Product, Power;
    if degrees == [] {
      EvalOne(1, x);
      OneIsNotZero();
    } else {
      var d, rest := degrees[0], degrees[1..];
      LocatorRoots(rest, x);
      EvalTimesLinear(Locator(rest), Power(d), x);
      ProductUnits(Eval(Locator(rest), x), Add(x, Power(d)));
      AddLaws(x, Power(d), 0);
      if i :| 0 <= i < |rest| && Power(rest[i]) == x {
        assert degrees[i + 1] == rest[i];
      }
      if i :| 0 <= i < |degrees| && Power(degrees[i]) == x {
        if i > 0 {
          assert rest[i - 1] == degrees[i];
        }
      }
    }
  }

  // ----- weighing a word against a polynomial -----

  /** The sum of w_d L(x^d) over the degrees d of w. */
  function Weigh(w: seq<Byte>, l: seq<Byte>): Byte {
    if w == [] then 0 else Add(Product(w[0], Eval(l, Power(|w| - 1))), Weigh(w[1..], l))
  }

  /** Each coefficient times x to its own degree. */
  function Twist(w: seq<Byte>): (t: seq<Byte>)
    ensures |t| == |w|
  {
    if w == [] then [] else [Product(w[0], Power(|w| - 1))] + Twist(w[1..])
  }

  lemma EvalCons(a: Byte, t: seq<Byte>, x: Byte)
    ensures Eval([a] + t, x) == Add(Product(a, Pow(x, |t|)), Eval(t, x))
  {
    hide Add, Product;
    EvalConcat([a], t, x);
    EvalOne(a, x);
  }

  lemma {:induction false} PowOfNextPower(j: nat, m: nat)
    ensures Pow(Power(j + 1), m) == Product(Power(m), Pow(Power(j), m))
  {
    hide Product, Shifted, Add;
    if m == 0 {
      ProductUnits(Power(0), Pow(Power(j), 0));
      ProductUnits(1, 1);
      assert Power(0) == 1 by { PowerZero(); }
    } else {
      PowOfNextPower(j, m - 1);
      var p, q := Power(m - 1), Pow(Power(j), m - 1);
      ProductOfPowers(j, 1);
      ProductOfPowers(m - 1, 1);
      assert Pow(Power(j + 1), m) == Product(Product(p, q), Product(Power(j), Power(1)));
      ProductSwap(p, q, Power(j), Power(1));
    }
  }

  lemma ProductSwap(p: Byte, q: Byte, r: Byte, s: Byte)
    ensures Product(Product(p, q), Product(r, s)) == Product(Product(p, s), Product(q, r))
  {
    hide Product, Add;
    ProductCommutes(r, s);
    ProductAssociates(p, q, Product(s, r));
    ProductAssociates(q, s, r);
    ProductCommutes(q, s);
    ProductAssociates(s, q, r);
    ProductAssociates(p, s, Product(q, r));
  }

  /** Twisting a word moves its values along the powers. */
  lemma {:induction false} TwistMovesValues(w: seq<Byte>, j: nat)
    ensures Eval(Twist(w), Power(j)) == Eval(w, Power(j + 1))
  {
    hide Add, Product, Power;
    if w == [] {
      assert Twist(w) == [];
    } else {
      var a, t := w[0], w[1..];
      var m := |t|;
      TwistMovesValues(t, j);
      assert w == [a] + t;
      EvalCons(a, t, Power(j + 1));
      EvalCons(Product(a, Power(m)), Twist(t), Power(j));
      PowOfNextPower(j, m);
      ProductAssociates(a, Power(m), Pow(Power(j), m));
    }
  }

  lemma {:induction false} PowOfOne(m: nat)
    ensures Pow(1, m) == 1
  {
    hide Product;
    if m > 0 {
      PowOfOne(m - 1);
      ProductUnits(1, 1);
    }
  }

  lemma {:induction false} WeighStep(w: seq<Byte>, l: seq<Byte>, a: Byte)
    ensures Weigh(w, l + [a]) == Add(Weigh(Twist(w), l), Product(Eval(w, 1), a))
  {
    hide Add, Product, Power;
    if w == [] {
      ProductByZero(a);
      AddLaws(0, 0, 0);
      assert Twist(w) == [];
    } else {
      var b, t := w[0], w[1..];
      var x := Power(|t|);
      WeighStep(t, l, a);
      EvalSnoc(l, a, x);
      var e := Eval(l, x);
      // b (e x + a) = (b x) e + b a
      ProductDistributes(b, Product(e, x), a);
      ProductCommutes(e, x);
      ProductAssociates(b, x, e);
      assert w == [b] + t;
      EvalCons(b, t, 1);
      PowOfOne(|t|);
      ProductUnits(b, 1);
      ProductDistributes(b, Eval(t, 1), a);
      assert Twist(w)[0] == Product(b, x) && Twist(w)[1..] == Twist(t);
      AddSwap(Product(Product(b, x), e), Product(b, a), Weigh(Twist(t), l), Product(Eval(t, 1), a));
    }
  }

  /** A word that vanishes at as many powers as a polynomial has coefficients weighs
      nothing against it. */
  lemma {:induction false} WeighsNothing(w: seq<Byte>, l: seq<Byte>)
    requires IsCodeword(w, |l|)
    ensures Weigh(w, l) == 0
    decreases |l|
  {
    hide Add, Product, Power;
    if l == [] {
      WeighEmpty(w);
    } else {
      var init, a := l[..|l| - 1], l[|l| - 1];
      assert l == init + [a];
      WeighStep(w, init, a);
      forall j | 0 <= j < |init| ensures Eval(Twist(w), Power(j)) == 0 {
        TwistMovesValues(w, j);
      }
      WeighsNothing(Twist(w), init);
      PowerZero();
      assert Eval(w, Power(0)) == 0;
      ProductByZero(a);
      AddLaws(0, 0, 0);
    }
  }

  lemma {:induction false} WeighEmpty(w: seq<Byte>)
    ensures Weigh(w, []) == 0
  {
    hide Add, Product, Power;
    if w != [] {
      WeighEmpty(w[1..]);
      ProductByZero(w[0]);
      AddLaws(0, 0, 0);
    }
  }

  /** A polynomial that vanishes on the support of a word gives it no weight. */
  lemma {:induction false} VanishingWeight(w: seq<Byte>, l: seq<Byte>)
    requires forall i :: 0 <= i < |Support(w)| ==> Eval(l, Power(Support(w)[i])) == 0
    ensures Weigh(w, l) == 0
  {
    hide Add, Product, Power;
    if w != [] {
      var t := w[1..];
      var head := if w[0] != 0 then [|w| - 1] else [];
      assert Support(w) == head + Support(t);
      forall i | 0 <= i < |Support(t)| ensures Eval(l, Power(Support(t)[i])) == 0 {
        assert Support(w)[|head| + i] == Support(t)[i];
      }
      VanishingWeight(t, l);
      assert w[0] != 0 ==> Support(w)[0] == |w| - 1;
      ProductByZero(w[0]);
      ProductByZero(Eval(l, Power(|w| - 1)));
      AddLaws(0, 0, 0);
    }
  }

  // ----- the distance -----

  /** A word of the code that is not zero has more than `degree` coefficients that are not. */
  lemma {:induction false} CodewordsAreHeavy(w: seq<Byte>, degree: nat)
    requires |w| <= 255 && IsCodeword(w, degree) && Weight(w) > 0
    ensures Weight(w) > degree
  {
    hide Add, Product, Power;
    var a, t := w[0], w[1..];
    assert w == [a] + t;
    if a == 0 {
      forall j | 0 <= j < degree ensures Eval(t, Power(j)) == 0 {
        EvalCons(a, t, Power(j));
        ProductByZero(Pow(Power(j), |t|));
        AddLaws(Eval(t, Power(j)), 0, 0);
      }
      CodewordsAreHeavy(t, degree);
    } else {
      var l := Locator(Support(t));
      assert |l| == Weight(w);
      LocatorSparesHead(t);
      forall i | 0 <= i < |Support(t)| ensures Eval(l, Power(Support(t)[i])) == 0 {
        LocatorRoots(Support(t), Power(Support(t)[i]));
      }
      VanishingWeight(t, l);
      var e := Eval(l, Power(|t|));
      ProductUnits(a, e);
      AddLaws(Product(a, e), 0, 0);
      assert Weigh(w, l) != 0;
      if |l| <= degree {
        WeighsNothing(w, l);
      }
    }
  }

  lemma LocatorSparesHead(t: seq<Byte>)
    requires |t| < 255
    ensures Eval(Locator(Support(t)), Power(|t|)) != 0
  {
    hide Add, Product, Power;
    LocatorRoots(Support(t), Power(|t|));
    forall i | 0 <= i < |Support(t)| ensures Power(Support(t)[i]) != Power(|t|) {
      PowersDistinct(Support(t)[i], |t|);
    }
  }

  lemma {:induction false} SumOfEqual(a: seq<Byte>, b: seq<Byte>)
    requires |a| == |b|
    ensures Distance(a, b) == 0 <==> a == b
  {
    hide Add;
    if a != [] {
      SumOfEqual(a[1..], b[1..]);
      AddLaws(a[0], b[0], 0);
      assert Sum(a, b)[1..] == Sum(a[1..], b[1..]);
      assert a == [a[0]] + a[1..] && b == [b[0]] + b[1..];
    }
  }

  /** Two different words of the code differ in more than `degree` places. */
  lemma CodewordsAreApart(a: seq<Byte>, b: seq<Byte>, degree: nat)
    requires |a| == |b| <= 255 && a != b
    requires IsCodeword(a, degree) && IsCodeword(b, degree)
    ensures Distance(a, b) > degree
  {
    hide Add, Product, Power;
    forall j | 0 <= j < degree ensures Eval(Sum(a, b), Power(j)) == 0 {
      EvalSum(a, b, Power(j));
      AddLaws(0, 0, 0);
    }
    SumOfEqual(a, b);
    CodewordsAreHeavy(Sum(a, b), degree);
  }

  lemma {:induction false} DistanceTriangle(a: seq<Byte>, r: seq<Byte>, b: seq<Byte>)
    requires |a| == |r| == |b|
    ensures Distance(a, b) <= Distance(r, a) + Distance(r, b)
  {
    hide Add;
    if a != [] {
      DistanceTriangle(a[1..], r[1..], b[1..]);
      AddLaws(a[0], b[0], 0);
      AddLaws(r[0], a[0], 0);
      AddLaws(r[0], b[0], 0);
      assert Sum(a, b)[1..] == Sum(a[1..], b[1..]);
      assert Sum(r, a)[1..] == Sum(r[1..], a[1..]);
      assert Sum(r, b)[1..] == Sum(r[1..], b[1..]);
    }
  }

  /** A block read with at most half as many wrong codewords as it has error correction
      codewords can only come from one block, the one that was encoded. */
  lemma ErrorsAreCorrectable(data: seq<Byte>, degree: nat, read: seq<Byte>, other: seq<Byte>)
    requires degree >= 1 && |data| + degree <= 255
    requires |read| == |other| == |data| + degree && IsCodeword(other, degree)
    requires 2 * Distance(read, data + Remainder(data, degree)) <= degree
    requires 2 * Distance(read, other) <= degree
    ensures other == data + Remainder(data, degree)
  {
    hide Remainder, Weight, Sum;
    var sent := data + Remainder(data, degree);
    RemainderGivesCodeword(data, degree);
    DistanceTriangle(sent, read, other);
    if other != sent {
      CodewordsAreApart(sent, other, degree);
    }
  }
}
