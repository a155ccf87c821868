/** The Reed-Solomon code of a QR symbol: the multiplication tables, the generator
    polynomial and the error correction codewords computed by polynomial division. */
module ReedSolomon {
  import opened GaloisField

  /** A byte as an index of a table. */
  function Index(b: Byte): (i: nat)
    ensures i < 256
  {
    b as int
  }

  function LowByte(x: bv16): Byte
    requires x < 256
  {
    x as bv8
  }

  /** The exponent and logarithm tables, filled once when the encoder is loaded. */
  class Tables {
    const exp: seq<Byte>
    const log: seq<nat>

    ghost predicate Valid() {
      && |exp| == 512 && |log| == 256
      && (forall i :: 0 <= i < 512 ==> exp[i] == Power(i))
      && (forall k :: 0 <= k < 255 ==> log[Index(Power(k))] == k)
    }

    constructor ()
      ensures Valid()
    {
      hide TimesX, Power, Index, LowByte;
      OneIsLowByte();
      var powers: seq<Byte> := [];
      var logs: seq<nat> := seq(256, _ => 0);
      var x: bv16 := 1;
      PowerZero();
      for i := 0 to 255
        invariant |powers| == i && |logs| == 256
        invariant forall k :: 0 <= k < i ==> powers[k] == Power(k)
        invariant x < 256 && LowByte(x) == Power(i)
        invariant forall k :: 0 <= k < i ==> logs[Index(Power(k))] == k
      {
        PowersIndex(i);
        powers := powers + [LowByte(x)];
        logs := logs[Index(LowByte(x)) := i];
        NextPower(i);
        x := DoubleAndReduce(x);
      }
      for i := 255 to 512
        invariant |powers| == i
        invariant forall k :: 0 <= k < i ==> powers[k] == Power(k)
      {
        PowerPeriod(i - 255);
        powers := powers + [powers[i - 255]];
      }
      exp, log := powers, logs;
    }

    /** `EXP[i] ?? 0`: past the end of the table a power reads as zero. */
    function Exp(i: nat): Byte { if i < |exp| then exp[i] else 0 }

    /** The product read from the tables is the product of the field. */
    function Multiply(a: Byte, b: Byte): (r: Byte)
      requires Valid()
      ensures r == Product(a, b)
    {
      ProductUnits(a, b);
      if a == 0 || b == 0 then 0
      else
        Generates(a);
        Generates(b);
        ProductOfPowers(log[Index(a)], log[Index(b)]);
        Exp(log[Index(a)] + log[Index(b)])
    }
  }

  lemma DistinctIndices(a: Byte, b: Byte)
    requires a != b
    ensures Index(a) != Index(b)
  {
    assert (a as int) as bv8 == a;
  }

  lemma OneIsLowByte()
    ensures LowByte(1) == 1
  {}

  lemma PowersIndex(i: nat)
    requires i < 255
    ensures forall k :: 0 <= k < i ==> Index(Power(k)) != Index(Power(i))
  {
    hide Power, Index;
    forall k | 0 <= k < i ensures Index(Power(k)) != Index(Power(i)) {
      PowersDistinct(k, i);
      DistinctIndices(Power(k), Power(i));
    }
  }

  lemma NextPower(i: nat)
    ensures Power(i + 1) == TimesX(Power(i))
  {
    hide TimesX;
  }

  /** One step of the table loop: double, and take 0x11d off when bit 8 comes out. */
  method DoubleAndReduce(x: bv16) returns (y: bv16)
    requires x < 256
    ensures y < 256 && LowByte(y) == TimesX(LowByte(x))
  {
    y := x << 1;
    if y & 0x100 != 0 {
      y := y ^ 0x11d;
    }
  }

  // ----- polynomials, coefficients from the highest degree down -----

  function Eval(p: seq<Byte>, x: Byte): Byte {
    if p == [] then 0 else Add(Product(Eval(p[..|p| - 1], x), x), p[|p| - 1])
  }

  function Sum(p: seq<Byte>, q: seq<Byte>): (s: seq<Byte>)
    requires |p| == |q|
  {
    seq(|p|, i requires 0 <= i < |p| => Add(p[i], q[i]))
  }

  function Scale(c: Byte, p: seq<Byte>): seq<Byte> {
    seq(|p|, i requires 0 <= i < |p| => Product(p[i], c))
  }

  function Zeros(n: nat): seq<Byte> { seq(n, _ => 0) }

  function Pow(x: Byte, n: nat): Byte {
    if n == 0 then 1 else Product(Pow(x, n - 1), x)
  }

  lemma EvalSnoc(p: seq<Byte>, a: Byte, x: Byte)
    ensures Eval(p + [a], x) == Add(Product(Eval(p, x), x), a)
  {
    hide Add, Product;
    assert (p + [a])[..|p|] == p;
  }

  lemma {:induction false} EvalSum(p: seq<Byte>, q: seq<Byte>, x: Byte)
    requires |p| == |q|
    ensures Eval(Sum(p, q), x) == Add(Eval(p, x), Eval(q, x))
  {
    hide Add, Product;
    if p == [] {
      AddLaws(0, 0, 0);
    } else {
      var p', a, q', b := p[..|p| - 1], p[|p| - 1], q[..|q| - 1], q[|q| - 1];
      EvalSum(p', q', x);
      assert Sum(p, q) == Sum(p', q') + [Add(a, b)];
      EvalSnoc(Sum(p', q'), Add(a, b), x);
      ProductDistributes(Eval(p', x), Eval(q', x), x);
      AddSwap(Product(Eval(p', x), x), Product(Eval(q', x), x), a, b);
    }
  }

  lemma {:induction false} EvalScale(c: Byte, p: seq<Byte>, x: Byte)
    ensures Eval(Scale(c, p), x) == Product(Eval(p, x), c)
  {
    hide Add, Product;
    if p == [] {
      ProductByZero(c);
    } else {
      var p', a := p[..|p| - 1], p[|p| - 1];
      var e := Eval(p', x);
      EvalScale(c, p', x);
      assert Scale(c, p) == Scale(c, p') + [Product(a, c)];
      EvalSnoc(Scale(c, p'), Product(a, c), x);
      ProductDistributes(Product(e, x), a, c);
      ProductAssociates(e, c, x);
      ProductAssociates(e, x, c);
      ProductCommutes(c, x);
    }
  }

  lemma {:induction false} EvalConcat(p: seq<Byte>, q: seq<Byte>, x: Byte)
    ensures Eval(p + q, x) == Add(Product(Eval(p, x), Pow(x, |q|)), Eval(q, x))
  {
    hide Add, Product;
    if q == [] {
      assert p + q == p;
      ProductUnits(Eval(p, x), 1);
      AddLaws(Eval(p, x), 0, 0);
    } else {
      var q', a := q[..|q| - 1], q[|q| - 1];
      var e, r, w := Eval(p, x), Eval(q', x), Pow(x, |q'|);
      EvalConcat(p, q', x);
      assert p + q == (p + q') + [a];
      EvalSnoc(p + q', a, x);
      ProductDistributes(Product(e, w), r, x);
      ProductAssociates(e, w, x);
      AddLaws(Product(e, Product(w, x)), Product(r, x), a);
    }
  }

  lemma {:induction false} EvalZeros(n: nat, x: Byte)
    ensures Eval(Zeros(n), x) == 0
  {
    hide Add, Product;
    if n > 0 {
      EvalZeros(n - 1, x);
      assert Zeros(n)[..n - 1] == Zeros(n - 1);
      ProductByZero(x);
      AddLaws(0, 0, 0);
    }
  }

  // ----- the generator polynomial -----

  /** What `EXP[i] ?? 0` is meant to read: the i-th power, and zero past the table. */
  function Root(i: nat): Byte { if i < 512 then Power(i) else 0 }

  /** p times (X + c). */
  function TimesLinear(p: seq<Byte>, c: Byte): seq<Byte> {
    Sum(p + [0], [0] + Scale(c, p))
  }

  function Generator(degree: nat): (g: seq<Byte>)
    ensures |g| == degree + 1
  {
    if degree == 0 then [1] else TimesLinear(Generator(degree - 1), Root(degree - 1))
  }

  /** The product of (x + Root(i)) over i < degree. */
  function Factors(degree: nat, x: Byte): Byte {
    if degree == 0 then 1 else Product(Factors(degree - 1, x), Add(x, Root(degree - 1)))
  }

  lemma EvalTimesLinear(p: seq<Byte>, c: Byte, x: Byte)
    ensures Eval(TimesLinear(p, c), x) == Product(Eval(p, x), Add(x, c))
  {
    hide Add, Product;
    var e := Eval(p, x);
    EvalSum(p + [0], [0] + Scale(c, p), x);
    EvalSnoc(p, 0, x);
    AddLaws(Product(e, x), 0, 0);
    EvalConcat([0], Scale(c, p), x);
    EvalZeros(1, x);
    assert [0] == Zeros(1);
    ProductByZero(Pow(x, |p|));
    EvalScale(c, p, x);
    AddLaws(Product(e, c), 0, 0);
    ProductDistributes(e, x, c);
  }

  lemma {:induction false} GeneratorIsFactors(degree: nat, x: Byte)
    ensures Eval(Generator(degree), x) == Factors(degree, x)
    ensures Generator(degree)[0] == 1
  {
    hide Add, Product;
    AddLaws(1, 0, 0);
    if degree == 0 {
      ProductByZero(x);
      EvalSnoc([], 1, x);
      assert Generator(0) == [] + [1];
    } else {
      var g, c := Generator(degree - 1), Root(degree - 1);
      GeneratorIsFactors(degree - 1, x);
      EvalTimesLinear(g, c, x);
      assert TimesLinear(g, c)[0] == Add(g[0], 0);
    }
  }

  lemma {:induction false} FactorsVanish(degree: nat, x: Byte)
    ensures Factors(degree, x) == 0 <==> exists i :: 0 <= i < degree && x == Root(i)
  {
    hide Add, Product, Root;
    if degree == 0 {
      OneIsNotZero();
    } else {
      FactorsVanish(degree - 1, x);
      ProductUnits(Factors(degree - 1, x), Add(x, Root(degree - 1)));
      AddLaws(x, Root(degree - 1), 0);
    }
  }

  lemma OneIsNotZero()
    ensures 1 as Byte != 0
  {}

  /** The generator is monic of its degree and its roots are exactly the ones it was built from. */
  lemma GeneratorRoots(degree: nat, x: Byte)
    ensures |Generator(degree)| == degree + 1 && Generator(degree)[0] == 1
    ensures Eval(Generator(degree), x) == 0 <==> exists i :: 0 <= i < degree && x == Root(i)
  {
    hide Add, Product, Root;
    GeneratorIsFactors(degree, x);
    FactorsVanish(degree, x);
  }

  /** The roots are the powers below the degree, and nothing else, as long as the table of
      powers reaches that far: past its end an entry reads as zero, which is no power. */
  lemma RootsArePowersIff(degree: nat)
    ensures (forall x :: Eval(Generator(degree), x) == 0 <==> exists i :: 0 <= i < degree && x == Power(i))
       <==> degree <= 512
  {
    hide Add, Product, Power, Eval, Generator;
    forall x ensures Eval(Generator(degree), x) == 0 <==> exists i :: 0 <= i < degree && x == Root(i) {
      GeneratorRoots(degree, x);
    }
    if degree <= 512 {
      assert forall i :: 0 <= i < degree ==> Root(i) == Power(i);
    } else {
      assert Root(512) == 0;
      forall i: nat ensures Power(i) != 0 {
        PowerNonzero(i);
      }
      assert Eval(Generator(degree), 0) == 0;
    }
  }

  /** Whatever the degree, the powers below it are roots of the generator. */
  lemma PowersAreRoots(degree: nat, j: nat)
    requires j < degree
    ensures Eval(Generator(degree), Power(j)) == 0
  {
    hide Add, Product;
    GeneratorRoots(degree, Power(j));
    if j < 512 {
      assert Power(j) == Root(j);
    } else {
      PowersRepeat(j % 255, j / 255);
      assert Power(j) == Root(j % 255);
    }
  }

  lemma {:induction false} PowersRepeat(i: nat, q: nat)
    ensures Power(i + 255 * q) == Power(i)
  {
    hide Power;
    if q > 0 {
      PowersRepeat(i, q - 1);
      PowerPeriod(i + 255 * (q - 1));
    }
  }

  lemma ZeroIsNeutral()
    ensures forall a: Byte {:trigger Add(a, 0)} :: Add(a, 0) == a
    ensures forall a: Byte {:trigger Add(0, a)} :: Add(0, a) == a
  {}

  lemma ExpIsRoot(t: Tables, i: nat)
    requires t.Valid()
    ensures t.Exp(i) == Root(i)
  {}

  /** The coefficients of p times (X + c). */
  lemma LinearAt(p: seq<Byte>, c: Byte)
    requires p != []
    ensures |TimesLinear(p, c)| == |p| + 1
    ensures TimesLinear(p, c)[0] == p[0] && TimesLinear(p, c)[|p|] == Product(p[|p| - 1], c)
    ensures forall j :: 0 < j < |p| ==> TimesLinear(p, c)[j] == Add(Product(p[j - 1], c), p[j])
  {
    hide Add, Product;
    ZeroIsNeutral();
    forall j | 0 < j < |p| ensures TimesLinear(p, c)[j] == Add(Product(p[j - 1], c), p[j]) {
      AddLaws(p[j], Product(p[j - 1], c), 0);
    }
  }

  /** The generator polynomial, one linear factor at a time. */
  method GeneratorPolynomial(t: Tables, degree: nat) returns (poly: seq<Byte>)
    requires t.Valid()
    ensures poly == Generator(degree)
  {
    hide Add, Product, Root, TimesLinear, Tables.Valid;
    ZeroIsNeutral();
    poly := [1];
    for i := 0 to degree
      invariant poly == Generator(i)
    {
      ExpIsRoot(t, i);
      LinearAt(poly, Root(i));
      var next := Zeros(|poly| + 1);
      ghost var product := TimesLinear(poly, Root(i));
      for j := 0 to |poly|
        invariant |next| == |poly| + 1
        invariant forall k :: 0 <= k < j ==> next[k] == product[k]
        invariant next[j] == if j == 0 then 0 else Product(poly[j - 1], Root(i))
        invariant forall k :: j < k < |next| ==> next[k] == 0
      {
        next := next[j := Add(next[j], poly[j])];
        next := next[j + 1 := Add(next[j + 1], t.Multiply(poly[j], t.Exp(i)))];
      }
      assert next == product;
      poly := next;
    }
  }

  // ----- error correction codewords -----

  /** One step of the division of the data by the generator `g`. */
  function DivisionStep(rem: seq<Byte>, b: Byte, g: seq<Byte>): seq<Byte>
    requires |g| == |rem| + 1 && rem != []
  {
    Sum(rem[1..] + [0], Scale(Add(b, rem[0]), g[1..]))
  }

  function Remainder(data: seq<Byte>, degree: nat): (r: seq<Byte>)
    requires degree >= 1
    ensures |r| == degree
  {
    if data == [] then Zeros(degree)
    else DivisionStep(Remainder(data[..|data| - 1], degree), data[|data| - 1], Generator(degree))
  }

  /** A word of the code: its polynomial vanishes at the first `degree` powers of x. */
  ghost predicate IsCodeword(word: seq<Byte>, degree: nat) {
    forall j :: 0 <= j < degree ==> Eval(word, Power(j)) == 0
  }

  lemma EvalOne(a: Byte, x: Byte)
    ensures Eval([a], x) == a
  {
    hide Add, Product;
    EvalSnoc([], a, x);
    assert [] + [a] == [a];
    ProductByZero(x);
    AddLaws(a, 0, 0);
  }

  /** A word by its first coefficient, and the word without it shifted by one place. */
  lemma HeadAndTail(p: seq<Byte>, x: Byte)
    requires p != []
    ensures Eval(p, x) == Add(Product(p[0], Pow(x, |p| - 1)), Eval(p[1..], x))
    ensures Eval(p[1..] + [0], x) == Product(Eval(p[1..], x), x)
  {
    hide Add, Product, Eval;
    assert p == [p[0]] + p[1..];
    EvalConcat([p[0]], p[1..], x);
    EvalOne(p[0], x);
    EvalSnoc(p[1..], 0, x);
    AddLaws(Product(Eval(p[1..], x), x), 0, 0);
  }

  /** At a root, a generator without its leading one is x^degree. */
  lemma MonicTail(g: seq<Byte>, x: Byte)
    requires g != [] && g[0] == 1 && Eval(g, x) == 0
    ensures Eval(g[1..], x) == Pow(x, |g| - 1)
  {
    hide Add, Product, Eval;
    var w := Pow(x, |g| - 1);
    HeadAndTail(g, x);
    ProductUnits(w, 0);
    AddLaws(w, Eval(g[1..], x), 0);
  }

  /** e x + (b + a) w is (a w' + e) x + b w, where w is w' x. */
  lemma StepAlgebra(a: Byte, b: Byte, e: Byte, w': Byte, x: Byte)
    ensures var w := Product(w', x);
            Add(Product(e, x), Product(w, Add(b, a))) == Add(Product(Add(Product(a, w'), e), x), Product(b, w))
  {
    hide Add, Product;
    var w := Product(w', x);
    var bw, aw, ex := Product(b, w), Product(a, w), Product(e, x);
    ProductCommutes(w, Add(b, a));
    ProductDistributes(b, a, w);
    ProductDistributes(Product(a, w'), e, x);
    ProductAssociates(a, w', x);
    AddLaws(bw, aw, 0);
    AddLaws(ex, aw, bw);
    AddLaws(aw, ex, bw);
  }

  lemma DivisionStepAt(rem: seq<Byte>, b: Byte, g: seq<Byte>, x: Byte)
    requires |g| == |rem| + 1 && rem != [] && g[0] == 1
    requires Eval(g, x) == 0
    ensures Eval(DivisionStep(rem, b, g), x) == Add(Product(Eval(rem, x), x), Product(b, Pow(x, |rem|)))
  {
    hide Add, Product, Eval, Sum, Scale;
    assert Pow(x, |rem|) == Product(Pow(x, |rem| - 1), x);
    hide Pow;
    HeadAndTail(rem, x);
    MonicTail(g, x);
    var factor := Add(b, rem[0]);
    EvalScale(factor, g[1..], x);
    assert |Scale(factor, g[1..])| == |rem| by { ScaleSize(factor, g[1..]); }
    EvalSum(rem[1..] + [0], Scale(factor, g[1..]), x);
    StepAlgebra(rem[0], b, Eval(rem[1..], x), Pow(x, |rem| - 1), x);
  }

  lemma ScaleSize(c: Byte, p: seq<Byte>)
    ensures |Scale(c, p)| == |p|
  {}

  /** At a root of the generator the remainder is the data times x^degree. */
  lemma {:induction false} RemainderEval(data: seq<Byte>, degree: nat, x: Byte)
    requires degree >= 1 && Eval(Generator(degree), x) == 0
    ensures Eval(Remainder(data, degree), x) == Product(Eval(data, x), Pow(x, degree))
  {
    hide Add, Product, Generator, Pow;
    if data == [] {
      EvalZeros(degree, x);
      ProductByZero(Pow(x, degree));
    } else {
      var data', b := data[..|data| - 1], data[|data| - 1];
      RemainderEval(data', degree, x);
      GeneratorRoots(degree, x);
      DivisionStepAt(Remainder(data', degree), b, Generator(degree), x);
      MoveFactor(Eval(data', x), Pow(x, degree), x, b);
    }
  }

  lemma RemainderAt(data: seq<Byte>, degree: nat, x: Byte)
    requires degree >= 1 && Eval(Generator(degree), x) == 0
    ensures Eval(data + Remainder(data, degree), x) == 0
  {
    hide Add, Product, Generator, Pow, Eval;
    EvalConcat(data, Remainder(data, degree), x);
    RemainderEval(data, degree, x);
    AddLaws(Eval(Remainder(data, degree), x), 0, 0);
  }

  lemma MoveFactor(e: Byte, w: Byte, x: Byte, b: Byte)
    ensures Product(Add(Product(e, x), b), w) == Add(Product(Product(e, w), x), Product(b, w))
  {
    hide Add, Product;
    ProductDistributes(Product(e, x), b, w);
    ProductAssociates(e, x, w);
    ProductAssociates(e, w, x);
    ProductCommutes(x, w);
  }

  /** The data followed by its error correction codewords is a word of the code,
      whatever the data and whatever the degree. */
  lemma RemainderGivesCodeword(data: seq<Byte>, degree: nat)
    requires degree >= 1
    ensures IsCodeword(data + Remainder(data, degree), degree)
  {
    hide Eval, Generator, Remainder, Power;
    forall j | 0 <= j < degree ensures Eval(data + Remainder(data, degree), Power(j)) == 0 {
      PowersAreRoots(degree, j);
      RemainderAt(data, degree, Power(j));
    }
  }

  /** The error correction codewords of a block, by a shift register over `remainder`. */
  method ErrorCorrection(t: Tables, data: seq<Byte>, degree: nat) returns (remainder: seq<Byte>)
    requires t.Valid() && degree >= 1
    ensures remainder == Remainder(data, degree)
    ensures |remainder| == degree && IsCodeword(data + remainder, degree)
  {
    hide Add, Product, Power;
    var generator := GeneratorPolynomial(t, degree);
    remainder := Zeros(degree);
    for n := 0 to |data|
      invariant remainder == Remainder(data[..n], degree)
    {
      var factor := Add(data[n], remainder[0]);
      ghost var previous := remainder;
      remainder := remainder[1..] + [0];
      ghost var shifted := remainder;
      ghost var next := DivisionStep(previous, data[n], generator);
      for i := 0 to degree
        invariant |remainder| == degree
        invariant forall k :: 0 <= k < i ==> remainder[k] == next[k]
        invariant forall k :: i <= k < degree ==> remainder[k] == shifted[k]
      {
        remainder := remainder[i := Add(remainder[i], t.Multiply(generator[i + 1], factor))];
      }
      assert remainder == next;
      assert data[..n + 1][..n] == data[..n];
    }
    assert data[..|data|] == data;
    RemainderGivesCodeword(data, degree);
  }

  // ----- the code determines the error correction codewords -----

  /** The quotient of p by (X + c): the values Horner's scheme goes through. */
  function Quotient(p: seq<Byte>, c: Byte): (q: seq<Byte>)
    requires p != []
    ensures |q| == |p| - 1
  {
    if |p| == 1 then [] else Quotient(p[..|p| - 1], c) + [Eval(p[..|p| - 1], c)]
  }

  lemma {:induction false} DivideByLinear(p: seq<Byte>, c: Byte, x: Byte)
    requires p != []
    ensures Eval(p, x) == Add(Product(Eval(Quotient(p, c), x), Add(x, c)), Eval(p, c))
  {
    hide Add, Product;
    var p', a := p[..|p| - 1], p[|p| - 1];
    assert p == p' + [a];
    if p' == [] {
      EvalOne(a, x);
      EvalOne(a, c);
      ProductByZero(Add(x, c));
      AddLaws(a, 0, 0);
    } else {
      DivideByLinear(p', c, x);
      var q, e, l := Eval(Quotient(p', c), x), Eval(p', c), Add(x, c);
      // p = p' x + a = (q l + e) x + a, and the claim is (q x + e) l + e c + a
      EvalSnoc(Quotient(p', c), e, x);
      var qxl, ex, ec := Product(Product(q, x), l), Product(e, x), Product(e, c);
      ProductDistributes(Product(q, l), e, x);
      ProductAssociates(q, l, x);
      ProductAssociates(q, x, l);
      ProductCommutes(l, x);
      assert Product(Eval(p', x), x) == Add(qxl, ex);
      ProductDistributes(Product(q, x), e, l);
      ProductDistributes(e, x, c);
      assert Product(Eval(Quotient(p, c), x), l) == Add(qxl, Add(ex, ec));
      CancelTwice(qxl, ex, ec, a);
    }
  }

  lemma CancelTwice(u: Byte, v: Byte, w: Byte, a: Byte)
    ensures Add(Add(u, Add(v, w)), Add(w, a)) == Add(Add(u, v), a)
  {
    hide Add;
    AddLaws(u, v, w);
    AddLaws(Add(u, v), w, Add(w, a));
    AddLaws(w, w, a);
    AddLaws(a, 0, 0);
  }

  lemma {:induction false} ZeroQuotient(p: seq<Byte>, c: Byte)
    requires p != [] && Eval(p, c) == 0 && Quotient(p, c) == Zeros(|p| - 1)
    ensures p == Zeros(|p|)
  {
    hide Add, Product;
    var p', a := p[..|p| - 1], p[|p| - 1];
    ProductByZero(c);
    AddLaws(a, 0, 0);
    assert p == p' + [a];
    if p' != [] {
      assert Eval(p', c) == Quotient(p, c)[|p'| - 1] == 0;
      assert Quotient(p', c) == Quotient(p, c)[..|p'| - 1] == Zeros(|p'| - 1);
      ZeroQuotient(p', c);
    } else {
      EvalOne(a, c);
      assert p == [a];
    }
  }

  /** A polynomial of fewer coefficients than it has roots among the powers is zero. */
  lemma {:induction false} FewCoefficientsManyRoots(p: seq<Byte>)
    requires |p| <= 255
    requires IsCodeword(p, |p|)
    ensures p == Zeros(|p|)
    decreases |p|
  {
    hide Add, Product, Power;
    if p != [] {
      var m := |p| - 1;
      var c := Power(m);
      var q := Quotient(p, c);
      forall j | 0 <= j < m ensures Eval(q, Power(j)) == 0 {
        DivideByLinear(p, c, Power(j));
        PowersDistinct(j, m);
        AddLaws(Power(j), c, 0);
        AddLaws(Product(Eval(q, Power(j)), Add(Power(j), c)), 0, 0);
        ProductUnits(Eval(q, Power(j)), Add(Power(j), c));
      }
      FewCoefficientsManyRoots(q);
      ZeroQuotient(p, c);
    }
  }

  /** There is only one way to complete the data into a word of the code, so the
      codewords computed are the ones the standard defines. */
  lemma CodewordIsUnique(data: seq<Byte>, r: seq<Byte>, s: seq<Byte>)
    requires |r| == |s| <= 255
    requires IsCodeword(data + r, |r|) && IsCodeword(data + s, |r|)
    ensures r == s
  {
    hide Add, Product, Power;
    var d := Sum(r, s);
    forall j | 0 <= j < |r| ensures Eval(d, Power(j)) == 0 {
      var x := Power(j);
      EvalConcat(data, r, x);
      EvalConcat(data, s, x);
      EvalSum(r, s, x);
      var w := Product(Eval(data, x), Pow(x, |r|));
      AddLaws(w, Eval(r, x), 0);
      AddLaws(w, Eval(s, x), 0);
      AddLaws(w, w, 0);
    }
    FewCoefficientsManyRoots(d);
    forall k | 0 <= k < |r| ensures r[k] == s[k] {
      assert d[k] == Add(r[k], s[k]) == 0;
      AddLaws(r[k], s[k], 0);
    }
  }

  /** A received block is accepted by its syndromes exactly when its last `degree`
      codewords are the ones this encoder computes for its data. */
  lemma SyndromesCharacterize(data: seq<Byte>, tail: seq<Byte>)
    requires 1 <= |tail| <= 255
    ensures IsCodeword(data + tail, |tail|) <==> tail == Remainder(data, |tail|)
  {
    RemainderGivesCodeword(data, |tail|);
    if IsCodeword(data + tail, |tail|) {
      CodewordIsUnique(data, tail, Remainder(data, |tail|));
    }
  }
}
