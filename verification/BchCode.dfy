/** The two binary codes of a symbol, for its format and for its version. Words are
    sequences of bits, the most significant first; a word is read as a polynomial over
    the two-element field. */
module BchCode {

  function Xor(a: seq<bool>, b: seq<bool>): (c: seq<bool>)
    requires |a| == |b|
    ensures |c| == |a|
  {
    seq(|a|, i requires 0 <= i < |a| => a[i] != b[i])
  }

  function Zeros(n: nat): seq<bool> { seq(n, _ => false) }

  /** The generator moved so that its leading bit is at place `k` of a word of `n` bits. */
  function At(g: seq<bool>, k: nat, n: nat): (w: seq<bool>)
    requires k + |g| <= n
    ensures |w| == n
  {
    Zeros(k) + g + Zeros(n - k - |g|)
  }

  /** Long division: clear the first `k` bits in turn, adding the generator under each one. */
  function Divide(w: seq<bool>, g: seq<bool>, k: nat): (r: seq<bool>)
    requires g != [] && g[0] && k + |g| <= |w| + 1
    ensures |r| == |w| && forall i :: 0 <= i < k ==> !r[i]
  {
    if k == 0 then w
    else
      var r := Divide(w, g, k - 1);
      if r[k - 1] then Xor(r, At(g, k - 1, |w|)) else r
  }

  lemma {:induction false} DivideLinear(a: seq<bool>, b: seq<bool>, g: seq<bool>, k: nat)
    requires |a| == |b| && g != [] && g[0] && k + |g| <= |a| + 1
    ensures Divide(Xor(a, b), g, k) == Xor(Divide(a, g, k), Divide(b, g, k))
  {
    if k > 0 {
      DivideLinear(a, b, g, k - 1);
    }
  }

  lemma {:induction false} DivideShort(w: seq<bool>, g: seq<bool>, k: nat)
    requires g != [] && g[0] && k + |g| <= |w| + 1
    requires forall i :: 0 <= i < k ==> !w[i]
    ensures Divide(w, g, k) == w
  {
    if k > 0 {
      DivideShort(w, g, k - 1);
    }
  }

  /** The word of the code for some data: the data, then the remainder of the data shifted up. */
  function Encode(data: seq<bool>, g: seq<bool>): (w: seq<bool>)
    requires g != [] && g[0]
    ensures |w| == |data| + |g| - 1 && w[..|data|] == data
  {
    data + Divide(data + Zeros(|g| - 1), g, |data|)[|data|..]
  }

  /** A word is in the code when the generator divides it. */
  predicate InCode(w: seq<bool>, g: seq<bool>)
    requires g != [] && g[0] && |g| <= |w| + 1
  {
    Divide(w, g, |w| + 1 - |g|) == Zeros(|w|)
  }

  lemma XorZero(a: seq<bool>, b: seq<bool>)
    requires |a| == |b|
    ensures Xor(a, b) == Zeros(|a|) <==> a == b
  {
    if Xor(a, b) == Zeros(|a|) {
      forall i | 0 <= i < |a| ensures a[i] == b[i] {
        assert Xor(a, b)[i] == Zeros(|a|)[i];
      }
    }
  }

  lemma XorParts(data: seq<bool>, tail: seq<bool>)
    returns (high: seq<bool>, low: seq<bool>)
    ensures high == data + Zeros(|tail|) && low == Zeros(|data|) + tail && |high| == |low| == |data| + |tail|
    ensures forall i :: 0 <= i < |data| ==> !low[i]
    ensures Xor(high, low) == data + tail
  {
    high, low := data + Zeros(|tail|), Zeros(|data|) + tail;
  }

  lemma DivideSum(high: seq<bool>, low: seq<bool>, g: seq<bool>, k: nat)
    requires |high| == |low| && g != [] && g[0] && k + |g| <= |high| + 1
    requires forall i :: 0 <= i < k ==> !low[i]
    ensures Divide(Xor(high, low), g, k) == Xor(Divide(high, g, k), low)
  {
    hide Divide, Xor;
    DivideLinear(high, low, g, k);
    DivideShort(low, g, k);
  }

  /** What begins with k zeros is told by the rest. */
  lemma SameAfterZeros(r: seq<bool>, tail: seq<bool>, k: nat)
    requires |r| == k + |tail| && forall i :: 0 <= i < k ==> !r[i]
    ensures r == Zeros(k) + tail <==> r[k..] == tail
  {
    assert r == r[..k] + r[k..];
    assert r[..k] == Zeros(k);
  }

  /** `Encode` gives a word of the code, and the only one that begins with the data. */
  lemma EncodeIsTheCodeword(data: seq<bool>, g: seq<bool>, w: seq<bool>)
    requires g != [] && g[0]
    requires |w| == |data| + |g| - 1 && w[..|data|] == data
    ensures InCode(w, g) <==> w == Encode(data, g)
  {
    hide Divide, Xor;
    var tail := w[|data|..];
    assert w == data + tail;
    CodeOfParts(data, tail, g);
  }

  lemma CodeOfParts(data: seq<bool>, tail: seq<bool>, g: seq<bool>)
    requires g != [] && g[0] && |tail| == |g| - 1
    ensures InCode(data + tail, g) <==> data + tail == Encode(data, g)
  {
    hide Divide, Xor;
    var high, low := XorParts(data, tail);
    DivideSum(high, low, g, |data|);
    var r := Divide(high, g, |data|);
    XorZero(r, low);
    SameAfterZeros(r, tail, |data|);
    SameAfter(data, tail, r[|data|..]);
  }

  lemma SameAfter(data: seq<bool>, a: seq<bool>, b: seq<bool>)
    ensures data + a == data + b <==> a == b
  {
    if data + a == data + b {
      assert a == (data + a)[|data|..] && b == (data + b)[|data|..];
    }
  }

  // ----- a shift register does the same division -----

  /** One step of the register: shift left, and add the generator when a bit comes out. */
  function RegisterStep(r: seq<bool>, g: seq<bool>): (s: seq<bool>)
    requires |g| == |r| + 1 && r != []
    ensures |s| == |r|
  {
    var shifted := r[1..] + [false];
    if r[0] then Xor(shifted, g[1..]) else shifted
  }

  function Register(r: seq<bool>, g: seq<bool>, steps: nat): (s: seq<bool>)
    requires |g| == |r| + 1 && r != []
    ensures |s| == |r|
  {
    if steps == 0 then r else RegisterStep(Register(r, g, steps - 1), g)
  }

  /** One step of the division, seen through the window of the register. */
  lemma WindowStep(r: seq<bool>, g: seq<bool>, m: nat, k: nat)
    requires |g| == m + 1 && m >= 1 && g[0]
    requires k >= 1 && k + m <= |r| && forall i :: k - 1 + m <= i < |r| ==> !r[i]
    ensures var next := if r[k - 1] then Xor(r, At(g, k - 1, |r|)) else r;
            && next[k..k + m] == RegisterStep(r[k - 1..k - 1 + m], g)
            && forall i :: k + m <= i < |r| ==> !next[i]
  {
    hide At;
    var s := r[k - 1..k - 1 + m];
    assert s[0] == r[k - 1] && s[1..] == r[k..k - 1 + m];
    assert r[k..k + m] == s[1..] + [false];
    if r[k - 1] {
      AtWindow(g, m, k - 1, |r|);
      XorWindow(r, At(g, k - 1, |r|), k, k + m);
    }
  }

  /** The generator without its leading bit, in the window that follows that bit. */
  lemma AtWindow(g: seq<bool>, m: nat, z: nat, n: nat)
    requires |g| == m + 1 && z + 1 + m <= n
    ensures At(g, z, n)[z + 1..z + 1 + m] == g[1..]
    ensures forall i :: z + 1 + m <= i < n ==> !At(g, z, n)[i]
  {}

  lemma XorWindow(a: seq<bool>, b: seq<bool>, i: nat, j: nat)
    requires |a| == |b| && i <= j <= |a|
    ensures Xor(a, b)[i..j] == Xor(a[i..j], b[i..j])
  {}

  /** Nothing is there yet beyond the window that the long division has reached. */
  lemma {:induction false} NothingBeyond(w: seq<bool>, g: seq<bool>, m: nat, k: nat)
    requires |g| == m + 1 && m >= 1 && g[0]
    requires k + m <= |w| && forall i :: m <= i < |w| ==> !w[i]
    ensures forall i :: k + m <= i < |w| ==> !Divide(w, g, k)[i]
  {
    hide Xor, At, RegisterStep;
    if k > 0 {
      NothingBeyond(w, g, m, k - 1);
      WindowStep(Divide(w, g, k - 1), g, m, k);
    }
  }

  /** After k steps the register holds that window. */
  lemma {:induction false} RegisterDivides(w: seq<bool>, g: seq<bool>, m: nat, k: nat)
    requires |g| == m + 1 && m >= 1 && g[0]
    requires k + m <= |w| && forall i :: m <= i < |w| ==> !w[i]
    ensures Divide(w, g, k)[k..k + m] == Register(w[..m], g, k)
  {
    hide Xor, At, RegisterStep;
    if k > 0 {
      RegisterDivides(w, g, m, k - 1);
      NothingBeyond(w, g, m, k - 1);
      WindowStep(Divide(w, g, k - 1), g, m, k);
    }
  }

  lemma XorAfterZeros(z: nat, r: seq<bool>, g: seq<bool>, k: nat)
    requires k + |g| <= |r|
    ensures Xor(Zeros(z) + r, At(g, z + k, z + |r|)) == Zeros(z) + Xor(r, At(g, k, |r|))
  {
    assert At(g, z + k, z + |r|) == Zeros(z) + At(g, k, |r|);
  }

  /** Leading zeros only shift the division. */
  lemma {:induction false} DivideLeadingZeros(w: seq<bool>, g: seq<bool>, z: nat, k: nat)
    requires g != [] && g[0] && k + |g| <= |w| + 1
    ensures Divide(Zeros(z) + w, g, z + k) == Zeros(z) + Divide(w, g, k)
  {
    hide Xor, At;
    if k == 0 {
      DivideShort(Zeros(z) + w, g, z);
    } else {
      DivideLeadingZeros(w, g, z, k - 1);
      var r := Divide(w, g, k - 1);
      assert (Zeros(z) + r)[z + k - 1] == r[k - 1];
      XorAfterZeros(z, r, g, k - 1);
    }
  }

  /** A register of m bits that starts with the data in its low bits ends, m steps
      later, with the check bits of the data. */
  lemma RegisterEncodes(data: seq<bool>, g: seq<bool>, m: nat)
    requires m == |g| - 1 && 1 <= |data| <= m && g[0]
    ensures data + Register(Zeros(m - |data|) + data, g, m) == Encode(data, g)
  {
    var z := m - |data|;
    var high := data + Zeros(m);
    var w := Zeros(z) + high;
    assert w[..m] == Zeros(z) + data;
    RegisterDivides(w, g, m, m);
    DivideLeadingZeros(high, g, z, |data|);
    assert Divide(w, g, m)[m..m + m] == Divide(high, g, |data|)[|data|..];
  }
}
