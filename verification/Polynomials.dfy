/** Polynomials over GF(2), division by the generator x^16 + x^12 + x^5 + 1 of ITU-T V.41, and
    the shift register that carries it out. */
module Polynomials {

  /** Coefficients, the highest power first. */
  type Poly = seq<bool>

  const DEGREE := 16

  function Zeros(n: nat): (z: Poly)
    ensures |z| == n && forall i :: 0 <= i < n ==> !z[i]
  {
    seq(n, _ => false)
  }

  function Xor(a: Poly, b: Poly): (c: Poly)
    requires |a| == |b|
    ensures |c| == |a| && forall i :: 0 <= i < |a| ==> c[i] == (a[i] != b[i])
  {
    seq(|a|, i requires 0 <= i < |a| == |b| => a[i] != b[i])
  }

  /** The generator without its highest power. */
  function Low(): (p: Poly)
    ensures |p| == DEGREE && p[15]
  {
    [false, false, false, true, false, false, false, false, false, false, true, false, false, false, false, true]
  }

  function Generator(): Poly { [true] + Low() }

  /** The generator times the last coefficient of a polynomial of n + 1 coefficients. */
  function Summand(n: nat, b: bool): (p: Poly)
    ensures |p| == n + 1 + DEGREE
  {
    if b then Zeros(n) + Generator() else Zeros(n + 1 + DEGREE)
  }

  /** The product q * generator, by the last coefficient of q. */
  function Product(q: Poly): (p: Poly)
    ensures |p| == |q| + DEGREE
  {
    if q == [] then Zeros(DEGREE)
    else
      var n := |q| - 1;
      Xor(Product(q[..n]) + [false], Summand(n, q[n]))
  }

  /** Division with remainder: p == q * generator + r. */
  predicate Divides(p: Poly, q: Poly, r: Poly) {
    && |r| == DEGREE && |p| == |q| + DEGREE
    && p == Xor(Product(q), Zeros(|q|) + r)
  }

  ghost predicate IsRemainder(p: Poly, r: Poly) {
    exists q :: Divides(p, q, r)
  }

  // The shift register.

  function Step(r: Poly, b: bool): (next: Poly)
    requires |r| == DEGREE
    ensures |next| == DEGREE
  {
    if r[0] then Xor(r[1..] + [b], Low()) else r[1..] + [b]
  }

  function Run(r: Poly, bits: Poly): (next: Poly)
    requires |r| == DEGREE
    ensures |next| == DEGREE
  {
    if bits == [] then r else Step(Run(r, bits[..|bits| - 1]), bits[|bits| - 1])
  }

  /** The bits shifted out on the way are the quotient. */
  function Shifted(r: Poly, bits: Poly): (q: Poly)
    requires |r| == DEGREE
    ensures |q| == |bits|
  {
    if bits == [] then []
    else Shifted(r, bits[..|bits| - 1]) + [Run(r, bits[..|bits| - 1])[0]]
  }

  lemma StepDivides(p: Poly, q: Poly, r: Poly, b: bool)
    requires Divides(p, q, r)
    ensures Divides(p + [b], q + [r[0]], Step(r, b))
  {
    var n := |q|;
    var q', r' := q + [r[0]], Step(r, b);
    assert q'[..n] == q && q'[n] == r[0];
    var left, right := p + [b], Xor(Product(q'), Zeros(n + 1) + r');
    forall i | 0 <= i < n + 1 + DEGREE
      ensures left[i] == right[i]
    {
      if i < n {
      } else if i == n {
      } else {
        assert r'[i - n - 1] == ((r + [b])[i - n] != (r[0] && Low()[i - n - 1]));
      }
    }
    assert left == right;
  }

  /** Running the register divides: the start value, as the highest coefficients, and the bits
      that go in are what is divided, and the register holds the remainder. */
  lemma {:induction false} RunDivides(r: Poly, bits: Poly)
    requires |r| == DEGREE
    ensures Divides(r + bits, Shifted(r, bits), Run(r, bits))
  {
    if bits == [] {
      NothingDivides(r);
    } else {
      var n := |bits| - 1;
      RunDivides(r, bits[..n]);
      StepDivides(r + bits[..n], Shifted(r, bits[..n]), Run(r, bits[..n]), bits[n]);
      LastOff(r, bits);
    }
  }

  lemma NothingDivides(r: Poly)
    requires |r| == DEGREE
    ensures Divides(r + [], [], r)
  {
    assert r + [] == Xor(Zeros(DEGREE), Zeros(0) + r);
  }

  lemma LastOff(r: Poly, bits: Poly)
    requires bits != []
    ensures r + bits == r + bits[..|bits| - 1] + [bits[|bits| - 1]]
  {
  }

  // Remainders are unique.

  lemma {:induction false} ProductXor(a: Poly, b: Poly)
    requires |a| == |b|
    ensures Product(Xor(a, b)) == Xor(Product(a), Product(b))
  {
    if a != [] {
      var n := |a| - 1;
      ProductXor(a[..n], b[..n]);
      assert Xor(a, b)[..n] == Xor(a[..n], b[..n]);
      ProductXorStep(a, b, n);
    }
  }

  lemma ProductXorStep(a: Poly, b: Poly, n: nat)
    requires |a| == |b| == n + 1
    requires Product(Xor(a[..n], b[..n])) == Xor(Product(a[..n]), Product(b[..n]))
    requires Xor(a, b)[..n] == Xor(a[..n], b[..n])
    ensures Product(Xor(a, b)) == Xor(Product(a), Product(b))
  {
    var pa, pb := Product(a[..n]) + [false], Product(b[..n]) + [false];
    var sa, sb := Summand(n, a[n]), Summand(n, b[n]);
    SummandXor(n, a[n], b[n]);
    XorLast(Product(a[..n]), Product(b[..n]));
    XorSwap(pa, pb, sa, sb);
  }

  lemma SummandXor(n: nat, a: bool, b: bool)
    ensures Summand(n, a != b) == Xor(Summand(n, a), Summand(n, b))
  {
  }

  lemma XorLast(a: Poly, b: Poly)
    requires |a| == |b|
    ensures Xor(a, b) + [false] == Xor(a + [false], b + [false])
  {
  }

  lemma XorSwap(a: Poly, b: Poly, c: Poly, d: Poly)
    requires |a| == |b| == |c| == |d|
    ensures Xor(Xor(a, b), Xor(c, d)) == Xor(Xor(a, c), Xor(b, d))
  {
  }

  /** A multiple of the generator of degree below 16 is zero: its leading coefficients are those
      of the factor, one after the other. */
  lemma {:induction false} SmallMultiple(q: Poly)
    requires forall i :: 0 <= i < |q| ==> !Product(q)[i]
    ensures q == Zeros(|q|) && Product(q) == Zeros(|q| + DEGREE)
  {
    if q != [] {
      var n := |q| - 1;
      var p := Product(q[..n]) + [false];
      assert Product(q) == Xor(p, Summand(n, q[n]));
      assert forall i :: 0 <= i < n ==> p[i] == Product(q)[i];
      assert forall i :: 0 <= i < n ==> Product(q[..n])[i] == p[i];
      SmallMultiple(q[..n]);
      assert Summand(n, q[n])[n] == q[n];
      assert q == q[..n] + [q[n]];
    }
  }

  lemma XorIsZero(a: Poly, b: Poly)
    requires |a| == |b|
    ensures Xor(a, b) == Zeros(|a|) <==> a == b
  {
    assert forall i :: 0 <= i < |a| ==> Xor(a, b)[i] == (a[i] != b[i]);
  }

  lemma DividesXor(p: Poly, q: Poly, r: Poly, p': Poly, q': Poly, r': Poly)
    requires |p| == |p'| && Divides(p, q, r) && Divides(p', q', r')
    ensures Divides(Xor(p, p'), Xor(q, q'), Xor(r, r'))
  {
    var n := |q|;
    ProductXor(q, q');
    XorSwap(Product(q), Zeros(n) + r, Product(q'), Zeros(n) + r');
    XorSwap(Product(q), Product(q'), Zeros(n) + r, Zeros(n) + r');
    assert Xor(Zeros(n) + r, Zeros(n) + r') == Zeros(n) + Xor(r, r');
  }

  /** Quotient and remainder are determined by the dividend. */
  lemma RemainderUnique(p: Poly, q: Poly, r: Poly, q': Poly, r': Poly)
    requires Divides(p, q, r) && Divides(p, q', r')
    ensures q == q' && r == r'
  {
    var n := |q|;
    DividesXor(p, q, r, p, q', r');
    XorIsZero(p, p);
    var d, e := Xor(q, q'), Xor(r, r');
    assert Zeros(n + DEGREE) == Xor(Product(d), Zeros(n) + e);
    XorIsZero(Product(d), Zeros(n) + e);
    assert Product(d) == Zeros(n) + e;
    SmallMultiple(d);
    XorIsZero(q, q');
    assert e == Zeros(DEGREE) by {
      assert forall i :: 0 <= i < DEGREE ==> (Zeros(n) + e)[n + i] == e[i];
    }
    XorIsZero(r, r');
  }
}
