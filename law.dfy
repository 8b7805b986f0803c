/** The affine twisted Edwards group law that `basicPoint` implements, as pure
    functions on coordinate pairs: the curve `a·x² + y² = 1 + d·x²·y²` over the
    integers modulo a prime `p` (edwards25519 is the case `a = -1`,
    `d = -121665/121666`, section 5.1 of RFC 8032).  The laws proved here are
    the ones the reference implementation relies on without re-checking:
    identity, symmetry, inverse, and the double-and-add recurrence. */
module EdwardsLaw {
  import ModArith
  import Bits

  /** An affine point `(x, y)`. */
  datatype Affine = Affine(x: int, y: int)

  /** The field prime and the two curve coefficients. */
  datatype Coeffs = Coeffs(p: int, a: int, d: int)

  /** The neutral element `(0, 1)`. */
  function Identity(): Affine
  {
    Affine(0, 1)
  }

  /** Both coordinates are residues in `[0, p)`, as ModInt keeps them. */
  predicate Reduced(p: int, P: Affine)
  {
    0 <= P.x < p && 0 <= P.y < p
  }

  function Reduce(p: int, P: Affine): (R: Affine)
    requires p > 0
    ensures Reduced(p, R)
  {
    Affine(P.x % p, P.y % p)
  }

  lemma ReduceReduced(p: int, P: Affine)
    requires p > 0 && Reduced(p, P)
    ensures Reduce(p, P) == P
  {
    ModArith.ModUnique(P.x, p, 0, P.x);
    ModArith.ModUnique(P.y, p, 0, P.y);
  }

  /** The curve equation `a·x² + y² ≡ 1 + d·x²·y² (mod p)`. */
  predicate OnCurve(k: Coeffs, P: Affine)
    requires k.p > 0
  {
    (k.a * P.x * P.x + P.y * P.y) % k.p == (1 + k.d * P.x * P.x * P.y * P.y) % k.p
  }

  /** The unified addition law:
      `x' = (x1·y2 + x2·y1) / (1 + d·x1·x2·y1·y2)`,
      `y' = (y1·y2 − a·x1·x2) / (1 − d·x1·x2·y1·y2)`. */
  function AddLaw(k: Coeffs, P: Affine, Q: Affine): (R: Affine)
    requires k.p > 1
    ensures Reduced(k.p, R)
  {
    var dm := k.d * P.x * Q.x * P.y * Q.y;
    Affine(ModArith.Div(P.x * Q.y + Q.x * P.y, 1 + dm, k.p),
           ModArith.Div(P.y * Q.y - k.a * P.x * Q.x, 1 - dm, k.p))
  }

  /** Negation `(x, y) ↦ (−x, y)`: the new `x` is the additive inverse of the old. */
  function NegLaw(p: int, P: Affine): (R: Affine)
    requires p > 0
    ensures R.y == P.y && 0 <= R.x < p && (R.x + P.x) % p == 0
  {
    ModArith.NegCancels(P.x, p);
    Affine((-P.x) % p, P.y)
  }

  /** Double-and-add: `M(0) = identity`, `M(n) = M(n/2) + M(n/2)`, plus `G` when `n` is odd. */
  function MulLaw(k: Coeffs, G: Affine, n: nat): (R: Affine)
    requires k.p > 1
    ensures Reduced(k.p, R)
  {
    if n == 0 then Identity()
    else
      var H := MulLaw(k, G, n / 2);
      var D := AddLaw(k, H, H);
      if n % 2 == 1 then AddLaw(k, D, G) else D
  }

  // ---------------------------------------------------------------------
  // Identity, symmetry, residues

  lemma IdentityOnCurve(k: Coeffs)
    requires k.p > 0
    ensures OnCurve(k, Identity())
  {
  }

  /** Adding the identity on the left gives the other point, reduced. */
  lemma AddIdentityLeft(k: Coeffs, P: Affine)
    requires k.p > 1
    ensures AddLaw(k, Identity(), P) == Reduce(k.p, P)
  {
    assert k.d * 0 * P.x * 1 * P.y == 0;
    assert 0 * P.y + P.x * 1 == P.x;
    assert 1 * P.y - k.a * 0 * P.x == P.y;
    ModArith.DivByOne(P.x, k.p);
    ModArith.DivByOne(P.y, k.p);
  }

  /** Adding the identity on the right gives the other point, reduced. */
  lemma AddIdentityRight(k: Coeffs, P: Affine)
    requires k.p > 1
    ensures AddLaw(k, P, Identity()) == Reduce(k.p, P)
  {
    AddCommutes(k, P, Identity());
    AddIdentityLeft(k, P);
  }

  /** The addition law is symmetric in its two operands. */
  lemma AddCommutes(k: Coeffs, P: Affine, Q: Affine)
    requires k.p > 1
    ensures AddLaw(k, P, Q) == AddLaw(k, Q, P)
  {
    assert k.d * P.x * Q.x * P.y * Q.y == k.d * Q.x * P.x * Q.y * P.y;
    assert k.a * P.x * Q.x == k.a * Q.x * P.x;
  }

  /** The law only sees the residues of the coordinates. */
  lemma AddResidues(k: Coeffs, P: Affine, Q: Affine)
    requires k.p > 1
    ensures AddLaw(k, P, Q) == AddLaw(k, Reduce(k.p, P), Reduce(k.p, Q))
  {
    var p, a, d := k.p, k.a, k.d;
    var x1, y1, x2, y2 := P.x, P.y, Q.x, Q.y;
    var x1', y1', x2', y2' := x1 % p, y1 % p, x2 % p, y2 % p;
    assert x1 % p == x1' % p && y1 % p == y1' % p && x2 % p == x2' % p && y2 % p == y2' % p by {
      ModArith.ModIdempotent(x1, p);
      ModArith.ModIdempotent(y1, p);
      ModArith.ModIdempotent(x2, p);
      ModArith.ModIdempotent(y2, p);
    }
    var dm, dm' := d * x1 * x2 * y1 * y2, d * x1' * x2' * y1' * y2';
    assert (dm) % p == (dm') % p by {
      ProductCongruent(d, x1, x2, y1, y2, x1', x2', y1', y2', p);
    }
    assert ModArith.Div(x1 * y2 + x2 * y1, 1 + dm, p) == ModArith.Div(x1' * y2' + x2' * y1', 1 + dm', p) by {
      CrossSumCongruent(x1, y2, x2, y1, x1', y2', x2', y1', p);
      ModArith.Congruence(1, 1, dm, dm', p);
      ModArith.DivCongruent(x1 * y2 + x2 * y1, x1' * y2' + x2' * y1', 1 + dm, 1 + dm', p);
    }
    assert ModArith.Div(y1 * y2 - a * x1 * x2, 1 - dm, p) == ModArith.Div(y1' * y2' - a * x1' * x2', 1 - dm', p) by {
      CrossDiffCongruent(a, y1, y2, x1, x2, y1', y2', x1', x2', p);
      ModArith.Congruence(1, 1, dm, dm', p);
      ModArith.DivCongruent(y1 * y2 - a * x1 * x2, y1' * y2' - a * x1' * x2', 1 - dm, 1 - dm', p);
    }
  }

  /** `d·x1·x2·y1·y2` depends on its factors only through their residues. */
  lemma ProductCongruent(d: int, x1: int, x2: int, y1: int, y2: int, x1': int, x2': int, y1': int, y2': int, p: int)
    requires p > 0 && x1 % p == x1' % p && x2 % p == x2' % p && y1 % p == y1' % p && y2 % p == y2' % p
    ensures (d * x1 * x2 * y1 * y2) % p == (d * x1' * x2' * y1' * y2') % p
  {
    var u, u' := d * x1, d * x1';
    assert u % p == u' % p by { ModArith.Congruence(d, d, x1, x1', p); }
    var v, v' := u * x2, u' * x2';
    assert v % p == v' % p by { ModArith.Congruence(u, u', x2, x2', p); }
    var w, w' := v * y1, v' * y1';
    assert w % p == w' % p by { ModArith.Congruence(v, v', y1, y1', p); }
    ModArith.Congruence(w, w', y2, y2', p);
  }

  /** `x1·y2 + x2·y1` depends on its factors only through their residues. */
  lemma CrossSumCongruent(x1: int, y2: int, x2: int, y1: int, x1': int, y2': int, x2': int, y1': int, p: int)
    requires p > 0 && x1 % p == x1' % p && x2 % p == x2' % p && y1 % p == y1' % p && y2 % p == y2' % p
    ensures (x1 * y2 + x2 * y1) % p == (x1' * y2' + x2' * y1') % p
  {
    var u, u' := x1 * y2, x1' * y2';
    var v, v' := x2 * y1, x2' * y1';
    assert u % p == u' % p by { ModArith.Congruence(x1, x1', y2, y2', p); }
    assert v % p == v' % p by { ModArith.Congruence(x2, x2', y1, y1', p); }
    ModArith.Congruence(u, u', v, v', p);
  }

  /** `y1·y2 − a·x1·x2` depends on its factors only through their residues. */
  lemma CrossDiffCongruent(a: int, y1: int, y2: int, x1: int, x2: int, y1': int, y2': int, x1': int, x2': int, p: int)
    requires p > 0 && x1 % p == x1' % p && x2 % p == x2' % p && y1 % p == y1' % p && y2 % p == y2' % p
    ensures (y1 * y2 - a * x1 * x2) % p == (y1' * y2' - a * x1' * x2') % p
  {
    var u, u' := y1 * y2, y1' * y2';
    assert u % p == u' % p by { ModArith.Congruence(y1, y1', y2, y2', p); }
    var v, v' := a * x1, a * x1';
    assert v % p == v' % p by { ModArith.Congruence(a, a, x1, x1', p); }
    var w, w' := v * x2, v' * x2';
    assert w % p == w' % p by { ModArith.Congruence(v, v', x2, x2', p); }
    ModArith.Congruence(u, u', w, w', p);
  }

  // ---------------------------------------------------------------------
  // Negation and the inverse law

  /** Negating twice gives the point back, with `x` reduced. */
  lemma NegInvolutive(p: int, P: Affine)
    requires p > 0
    ensures NegLaw(p, NegLaw(p, P)) == Affine(P.x % p, P.y)
  {
    var n := (-P.x) % p;
    ModArith.ModIdempotent(-P.x, p);
    ModArith.Congruence(0, 0, n, -P.x, p);
    assert (-n) % p == (0 - n) % p == (0 - -P.x) % p == P.x % p;
  }

  /** A point is on the curve exactly when its negation is. */
  lemma NegOnCurve(k: Coeffs, P: Affine)
    requires k.p > 0
    ensures OnCurve(k, NegLaw(k.p, P)) <==> OnCurve(k, P)
  {
    var n := (-P.x) % k.p;
    assert (n * n) % k.p == (P.x * P.x) % k.p by {
      ModArith.ModIdempotent(-P.x, k.p);
      ModArith.Congruence(n, -P.x, n, -P.x, k.p);
      assert (-P.x) * (-P.x) == P.x * P.x;
    }
    OnCurveBySquare(k, n, P.x, P.y);
  }

  /** The curve equation sees `x` only through `x²` modulo `p`. */
  lemma OnCurveBySquare(k: Coeffs, x: int, x': int, y: int)
    requires k.p > 0 && (x * x) % k.p == (x' * x') % k.p
    ensures OnCurve(k, Affine(x, y)) <==> OnCurve(k, Affine(x', y))
  {
    var p := k.p;
    assert (k.a * x * x + y * y) % p == (k.a * x' * x' + y * y) % p by {
      LeftSideBySquare(k.a, x, x', y, p);
    }
    assert (1 + k.d * x * x * y * y) % p == (1 + k.d * x' * x' * y * y) % p by {
      RightSideBySquare(k.d, x, x', y, p);
    }
  }

  lemma LeftSideBySquare(a: int, x: int, x': int, y: int, p: int)
    requires p > 0 && (x * x) % p == (x' * x') % p
    ensures (a * x * x + y * y) % p == (a * x' * x' + y * y) % p
  {
    var xx, xx' := x * x, x' * x';
    assert a * x * x == a * xx && a * x' * x' == a * xx' by {
      ModArith.MulAssoc(a, x, x);
      ModArith.MulAssoc(a, x', x');
    }
    assert (a * xx) % p == (a * xx') % p by { ModArith.Congruence(a, a, xx, xx', p); }
    ModArith.Congruence(a * xx, a * xx', y * y, y * y, p);
  }

  lemma RightSideBySquare(d: int, x: int, x': int, y: int, p: int)
    requires p > 0 && (x * x) % p == (x' * x') % p
    ensures (1 + d * x * x * y * y) % p == (1 + d * x' * x' * y * y) % p
  {
    var xx, xx', yy := x * x, x' * x', y * y;
    assert d * x * x * y * y == (d * xx) * yy && d * x' * x' * y * y == (d * xx') * yy by {
      ModArith.MulAssoc(d, x, x);
      ModArith.MulAssoc(d, x', x');
      ModArith.MulAssoc(d * xx, y, y);
      ModArith.MulAssoc(d * xx', y, y);
    }
    assert (d * xx) % p == (d * xx') % p by { ModArith.Congruence(d, d, xx, xx', p); }
    assert ((d * xx) * yy) % p == ((d * xx') * yy) % p by {
      ModArith.Congruence(d * xx, d * xx', yy, yy, p);
    }
    ModArith.Congruence(1, 1, (d * xx) * yy, (d * xx') * yy, p);
  }

  /** `P + (−P)` is the identity, for a point on the curve whose `y`
      denominator `1 + d·x²·y²` is invertible (on a complete curve such as
      edwards25519 it always is; that is not re-derived here). */
  lemma AddInverse(k: Coeffs, P: Affine)
    requires k.p > 1 && OnCurve(k, P)
    requires ModArith.Invertible(1 + k.d * P.x * P.x * P.y * P.y, k.p)
    ensures AddLaw(k, P, NegLaw(k.p, P)) == Identity()
  {
    var p, a, d, x, y := k.p, k.a, k.d, P.x, P.y;
    var n := (-x) % p;
    assert NegLaw(p, P) == Affine(n, y);
    var dm, e := d * x * n * y * y, 1 + d * x * x * y * y;
    // x numerator: x·y + n·y ≡ x·y − x·y = 0
    assert ModArith.Div(x * y + n * y, 1 + dm, p) == 0 by {
      NegCrossSum(x, y, p);
      ModArith.DivCongruent(x * y + n * y, 0, 1 + dm, 1 + dm, p);
    }
    // y numerator and denominator both ≡ 1 + d·x²·y², by the curve equation
    assert ModArith.Div(y * y - a * x * n, 1 - dm, p) == 1 by {
      NegNumerator(a, x, y, p);
      NegDenominator(d, x, y, p);
      assert (a * x * x + y * y) % p == e % p;
      ModArith.DivCongruent(y * y - a * x * n, e, 1 - dm, e, p);
      ModArith.DivSelf(e, p);
    }
  }

  /** `x·y + (−x)·y ≡ 0`, with `−x` taken as a residue. */
  lemma NegCrossSum(x: int, y: int, p: int)
    requires p > 0
    ensures (x * y + ((-x) % p) * y) % p == 0 % p
  {
    var n := (-x) % p;
    assert (n * y) % p == ((-x) * y) % p by {
      ModArith.ModIdempotent(-x, p);
      ModArith.Congruence(n, -x, y, y, p);
    }
    ModArith.Congruence(x * y, x * y, n * y, (-x) * y, p);
    assert x * y + (-x) * y == 0;
  }

  /** `y·y − a·x·(−x) ≡ a·x² + y²`, with `−x` taken as a residue. */
  lemma NegNumerator(a: int, x: int, y: int, p: int)
    requires p > 0
    ensures (y * y - a * x * ((-x) % p)) % p == (a * x * x + y * y) % p
  {
    var n := (-x) % p;
    var u := a * x;
    assert (u * n) % p == (u * (-x)) % p by {
      ModArith.ModIdempotent(-x, p);
      ModArith.Congruence(u, u, n, -x, p);
    }
    ModArith.Congruence(y * y, y * y, u * n, u * (-x), p);
    assert y * y - u * (-x) == a * x * x + y * y;
  }

  /** `1 − d·x·(−x)·y·y ≡ 1 + d·x²·y²`, with `−x` taken as a residue. */
  lemma NegDenominator(d: int, x: int, y: int, p: int)
    requires p > 0
    ensures (1 - d * x * ((-x) % p) * y * y) % p == (1 + d * x * x * y * y) % p
  {
    var n := (-x) % p;
    var u := d * x;
    assert (u * n) % p == (u * (-x)) % p by {
      ModArith.ModIdempotent(-x, p);
      ModArith.Congruence(u, u, n, -x, p);
    }
    var v, v' := u * n, u * (-x);
    assert (v * y) % p == (v' * y) % p by { ModArith.Congruence(v, v', y, y, p); }
    var w, w' := v * y, v' * y;
    assert (w * y) % p == (w' * y) % p by { ModArith.Congruence(w, w', y, y, p); }
    ModArith.Congruence(1, 1, w * y, w' * y, p);
    assert 1 - w' * y == 1 + d * x * x * y * y;
  }

  // ---------------------------------------------------------------------
  // Scalar multiplication

  /** Multiplying the identity by any scalar gives the identity. */
  lemma {:induction false} MulIdentity(k: Coeffs, n: nat)
    requires k.p > 1
    ensures MulLaw(k, Identity(), n) == Identity()
  {
    if n > 0 {
      var I := Identity();
      MulIdentity(k, n / 2);
      AddIdentityLeft(k, I);
      ReduceReduced(k.p, I);
      assert MulLaw(k, I, n) == if n % 2 == 1 then AddLaw(k, AddLaw(k, I, I), I) else AddLaw(k, I, I);
    }
  }

  /** Scalar 0 gives the identity, scalar 1 gives `G`, scalar 2 gives `G + G`. */
  lemma MulSmall(k: Coeffs, G: Affine)
    requires k.p > 1
    ensures MulLaw(k, G, 0) == Identity()
    ensures MulLaw(k, G, 1) == Reduce(k.p, G)
    ensures MulLaw(k, G, 2) == AddLaw(k, G, G)
  {
    var I := Identity();
    AddIdentityLeft(k, I);
    ReduceReduced(k.p, I);
    assert MulLaw(k, G, 0) == I;
    assert MulLaw(k, G, 1) == AddLaw(k, AddLaw(k, I, I), G);
    AddIdentityLeft(k, G);
    assert MulLaw(k, G, 2) == AddLaw(k, MulLaw(k, G, 1), MulLaw(k, G, 1));
    AddResidues(k, G, G);
    ModArith.ModIdempotent(G.x, k.p);
    ModArith.ModIdempotent(G.y, k.p);
  }

  /** One step of the most-significant-bit-first loop: the multiple for the
      top bits down to `i` is twice the multiple for the bits above `i`, plus
      `G` when bit `i` is set. */
  lemma MulBitStep(k: Coeffs, G: Affine, v: nat, i: nat)
    requires k.p > 1
    ensures var H := MulLaw(k, G, Bits.Shr(v, i + 1));
            var D := AddLaw(k, H, H);
            MulLaw(k, G, Bits.Shr(v, i)) == if Bits.Bit(v, i) == 1 then AddLaw(k, D, G) else D
  {
    var n, h := Bits.Shr(v, i), Bits.Shr(v, i + 1);
    Bits.ShrSucc(v, i);
    assert h == n / 2 && Bits.Bit(v, i) == n % 2;
    if n == 0 {
      var I := Identity();
      AddIdentityLeft(k, I);
      ReduceReduced(k.p, I);
      assert MulLaw(k, G, h) == I;
    }
  }
}
