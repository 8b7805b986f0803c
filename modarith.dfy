/** Exact residue arithmetic modulo a positive modulus.

    This is the field-element collaborator (`crypto.ModInt`) the Edwards code
    composes: every operation yields a value normalised into [0, m), as
    Go's Euclidean `big.Int.Mod` does.  Division multiplies by an inverse
    computed with the extended Euclidean algorithm; the denominator is
    invertible exactly when the gcd that algorithm finds is 1. */
module ModArith {

  function Add(a: int, b: int, m: int): int requires m > 0 { (a + b) % m }
  function Sub(a: int, b: int, m: int): int requires m > 0 { (a - b) % m }
  function Mul(a: int, b: int, m: int): int requires m > 0 { (a * b) % m }
  function Neg(a: int, m: int): int requires m > 0 { (-a) % m }

  // ---------------------------------------------------------------------
  // Basic facts about Euclidean remainder

  lemma MulAtLeast(k: int, m: int)
    requires k >= 1 && m > 0
    ensures k * m >= m
  {
    assert k * m == (k - 1) * m + m;
  }

  /** The remainder is determined by any quotient/remainder decomposition. */
  lemma ModUnique(x: int, m: int, q: int, r: int)
    requires m > 0 && 0 <= r < m && x == q * m + r
    ensures x % m == r
  {
    var q0, r0 := x / m, x % m;
    assert x == q0 * m + r0;
    assert (q - q0) * m == r0 - r;
    if q0 < q {
      MulAtLeast(q - q0, m);
    } else if q < q0 {
      MulAtLeast(q0 - q, m);
    }
  }

  lemma ModAddMultiple(k: int, x: int, m: int)
    requires m > 0
    ensures (k * m + x) % m == x % m
  {
    var q := x / m;
    assert x == q * m + x % m;
    assert k * m + x == (k + q) * m + x % m;
    ModUnique(k * m + x, m, k + q, x % m);
  }

  lemma ModIdempotent(x: int, m: int)
    requires m > 0
    ensures (x % m) % m == x % m
  {
    ModUnique(x % m, m, 0, x % m);
  }

  lemma ModAddNoop(a: int, b: int, m: int)
    requires m > 0
    ensures (a % m + b % m) % m == (a + b) % m
  {
    assert a == (a / m) * m + a % m;
    assert b == (b / m) * m + b % m;
    assert a + b == (a / m + b / m) * m + (a % m + b % m);
    ModAddMultiple(a / m + b / m, a % m + b % m, m);
  }

  lemma ModSubNoop(a: int, b: int, m: int)
    requires m > 0
    ensures (a % m - b % m) % m == (a - b) % m
  {
    assert a == (a / m) * m + a % m;
    assert b == (b / m) * m + b % m;
    assert a - b == (a / m - b / m) * m + (a % m - b % m);
    ModAddMultiple(a / m - b / m, a % m - b % m, m);
  }

  lemma ModMulNoopLeft(a: int, b: int, m: int)
    requires m > 0
    ensures ((a % m) * b) % m == (a * b) % m
  {
    var q := a / m;
    assert a == q * m + a % m;
    assert a * b == (q * b) * m + (a % m) * b;
    ModAddMultiple(q * b, (a % m) * b, m);
  }

  lemma ModMulNoop(a: int, b: int, m: int)
    requires m > 0
    ensures ((a % m) * (b % m)) % m == (a * b) % m
  {
    ModMulNoopLeft(a, b % m, m);
    ModMulNoopLeft(b, a, m);
    assert (a * (b % m)) % m == ((b % m) * a) % m;
    assert (b * a) == (a * b);
  }

  /** Congruent operands give congruent sums, differences and products. */
  lemma Congruence(a: int, a': int, b: int, b': int, m: int)
    requires m > 0 && a % m == a' % m && b % m == b' % m
    ensures (a + b) % m == (a' + b') % m
    ensures (a - b) % m == (a' - b') % m
    ensures (a * b) % m == (a' * b') % m
  {
    ModAddNoop(a, b, m);
    ModAddNoop(a', b', m);
    ModSubNoop(a, b, m);
    ModSubNoop(a', b', m);
    ModMulNoop(a, b, m);
    ModMulNoop(a', b', m);
  }

  /** The negation of `x` cancels it. */
  lemma NegCancels(x: int, m: int)
    requires m > 0
    ensures ((-x) % m + x) % m == 0
  {
    ModIdempotent(-x, m);
    ModAddNoop((-x) % m, x, m);
    ModAddNoop(-x, x, m);
  }

  // ---------------------------------------------------------------------
  // Extended Euclid, inverse and division

  /** Extended Euclidean algorithm: `(g, s, t)` with `s*a + t*b == g`, where
      `g` divides both `a` and `b`. */
  function Egcd(a: nat, b: nat): (r: (nat, int, int))
    ensures r.1 * a + r.2 * b == r.0
    ensures (a > 0 || b > 0) ==> r.0 > 0 && a % r.0 == 0 && b % r.0 == 0
    decreases b
  {
    if b == 0 then (a, 1, 0)
    else
      var e := Egcd(b, a % b);
      EgcdStep(a, b, e.0, e.1, e.2);
      (e.0, e.2, e.1 - (a / b) * e.2)
  }

  lemma EgcdStep(a: nat, b: nat, g: nat, s: int, t: int)
    requires b > 0 && s * b + t * (a % b) == g
    requires g > 0 && b % g == 0 && (a % b) % g == 0
    ensures t * a + (s - (a / b) * t) * b == g
    ensures a % g == 0
  {
    var qa, ra := a / b, a % b;
    assert a == qa * b + ra;
    assert t * a + (s - qa * t) * b == s * b + t * ra by {
      assert t * a == t * (qa * b) + t * ra;
      assert (s - qa * t) * b == s * b - (qa * t) * b;
      MulAssoc(t, qa, b);
      assert t * (qa * b) == (qa * t) * b;
    }
    var kb, kr := b / g, ra / g;
    assert b == kb * g && ra == kr * g;
    assert a == (qa * kb + kr) * g by {
      MulAssoc(qa, kb, g);
      assert qa * b == (qa * kb) * g;
    }
    ModUnique(a, g, qa * kb + kr, 0);
  }

  /** `b` has an inverse modulo `m`: the gcd of its residue and `m` is 1. */
  predicate Invertible(b: int, m: int)
    requires m > 0
  {
    Egcd(b % m, m).0 == 1
  }

  /** The modular inverse taken from the Bezout coefficient of `b`; for a
      non-invertible `b` it is still some residue, which callers must not rely on. */
  function Inverse(b: int, m: int): (r: int)
    requires m > 0
    ensures 0 <= r < m
  {
    Egcd(b % m, m).1 % m
  }

  /** Field division `a / b`, i.e. `a` times the inverse of `b`, reduced. */
  function Div(a: int, b: int, m: int): (r: int)
    requires m > 0
    ensures 0 <= r < m
  {
    (a * Inverse(b, m)) % m
  }

  lemma InverseCorrect(b: int, m: int)
    requires m > 1 && Invertible(b, m)
    ensures (Inverse(b, m) * b) % m == 1
  {
    var e := Egcd(b % m, m);
    var s, bm := e.1, b % m;
    assert s * bm + e.2 * m == 1;
    assert (s * bm) % m == 1 by {
      assert s * bm == (-e.2) * m + 1;
      ModUnique(s * bm, m, -e.2, 1);
    }
    assert (s * b) % m == (s * bm) % m by {
      ModIdempotent(b, m);
      Congruence(s, s, b, bm, m);
    }
    assert Inverse(b, m) == s % m;
    ModMulNoopLeft(s, b, m);
  }

  /** An invertible element divided by itself is 1. */
  lemma DivSelf(b: int, m: int)
    requires m > 1 && Invertible(b, m)
    ensures Div(b, b, m) == 1
  {
    InverseCorrect(b, m);
    assert b * Inverse(b, m) == Inverse(b, m) * b;
  }

  /** Division undoes multiplication: `Div(a, b) * b ≡ a` for an invertible `b`. */
  lemma DivMul(a: int, b: int, m: int)
    requires m > 1 && Invertible(b, m)
    ensures (Div(a, b, m) * b) % m == a % m
  {
    var i := Inverse(b, m);
    InverseCorrect(b, m);
    MulByInverse(a, b, i, m);
  }

  lemma MulByInverse(a: int, b: int, i: int, m: int)
    requires m > 1 && (i * b) % m == 1
    ensures (((a * i) % m) * b) % m == a % m
  {
    var ai, ib := a * i, i * b;
    assert (((a * i) % m) * b) % m == (ai * b) % m by { ModMulNoopLeft(ai, b, m); }
    assert ai * b == a * ib by { MulAssoc(a, i, b); }
    assert 1 % m == 1 by { ModUnique(1, m, 0, 1); }
    assert (a * ib) % m == (a * 1) % m by { Congruence(a, a, ib, 1, m); }
  }

  lemma MulAssoc(x: int, y: int, z: int)
    ensures (x * y) * z == x * (y * z)
  {
  }

  /** A residue `q` with `q * b ≡ a` is the quotient `a / b`. */
  lemma DivUnique(a: int, b: int, m: int, q: int)
    requires m > 1 && Invertible(b, m) && 0 <= q < m && (q * b) % m == a % m
    ensures Div(a, b, m) == q
  {
    var i := Inverse(b, m);
    var qb, bi := q * b, b * i;
    InverseCorrect(b, m);
    assert (i * b) % m == 1;
    assert bi == i * b;
    assert 1 % m == 1 by { ModUnique(1, m, 0, 1); }
    assert (a * i) % m == (qb * i) % m by {
      ModMulNoopLeft(a, i, m);
      ModMulNoopLeft(qb, i, m);
    }
    assert qb * i == q * bi by { MulAssoc(q, b, i); }
    assert (q * bi) % m == (q * 1) % m by { Congruence(q, q, bi, 1, m); }
    ModUnique(q, m, 0, q);
  }

  /** An element with some inverse `w` is invertible; with InverseCorrect this
      makes Invertible exactly "has a multiplicative inverse". */
  lemma UnitIsInvertible(b: int, m: int, w: int)
    requires m > 1 && (w * b) % m == 1
    ensures Invertible(b, m)
  {
    var g := Egcd(b % m, m).0;
    var bm := b % m;
    assert (w * bm) % m == 1 by {
      ModMulNoop(w, b, m);
      ModMulNoop(w, bm, m);
      ModIdempotent(b, m);
    }
    var x := w * bm;
    var k := x / m;
    assert x == k * m + 1 by { DivModSplit(x, m); }
    var jb, jm := bm / g, m / g;
    assert bm == jb * g by { DivModSplit(bm, g); }
    assert m == jm * g by { DivModSplit(m, g); }
    CommonDivisorOfOne(w, bm, k, m, g, jb, jm);
  }

  lemma DivModSplit(x: int, m: int)
    requires m > 0
    ensures x == (x / m) * m + x % m
  {
  }

  /** A positive common divisor of `bm` and `m` with `w*bm == k*m + 1` is 1. */
  lemma CommonDivisorOfOne(w: int, bm: int, k: int, m: int, g: int, jb: int, jm: int)
    requires g > 0 && w * bm == k * m + 1 && bm == jb * g && m == jm * g
    ensures g == 1
  {
    var j := w * jb - k * jm;
    assert w * bm == (w * jb) * g;
    assert k * m == (k * jm) * g;
    assert j * g == 1;
    if g >= 2 && j >= 1 {
      MulAtLeast(j, g);
    }
  }

  /** The element 1 is its own inverse, so dividing by 1 only reduces. */
  lemma DivByOne(a: int, m: int)
    requires m > 1
    ensures Div(a, 1, m) == a % m
  {
    assert (1 * 1) % m == 1;
    UnitIsInvertible(1, m, 1);
    InverseCorrect(1, m);
    assert Inverse(1, m) * 1 == Inverse(1, m);
    ModUnique(Inverse(1, m), m, 0, Inverse(1, m));
  }

  /** Division depends on its operands only through their residues. */
  lemma DivCongruent(a: int, a': int, b: int, b': int, m: int)
    requires m > 0 && a % m == a' % m && b % m == b' % m
    ensures Div(a, b, m) == Div(a', b', m)
  {
    Congruence(a, a', Inverse(b, m), Inverse(b', m), m);
  }
}
