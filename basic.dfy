/** The reference (affine, unoptimised) twisted Edwards curve of
    crypto/edwards/basic.go: `BasicPoint` is a mutable coordinate pair bound to
    a `BasicCurve`, and every operation writes its result into the receiver,
    as the Go methods do.  Each method is specified by the pure law of module
    EdwardsLaw, where the algebraic properties are proved. */
module Edwards {
  import ModArith
  import Bits
  import opened EdwardsLaw

  // -----------------------------------------------------------------------
  // edwards25519 constants (section 5.1 of RFC 8032)

  /** `2^255 − 19`, the field prime. */
  const P25519: int := 57896044618658097711785492504343953926634992332820282019728792003956564819949

  /** The low part of the prime subgroup order, `r = 2^252 + RLow25519`. */
  const RLow25519: int := 27742317777372353535851937790883648493

  /** `2^252 + 27742317777372353535851937790883648493`, the prime subgroup order. */
  const R25519: int := 7237005577332262213973186563042994240857116359379907606001950938285454250989

  /** `−121665 / 121666 mod p`, the `d` coefficient as RFC 8032 lists it. */
  const D25519: int := 37095705934669439343138083508754565189542113879843219016388785533085940283555

  /** `4 / 5 mod p`, the `y` coordinate of the standard base point. */
  const BaseY25519: int := 46316835694926478169428394003475163141307993866256225615783033603165251855960

  /** The generic curve parameters handed to `Init` (the `Param` record). */
  datatype Param = Param(name: string, p: int, r: int, s: int, a: int, d: int, baseX: int, baseY: int)

  datatype Option<T> = None | Some(value: T)

  // -----------------------------------------------------------------------
  // The curve object

  class BasicCurve {
    var name: string
    var p: int          // field prime P
    var r: int          // prime subgroup order R
    var s: int          // cofactor S
    var cofact: int     // cofactor as a field element
    var a: int
    var d: int
    var zero: int
    var one: int
    var neutral: Affine // the identity point (`null` in the source), owned by this curve
    var base: Affine    // standard base point, owned by this curve
    var neutralCurve: BasicCurve?  // the curve the embedded identity point is bound to
    var baseCurve: BasicCurve?     // the curve the embedded base point is bound to

    /** The zero value of the Go struct, before any initialisation. */
    constructor ()
      ensures p == 0 && r == 0 && s == 0 && a == 0 && d == 0
      ensures neutral == Affine(0, 0) && base == Affine(0, 0)
      ensures neutralCurve == null && baseCurve == null
    {
      name, p, r, s, cofact, a, d, zero, one := "", 0, 0, 0, 0, 0, 0, 0, 0;
      neutral, base := Affine(0, 0), Affine(0, 0);
      neutralCurve, baseCurve := null, null;
    }

    function Coefficients(): Coeffs
      reads this
    {
      Coeffs(p, a, d)
    }

    /** A successfully initialised curve: its constants are residues, the
        neutral element is `(0, 1)`, the base point lies on the curve, and both
        embedded points are bound to this curve. */
    ghost predicate Valid()
      reads this
    {
      && p > 2
      && neutralCurve == this && baseCurve == this
      && zero == 0 && one == 1
      && 0 <= a < p && 0 <= d < p
      && neutral == Identity()
      && Reduced(p, base) && OnCurve(Coefficients(), base)
    }

    /** `Point()`: a new point set to the neutral element.  Copying the
        embedded identity point also copies its curve, so the new point is
        bound to this curve only once `Init` or `init25519` has run. */
    method Point() returns (P: BasicPoint)
      ensures fresh(P) && P.c == neutralCurve && P.Coords() == neutral
      ensures Valid() ==> P.c == this && P.Coords() == Identity()
    {
      P := new BasicPoint();
      P.c := this;
      P.c, P.x, P.y := neutralCurve, neutral.x, neutral.y;
    }

    /** `Init(param)`: copy the parameters (the generic curve part, whose
        `init` is not part of this model, reduces the coefficients modulo `P`),
        set the neutral and base points, and check both against the curve
        equation.  `ok == false` is the source's panic. */
    method Init(param: Param) returns (ok: bool)
      requires param.p > 2
      modifies this
      ensures name == param.name && p == param.p && r == param.r && s == param.s
      ensures a == param.a % p && d == param.d % p && zero == 0 && one == 1
      ensures cofact == old(cofact)
      ensures neutral == Identity() && base == Reduce(p, Affine(param.baseX, param.baseY))
      ensures neutralCurve == this && baseCurve == this
      ensures ok <==> OnCurve(Coefficients(), base)
      ensures ok ==> Valid()
    {
      var p' := param.p;
      var k := Coeffs(p', param.a % p', param.d % p');
      var neutral' := Affine(0 % p', 1 % p');
      assert neutral' == Identity() by {
        ModArith.ModUnique(0, p', 0, 0);
        ModArith.ModUnique(1, p', 0, 1);
      }
      var base' := Reduce(p', Affine(param.baseX, param.baseY));

      // a failed check is the source's panic
      IdentityOnCurve(k);
      ok := OnCurve(k, neutral') && OnCurve(k, base');

      name, p, r, s, a, d := param.name, p', param.r, param.s, k.a, k.d;
      zero, one, neutral, base := 0 % p', 1 % p', neutral', base';
      neutralCurve, baseCurve := this, this;
    }

    /** `init25519`: derive the edwards25519 parameters.  The square root
        `solveForX` and the sign convention `coordSign` of the generic curve
        code are parameters here.  `ok == false` is the source's panic. */
    method Init25519(solveForX: int -> Option<int>, coordSign: int -> int) returns (ok: bool)
      modifies this
      ensures name == "25519"
      ensures p == P25519 && r == R25519 && s == 8 && cofact == 8
      ensures a == P25519 - 1 && d == D25519
      ensures zero == 0 && one == 1 && neutral == Identity()
      ensures neutralCurve == this && baseCurve == this
      ensures base.y == BaseY25519
      ensures ok <==> solveForX(BaseY25519).Some? && OnCurve(Coefficients(), base)
      ensures ok ==> base.x == SignedRoot(solveForX(base.y).value, coordSign, p)
      ensures ok ==> Valid()
    {
      var p', r', a', d', y0 := Derive25519();
      var k := Coeffs(p', a', d');

      var neutral' := Affine(0 % p', 1 % p');
      IdentityOnCurve(k);
      ok := OnCurve(k, neutral');     // a failed check is the source's panic

      var base' := Affine(base.x, y0);
      if ok {
        var solved := solveForX(y0);
        if solved.None? {
          ok := false;
        } else {
          var x0 := solved.value % p';    // the solver yields a residue
          var bx := x0;
          if coordSign(x0) != 0 {
            bx := ModArith.Neg(x0, p');  // use the other root, −x0
          }
          assert bx == SignedRoot(solved.value, coordSign, p');
          base' := Affine(bx, y0);
          ok := OnCurve(k, base');
        }
      }
      name, p, r, s, cofact, a, d := "25519", p', r', 8, 8 % p', a', d';
      zero, one, neutral, base := 0 % p', 1 % p', neutral', base';
      neutralCurve, baseCurve := this, this;
    }
  }

  /** The residue of the root `x` the solver found, negated when the curve's
      sign convention calls it negative, so that the result is the positive root. */
  function SignedRoot(x: int, coordSign: int -> int, p: int): (r: int)
    requires p > 0
    ensures 0 <= r < p
    ensures (r * r) % p == (x * x) % p
    ensures coordSign(x % p) == 0 ==> r == x % p
    ensures coordSign(x % p) != 0 ==> r == (-x) % p
  {
    var x0 := x % p;
    ModArith.ModMulNoop(x, x, p);
    if coordSign(x0) != 0 then
      OtherRoot(x, p);
      (-x0) % p
    else
      x0
  }

  /** Negating the residue of `x` gives the residue of `−x`, with the same square. */
  lemma OtherRoot(x: int, p: int)
    requires p > 0
    ensures (-(x % p)) % p == (-x) % p
    ensures (((-(x % p)) % p) * ((-(x % p)) % p)) % p == (x * x) % p
  {
    var x0 := x % p;
    ModArith.ModUnique(0, p, 0, 0);
    ModArith.ModSubNoop(0, x, p);
    assert (-x0) * (-x0) == x0 * x0;
    ModArith.ModMulNoop(-x0, -x0, p);
    ModArith.ModMulNoop(x, x, p);
  }

  /** The derivations `init25519` makes from the Ed25519 definition: `p` is
      `2^255` with bit 255 set on zero, minus 19; `r` is bit 252 set on the low
      part of the group order; `a = −1`, `d = −121665/121666` and the base
      point's `y = 4/5` as residues modulo `p`.  They give exactly the
      constants RFC 8032 lists for edwards25519. */
  method Derive25519() returns (p: int, r: int, a: int, d: int, y: int)
    ensures p == P25519 && r == R25519
    ensures a == P25519 - 1 && d == D25519 && y == BaseY25519
  {
    var pBit, rBit := 255, 252;
    p := Bits.SetBit(0, pBit) - 19;
    r := Bits.SetBit(RLow25519, rBit);
    assert p == P25519 && r == R25519 by { Curve25519Constants(); }
    a := (-1) % p;
    d := ModArith.Div(-121665, 121666, p);
    y := ModArith.Div(4, 5, p);
    Curve25519Constants();
  }

  /** The constants `init25519` computes have the values RFC 8032 lists. */
  lemma Curve25519Constants()
    ensures Bits.SetBit(0, 255) - 19 == P25519 == Bits.Pow2(255) - 19
    ensures Bits.SetBit(RLow25519, 252) == R25519 == Bits.Pow2(252) + RLow25519
    ensures (-1) % P25519 == P25519 - 1
    ensures ModArith.Div(-121665, 121666, P25519) == D25519
    ensures ModArith.Div(4, 5, P25519) == BaseY25519
    ensures 8 % P25519 == 8 && 1 % P25519 == 1 && 0 % P25519 == 0
    ensures (D25519 * 121666) % P25519 == (-121665) % P25519
    ensures (BaseY25519 * 5) % P25519 == 4
  {
    Pow2Values();
    Bits.SetBitSets(0, 255);
    Bits.SetBitSets(RLow25519, 252);
    CoefficientD();
    BaseY();
  }

  /** A point on edwards25519 encodes in 32 bytes: `p` has 255 bits. */
  lemma Len25519(P: BasicPoint)
    requires P.c != null && P.c.p == P25519
    ensures P.Len() == 32
  {
    Pow2Values();
    Bits.BitLenUnique(P25519, 255);
  }

  /** `d = −121665 / 121666`: 121666 is invertible modulo `p` and `D25519` is the quotient. */
  lemma CoefficientD()
    ensures (D25519 * 121666) % P25519 == (-121665) % P25519
    ensures ModArith.Invertible(121666, P25519)
    ensures ModArith.Div(-121665, 121666, P25519) == D25519
  {
    var w := 37095705934669439343138083508754565189542113879843219016388785533085940283556;
    assert (w * 121666) % P25519 == 1;
    ModArith.UnitIsInvertible(121666, P25519, w);
    var md := 57896044618658097711785492504343953926634992332820282019728792003956564698284;
    assert (D25519 * 121666) % P25519 == md by {
      ModArith.ModUnique(D25519 * 121666, P25519, 77954, md);
    }
    assert (-121665) % P25519 == md by { ModArith.ModUnique(-121665, P25519, -1, md); }
    ModArith.DivUnique(-121665, 121666, P25519, D25519);
  }

  /** `y = 4 / 5`: 5 is invertible modulo `p` and `BaseY25519` is the quotient. */
  lemma BaseY()
    ensures (BaseY25519 * 5) % P25519 == 4
    ensures ModArith.Invertible(5, P25519)
    ensures ModArith.Div(4, 5, P25519) == BaseY25519
  {
    var w := 11579208923731619542357098500868790785326998466564056403945758400791312963990;
    assert (w * 5) % P25519 == 1;
    ModArith.UnitIsInvertible(5, P25519, w);
    assert (BaseY25519 * 5) % P25519 == 4 by {
      ModArith.ModUnique(BaseY25519 * 5, P25519, 4, 4);
    }
    ModArith.DivUnique(4, 5, P25519, BaseY25519);
  }

  lemma Pow2Values()
    ensures Bits.Pow2(252) == 7237005577332262213973186563042994240829374041602535252466099000494570602496
    ensures Bits.Pow2(254) == 28948022309329048855892746252171976963317496166410141009864396001978282409984
    ensures Bits.Pow2(255) == 57896044618658097711785492504343953926634992332820282019728792003956564819968
  {
    assert Bits.Pow2(1) == 2;
    Bits.Pow2Add(1, 1);
    assert Bits.Pow2(2) == 4;
    Bits.Pow2Add(2, 2);
    assert Bits.Pow2(4) == 16;
    Bits.Pow2Add(4, 4);
    assert Bits.Pow2(8) == 256;
    Bits.Pow2Add(8, 8);
    assert Bits.Pow2(16) == 65536;
    Bits.Pow2Add(16, 16);
    assert Bits.Pow2(32) == 4294967296;
    Bits.Pow2Add(32, 32);
    assert Bits.Pow2(64) == 18446744073709551616;
    Bits.Pow2Add(64, 64);
    assert Bits.Pow2(128) == 340282366920938463463374607431768211456;
    Bits.Pow2Add(128, 64);
    assert Bits.Pow2(192) == 6277101735386680763835789423207666416102355444464034512896;
    Bits.Pow2Add(192, 32);
    assert Bits.Pow2(224) == 26959946667150639794667015087019630673637144422540572481103610249216;
    Bits.Pow2Add(224, 16);
    assert Bits.Pow2(240) == 1766847064778384329583297500742918515827483896875618958121606201292619776;
    Bits.Pow2Add(240, 8);
    assert Bits.Pow2(248) == 452312848583266388373324160190187140051835877600158453279131187530910662656;
    Bits.Pow2Add(248, 4);
    assert Bits.Pow2(252) == 7237005577332262213973186563042994240829374041602535252466099000494570602496;
    Bits.Pow2Add(252, 2);
    assert Bits.Pow2(254) == 28948022309329048855892746252171976963317496166410141009864396001978282409984;
    Bits.Pow2Add(254, 1);
    assert Bits.Pow2(255) == 57896044618658097711785492504343953926634992332820282019728792003956564819968;
  }

  // -----------------------------------------------------------------------
  // Points

  class BasicPoint {
    var x: int
    var y: int
    var c: BasicCurve?

    /** The zero value `basicPoint{}`: coordinates 0 and no curve yet. */
    constructor ()
      ensures x == 0 && y == 0 && c == null
    {
      x, y, c := 0, 0, null;
    }

    function Coords(): Affine
      reads this
    {
      Affine(x, y)
    }

    /** `Len()`: the encoded length, the fewest bytes that hold the bits of
        the field prime plus one sign bit. */
    function Len(): (n: int)
      reads this, c
      requires c != null && c.p > 0
      ensures Bits.BitLen(c.p) + 1 <= 8 * n < Bits.BitLen(c.p) + 9
    {
      (Bits.BitLen(c.p) + 7 + 1) / 8
    }

    /** `Equal(P2)`: the two points have the same coordinates. */
    predicate Equal(P2: BasicPoint)
      reads this, P2
      ensures Equal(P2) <==> Coords() == P2.Coords()
    {
      x == P2.x && y == P2.y
    }

    /** `Set(P2)`: copy the curve and both coordinates of `P2`. */
    method Set(P2: BasicPoint)
      modifies this
      ensures c == old(P2.c) && Coords() == old(P2.Coords())
      ensures Equal(P2)
    {
      c := P2.c;
      x, y := P2.x, P2.y;
    }

    /** `Null()`: copy the curve's embedded identity point, its curve
        included; on an initialised curve that is `(0, 1)` on the same curve. */
    method Null()
      requires c != null
      modifies this
      ensures c == old(c.neutralCurve) && Coords() == old(c.neutral)
      ensures old(c.Valid()) ==> c == old(c) && Coords() == Identity()
    {
      var E := c;
      c, x, y := E.neutralCurve, E.neutral.x, E.neutral.y;
    }

    /** `Base(nil)`: copy the curve's embedded base point, its curve included;
        on an initialised curve the point stays on the same curve. */
    method Base()
      requires c != null
      modifies this
      ensures c == old(c.baseCurve) && Coords() == old(c.base)
      ensures old(c.Valid()) ==> c == old(c)
    {
      var E := c;
      c, x, y := E.baseCurve, E.base.x, E.base.y;
    }

    /** `Add(P1, P2)`: the unified addition law, computed with the receiver's
        curve constants one field operation at a time, as the source does.
        Either operand may be the receiver itself. */
    method Add(P1: BasicPoint, P2: BasicPoint)
      requires c != null && c.Valid()
      modifies this
      ensures c == old(c)
      ensures Coords() == AddLaw(c.Coefficients(), old(P1.Coords()), old(P2.Coords()))
    {
      var x1, y1 := P1.x, P1.y;
      var x2, y2 := P2.x, P2.y;
      var m := c.p;

      // reused part of the denominators: dm = d·x1·x2·y1·y2
      var dm := ModArith.Mul(ModArith.Mul(ModArith.Mul(ModArith.Mul(c.d, x1, m), x2, m), y1, m), y2, m);
      // x' numerator and denominator
      var nx := ModArith.Add(ModArith.Mul(x1, y2, m), ModArith.Mul(x2, y1, m), m);
      var dx := ModArith.Add(c.one, dm, m);
      // y' numerator and denominator
      var ny := ModArith.Sub(ModArith.Mul(y1, y2, m), ModArith.Mul(c.a, ModArith.Mul(x1, x2, m), m), m);
      var dy := ModArith.Sub(c.one, dm, m);

      FieldOpsAgree(c.Coefficients(), Affine(x1, y1), Affine(x2, y2));
      x := ModArith.Div(nx, dx, m);
      y := ModArith.Div(ny, dy, m);
    }

    /** `double()`: doubling is adding the point to itself. */
    method Double()
      requires c != null && c.Valid()
      modifies this
      ensures c == old(c)
      ensures Coords() == AddLaw(c.Coefficients(), old(Coords()), old(Coords()))
    {
      Add(this, this);
    }

    /** `Neg(A)`: `(x, y) ↦ (−x, y)`, taking `A`'s curve. */
    method Neg(A: BasicPoint)
      requires A.c != null && A.c.p > 0
      modifies this
      ensures c == old(A.c)
      ensures Coords() == NegLaw(c.p, old(A.Coords()))
    {
      var E := A;
      c := E.c;
      x := ModArith.Neg(E.x, c.p);
      y := E.y;
    }

    /** `Sub(A, B)`: add `A` and the negation of `B`, through a temporary. */
    method Sub(A: BasicPoint, B: BasicPoint)
      requires c != null && c.Valid()
      requires B.c != null && B.c.p > 0
      modifies this
      ensures c == old(c)
      ensures Coords() == AddLaw(c.Coefficients(), old(A.Coords()), NegLaw(old(B.c.p), old(B.Coords())))
    {
      var nB := new BasicPoint();
      nB.Neg(B);
      Add(A, nB);
    }

    /** `Mul(G, v)`: double-and-add from the top bit of `v` down.  A `null`
        generator stands for the base point; when the generator is the
        receiver itself the loop runs on a temporary, so `G` is read intact. */
    method Mul(G: BasicPoint?, v: nat)
      requires c != null && c.Valid()
      modifies this
      ensures c == old(c)
      ensures Coords() == MulLaw(c.Coefficients(), if G == null then c.base else old(G.Coords()), v)
      decreases if G == null then 1 else 0
    {
      if G == null {
        Base();
        Mul(this, v);
        return;
      }
      var k := c.Coefficients();
      ghost var g := G.Coords();
      var T := this;
      if G == this {
        T := new BasicPoint();   // must use a temporary when G is the receiver
      }
      T.c, T.x, T.y := c.neutralCurve, c.neutral.x, c.neutral.y;   // a copy of the identity (0, 1)
      Bits.ShrBitLen(v);

      var i: int := Bits.BitLen(v) - 1;
      while i >= 0
        invariant -1 <= i < Bits.BitLen(v)
        invariant T == this || fresh(T)
        invariant c == old(c) && c.Valid() && c.Coefficients() == k
        invariant T != G && T.c == c
        invariant G.Coords() == g
        invariant T.Coords() == MulLaw(k, g, Bits.Shr(v, i + 1))
        decreases i
      {
        MulBitStep(k, g, v, i);
        T.Double();
        if Bits.Bit(v, i) != 0 {
          T.Add(T, G);
        }
        i := i - 1;
      }
      if T != this {
        Set(T);
      }
    }
  }

  /** The source's field-operation sequence for `Add` (each step reduced
      modulo `p`, the constant one held as `one == 1`) computes the textbook
      addition law. */
  lemma FieldOpsAgree(k: Coeffs, P: Affine, Q: Affine)
    requires k.p > 1
    ensures var m, x1, y1, x2, y2 := k.p, P.x, P.y, Q.x, Q.y;
            var dm := ModArith.Mul(ModArith.Mul(ModArith.Mul(ModArith.Mul(k.d, x1, m), x2, m), y1, m), y2, m);
            var nx := ModArith.Add(ModArith.Mul(x1, y2, m), ModArith.Mul(x2, y1, m), m);
            var ny := ModArith.Sub(ModArith.Mul(y1, y2, m), ModArith.Mul(k.a, ModArith.Mul(x1, x2, m), m), m);
            AddLaw(k, P, Q) == Affine(ModArith.Div(nx, ModArith.Add(1, dm, m), m),
                                      ModArith.Div(ny, ModArith.Sub(1, dm, m), m))
  {
    var m, x1, y1, x2, y2 := k.p, P.x, P.y, Q.x, Q.y;
    var dm := ModArith.Mul(ModArith.Mul(ModArith.Mul(ModArith.Mul(k.d, x1, m), x2, m), y1, m), y2, m);
    var nx := ModArith.Add(ModArith.Mul(x1, y2, m), ModArith.Mul(x2, y1, m), m);
    var ny := ModArith.Sub(ModArith.Mul(y1, y2, m), ModArith.Mul(k.a, ModArith.Mul(x1, x2, m), m), m);
    var t := k.d * x1 * x2 * y1 * y2;
    ProductChain(k.d, x1, x2, y1, y2, m);
    CrossSum(x1, y2, x2, y1, m);
    CrossDifference(k.a, x1, x2, y1, y2, m);
    assert ModArith.Add(1, dm, m) % m == (1 + t) % m && ModArith.Sub(1, dm, m) % m == (1 - t) % m by {
      ModArith.ModIdempotent(t, m);
      ModArith.Congruence(1, 1, dm, t, m);
      ModArith.ModIdempotent(1 + dm, m);
      ModArith.ModIdempotent(1 - dm, m);
    }
    ModArith.ModIdempotent(x1 * y2 + x2 * y1, m);
    ModArith.ModIdempotent(y1 * y2 - k.a * x1 * x2, m);
    ModArith.DivCongruent(nx, x1 * y2 + x2 * y1, ModArith.Add(1, dm, m), 1 + t, m);
    ModArith.DivCongruent(ny, y1 * y2 - k.a * x1 * x2, ModArith.Sub(1, dm, m), 1 - t, m);
  }

  /** Multiplying `d` by `x1`, `x2`, `y1` and `y2` in turn, reducing after
      each step, gives `d·x1·x2·y1·y2 mod p`. */
  lemma ProductChain(d: int, x1: int, x2: int, y1: int, y2: int, m: int)
    requires m > 0
    ensures ModArith.Mul(ModArith.Mul(ModArith.Mul(ModArith.Mul(d, x1, m), x2, m), y1, m), y2, m)
            == (d * x1 * x2 * y1 * y2) % m
  {
    var t1 := d * x1;
    var t2 := t1 * x2;
    var t3 := t2 * y1;
    ModArith.ModMulNoopLeft(t1, x2, m);
    ModArith.ModMulNoopLeft(t2, y1, m);
    ModArith.ModMulNoopLeft(t3, y2, m);
  }

  /** The reduced sum of the reduced products `x1·y2` and `x2·y1` is
      `x1·y2 + x2·y1 mod p`. */
  lemma CrossSum(x1: int, y2: int, x2: int, y1: int, m: int)
    requires m > 0
    ensures ModArith.Add(ModArith.Mul(x1, y2, m), ModArith.Mul(x2, y1, m), m) == (x1 * y2 + x2 * y1) % m
  {
    ModArith.ModAddNoop(x1 * y2, x2 * y1, m);
  }

  /** The reduced difference of `y1·y2` and `a·(x1·x2)`, each product
      reduced, is `y1·y2 − a·x1·x2 mod p`. */
  lemma CrossDifference(a: int, x1: int, x2: int, y1: int, y2: int, m: int)
    requires m > 0
    ensures ModArith.Sub(ModArith.Mul(y1, y2, m), ModArith.Mul(a, ModArith.Mul(x1, x2, m), m), m)
            == (y1 * y2 - a * x1 * x2) % m
  {
    var xx := x1 * x2;
    assert (a * (xx % m)) % m == (a * xx) % m by {
      ModArith.ModIdempotent(xx, m);
      ModArith.Congruence(a, a, xx % m, xx, m);
    }
    ModArith.MulAssoc(a, x1, x2);
    ModArith.ModSubNoop(y1 * y2, a * x1 * x2, m);
  }
}
