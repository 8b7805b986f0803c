# Reference Edwards curve and joint-VSS receiver, in Dafny

This project models two parts of the kyber cryptography library (Go):

- **`crypto/edwards/basic.go`**: the reference, affine, unoptimised twisted
  Edwards curve.
  - A `basicPoint` is a pair `(x, y)` of residues modulo a prime `p`, bound to
    a `BasicCurve`.
  - Every point operation writes its result into the receiver: `Set`, `Null`,
    `Base`, `Add`, `double`, `Sub`, `Neg` and `Mul`.
  - `BasicCurve.Init` and `init25519` fill in the curve constants. They panic
    when the identity or the base point fails the curve equation
    `a·x² + y² ≡ 1 + d·x²·y² (mod p)`.
  - edwards25519 is the curve of section 5.1 of RFC 8032.
- **`poly/joint.go`**: the receiver side of the dealer-less Pedersen
  verifiable secret sharing.
  - A `Receiver` binds its index on the first deal and refuses deals for any
    other index.
  - It keeps a deal only if that deal's response succeeded.
  - It sums the shares the kept deals reveal into its share of the joint
    secret, and checks that share against the sum of the dealers' public
    polynomials.

## Files

- `modarith.dfy`, module `ModArith`: exact residue arithmetic, standing in
  for the `ModInt` collaborator.
  - Results are reduced into `[0, m)`; Dafny's `%` is Euclidean, like Go's
    `big.Int.Mod`.
  - The inverse comes from the extended Euclidean algorithm.
  - Division is multiplication by the inverse.
  - `Invertible(b, m)` says the gcd found for `b mod m` and `m` is 1.
- `bits.dfy`, module `Bits`: the `big.Int` operations `BitLen`, `Bit` and
  `SetBit` over naturals.
- `law.dfy`, module `EdwardsLaw`: the group law as pure functions on
  `Affine(x, y)` values.
  - The functions are `AddLaw`, `NegLaw` and `MulLaw`, the double-and-add
    recurrence.
  - The algebraic laws are proved about them here.
- `basic.dfy`, module `Edwards`: the classes `BasicCurve` and `BasicPoint`.
  - Their fields are updated in place by methods whose postconditions tie the
    new state to the law functions.
  - The module also holds the edwards25519 constants and the proofs that the
    values `init25519` derives are the ones RFC 8032 lists.
- `joint.dfy`, module `Joint`: the `Receiver` class, `Threshold`, and the
  specification functions of the share-summing loop.

## Model

| member | source | states |
|---|---|---|
| Edwards.BasicPoint.constructor | crypto/edwards/basic.go:120 | the zero value `basicPoint{}`: coordinates 0 and no curve |
| Edwards.BasicPoint.Len | crypto/edwards/basic.go:24-26 | the byte length `n` satisfies `BitLen(p) + 1 <= 8n < BitLen(p) + 9`, i.e. it is `(BitLen(p) + 8) div 8` |
| Edwards.Len25519 | crypto/edwards/basic.go:24-26 | on a curve with `p = 2^255 − 19` a point is 32 bytes long |
| Edwards.BasicPoint.Equal | crypto/edwards/basic.go:39-42 | true exactly when both coordinates are equal |
| Edwards.BasicPoint.Set | crypto/edwards/basic.go:45-51 | the curve and both coordinates of `P2` are copied, and `Equal(P2)` then holds |
| Edwards.BasicPoint.Null | crypto/edwards/basic.go:54-57 | the point becomes a copy of the curve's embedded identity point, its curve pointer included; on an initialised curve that is `(0, 1)` on the same curve |
| Edwards.BasicPoint.Base | crypto/edwards/basic.go:60-67 | with no random stream, the point becomes a copy of the curve's embedded base point, its curve pointer included; on an initialised curve the point stays on the same curve |
| Edwards.BasicPoint.Add | crypto/edwards/basic.go:87-110 | the new coordinates are the unified addition law of the two old operands; this holds when either operand is the receiver itself |
| Edwards.FieldOpsAgree | crypto/edwards/basic.go:94-108 | the source's sequence of reduced field operations (`dm`, `nx`, `dx`, `ny`, `dy`, two divisions) computes exactly the textbook addition formula |
| Edwards.BasicPoint.Double | crypto/edwards/basic.go:114-116 | doubling is the addition law applied to the old point twice |
| Edwards.BasicPoint.Neg | crypto/edwards/basic.go:126-132 | takes `A`'s curve, sets `x` to `−A.x mod p` and copies `y` |
| Edwards.BasicPoint.Sub | crypto/edwards/basic.go:119-122 | the result is `A` plus the negation of `B` (negated modulo `B`'s curve) |
| Edwards.BasicPoint.Mul | crypto/edwards/basic.go:135-155 | the result is the double-and-add multiple `MulLaw(G, v)`; a nil `G` means the base point; the result is the same when `G` is the receiver, because a temporary is used; the curve is unchanged |
| Edwards.BasicCurve.Point | crypto/edwards/basic.go:171-176 | a fresh copy of the embedded identity point, bound to whatever curve that point is bound to (none before initialisation); on an initialised curve, a fresh `(0, 1)` on this curve |
| Edwards.BasicCurve.Init | crypto/edwards/basic.go:179-201 | the parameters are stored and reduced, the neutral element is `(0, 1)`, the base point is reduced, and both embedded points are bound to this curve; success holds exactly when the base point is on the curve, and then the curve is valid |
| Edwards.BasicCurve.Init25519 | crypto/edwards/basic.go:209-262 | sets name "25519", `P = 2^255 − 19`, `R`, `S = 8`, cofactor 8, `a ≡ −1`, `d`, `zero`, `one`, the neutral `(0, 1)` and `base.y = 4/5`, with both embedded points bound to this curve; success holds exactly when the solver finds a root and the sign-adjusted base point is on the curve; after success the curve is valid |
| Edwards.SignedRoot | crypto/edwards/basic.go:249-255 | the base point's `x` is a residue whose square equals the square of the root the solver found, so it is still a root; it is the root's residue when the sign convention calls that non-negative, and the residue of its negation otherwise |
| Edwards.OtherRoot | crypto/edwards/basic.go:253-255 | negating the residue of a root gives the residue of its negation, which has the same square |
| Edwards.Derive25519 | crypto/edwards/basic.go:213-248 | `SetBit(0, 255) − 19`, `SetBit(RLow, 252)`, `−1`, `−121665/121666` and `4/5` evaluate to the RFC 8032 values of `p`, the group order, `a`, `d` and the base point's `y` |
| Edwards.Curve25519Constants | crypto/edwards/basic.go:213-248 | `p = 2^255 − 19` and `R = 2^252 + 27742317777372353535851937790883648493`; `d·121666 ≡ −121665` and `y·5 ≡ 4 (mod p)` |
| Edwards.CoefficientD | crypto/edwards/basic.go:231 | 121666 is invertible mod `p`, and the quotient `−121665/121666` is the listed `d` |
| Edwards.BaseY | crypto/edwards/basic.go:248 | 5 is invertible mod `p`, and `4/5` is the listed base-point `y` |
| EdwardsLaw.AddLaw | crypto/edwards/basic.go:82-110 | the unified addition formula; the result has both coordinates reduced into `[0, p)` |
| EdwardsLaw.AddIdentityLeft | crypto/edwards/basic.go:87-110 | `(0, 1) + P` is `P` reduced, for any `P`: `dm = 0` and both denominators are 1 |
| EdwardsLaw.AddIdentityRight | crypto/edwards/basic.go:87-110 | `P + (0, 1)` is `P` reduced, for any `P` |
| EdwardsLaw.AddCommutes | crypto/edwards/basic.go:96-104 | `P + Q == Q + P` for all operands |
| EdwardsLaw.AddResidues | crypto/edwards/basic.go:87-110 | the addition law depends on the coordinates only through their residues mod `p` |
| EdwardsLaw.NegLaw | crypto/edwards/basic.go:126-132 | negation keeps `y`, and its `x` is a residue that sums with the old `x` to 0 mod `p` |
| EdwardsLaw.NegInvolutive | crypto/edwards/basic.go:126-132 | negating twice gives the original point (with `x` reduced) |
| EdwardsLaw.NegOnCurve | crypto/edwards/basic.go:126-132 | a point is on the curve exactly when its negation is |
| EdwardsLaw.AddInverse | crypto/edwards/basic.go:87-132 | for a point on the curve whose denominator `1 + d·x²·y²` is invertible, `P + (−P) = (0, 1)` |
| EdwardsLaw.IdentityOnCurve | crypto/edwards/basic.go:239-244 | `(0, 1)` satisfies every curve equation, so the identity check never panics |
| EdwardsLaw.MulLaw | crypto/edwards/basic.go:144-150 | the double-and-add recurrence always yields reduced coordinates |
| EdwardsLaw.MulIdentity | crypto/edwards/basic.go:135-155 | any multiple of the identity is the identity |
| EdwardsLaw.MulSmall | crypto/edwards/basic.go:135-155 | scalar 0 gives `(0, 1)`, scalar 1 gives `G` (reduced) and scalar 2 gives `G + G` |
| EdwardsLaw.MulBitStep | crypto/edwards/basic.go:144-150 | one loop iteration (double, then add `G` when bit `i` is set) takes the multiple for the bits above `i` to the multiple for the bits from `i` up |
| EdwardsLaw.Reduce | crypto/edwards/basic.go:189-190 | both coordinates of the result are residues in `[0, p)` |
| EdwardsLaw.ReduceReduced | crypto/edwards/basic.go:189-190 | reducing already-reduced coordinates changes nothing |
| ModArith.Inverse | crypto/edwards/basic.go:107-108 | the inverse is a residue in `[0, m)` |
| ModArith.InverseCorrect | crypto/edwards/basic.go:107-108 | `Inverse(b)·b ≡ 1` for an invertible `b` |
| ModArith.DivMul | crypto/edwards/basic.go:107-108 | `Div(a, b)·b ≡ a` for an invertible `b` |
| ModArith.DivUnique | crypto/edwards/basic.go:107-108 | a residue `q` with `q·b ≡ a` is `Div(a, b)` |
| ModArith.DivSelf | crypto/edwards/basic.go:107-108 | `Div(b, b) = 1` for an invertible `b` |
| ModArith.UnitIsInvertible | crypto/edwards/basic.go:107-108 | any `b` with some `w·b ≡ 1` is invertible |
| ModArith.DivByOne | crypto/edwards/basic.go:107-108 | dividing by 1 only reduces |
| ModArith.DivCongruent | crypto/edwards/basic.go:107-108 | division sees its operands only through their residues |
| ModArith.Div | crypto/edwards/basic.go:107-108 | the quotient is a residue in `[0, m)`; `DivMul` and `DivUnique` say it is the one residue that times `b` gives `a` |
| ModArith.Egcd | crypto/edwards/basic.go:107-108 | Bezout: `s·a + t·b = g`, where `g` is positive and divides both `a` and `b` |
| Bits.BitLen | crypto/edwards/basic.go:144 | `2^(n−1) <= v < 2^n` for `v > 0`, and 0 for `v = 0` |
| Bits.ShrBitLen | crypto/edwards/basic.go:144 | no bit of `v` is set at or above `BitLen(v)`, so the loop starting at `BitLen(v) − 1` sees every bit |
| Bits.SetBit | crypto/edwards/basic.go:213-219 | bit `i` of the result is set, and the value grows by `2^i` or not at all |
| Bits.SetBitSets | crypto/edwards/basic.go:213-219 | on a value below `2^i`, `SetBit` adds exactly `2^i` (bit 255 on zero, bit 252 on the low part of the order) |
| Bits.Bit | crypto/edwards/basic.go:147 | bit `i` of `v` is 0 or 1; `MulBitStep` relates it to the scalar shifted right by `i` |
| Joint.Threshold.Equal | poly/joint.go:150-152 | true exactly when `T`, `R` and `N` all agree, i.e. the two values are equal (so it is reflexive and symmetric) |
| Joint.Receiver.New | poly/joint.go:73-75 | for a non-negative `N`, a new receiver with index −1, no deals and the given parameters |
| Joint.Receiver.Init | poly/joint.go:80-87 | index −1 and `info`, `suite` and `key` stored; the empty deal list is allocated exactly when `N` is not negative, and otherwise the call panics (`ok == false`) with the deals left as they were |
| Joint.Receiver.AddDeal | poly/joint.go:96-109 | an unbound index is bound to the given one before the response is produced, and a bound index never changes; a different index gives `WrongIndex` with `deals` unchanged; otherwise the deal's response is returned, or its refusal as `DealError` with the same reason, and the deal is appended exactly when it was not refused; `info`, `suite` and `key` are unchanged |
| Joint.Receiver.ProduceSharedSecret | poly/joint.go:118-145 | no deals gives `NoDeals`; otherwise the share is the sum of all revealed shares mod the order, and the polynomial is the sum of the deals' polynomials; a failed check gives `CheckFailed`, and success carries the bound index |
| Joint.ReplyOutcome | poly/joint.go:103-108 | the reply is a success exactly when the deal produced a response, carrying that response; a refusal becomes `DealError` with its reason |
| Joint.SumShares | poly/joint.go:124-131 | the share accumulated deal by deal is a scalar in `[0, order)` |
| Joint.SumSharesIsTotal | poly/joint.go:125-131 | reducing after every addition gives the residue of the plain integer sum of the revealed shares |
| Joint.SumPolys | poly/joint.go:122-134 | the joint public polynomial, built onto `InitNull`'s polynomial deal by deal, equals the front-to-back fold `FoldPolys` that the loop performs |
| Joint.FoldPolysSnoc | poly/joint.go:133 | folding in one more deal adds that deal's public polynomial last |
| Joint.SumSharesAppend | poly/joint.go:128-130 | one more deal adds its revealed share (mod the order) to the accumulated share |

## Left out

- Encoding and embedding are not modelled: `String`, `Encode`, `Decode`, `PickLen`, `Pick`, `Data` and `Base` with a random stream (crypto/edwards/basic.go:14-80). They forward to the generic `curve` code, which is not part of this model.
- The generic `curve` code is not part of this model, so several pieces of it are stand-ins:
  - `onCurve` is the predicate `OnCurve`.
  - `solveForX` and `coordSign` are function parameters of `Init25519`; the solver's result is taken as its residue.
  - `curve.init` is modelled as storing the parameters and reducing `a`, `d` and the constants 0 and 1 modulo `p`.
- Edwards.BasicCurve.Init: the cofactor field is left as it was. What `curve.init` does to it is not visible.
- Edwards.BasicCurve.Init and Edwards.BasicCurve.Init25519: the field writes happen together once the checks are done.
  - A panic (`ok == false`) therefore does not leave a half-written curve, as the Go code would. The state after a panic is not meaningful.
- Edwards.BasicPoint.Len: uses the curve's `p` where the source reads the modulus stored inside `y`. The two agree for every point built by these operations.
- Edwards.BasicPoint.Add: every intermediate is reduced modulo the receiver's `p`, and the receiver's curve is required to be initialised. An operand bound to another curve is not modelled.
- ModArith.Div: dividing by a non-invertible value yields an unspecified residue. The source's `ModInt.Div` behaviour in that case is not part of this model.
- Primality of `2^255 − 19` is not proved. Invertibility is proved only for the values used, by exhibiting inverses.
- Completeness of the curve is not proved; that is, the denominators `1 ± d·x1·x2·y1·y2` are never shown to be nonzero. EdwardsLaw.AddInverse takes invertibility of its denominator as a precondition.
- Closure, associativity and the subgroup order (`Mul(base, R)` is the identity) are not proved.
- Constant-time behaviour is out. So are the big-integer representation and aliasing between the `ModInt` values inside one point.
- Joint: deals, key pairs, suites, responses and public polynomials are opaque types. `Deal.ProduceResponse`, `Deal.RevealShare`, `Deal.PubPoly`, `PubPoly.InitNull`/`Add`/`Check` and the scalar group order are the uninterpreted fields of `Ops`. The soundness of Pedersen VSS is out of scope.
- Joint: error messages are not modelled, only which error occurs. The capacity `info.N` of the deal list matters only through its sign: a negative capacity makes Go's `make` panic.
- Joint.Receiver.New: a negative `N` is a precondition here, because a constructor cannot report the panic; Joint.Receiver.Init models that panic as `ok == false`.
- Joint.Receiver.AddDeal: `Deal.ProduceResponse` yields a response or an error, never both, so a Go caller that returns a response together with an error is not modelled; on an error no response is returned.
- Joint.Receiver.AddDeal: an index of −1 passed to an unbound receiver leaves it unbound, as in the source. No property beyond that is claimed.
- group/curve25519/suite.go is suite wiring (hashes, streams, reflection) and is not part of this model.
