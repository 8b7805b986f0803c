/** The receiver side of the dealer-less Pedersen verifiable secret sharing
    in `poly/joint.go`: a receiver binds the index it is addressed by, keeps
    the deals whose response succeeded, and finally sums the shares the deals
    reveal for it into its share of the joint secret, checking that share
    against the sum of the dealers' public polynomials.

    The deals, key pairs, public polynomials and responses are opaque here;
    the operations on them that `joint.go` calls (Deal.ProduceResponse,
    Deal.RevealShare, Deal.PubPoly, PubPoly.InitNull/Add/Check) are the
    function-valued fields of `Ops`, and scalars are integers modulo the
    group order `Ops.order`. */
module Joint {
  import ModArith

  type Deal
  type KeyPair
  type Suite
  type PubPoly
  type Response

  /** The errors the receiver reports (their message text is not modelled). */
  datatype Error =
    | WrongIndex(given: int, bound: int)   // a deal for another receiver index
    | NoDeals                              // no deal received yet
    | CheckFailed                          // share does not match the public polynomial
    | DealError(reason: string)            // error returned by Deal.ProduceResponse

  datatype Outcome<T> = Success(value: T) | Failure(error: Error)

  /** What `Deal.ProduceResponse` hands back: a response, or the reason it
      refused the deal. */
  datatype Reply = Replied(resp: Response) | Refused(reason: string)

  /** The operations of the deal, polynomial and suite collaborators. */
  datatype Ops = Ops(
    order: int,                                             // scalars live modulo `order`
    produceResponse: (Deal, int, KeyPair) -> Reply,
    revealShare: (Deal, int, KeyPair) -> int,
    pubPoly: Deal -> PubPoly,
    nullPoly: (Suite, int) -> PubPoly,                      // InitNull(suite, T, base)
    addPoly: (PubPoly, PubPoly) -> PubPoly,
    check: (PubPoly, int, int) -> bool)

  /** Threshold parameters: `T` to reconstruct, `R` to verify, `N` peers. */
  datatype Threshold = Threshold(T: int, R: int, N: int)
  {
    /** `Equal`: all three parameters agree, i.e. the two values are the same. */
    predicate Equal(p2: Threshold)
      ensures Equal(p2) <==> this == p2
    {
      N == p2.N && R == p2.R && T == p2.T
    }
  }

  /** The result of a successful run: the joint public polynomial, this
      receiver's share of the joint secret, and the index it was evaluated at. */
  datatype SharedSecret = SharedSecret(pub: PubPoly, share: int, index: int)

  // -----------------------------------------------------------------------
  // Specification of the accumulation loop

  /** The scalar sum of the shares the deals reveal for `index`, accumulated
      left to right with scalar (mod `order`) addition, starting from zero. */
  function SumShares(ops: Ops, deals: seq<Deal>, index: int, key: KeyPair): (r: int)
    requires ops.order > 0
    ensures 0 <= r < ops.order
  {
    if |deals| == 0 then 0
    else (SumShares(ops, deals[..|deals| - 1], index, key)
          + ops.revealShare(deals[|deals| - 1], index, key)) % ops.order
  }

  /** The plain integer sum of the revealed shares. */
  function RevealedTotal(ops: Ops, deals: seq<Deal>, index: int, key: KeyPair): int
  {
    if |deals| == 0 then 0
    else RevealedTotal(ops, deals[..|deals| - 1], index, key) + ops.revealShare(deals[|deals| - 1], index, key)
  }

  /** The public polynomials of the deals added onto `init`, last deal
      outermost; it is the same as folding them in from the front. */
  function SumPolys(ops: Ops, deals: seq<Deal>, init: PubPoly): (r: PubPoly)
    ensures r == FoldPolys(ops, deals, init)
  {
    if |deals| == 0 then init
    else
      var front, last := deals[..|deals| - 1], deals[|deals| - 1];
      assert front + [last] == deals;
      FoldPolysSnoc(ops, front, last, init);
      ops.addPoly(SumPolys(ops, front, init), ops.pubPoly(last))
  }

  /** Reference definition: walk the deals from the first, adding each
      deal's public polynomial onto the accumulator `acc`. */
  function FoldPolys(ops: Ops, deals: seq<Deal>, acc: PubPoly): PubPoly
  {
    if |deals| == 0 then acc
    else FoldPolys(ops, deals[1..], ops.addPoly(acc, ops.pubPoly(deals[0])))
  }

  /** Folding one more deal in adds its public polynomial last. */
  lemma {:induction false} FoldPolysSnoc(ops: Ops, deals: seq<Deal>, d: Deal, acc: PubPoly)
    ensures FoldPolys(ops, deals + [d], acc) == ops.addPoly(FoldPolys(ops, deals, acc), ops.pubPoly(d))
    decreases |deals|
  {
    if |deals| == 0 {
      assert (deals + [d])[1..] == [];
    } else {
      assert (deals + [d])[1..] == deals[1..] + [d];
      FoldPolysSnoc(ops, deals[1..], d, ops.addPoly(acc, ops.pubPoly(deals[0])));
    }
  }

  /** Reducing at every step gives the residue of the plain sum: the share is
      `Σ f_j(i) mod order`, whatever the order of reduction. */
  lemma {:induction false} SumSharesIsTotal(ops: Ops, deals: seq<Deal>, index: int, key: KeyPair)
    requires ops.order > 0
    ensures SumShares(ops, deals, index, key) == RevealedTotal(ops, deals, index, key) % ops.order
  {
    if |deals| == 0 {
      ModArith.ModUnique(0, ops.order, 0, 0);
    } else {
      var q, front, last := ops.order, deals[..|deals| - 1], deals[|deals| - 1];
      var t, s := RevealedTotal(ops, front, index, key), ops.revealShare(last, index, key);
      assert SumShares(ops, deals, index, key) == (SumShares(ops, front, index, key) + s) % q;
      assert RevealedTotal(ops, deals, index, key) == t + s;
      SumSharesIsTotal(ops, front, index, key);
      assert (t % q + s) % q == (t + s) % q by {
        ModArith.ModIdempotent(t, q);
        ModArith.ModAddNoop(t % q, s, q);
        ModArith.ModAddNoop(t, s, q);
      }
    }
  }

  /** Each deal contributes additively: appending a deal adds its share. */
  lemma SumSharesAppend(ops: Ops, deals: seq<Deal>, d: Deal, index: int, key: KeyPair)
    requires ops.order > 0
    ensures SumShares(ops, deals + [d], index, key)
         == (SumShares(ops, deals, index, key) + ops.revealShare(d, index, key)) % ops.order
  {
    assert (deals + [d])[..|deals|] == deals;
  }

  /** The reply of `Deal.ProduceResponse` as `AddDeal` returns it: a refusal
      becomes a `DealError` with the same reason. */
  function ReplyOutcome(reply: Reply): (r: Outcome<Response>)
    ensures r.Success? <==> reply.Replied?
    ensures reply.Replied? ==> r.value == reply.resp
    ensures reply.Refused? ==> r.error == DealError(reply.reason)
  {
    match reply
    case Replied(resp) => Success(resp)
    case Refused(reason) => Failure(DealError(reason))
  }

  // -----------------------------------------------------------------------
  // The receiver

  class Receiver {
    var info: Threshold
    var suite: Suite
    var index: int            // -1 until the first deal binds it
    var key: KeyPair
    var deals: seq<Deal>

    /** `NewReceiver`: a fresh receiver, initialised by `Init`; the deal list
        is allocated with capacity `info.N`, which must not be negative. */
    constructor New(suite: Suite, info: Threshold, key: KeyPair)
      requires info.N >= 0
      ensures this.info == info && this.suite == suite && this.key == key
      ensures index == -1 && deals == []
    {
      this.info, this.suite, this.key := info, suite, key;
      index, deals := -1, [];
    }

    /** `Init`: no index bound yet, the given parameters stored, and an empty
        deal list allocated with capacity `info.N`.  A negative capacity is the
        source's panic, `ok == false`, raised after the other fields are set. */
    method Init(suite: Suite, info: Threshold, key: KeyPair) returns (ok: bool)
      modifies this
      ensures this.info == info && this.suite == suite && this.key == key && index == -1
      ensures ok <==> info.N >= 0
      ensures deals == if ok then [] else old(deals)
    {
      this.index := -1;
      this.info := info;
      this.suite := suite;
      this.key := key;
      if info.N < 0 {
        return false;
      }
      this.deals := [];
      ok := true;
    }

    /** `AddDeal`: the first call binds the receiver index (even when the
        response then fails); a deal for another index is refused and changes
        nothing; otherwise the deal's response is returned, or its refusal as a
        `DealError`, and the deal is kept exactly when it was not refused. */
    method AddDeal(index: int, deal: Deal, ops: Ops) returns (resp: Outcome<Response>)
      modifies this
      ensures info == old(info) && suite == old(suite) && key == old(key)
      ensures this.index == if old(this.index) == -1 then index else old(this.index)
      ensures old(this.index) != -1 ==> this.index == old(this.index)
      ensures this.index != index ==>
                resp == Failure(WrongIndex(index, this.index)) && deals == old(deals)
      ensures this.index == index ==>
                resp == ReplyOutcome(ops.produceResponse(deal, index, key))
                && deals == (if resp.Success? then old(deals) + [deal] else old(deals))
    {
      if this.index == -1 {
        this.index := index;
      }
      if this.index != index {
        return Failure(WrongIndex(index, this.index));
      }
      var reply := ops.produceResponse(deal, index, key);
      if reply.Refused? {
        return Failure(DealError(reply.reason));
      }
      resp := Success(reply.resp);
      deals := deals + [deal];
    }

    /** `ProduceSharedSecret`: refused with no deal; otherwise the share is the
        scalar sum of the shares every kept deal reveals for this receiver's
        index, in order, and the public polynomial the sum of their public
        polynomials; the result is returned, at the bound index, only when the
        share checks against that polynomial. */
    method ProduceSharedSecret(ops: Ops) returns (res: Outcome<SharedSecret>)
      requires ops.order > 0
      ensures |deals| < 1 ==> res == Failure(NoDeals)
      ensures |deals| >= 1 ==>
                var pub := SumPolys(ops, deals, ops.nullPoly(suite, info.T));
                var share := RevealedTotal(ops, deals, index, key) % ops.order;
                res == if ops.check(pub, index, share)
                       then Success(SharedSecret(pub, share, index))
                       else Failure(CheckFailed)
    {
      if |deals| < 1 {
        return Failure(NoDeals);
      }
      var pub := ops.nullPoly(suite, info.T);
      var share := 0;                       // Scalar().Zero()
      var i := 0;
      while i < |deals|
        invariant 0 <= i <= |deals|
        invariant share == SumShares(ops, deals[..i], index, key)
        invariant pub == SumPolys(ops, deals[..i], ops.nullPoly(suite, info.T))
      {
        var s := ops.revealShare(deals[i], index, key);
        assert deals[..i + 1][..i] == deals[..i];
        share := (share + s) % ops.order;
        pub := ops.addPoly(pub, ops.pubPoly(deals[i]));
        i := i + 1;
      }
      assert deals[..i] == deals;
      SumSharesIsTotal(ops, deals, index, key);
      if !ops.check(pub, index, share) {
        return Failure(CheckFailed);
      }
      return Success(SharedSecret(pub, share, index));
    }
  }
}
