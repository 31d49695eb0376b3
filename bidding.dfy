/** The proxy-bidding rules of Auction.Bid, applied to the stored auction row once the
    session, the bidder and the auction have been checked: three rejection rules, then one
    of four updates of TopAmount, ActualPrice and WinnerUserId. */
module Bidding {
  import opened Common
  import opened Records

  /** What the rules make of an offer: refuse it, or store the updated row. */
  datatype Decision = Reject | Accept(row: AuctionRow)

  /** The smaller of two prices. */
  function Min(x: real, y: real): (m: real)
    ensures m <= x && m <= y && (m == x || m == y)
  {
    if x < y then x else y
  }

  function Max(x: real, y: real): (m: real)
    ensures m >= x && m >= y && (m == x || m == y)
  {
    if x < y then y else x
  }

  /** The price invariant every stored auction keeps: the price starts at the starting
      price, never exceeds the winner's ceiling, and a positive ceiling has a winner. */
  ghost predicate PricesConsistent(a: AuctionRow) {
    && 0.0 <= a.startingPrice <= a.actualPrice
    && 0.0 <= a.topAmount
    && (a.winnerUserId.Some? ==> a.actualPrice <= a.topAmount)
    && (a.topAmount > 0.0 ==> a.winnerUserId.Some?)
  }

  /** A freshly created auction: price at the starting price, no ceiling, no winner. */
  function NewAuctionRow(siteId: int, description: string, endsOn: Time, startingPrice: real,
                         sellerUserId: int): (a: AuctionRow)
    ensures 0.0 <= startingPrice ==> PricesConsistent(a)
    ensures a.actualPrice == a.startingPrice == startingPrice
    ensures a.topAmount == 0.0 && a.winnerUserId == None && a.sellerUserId == sellerUserId
  {
    AuctionRow(siteId, description, endsOn, startingPrice, startingPrice, 0.0, sellerUserId, None)
  }

  /** The rules of Auction.Bid for `bidder` (a UserId) offering `offer` on row `a`, with the
      site's minimum increment `inc`. The first rule of the method (offer below the
      handle's starting price) is applied by the caller. */
  function Arbitrate(a: AuctionRow, bidder: int, offer: real, inc: real): (d: Decision)
    ensures d.Accept? ==> d.row == a.(actualPrice := d.row.actualPrice, topAmount := d.row.topAmount,
                                      winnerUserId := d.row.winnerUserId)
  {
    var isWinner := a.winnerUserId == Some(bidder);
    if isWinner && offer < a.topAmount + inc then Reject
    else if !isWinner && offer < a.actualPrice then Reject
    else if !isWinner && offer < a.actualPrice + inc && a.topAmount != 0.0 then Reject
    else if a.topAmount == 0.0 then
      Accept(a.(topAmount := offer, winnerUserId := Some(bidder)))
    else if isWinner then
      Accept(a.(topAmount := offer))
    else if offer > a.topAmount then
      Accept(a.(actualPrice := Min(offer, a.topAmount + inc), topAmount := offer,
                winnerUserId := Some(bidder)))
    else
      Accept(a.(actualPrice := Min(a.topAmount, offer + inc)))
  }

  /** Exactly the three rejection rules refuse an offer. */
  lemma RejectedExactly(a: AuctionRow, bidder: int, offer: real, inc: real)
    ensures Arbitrate(a, bidder, offer, inc) == Reject <==>
      || (a.winnerUserId == Some(bidder) && offer < a.topAmount + inc)
      || (a.winnerUserId != Some(bidder) && offer < a.actualPrice)
      || (a.winnerUserId != Some(bidder) && a.topAmount != 0.0 && offer < a.actualPrice + inc)
  {
  }

  /** With a positive increment, every accepted non-negative offer keeps the price
      invariant and never lowers the price or the ceiling. */
  lemma ArbitrateKeepsPrices(a: AuctionRow, bidder: int, offer: real, inc: real)
    requires PricesConsistent(a) && 0.0 <= offer && 0.0 < inc
    requires Arbitrate(a, bidder, offer, inc).Accept?
    ensures var b := Arbitrate(a, bidder, offer, inc).row;
      PricesConsistent(b) && a.actualPrice <= b.actualPrice && a.topAmount <= b.topAmount
  {
  }

  /** The ceiling after an accepted offer is the larger of the old ceiling and the offer. */
  lemma CeilingIsLargestOffer(a: AuctionRow, bidder: int, offer: real, inc: real)
    requires PricesConsistent(a) && 0.0 <= offer && 0.0 < inc
    requires Arbitrate(a, bidder, offer, inc).Accept?
    ensures Arbitrate(a, bidder, offer, inc).row.topAmount == Max(a.topAmount, offer)
  {
  }

  /** Who wins after an accepted offer: the bidder exactly when it was the first bid, the
      bidder already held the auction, or the offer beats the ceiling; otherwise the
      previous winner keeps it, and only the price moves. */
  lemma WinnerAfterAccept(a: AuctionRow, bidder: int, offer: real, inc: real)
    requires Arbitrate(a, bidder, offer, inc).Accept?
    ensures var b := Arbitrate(a, bidder, offer, inc).row;
      && (b.winnerUserId == Some(bidder) <==>
            a.topAmount == 0.0 || a.winnerUserId == Some(bidder) || offer > a.topAmount)
      && (b.winnerUserId != Some(bidder) ==>
            b.winnerUserId == a.winnerUserId && b.topAmount == a.topAmount)
  {
  }

  /** Proxy pricing: an overtaking offer pays the old ceiling plus the increment, capped by
      the offer itself; an offer that does not overtake raises the price to that offer plus
      the increment, capped by the winner's ceiling. Neither reveals the new ceiling. */
  lemma ProxyPrice(a: AuctionRow, bidder: int, offer: real, inc: real)
    requires a.topAmount != 0.0 && a.winnerUserId != Some(bidder)
    requires Arbitrate(a, bidder, offer, inc).Accept?
    ensures var b := Arbitrate(a, bidder, offer, inc).row;
      && (offer > a.topAmount ==> b.actualPrice == Min(offer, a.topAmount + inc) && b.topAmount == offer)
      && (offer <= a.topAmount ==> b.actualPrice == Min(a.topAmount, offer + inc))
  {
  }

  /** Once the ceiling is positive, an offer equal to it never takes the auction. */
  lemma EqualOfferDoesNotOvertake(a: AuctionRow, bidder: int, inc: real)
    requires 0.0 < a.topAmount && a.winnerUserId != Some(bidder)
    ensures var d := Arbitrate(a, bidder, a.topAmount, inc);
      d.Accept? ==> d.row.winnerUserId == a.winnerUserId
  {
  }

  /** One offer in a stream of bids on the same auction. */
  datatype Offer = Offer(bidder: int, amount: real)

  /** The stored row after the offers have been arbitrated one after the other; refused
      offers leave it as it is. */
  function Replay(a: AuctionRow, offers: seq<Offer>, inc: real): AuctionRow
    decreases |offers|
  {
    if offers == [] then a
    else
      match Arbitrate(a, offers[0].bidder, offers[0].amount, inc)
      case Reject => Replay(a, offers[1..], inc)
      case Accept(b) => Replay(b, offers[1..], inc)
  }

  /** After any stream of non-negative offers the price invariant still holds, and neither
      the price nor the ceiling has gone down. */
  lemma {:induction false} ReplayKeepsPrices(a: AuctionRow, offers: seq<Offer>, inc: real)
    requires PricesConsistent(a) && 0.0 < inc
    requires forall i :: 0 <= i < |offers| ==> 0.0 <= offers[i].amount
    ensures var b := Replay(a, offers, inc);
      PricesConsistent(b) && a.actualPrice <= b.actualPrice && a.topAmount <= b.topAmount
    decreases |offers|
  {
    if offers != [] {
      var o := offers[0];
      match Arbitrate(a, o.bidder, o.amount, inc)
      case Reject =>
        ReplayKeepsPrices(a, offers[1..], inc);
      case Accept(b) =>
        ArbitrateKeepsPrices(a, o.bidder, o.amount, inc);
        ReplayKeepsPrices(b, offers[1..], inc);
    }
  }

  /** When the starting price is positive, "has a winner" and "has a positive ceiling"
      stay the same thing through any stream of non-negative offers. */
  lemma {:induction false} ReplayWinnerIffCeiling(a: AuctionRow, offers: seq<Offer>, inc: real)
    requires PricesConsistent(a) && 0.0 < inc && 0.0 < a.startingPrice
    requires a.winnerUserId.Some? <==> a.topAmount > 0.0
    requires forall i :: 0 <= i < |offers| ==> 0.0 <= offers[i].amount
    ensures var b := Replay(a, offers, inc);
      b.startingPrice == a.startingPrice && (b.winnerUserId.Some? <==> b.topAmount > 0.0)
    decreases |offers|
  {
    if offers != [] {
      var o := offers[0];
      match Arbitrate(a, o.bidder, o.amount, inc)
      case Reject =>
        ReplayWinnerIffCeiling(a, offers[1..], inc);
      case Accept(b) =>
        ArbitrateKeepsPrices(a, o.bidder, o.amount, inc);
        ReplayWinnerIffCeiling(b, offers[1..], inc);
    }
  }

  /** Two bidders, increment 1, starting price 10: bidder 1 offers 20 and holds the
      auction at 10; bidder 2 offers 15 and only pushes the price to 16; bidder 2 offers
      25, takes the auction and pays 21. */
  lemma ProxyBiddingExample()
    ensures var a0 := NewAuctionRow(1, "lamp", 100, 10.0, 7);
      && Replay(a0, [Offer(1, 20.0)], 1.0) == a0.(topAmount := 20.0, winnerUserId := Some(1))
      && Replay(a0, [Offer(1, 20.0), Offer(2, 15.0)], 1.0)
           == a0.(actualPrice := 16.0, topAmount := 20.0, winnerUserId := Some(1))
      && Replay(a0, [Offer(1, 20.0), Offer(2, 15.0), Offer(2, 25.0)], 1.0)
           == a0.(actualPrice := 21.0, topAmount := 25.0, winnerUserId := Some(2))
  {
    var a0 := NewAuctionRow(1, "lamp", 100, 10.0, 7);
    var a1 := a0.(topAmount := 20.0, winnerUserId := Some(1));
    var a2 := a0.(actualPrice := 16.0, topAmount := 20.0, winnerUserId := Some(1));
    assert [Offer(1, 20.0), Offer(2, 15.0)][1..] == [Offer(2, 15.0)];
    assert [Offer(1, 20.0), Offer(2, 15.0), Offer(2, 25.0)][1..] == [Offer(2, 15.0), Offer(2, 25.0)];
    assert [Offer(2, 15.0), Offer(2, 25.0)][1..] == [Offer(2, 25.0)];
    assert Arbitrate(a0, 1, 20.0, 1.0) == Accept(a1);
    assert Arbitrate(a1, 2, 15.0, 1.0) == Accept(a2);
  }

  /** A first bid, or the winner raising its own ceiling, only records the offer as the
      ceiling: the price stays, and the winner's raise is at least the increment. */
  lemma WinnerRaisesByIncrement(a: AuctionRow, bidder: int, offer: real, inc: real)
    requires Arbitrate(a, bidder, offer, inc).Accept?
    requires a.topAmount == 0.0 || a.winnerUserId == Some(bidder)
    ensures var b := Arbitrate(a, bidder, offer, inc).row;
      && b.actualPrice == a.actualPrice && b.topAmount == offer
      && b.winnerUserId == Some(bidder)
      && (a.winnerUserId == Some(bidder) ==> offer >= a.topAmount + inc)
  {
  }

  /** With bidder 1 holding the auction at ceiling 20, its offer of 20 is refused and one
      of 21 is accepted. */
  lemma WinnerRaiseExample()
    ensures var a1 := NewAuctionRow(1, "lamp", 100, 10.0, 7).(topAmount := 20.0, winnerUserId := Some(1));
      && Arbitrate(a1, 1, 20.0, 1.0) == Reject
      && Arbitrate(a1, 1, 21.0, 1.0) == Accept(a1.(topAmount := 21.0))
  {
  }

  // ---------------------------------------------------------------------------------
  // The first-bid test `TopAmount == 0`. An accepted offer of 0 (possible when the
  // starting price is 0) leaves the ceiling at 0 although a winner is now recorded, so
  // the next offer of 0 from anyone else is treated as a first bid and takes the auction
  // without beating anything.

  /** As written: bidder 2 offering 0 replaces bidder 1, who holds the auction at 0. */
  lemma ZeroOfferReplacesWinner()
    ensures var a := NewAuctionRow(1, "lamp", 100, 0.0, 7).(winnerUserId := Some(1));
      && PricesConsistent(a)
      && Arbitrate(a, 2, 0.0, 1.0) == Accept(a.(winnerUserId := Some(2)))
  {
  }

  /** The rules with the first-bid test made on the winner rather than on the ceiling
      (`WinnerUserId == null` in place of `TopAmount == 0`). */
  function ArbitrateByWinner(a: AuctionRow, bidder: int, offer: real, inc: real): (d: Decision)
    ensures d.Accept? ==> d.row == a.(actualPrice := d.row.actualPrice, topAmount := d.row.topAmount,
                                      winnerUserId := d.row.winnerUserId)
  {
    var isWinner := a.winnerUserId == Some(bidder);
    if isWinner && offer < a.topAmount + inc then Reject
    else if !isWinner && offer < a.actualPrice then Reject
    else if !isWinner && offer < a.actualPrice + inc && a.winnerUserId.Some? then Reject
    else if a.winnerUserId.None? then
      Accept(a.(topAmount := offer, winnerUserId := Some(bidder)))
    else if isWinner then
      Accept(a.(topAmount := offer))
    else if offer > a.topAmount then
      Accept(a.(actualPrice := Min(offer, a.topAmount + inc), topAmount := offer,
                winnerUserId := Some(bidder)))
    else
      Accept(a.(actualPrice := Min(a.topAmount, offer + inc)))
  }

  /** Corrected: a recorded winner loses the auction only to an offer strictly above its
      ceiling, and the price invariant is kept. */
  lemma ByWinnerOnlyHigherOfferOvertakes(a: AuctionRow, bidder: int, offer: real, inc: real)
    requires PricesConsistent(a) && 0.0 <= offer && 0.0 < inc
    requires a.winnerUserId.Some? && ArbitrateByWinner(a, bidder, offer, inc).Accept?
    ensures var b := ArbitrateByWinner(a, bidder, offer, inc).row;
      && (b.winnerUserId != a.winnerUserId ==> offer > a.topAmount)
      && PricesConsistent(b) && a.actualPrice <= b.actualPrice && a.topAmount <= b.topAmount
  {
  }
}
