/** Which orders are live after a feed, told from its events alone, reference by reference. */
module ItchHistory {
  import opened Options
  import opened ItchBook
  import opened ItchDisplay

  /** The order standing under `ref` after the events: the last one entered under it, less what was
      taken off since, and none once that used it up or it was deleted or replaced. */
  function Standing(es: seq<Event>, ref: nat): (o: Option<Order>)
    decreases |es|
  {
    if es == [] then None
    else
      var past, was := es[..|es| - 1], Standing(es[..|es| - 1], ref);
      match es[|es| - 1]
      case Add(r, side, shares, price) =>
        if r == ref && side in {'B', 'S'} then Some(Order(price, shares, side)) else was
      case Reduce(r, shares) =>
        if r != ref || was.None? then was
        else if shares >= was.value.qty then None
        else Some(Order(was.value.price, was.value.qty - shares, was.value.side))
      case Delete(r) => if r == ref then None else was
      case Replace(orig, newRef, shares, price) =>
        var replaced := Standing(past, orig);
        if replaced.None? then was
        else if newRef == ref then Some(Order(price, shares, replaced.value.side))
        else if orig == ref then None
        else was
      case Other => was
  }

  function Lookup(orders: Orders, ref: nat): (o: Option<Order>) {
    if ref in orders then Some(orders[ref]) else None
  }

  lemma {:induction false} RunNext(cap: nat, b: Book, es: seq<Event>)
    requires es != []
    ensures Run(cap, b, es) == Process(cap, Run(cap, b, es[..|es| - 1]), es[|es| - 1]).0
    decreases |es|
  {
    hide Process;
    if |es| > 1 {
      RunNext(cap, Process(cap, b, es[0]).0, es[1..]);
      assert es[1..][..|es| - 2] == es[..|es| - 1][1..];
    }
  }

  /** After every feed from the empty book, an order is live under a reference if and only if the
      events leave one standing there, and it is that order. */
  lemma {:induction false} LiveIsStanding(cap: nat, es: seq<Event>, ref: nat)
    ensures Lookup(Run(cap, Empty, es).orders, ref) == Standing(es, ref)
    decreases |es|
  {
    hide SubQty, AddQty;
    if es != [] {
      var past, e := es[..|es| - 1], es[|es| - 1];
      RunNext(cap, Empty, es);
      LiveIsStanding(cap, past, ref);
      if e.Replace? {
        LiveIsStanding(cap, past, e.orig);
      }
    }
  }

  /** The event names a side there is, or a reference with an order standing under it. */
  predicate ActedOn(es: seq<Event>, e: Event) {
    match e
    case Add(_, side, _, _) => side in {'B', 'S'}
    case Reduce(ref, _) => Standing(es, ref).Some?
    case Delete(ref) => Standing(es, ref).Some?
    case Replace(orig, _, _, _) => Standing(es, orig).Some?
    case Other => false
  }

  /** So the flag of the next event, too, is told from the events before it. */
  lemma FlagFromFeed(cap: nat, es: seq<Event>, e: Event)
    ensures Process(cap, Run(cap, Empty, es), e).1 <==> ActedOn(es, e)
  {
    hide Standing, Run, Process;
    FlagExact(cap, Run(cap, Empty, es), e);
    match e
    case Reduce(ref, _) => LiveIsStanding(cap, es, ref);
    case Delete(ref) => LiveIsStanding(cap, es, ref);
    case Replace(orig, _, _, _) => LiveIsStanding(cap, es, orig);
    case _ =>
  }

  /** Each side in its own order: after every feed the bids go down from the highest and the asks up
      from the lowest, no price twice, no level empty, none beyond the depth. */
  lemma BestFirst(cap: nat, es: seq<Event>)
    requires cap > 0
    ensures var b := Run(cap, Empty, es);
            && |b.bids| <= cap && |b.asks| <= cap
            && (forall i, j | 0 <= i < j < |b.bids| :: b.bids[i].price > b.bids[j].price)
            && (forall i, j | 0 <= i < j < |b.asks| :: b.asks[i].price < b.asks[j].price)
            && (forall i | 0 <= i < |b.bids| :: b.bids[i].qty > 0)
            && (forall i | 0 <= i < |b.asks| :: b.asks[i].qty > 0)
  {
    hide Run, Live, Positive;
    EmptyInv(cap);
    FeedAgrees(cap, Empty, es);
  }

  // ------------------------------------------------------------------ one order's life

  /** What the events ask to be taken off the order under `ref`, all together. */
  function Asked(es: seq<Event>, ref: nat): (n: nat) {
    if es == [] then 0
    else Asked(es[..|es| - 1], ref) +
         if es[|es| - 1].Reduce? && es[|es| - 1].ref == ref then es[|es| - 1].shares else 0
  }

  /** The event could enter another order under `ref`. */
  predicate Enters(e: Event, ref: nat) {
    (e.Add? && e.ref == ref) || (e.Replace? && e.newRef == ref)
  }

  predicate Cuts(e: Event, ref: nat) {
    e.Reduce? && e.ref == ref
  }

  predicate Ends(e: Event, ref: nat) {
    (e.Delete? && e.ref == ref) || (e.Replace? && e.orig == ref)
  }

  predicate AnyCuts(es: seq<Event>, ref: nat) {
    exists e <- es :: Cuts(e, ref)
  }

  predicate AnyEnds(es: seq<Event>, ref: nat) {
    exists e <- es :: Ends(e, ref)
  }

  lemma AnyNext(es: seq<Event>, e: Event, ref: nat)
    ensures AnyCuts(es + [e], ref) <==> AnyCuts(es, ref) || Cuts(e, ref)
    ensures AnyEnds(es + [e], ref) <==> AnyEnds(es, ref) || Ends(e, ref)
  {
    assert e in es + [e];
    assert forall d <- es :: d in es + [e];
  }

  lemma OneEvent(cap: nat, b: Book, e: Event, ref: nat)
    requires !Enters(e, ref)
    ensures var was := Lookup(b.orders, ref);
            Lookup(Process(cap, b, e).0.orders, ref) ==
            if was.None? || Ends(e, ref) then None
            else if !Cuts(e, ref) then was
            else if e.shares >= was.value.qty then None
            else Some(was.value.(qty := was.value.qty - e.shares))
  {
    hide SubQty, AddQty;
  }

  /** From any book on, and until another order is entered under its reference, an order is live if
      and only if no event deleted or replaced it and the reductions, if any, ask for less than it had;
      it keeps its price and side and has what they left. */
  lemma {:induction false} OrderLife(cap: nat, b: Book, es: seq<Event>, ref: nat)
    requires ref in b.orders && forall e <- es :: !Enters(e, ref)
    ensures var o, now := b.orders[ref], Lookup(Run(cap, b, es).orders, ref);
            && (now.Some? <==> !AnyEnds(es, ref) && (AnyCuts(es, ref) ==> Asked(es, ref) < o.qty))
            && (now.Some? ==> Asked(es, ref) <= o.qty && now.value == Order(o.price, o.qty - Asked(es, ref), o.side))
    decreases |es|
  {
    hide Process, AnyCuts, AnyEnds, Run;
    if es == [] {
      NoEvents(cap, b, es, ref);
    } else {
      var past, e := es[..|es| - 1], es[|es| - 1];
      assert es == past + [e];
      RunNext(cap, b, es);
      OrderLife(cap, b, past, ref);
      AnyNext(past, e, ref);
      OneEvent(cap, Run(cap, b, past), e, ref);
      if !AnyCuts(past, ref) {
        NothingAsked(past, ref);
      }
    }
  }

  lemma NoEvents(cap: nat, b: Book, es: seq<Event>, ref: nat)
    requires es == []
    ensures !AnyCuts(es, ref) && !AnyEnds(es, ref) && Run(cap, b, es) == b
  {}

  lemma {:induction false} NothingAsked(es: seq<Event>, ref: nat)
    requires !AnyCuts(es, ref)
    ensures Asked(es, ref) == 0
  {
    if es != [] {
      var past, e := es[..|es| - 1], es[|es| - 1];
      assert es == past + [e];
      AnyNext(past, e, ref);
      NothingAsked(past, ref);
    }
  }
}
