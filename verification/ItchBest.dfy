/** When the displayed book is the best of all live orders, event by event over a whole feed. */
module ItchBest {
  import opened ArrayBook
  import opened BookView
  import opened BookMoves
  import opened BookBest
  import opened ItchBook
  import opened ItchDisplay

  // ------------------------------------------------------------ events as updates

  /** The prices of the aggregate are those where orders rest. */
  ghost predicate Stands(agg: Aggregate, orders: Orders, side: char) {
    forall p: nat :: p in agg <==> Live(orders, side, p) > 0
  }

  lemma BookStands(cap: nat, b: Book, side: char)
    requires Inv(cap, b) && (side == 'B' || side == 'S')
    ensures Stands(Positive(TotalsOf(b, side)), b.orders, side)
  {
    hide Live;
    var m := TotalsOf(b, side);
    assert Agrees(b.orders, m, side);
    forall p: nat ensures p in Positive(m) <==> Live(b.orders, side, p) > 0 {
      assert TotalAt(m, p) == Live(b.orders, side, p);
    }
  }

  /** Dropping an order is one update on its side, downwards, and none on the other. */
  lemma DropStands(agg: Aggregate, orders: Orders, ref: nat, side: char)
    requires ref in orders && Stands(agg, orders, side)
    ensures var o, rest := orders[ref], orders - {ref};
            var t := Live(rest, side, o.price);
            && (o.side == side ==> Stands(Change(agg, o.price, t), rest, side) && (t > 0 ==> o.price in agg))
            && (o.side != side ==> Stands(agg, rest, side))
  {
    hide Live;
    forall p: nat
      ensures Live(orders - {ref}, side, p) <= Live(orders, side, p)
      ensures p != orders[ref].price || side != orders[ref].side ==>
                Live(orders - {ref}, side, p) == Live(orders, side, p)
    {
      LiveDropped(orders, ref, side, p);
    }
  }

  lemma TwoOn(a: Push, b: Push, side: char)
    ensures On([a] + [b], side) == Lead(a, side) + Lead(b, side)
  {
    hide On;
    OnAppend([a], [b], side);
    OneOn(a.side, a.price, a.total, side);
    OneOn(b.side, b.price, b.total, side);
  }

  lemma EnterEventlike(agg: Aggregate, orders: Orders, ref: nat, o: Order, side: char)
    requires Stands(agg, orders, side)
    ensures Eventlike(agg, On(EnterPushes(orders, ref, o), side))
  {
    hide Live, On, Stands;
    var last := PushAt(orders[ref := o], o);
    LiveRaised(orders, ref, o, o.side, o.price);
    if ref in orders {
      var first := PushAt(orders - {ref}, orders[ref]);
      TwoOn(first, last, side);
      DropStands(agg, orders, ref, side);
      if first.side == side == last.side {
        StandsAt(Change(agg, first.price, first.total), orders - {ref}, side, last.price);
      }
    } else {
      assert [] + [last] == [last];
      OneOn(last.side, last.price, last.total, side);
    }
  }

  lemma StandsAt(agg: Aggregate, orders: Orders, side: char, p: nat)
    requires Stands(agg, orders, side)
    ensures p in agg <==> Live(orders, side, p) > 0
  {}

  lemma ReplaceEventlike(agg: Aggregate, orders: Orders, orig: nat, ref: nat, o: Order, side: char)
    requires orig in orders && o.side == orders[orig].side && Stands(agg, orders, side)
    ensures Eventlike(agg, On(DropPushes(orders, orig) + EnterPushes(orders - {orig}, ref, o), side))
  {
    hide Live, On, Stands;
    var rest := orders - {orig};
    var first, last := PushAt(rest, orders[orig]), PushAt(rest[ref := o], o);
    LiveRaised(rest, ref, o, o.side, o.price);
    DropStands(agg, orders, orig, side);
    OnAppend(DropPushes(orders, orig), EnterPushes(rest, ref, o), side);
    OneOn(first.side, first.price, first.total, side);
    if first.side != side {
      EnterEventlike(agg, rest, ref, o, side);
      assert On(DropPushes(orders, orig), side) == [];
      assert [] + On(EnterPushes(rest, ref, o), side) == On(EnterPushes(rest, ref, o), side);
    } else {
      var agg1 := Change(agg, first.price, first.total);
      if ref in rest {
        var mid := PushAt(rest - {ref}, rest[ref]);
        TwoOn(mid, last, side);
        DropStands(agg1, rest, ref, side);
        StandsAt(if mid.side == side then Change(agg1, mid.price, mid.total) else agg1, rest - {ref}, side, last.price);
      } else {
        assert rest - {ref} == rest;
        assert [] + [last] == [last];
        OneOn(last.side, last.price, last.total, side);
        StandsAt(agg1, rest, side, last.price);
      }
    }
  }

  lemma PushesEventlike(cap: nat, b: Book, e: Event, side: char)
    requires Inv(cap, b) && (side == 'B' || side == 'S')
    ensures Eventlike(Positive(TotalsOf(b, side)), On(Pushes(b, e), side))
  {
    hide Inv, Live, EnterPushes, DropPushes, PushAt, Reduced, Stands, Positive;
    var agg := Positive(TotalsOf(b, side));
    BookStands(cap, b, side);
    if Ignored(b, e) {
      FewUpdates(agg, [], side);
    } else {
      match e
      case Add(ref, s, shares, price) =>
        EnterEventlike(agg, b.orders, ref, Order(price, shares, s), side);
      case Reduce(ref, shares) =>
        FewUpdates(agg, [PushAt(Reduced(b.orders, ref, shares), b.orders[ref])], side);
      case Delete(ref) =>
        OneDrop(b.orders, ref);
        FewUpdates(agg, DropPushes(b.orders, ref), side);
      case Replace(orig, newRef, shares, price) =>
        ReplaceEventlike(agg, b.orders, orig, newRef, Order(price, shares, b.orders[orig].side), side);
    }
  }

  lemma FewUpdates(agg: Aggregate, ps: seq<Push>, side: char)
    requires |ps| <= 1
    ensures Eventlike(agg, On(ps, side))
  {}

  lemma OneDrop(orders: Orders, ref: nat)
    ensures |DropPushes(orders, ref)| <= 1
  {}

  // -------------------------------------------------------------- the best of the live orders

  /** A price is shown exactly when orders rest there, with all they hold, unless the side is full and
      every level it shows is better. */
  ghost predicate BestAt(descending: bool, cap: nat, levels: seq<Level>, orders: Orders, side: char, price: nat) {
    var q := Live(orders, side, price);
    && (q == 0 ==> !Displays(levels, price))
    && (q > 0 ==> Level(price, q) in levels || (Beyond(descending, cap, levels, price) && !Displays(levels, price)))
  }

  ghost predicate BestSide(descending: bool, cap: nat, levels: seq<Level>, orders: Orders, side: char) {
    && Sorted(descending, levels) && |levels| <= cap
    && forall price: nat :: BestAt(descending, cap, levels, orders, side, price)
  }

  /** The displayed book is the best of all live orders. */
  ghost predicate ShowsBest(cap: nat, b: Book) {
    BestSide(true, cap, b.bids, b.orders, 'B') && BestSide(false, cap, b.asks, b.orders, 'S')
  }

  lemma BestIsTop(descending: bool, cap: nat, levels: seq<Level>, m: Totals, orders: Orders, side: char)
    requires Faithful(descending, cap, levels, Positive(m)) && Agrees(orders, m, side)
    ensures BestSide(descending, cap, levels, orders, side) <==> Top(descending, cap, levels, Positive(m))
  {
    hide Live, Positive;
    var agg := Positive(m);
    forall price: nat
      ensures BestAt(descending, cap, levels, orders, side, price) <==>
              (price in agg ==> Displays(levels, price) || Beyond(descending, cap, levels, price))
    {
      AggregateAt(m, orders, side, price);
      if Displays(levels, price) {
        var l :| l in levels && l.price == price;
        assert l == Level(price, agg[price]);
      } else {
        assert Level(price, Live(orders, side, price)) !in levels;
      }
    }
  }

  lemma AggregateAt(m: Totals, orders: Orders, side: char, price: nat)
    requires Agrees(orders, m, side)
    ensures price in Positive(m) <==> Live(orders, side, price) > 0
    ensures price in Positive(m) ==> Positive(m)[price] == Live(orders, side, price)
  {
    hide Live;
    assert TotalAt(m, price) == Live(orders, side, price);
  }

  lemma ShowsBestIs(cap: nat, b: Book)
    requires Inv(cap, b)
    ensures ShowsBest(cap, b) <==>
            Top(true, cap, b.bids, Positive(b.bidQty)) && Top(false, cap, b.asks, Positive(b.askQty))
  {
    hide BestSide, Top, Positive, Agrees;
    BestIsTop(true, cap, b.bids, b.bidQty, b.orders, 'B');
    BestIsTop(false, cap, b.asks, b.askQty, b.orders, 'S');
  }

  /** Told from the book before: the event keeps both sides the best of the live orders. */
  ghost predicate KeepsBest(b: Book, e: Event) {
    var ps := Pushes(b, e);
    && KeepsTop(true, b.bids, Positive(b.bidQty), On(ps, 'B'))
    && KeepsTop(false, b.asks, Positive(b.askQty), On(ps, 'S'))
  }

  lemma EventBestIff(cap: nat, b: Book, e: Event)
    requires cap > 0 && Inv(cap, b) && ShowsBest(cap, b)
    ensures ShowsBest(cap, Process(cap, b, e).0) <==> KeepsBest(b, e)
  {
    hide Inv, ShowsBest, Top, Process, Pushes, Positive, KeepsTop, Eventlike, On, Shown, Behind;
    var c := Process(cap, b, e).0;
    ProcessKeeps(cap, b, e);
    ProcessShows(cap, b, e);
    ShowsBestIs(cap, b);
    ShowsBestIs(cap, c);
    PushesEventlike(cap, b, e, 'B');
    PushesEventlike(cap, b, e, 'S');
    EventTopIff(true, cap, b.bids, Positive(b.bidQty), On(Pushes(b, e), 'B'));
    EventTopIff(false, cap, b.asks, Positive(b.askQty), On(Pushes(b, e), 'S'));
  }

  /** The book shows the best before the feed and after every event of it. */
  ghost predicate AlwaysBest(cap: nat, b: Book, es: seq<Event>)
    decreases |es|
  {
    ShowsBest(cap, b) && (es != [] ==> AlwaysBest(cap, Process(cap, b, es[0]).0, es[1..]))
  }

  ghost predicate EachKeepsBest(cap: nat, b: Book, es: seq<Event>)
    decreases |es|
  {
    es != [] ==> KeepsBest(b, es[0]) && EachKeepsBest(cap, Process(cap, b, es[0]).0, es[1..])
  }

  /** Over a feed however deep: the displayed book is the best of all live orders after every event if
      and only if each event meets the condition on the book it finds. */
  lemma {:induction false} FeedBestIff(cap: nat, b: Book, es: seq<Event>)
    requires cap > 0 && Inv(cap, b) && ShowsBest(cap, b)
    ensures AlwaysBest(cap, b, es) <==> EachKeepsBest(cap, b, es)
    decreases |es|
  {
    hide Inv, ShowsBest, Process, KeepsBest;
    if es != [] {
      var c := Process(cap, b, es[0]).0;
      ProcessKeeps(cap, b, es[0]);
      EventBestIff(cap, b, es[0]);
      if ShowsBest(cap, c) {
        FeedBestIff(cap, c, es[1..]);
      } else {
        NotAlways(cap, c, es[1..]);
      }
    }
  }

  lemma NotAlways(cap: nat, b: Book, es: seq<Event>)
    requires !ShowsBest(cap, b)
    ensures !AlwaysBest(cap, b, es)
  {}

  lemma {:induction false} BestAtTheEnd(cap: nat, b: Book, es: seq<Event>)
    requires AlwaysBest(cap, b, es)
    ensures ShowsBest(cap, Run(cap, b, es))
    decreases |es|
  {
    hide ShowsBest, Process;
    if es != [] {
      BestAtTheEnd(cap, Process(cap, b, es[0]).0, es[1..]);
    }
  }

  /** From the empty book on: while each event meets its condition, the displayed book is the best of
      all live orders. */
  lemma FeedShowsBest(cap: nat, es: seq<Event>)
    requires cap > 0 && EachKeepsBest(cap, Empty, es)
    ensures ShowsBest(cap, Run(cap, Empty, es))
  {
    hide Run, AlwaysBest, EachKeepsBest;
    EmptyInv(cap);
    EmptyBest(cap);
    FeedBestIff(cap, Empty, es);
    BestAtTheEnd(cap, Empty, es);
  }

  lemma EmptyBest(cap: nat)
    ensures ShowsBest(cap, Empty)
  {}

  // ---------------------------------------------------- an update that only looks like a loss

  /** Taking the only order off a shown price and putting quantity back there keeps the best shown,
      whatever is hidden. */
  lemma PutBackKeeps(descending: bool, cap: nat, levels: seq<Level>, agg: Aggregate, p: nat, t: nat)
    requires cap > 0 && Top(descending, cap, levels, agg) && Displays(levels, p) && t > 0
    ensures KeepsTop(descending, levels, agg, [(p, 0), (p, t)])
  {
    hide Top;
    TopFaithful(descending, cap, levels, agg);
    TopIs(descending, cap, levels, agg);
    var left := Spared(agg, [(p, 0), (p, t)]);
    assert forall h: nat :: Hides(levels, left, h) <==> Hides(levels, agg, h) && h != p;
  }
}
