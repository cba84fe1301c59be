/** The order-level feed turned into price levels: live orders, per-price accumulators and the two
    bounded sides. Prices are the feed's integer ticks; quantities are whole shares. */
module ItchBook {
  import opened Basics
  import opened ArrayBook
  import opened BookView

  datatype Order = Order(price: nat, qty: nat, side: char)

  /** Add covers both add messages; Reduce covers execution, execution with price, and cancel. */
  datatype Event =
    | Add(ref: nat, side: char, shares: nat, price: nat)
    | Reduce(ref: nat, shares: nat)
    | Delete(ref: nat)
    | Replace(orig: nat, newRef: nat, shares: nat, price: nat)
    | Other

  type Orders = map<nat, Order>
  type Totals = map<nat, nat>

  datatype Book = Book(orders: Orders, bidQty: Totals, askQty: Totals, bids: seq<Level>, asks: seq<Level>)

  const Empty: Book := Book(map[], map[], map[], [], [])

  function TotalAt(m: Totals, price: nat): (q: nat) {
    if price in m then m[price] else 0
  }

  function TotalsOf(b: Book, side: char): (m: Totals) {
    if side == 'B' then b.bidQty else b.askQty
  }

  /** Write back one side: its accumulator map and the level it shows at `price`. */
  function Push(cap: nat, b: Book, side: char, m: Totals, price: nat, total: nat): (r: Book)
    ensures r.orders == b.orders
  {
    if side == 'B' then b.(bidQty := m, bids := Update(true, cap, b.bids, price, total))
    else b.(askQty := m, asks := Update(false, cap, b.asks, price, total))
  }

  function AddQty(cap: nat, b: Book, price: nat, qty: nat, side: char): (r: Book)
    ensures r.orders == b.orders
  {
    var m := TotalsOf(b, side);
    var total := TotalAt(m, price) + qty;
    Push(cap, b, side, m[price := total], price, total)
  }

  function SubQty(cap: nat, b: Book, price: nat, qty: nat, side: char): (r: Book)
    ensures r.orders == b.orders
  {
    var m := TotalsOf(b, side);
    if price !in m then Push(cap, b, side, m, price, 0)
    else if m[price] <= qty then Push(cap, b, side, m - {price}, price, 0)
    else Push(cap, b, side, m[price := m[price] - qty], price, m[price] - qty)
  }

  /** Drop a live order and its quantity. */
  function Drop(cap: nat, b: Book, ref: nat): (r: Book)
    requires ref in b.orders
    ensures r.orders == b.orders - {ref}
  {
    var o := b.orders[ref];
    SubQty(cap, b.(orders := b.orders - {ref}), o.price, o.qty, o.side)
  }

  /** Enter an order under a reference, evicting whatever was live under it. */
  function Enter(cap: nat, b: Book, ref: nat, o: Order): (r: Book)
    ensures r.orders == b.orders[ref := o]
  {
    var c := if ref in b.orders then Drop(cap, b, ref) else b;
    AddQty(cap, c.(orders := c.orders[ref := o]), o.price, o.qty, o.side)
  }

  /** The book after an event, and whether the event was acted on. */
  function Process(cap: nat, b: Book, e: Event): (r: (Book, bool)) {
    match e
    case Add(ref, side, shares, price) =>
      if side != 'B' && side != 'S' then (b, false)
      else (Enter(cap, b, ref, Order(price, shares, side)), true)
    case Reduce(ref, shares) =>
      if ref !in b.orders then (b, false)
      else
        var o := b.orders[ref];
        var cut := Min(shares, o.qty);
        var left := if o.qty == cut then b.orders - {ref} else b.orders[ref := o.(qty := o.qty - cut)];
        (SubQty(cap, b.(orders := left), o.price, cut, o.side), true)
    case Delete(ref) =>
      if ref !in b.orders then (b, false) else (Drop(cap, b, ref), true)
    case Replace(orig, newRef, shares, price) =>
      if orig !in b.orders then (b, false)
      else
        var side := b.orders[orig].side;
        (Enter(cap, Drop(cap, b, orig), newRef, Order(price, shares, side)), true)
    case Other => (b, false)
  }

  function Run(cap: nat, b: Book, es: seq<Event>): (r: Book)
    decreases |es|
  {
    if es == [] then b else Run(cap, Process(cap, b, es[0]).0, es[1..])
  }

  // ------------------------------------------------------ the live orders' sum

  function Share(o: Order, side: char, price: nat): (q: nat) {
    if o.side == side && o.price == price then o.qty else 0
  }

  /** Remaining quantity of the live orders on one side at one price. */
  ghost function Live(orders: Orders, side: char, price: nat): (q: nat) {
    if orders == map[] then 0
    else
      var ref :| ref in orders;
      Share(orders[ref], side, price) + Live(orders - {ref}, side, price)
  }

  lemma {:induction false} LiveWithout(orders: Orders, ref: nat, side: char, price: nat)
    requires ref in orders
    ensures Live(orders, side, price) == Share(orders[ref], side, price) + Live(orders - {ref}, side, price)
    decreases |orders|
  {
    var r :| r in orders &&
             Live(orders, side, price) == Share(orders[r], side, price) + Live(orders - {r}, side, price);
    if r != ref {
      LiveWithout(orders - {r}, ref, side, price);
      LiveWithout(orders - {ref}, r, side, price);
      assert orders - {r} - {ref} == orders - {ref} - {r};
    }
  }

  lemma LiveWith(orders: Orders, ref: nat, o: Order, side: char, price: nat)
    requires ref !in orders
    ensures Live(orders[ref := o], side, price) == Share(o, side, price) + Live(orders, side, price)
  {
    LiveWithout(orders[ref := o], ref, side, price);
    assert orders[ref := o] - {ref} == orders;
  }

  lemma LiveChanged(orders: Orders, ref: nat, o: Order, side: char, price: nat)
    requires ref in orders
    ensures Live(orders[ref := o], side, price) + Share(orders[ref], side, price)
         == Live(orders, side, price) + Share(o, side, price)
  {
    LiveWithout(orders, ref, side, price);
    LiveWithout(orders[ref := o], ref, side, price);
    assert orders[ref := o] - {ref} == orders - {ref};
  }

  // ---------------------------------------------------------------- invariant

  /** The aggregate a side stands for: the prices with quantity. */
  function Positive(m: Totals): (agg: Aggregate) {
    map p | p in m && m[p] > 0 :: m[p]
  }

  /** Each accumulator is the sum of the live orders there. */
  ghost predicate Agrees(orders: Orders, m: Totals, side: char) {
    forall price: nat :: TotalAt(m, price) == Live(orders, side, price)
  }

  predicate SidesOk(orders: Orders) {
    forall ref <- orders :: orders[ref].side == 'B' || orders[ref].side == 'S'
  }

  ghost predicate Accounts(b: Book) {
    SidesOk(b.orders) && Agrees(b.orders, b.bidQty, 'B') && Agrees(b.orders, b.askQty, 'S')
  }

  predicate Display(cap: nat, b: Book) {
    Faithful(true, cap, b.bids, Positive(b.bidQty)) && Faithful(false, cap, b.asks, Positive(b.askQty))
  }

  ghost predicate Inv(cap: nat, b: Book) {
    Accounts(b) && Display(cap, b)
  }

  lemma PositiveSet(m: Totals, price: nat, total: nat)
    ensures Positive(m[price := total]) == Change(Positive(m), price, total)
  {}

  lemma PositiveErase(m: Totals, price: nat)
    ensures Positive(m - {price}) == Change(Positive(m), price, 0)
  {}

  lemma PositiveAbsent(m: Totals, price: nat)
    requires price !in m
    ensures Positive(m) == Change(Positive(m), price, 0)
  {}

  lemma PushDisplay(cap: nat, b: Book, side: char, m: Totals, price: nat, total: nat)
    requires cap > 0 && Display(cap, b)
    requires Positive(m) == Change(Positive(TotalsOf(b, side)), price, total)
    ensures Display(cap, Push(cap, b, side, m, price, total))
  {
    hide Faithful, Update, Positive, Change;
    if side == 'B' {
      UpdateFaithful(true, cap, b.bids, Positive(b.bidQty), price, total);
    } else {
      UpdateFaithful(false, cap, b.asks, Positive(b.askQty), price, total);
    }
  }

  /** Adding an order's quantity after recording the order. */
  lemma AddKeeps(cap: nat, b: Book, ref: nat, o: Order)
    requires cap > 0 && Inv(cap, b) && ref !in b.orders && (o.side == 'B' || o.side == 'S')
    ensures Inv(cap, AddQty(cap, b.(orders := b.orders[ref := o]), o.price, o.qty, o.side))
  {
    hide Faithful, Update, Live, Positive;
    var c := b.(orders := b.orders[ref := o]);
    var m := TotalsOf(b, o.side);
    var total := TotalAt(m, o.price) + o.qty;
    PositiveSet(m, o.price, total);
    PushDisplay(cap, c, o.side, m[o.price := total], o.price, total);
    forall side: char, price: nat
      ensures Live(c.orders, side, price) == Share(o, side, price) + Live(b.orders, side, price)
    {
      LiveWith(b.orders, ref, o, side, price);
    }
  }

  lemma SubDisplay(cap: nat, b: Book, price: nat, cut: nat, side: char)
    requires cap > 0 && Display(cap, b)
    ensures Display(cap, SubQty(cap, b, price, cut, side))
  {
    hide Display, Update, Positive;
    var m := TotalsOf(b, side);
    if price !in m {
      PositiveAbsent(m, price);
      PushDisplay(cap, b, side, m, price, 0);
    } else if m[price] <= cut {
      PositiveErase(m, price);
      PushDisplay(cap, b, side, m - {price}, price, 0);
    } else {
      PositiveSet(m, price, m[price] - cut);
      PushDisplay(cap, b, side, m[price := m[price] - cut], price, m[price] - cut);
    }
  }

  lemma SubTotals(cap: nat, b: Book, price: nat, cut: nat, side: char, s: char, p: nat)
    requires (side == 'B' || side == 'S') && (s == 'B' || s == 'S')
    ensures var was := TotalAt(TotalsOf(b, s), p);
            TotalAt(TotalsOf(SubQty(cap, b, price, cut, side), s), p) ==
            if s != side || p != price then was else if was <= cut then 0 else was - cut
  {
    hide Update;
  }

  /** Subtracting `cut` shares of one order after its record has been cut by as much. */
  lemma SubKeeps(cap: nat, b: Book, orders: Orders, o: Order, cut: nat)
    requires cap > 0 && Inv(cap, b) && SidesOk(orders) && (o.side == 'B' || o.side == 'S')
    requires forall side: char, price: nat ::
               Live(orders, side, price) + Share(o.(qty := cut), side, price) == Live(b.orders, side, price)
    ensures Inv(cap, SubQty(cap, b.(orders := orders), o.price, cut, o.side))
  {
    hide Display, Live, SubQty, TotalAt;
    var c := b.(orders := orders);
    SameDisplay(cap, b, orders);
    SubDisplay(cap, c, o.price, cut, o.side);
    forall s: char, p: nat | s == 'B' || s == 'S'
      ensures TotalAt(TotalsOf(SubQty(cap, c, o.price, cut, o.side), s), p) == Live(orders, s, p)
    {
      assert TotalAt(TotalsOf(b, s), p) == Live(b.orders, s, p);
      SubTotals(cap, c, o.price, cut, o.side, s, p);
    }
  }

  lemma SameDisplay(cap: nat, b: Book, orders: Orders)
    requires Display(cap, b)
    ensures Display(cap, b.(orders := orders))
  {}

  lemma DropKeeps(cap: nat, b: Book, ref: nat)
    requires cap > 0 && Inv(cap, b) && ref in b.orders
    ensures Inv(cap, Drop(cap, b, ref))
  {
    hide Live, Display;
    var o := b.orders[ref];
    forall side: char, price: nat
      ensures Live(b.orders - {ref}, side, price) + Share(o.(qty := o.qty), side, price) == Live(b.orders, side, price)
    {
      LiveWithout(b.orders, ref, side, price);
    }
    SubKeeps(cap, b, b.orders - {ref}, o, o.qty);
  }

  lemma EnterKeeps(cap: nat, b: Book, ref: nat, o: Order)
    requires cap > 0 && Inv(cap, b) && (o.side == 'B' || o.side == 'S')
    ensures Inv(cap, Enter(cap, b, ref, o))
  {
    hide Inv;
    if ref in b.orders {
      DropKeeps(cap, b, ref);
      AddKeeps(cap, Drop(cap, b, ref), ref, o);
    } else {
      AddKeeps(cap, b, ref, o);
    }
  }

  lemma ReduceKeeps(cap: nat, b: Book, ref: nat, shares: nat)
    requires cap > 0 && Inv(cap, b) && ref in b.orders
    ensures Inv(cap, Process(cap, b, Reduce(ref, shares)).0)
  {
    hide Live, Display;
    var o := b.orders[ref];
    var cut := Min(shares, o.qty);
    var left := if o.qty == cut then b.orders - {ref} else b.orders[ref := o.(qty := o.qty - cut)];
    forall side: char, price: nat
      ensures Live(left, side, price) + Share(o.(qty := cut), side, price) == Live(b.orders, side, price)
    {
      if o.qty == cut {
        LiveWithout(b.orders, ref, side, price);
      } else {
        LiveChanged(b.orders, ref, o.(qty := o.qty - cut), side, price);
      }
    }
    SubKeeps(cap, b, left, o, cut);
  }

  lemma ProcessKeeps(cap: nat, b: Book, e: Event)
    requires cap > 0 && Inv(cap, b)
    ensures Inv(cap, Process(cap, b, e).0)
  {
    hide Live, Display, Agrees, Enter, Drop;
    match e
    case Add(ref, side, shares, price) =>
      if side == 'B' || side == 'S' {
        EnterKeeps(cap, b, ref, Order(price, shares, side));
      }
    case Reduce(ref, shares) =>
      if ref in b.orders {
        ReduceKeeps(cap, b, ref, shares);
      }
    case Delete(ref) =>
      if ref in b.orders {
        DropKeeps(cap, b, ref);
      }
    case Replace(orig, newRef, shares, price) =>
      if orig in b.orders {
        DropKeeps(cap, b, orig);
        EnterKeeps(cap, Drop(cap, b, orig), newRef, Order(price, shares, b.orders[orig].side));
      }
    case Other =>
  }

  /** After any feed whatever, repeated references and bad sides included: each accumulator equals the
      remaining quantity of the live orders at its side and price, and each side is sorted, within its
      bound, and shows at every level exactly that quantity. */
  lemma {:induction false} FeedAgrees(cap: nat, b: Book, es: seq<Event>)
    requires cap > 0 && Inv(cap, b)
    ensures Inv(cap, Run(cap, b, es))
    decreases |es|
  {
    hide Inv, Process;
    if es != [] {
      ProcessKeeps(cap, b, es[0]);
      FeedAgrees(cap, Process(cap, b, es[0]).0, es[1..]);
    }
  }

  lemma EmptyInv(cap: nat)
    ensures Inv(cap, Empty)
  {}

  // --------------------------------------------------- when nothing is hidden

  /** No more prices with quantity than a side has places. */
  predicate Shallow(cap: nat, b: Book) {
    |Positive(b.bidQty)| <= cap && |Positive(b.askQty)| <= cap
  }

  /** Both sides show everything there is. */
  predicate Complete(cap: nat, b: Book) {
    Top(true, cap, b.bids, Positive(b.bidQty)) && Top(false, cap, b.asks, Positive(b.askQty))
  }

  lemma NothingUncovered(descending: bool, cap: nat, levels: seq<Level>, agg: Aggregate, price: nat, total: nat)
    requires Top(descending, cap, levels, agg) && |agg| <= cap
    ensures !Uncovers(levels, agg, price, total)
  {
    TopIsAll(descending, cap, levels, agg);
    assert forall p <- agg :: Level(p, agg[p]) in levels;
  }

  lemma PushComplete(cap: nat, b: Book, side: char, m: Totals, price: nat, total: nat)
    requires cap > 0 && Complete(cap, b) && Shallow(cap, b)
    requires Positive(m) == Change(Positive(TotalsOf(b, side)), price, total)
    ensures Complete(cap, Push(cap, b, side, m, price, total))
  {
    hide Top, Update, Positive, Change, Uncovers;
    if side == 'B' {
      NothingUncovered(true, cap, b.bids, Positive(b.bidQty), price, total);
      UpdateTopIff(true, cap, b.bids, Positive(b.bidQty), price, total);
    } else {
      NothingUncovered(false, cap, b.asks, Positive(b.askQty), price, total);
      UpdateTopIff(false, cap, b.asks, Positive(b.askQty), price, total);
    }
  }

  lemma AddComplete(cap: nat, b: Book, price: nat, qty: nat, side: char)
    requires cap > 0 && Complete(cap, b) && Shallow(cap, b)
    ensures Complete(cap, AddQty(cap, b, price, qty, side))
  {
    hide Top, Update, Positive;
    var m := TotalsOf(b, side);
    PositiveSet(m, price, TotalAt(m, price) + qty);
    PushComplete(cap, b, side, m[price := TotalAt(m, price) + qty], price, TotalAt(m, price) + qty);
  }

  /** Taking quantity away from a price adds no price. */
  lemma NoNewPrice(m: Totals, price: nat, less: nat)
    requires price in m && less <= m[price]
    ensures |Positive(m[price := less])| <= |Positive(m)| && |Positive(m - {price})| <= |Positive(m)|
  {
    SubsetSize(Positive(m[price := less]).Keys, Positive(m).Keys);
    SubsetSize(Positive(m - {price}).Keys, Positive(m).Keys);
  }

  lemma SubComplete(cap: nat, b: Book, price: nat, qty: nat, side: char)
    requires cap > 0 && Complete(cap, b) && Shallow(cap, b)
    ensures var r := SubQty(cap, b, price, qty, side); Complete(cap, r) && Shallow(cap, r)
  {
    hide Top, Update, Positive;
    var m := TotalsOf(b, side);
    if price !in m {
      PositiveAbsent(m, price);
      PushComplete(cap, b, side, m, price, 0);
    } else if m[price] <= qty {
      PositiveErase(m, price);
      NoNewPrice(m, price, 0);
      PushComplete(cap, b, side, m - {price}, price, 0);
    } else {
      PositiveSet(m, price, m[price] - qty);
      NoNewPrice(m, price, m[price] - qty);
      PushComplete(cap, b, side, m[price := m[price] - qty], price, m[price] - qty);
    }
  }

  lemma EnterComplete(cap: nat, b: Book, ref: nat, o: Order)
    requires cap > 0 && Complete(cap, b) && Shallow(cap, b)
    ensures Complete(cap, Enter(cap, b, ref, o))
  {
    hide Top, Positive, AddQty, SubQty;
    var c := b;
    if ref in b.orders {
      var was := b.orders[ref];
      SubComplete(cap, b.(orders := b.orders - {ref}), was.price, was.qty, was.side);
      c := Drop(cap, b, ref);
    }
    AddComplete(cap, c.(orders := c.orders[ref := o]), o.price, o.qty, o.side);
  }

  lemma ProcessComplete(cap: nat, b: Book, e: Event)
    requires cap > 0 && Complete(cap, b) && Shallow(cap, b)
    ensures Complete(cap, Process(cap, b, e).0)
  {
    hide Top, Positive, SubQty, Enter;
    match e
    case Add(ref, side, shares, price) =>
      EnterComplete(cap, b, ref, Order(price, shares, side));
    case Reduce(ref, shares) =>
      if ref in b.orders {
        var o := b.orders[ref];
        var cut := Min(shares, o.qty);
        var left := if o.qty == cut then b.orders - {ref} else b.orders[ref := o.(qty := o.qty - cut)];
        SubComplete(cap, b.(orders := left), o.price, cut, o.side);
      }
    case Delete(ref) =>
      if ref in b.orders {
        var o := b.orders[ref];
        SubComplete(cap, b.(orders := b.orders - {ref}), o.price, o.qty, o.side);
      }
    case Replace(orig, newRef, shares, price) =>
      if orig in b.orders {
        var o := b.orders[orig];
        SubComplete(cap, b.(orders := b.orders - {orig}), o.price, o.qty, o.side);
        EnterComplete(cap, Drop(cap, b, orig), newRef, Order(price, shares, o.side));
      }
    case Other =>
  }

  /** No prefix of the feed has more prices with quantity than places. */
  predicate ShallowFeed(cap: nat, b: Book, es: seq<Event>)
    decreases |es|
  {
    Shallow(cap, b) && (es != [] ==> ShallowFeed(cap, Process(cap, b, es[0]).0, es[1..]))
  }

  lemma {:induction false} CompleteFeed(cap: nat, b: Book, es: seq<Event>)
    requires cap > 0 && Complete(cap, b) && ShallowFeed(cap, b, es)
    ensures Complete(cap, Run(cap, b, es)) && Shallow(cap, Run(cap, b, es))
    decreases |es|
  {
    hide Complete, Shallow, Process;
    if es != [] {
      ProcessComplete(cap, b, es[0]);
      CompleteFeed(cap, Process(cap, b, es[0]).0, es[1..]);
    }
  }

  /** While distinct prices never exceed the places, the book shows at every price exactly the live
      orders' remaining quantity: a level if and only if there is some, and the amount is right. */
  lemma ShallowFeedShowsAll(cap: nat, es: seq<Event>, price: nat, qty: nat)
    requires cap > 0 && ShallowFeed(cap, Empty, es)
    ensures var b := Run(cap, Empty, es);
            && (Level(price, qty) in b.bids <==> qty > 0 && qty == Live(b.orders, 'B', price))
            && (Level(price, qty) in b.asks <==> qty > 0 && qty == Live(b.orders, 'S', price))
  {
    hide Live, Run, ShallowFeed, Top, Display;
    EmptyInv(cap);
    assert Complete(cap, Empty) by { EmptyComplete(cap); }
    FeedAgrees(cap, Empty, es);
    CompleteFeed(cap, Empty, es);
    var b := Run(cap, Empty, es);
    ShowsTotal(true, cap, b.bids, b.bidQty, price, qty);
    ShowsTotal(false, cap, b.asks, b.askQty, price, qty);
    assert TotalAt(b.bidQty, price) == Live(b.orders, 'B', price);
    assert TotalAt(b.askQty, price) == Live(b.orders, 'S', price);
  }

  lemma EmptyComplete(cap: nat)
    ensures Complete(cap, Empty)
  {}

  lemma ShowsTotal(descending: bool, cap: nat, levels: seq<Level>, m: Totals, price: nat, qty: nat)
    requires Top(descending, cap, levels, Positive(m)) && |Positive(m)| <= cap
    ensures Level(price, qty) in levels <==> qty > 0 && qty == TotalAt(m, price)
  {
    TopIsAll(descending, cap, levels, Positive(m));
    if qty > 0 && qty == TotalAt(m, price) {
      assert price in Positive(m);
    }
  }

  // -------------------------------------------------------- what each event does

  /** The quantity of the order live under `ref`, if there is one. */
  function Held(orders: Orders, ref: nat, side: char, price: nat): (q: nat) {
    if ref in orders then Share(orders[ref], side, price) else 0
  }

  /** How an event moves the quantity live at a side and price: an add brings its shares to its price, a
      reduction takes the asked shares but never more than the order has left, a delete takes all that
      is left, a replace takes the old order's remainder and brings the new shares on the same side. An
      order already live under the new reference goes, with all it has left. An unknown reference or a
      bad side moves nothing. */
  function Moved(orders: Orders, e: Event, side: char, price: nat): (d: int) {
    match e
    case Add(ref, s, shares, p) =>
      if s != 'B' && s != 'S' then 0
      else Share(Order(p, shares, s), side, price) - Held(orders, ref, side, price)
    case Reduce(ref, shares) =>
      if ref !in orders then 0
      else 0 - Share(orders[ref].(qty := Min(shares, orders[ref].qty)), side, price)
    case Delete(ref) => 0 - Held(orders, ref, side, price)
    case Replace(orig, newRef, shares, p) =>
      if orig !in orders then 0
      else Share(Order(p, shares, orders[orig].side), side, price) - Held(orders, orig, side, price)
           - (if newRef == orig then 0 else Held(orders, newRef, side, price))
    case Other => 0
  }

  lemma LiveEntered(orders: Orders, ref: nat, o: Order, side: char, price: nat)
    ensures Live(orders[ref := o], side, price)
         == Live(orders, side, price) + Share(o, side, price) - Held(orders, ref, side, price)
  {
    if ref in orders {
      LiveChanged(orders, ref, o, side, price);
    } else {
      LiveWith(orders, ref, o, side, price);
    }
  }

  /** Every event, whatever its reference and side, moves the live quantities by exactly that. */
  lemma EventEffect(cap: nat, b: Book, e: Event, side: char, price: nat)
    ensures Live(Process(cap, b, e).0.orders, side, price) ==
            Live(b.orders, side, price) + Moved(b.orders, e, side, price)
  {
    hide Live, SubQty, Enter, Drop;
    match e
    case Add(ref, s, shares, p) =>
      LiveEntered(b.orders, ref, Order(p, shares, s), side, price);
    case Reduce(ref, shares) =>
      if ref in b.orders {
        var o := b.orders[ref];
        LiveWithout(b.orders, ref, side, price);
        LiveChanged(b.orders, ref, o.(qty := o.qty - Min(shares, o.qty)), side, price);
      }
    case Delete(ref) =>
      if ref in b.orders {
        LiveWithout(b.orders, ref, side, price);
      }
    case Replace(orig, newRef, shares, p) =>
      if orig in b.orders {
        LiveWithout(b.orders, orig, side, price);
        LiveEntered(b.orders - {orig}, newRef, Order(p, shares, b.orders[orig].side), side, price);
      }
    case Other =>
  }
}
