/** What each event of the order feed shows: the level updates it makes, each with the true
    quantity then live at its price, and what the returned flag says of them. */
module ItchDisplay {
  import opened Basics
  import opened ArrayBook
  import opened BookView
  import opened BookMoves
  import opened ItchBook

  /** The total at one price of one side has become `total`. */
  datatype Push = Push(side: char, price: nat, total: nat)

  /** The total left live where order `o` was, once the orders are `orders`. */
  ghost function PushAt(orders: Orders, o: Order): (p: Push) {
    Push(o.side, o.price, Live(orders, o.side, o.price))
  }

  ghost function DropPushes(orders: Orders, ref: nat): (ps: seq<Push>)
  {
    if ref in orders then [PushAt(orders - {ref}, orders[ref])] else []
  }

  ghost function EnterPushes(orders: Orders, ref: nat, o: Order): (ps: seq<Push>) {
    DropPushes(orders, ref) + [PushAt(orders[ref := o], o)]
  }

  /** An event the builder does not act on. */
  predicate Ignored(b: Book, e: Event) {
    match e
    case Add(_, side, _, _) => side != 'B' && side != 'S'
    case Reduce(ref, _) => ref !in b.orders
    case Delete(ref) => ref !in b.orders
    case Replace(orig, _, _, _) => orig !in b.orders
    case Other => true
  }

  /** The updates an event makes, in order, with the quantities live after each. */
  ghost function Pushes(b: Book, e: Event): (ps: seq<Push>) {
    if Ignored(b, e) then []
    else match e
      case Add(ref, side, shares, price) => EnterPushes(b.orders, ref, Order(price, shares, side))
      case Reduce(ref, shares) => [PushAt(Reduced(b.orders, ref, shares), b.orders[ref])]
      case Delete(ref) => DropPushes(b.orders, ref)
      case Replace(orig, newRef, shares, price) =>
        DropPushes(b.orders, orig)
        + EnterPushes(b.orders - {orig}, newRef, Order(price, shares, b.orders[orig].side))
  }

  function Reduced(orders: Orders, ref: nat, shares: nat): (r: Orders)
    requires ref in orders
  {
    var o := orders[ref];
    if shares >= o.qty then orders - {ref} else orders[ref := o.(qty := o.qty - shares)]
  }

  function Lead(p: Push, side: char): (ups: seq<(nat, nat)>)
    ensures |ups| <= 1
  {
    if p.side == side then [(p.price, p.total)] else []
  }

  /** The updates that concern one side. */
  function On(ps: seq<Push>, side: char): (ups: seq<(nat, nat)>)
    ensures |ups| <= |ps|
  {
    if ps == [] then [] else Lead(ps[0], side) + On(ps[1..], side)
  }

  lemma Joined(a: seq<(nat, nat)>, b: seq<(nat, nat)>, c: seq<(nat, nat)>)
    ensures a + (b + c) == (a + b) + c
  {}

  lemma {:induction false} OnAppend(a: seq<Push>, b: seq<Push>, side: char)
    ensures On(a + b, side) == On(a, side) + On(b, side)
  {
    hide Lead;
    if a == [] {
      assert a + b == b;
    } else {
      assert (a + b)[1..] == a[1..] + b && (a + b)[0] == a[0];
      OnAppend(a[1..], b, side);
      Joined(Lead(a[0], side), On(a[1..], side), On(b, side));
    }
  }

  lemma {:induction false} ShownAppend(descending: bool, cap: nat, levels: seq<Level>, a: seq<(nat, nat)>,
                                       b: seq<(nat, nat)>)
    ensures Shown(descending, cap, levels, a + b) == Shown(descending, cap, Shown(descending, cap, levels, a), b)
    decreases |a|
  {
    hide Update;
    if a == [] {
      assert a + b == b;
    } else {
      assert (a + b)[1..] == a[1..] + b;
      ShownAppend(descending, cap, Update(descending, cap, levels, a[0].0, a[0].1), a[1..], b);
    }
  }

  lemma {:induction false} BehindAppend(agg: Aggregate, a: seq<(nat, nat)>, b: seq<(nat, nat)>)
    ensures Behind(agg, a + b) == Behind(Behind(agg, a), b)
    decreases |a|
  {
    hide Change;
    if a == [] {
      assert a + b == b;
    } else {
      assert (a + b)[1..] == a[1..] + b;
      BehindAppend(Change(agg, a[0].0, a[0].1), a[1..], b);
    }
  }

  /** `c` is `b` after the updates: each side shows them, and stands for the aggregate they give. */
  ghost predicate Follows(cap: nat, b: Book, c: Book, ps: seq<Push>) {
    && c.bids == Shown(true, cap, b.bids, On(ps, 'B'))
    && c.asks == Shown(false, cap, b.asks, On(ps, 'S'))
    && Positive(c.bidQty) == Behind(Positive(b.bidQty), On(ps, 'B'))
    && Positive(c.askQty) == Behind(Positive(b.askQty), On(ps, 'S'))
  }

  lemma FollowsTrans(cap: nat, b: Book, c: Book, d: Book, p: seq<Push>, q: seq<Push>)
    requires Follows(cap, b, c, p) && Follows(cap, c, d, q)
    ensures Follows(cap, b, d, p + q)
  {
    hide Shown, Behind, On, Positive;
    OnAppend(p, q, 'B');
    OnAppend(p, q, 'S');
    ShownAppend(true, cap, b.bids, On(p, 'B'), On(q, 'B'));
    ShownAppend(false, cap, b.asks, On(p, 'S'), On(q, 'S'));
    BehindAppend(Positive(b.bidQty), On(p, 'B'), On(q, 'B'));
    BehindAppend(Positive(b.askQty), On(p, 'S'), On(q, 'S'));
  }

  lemma FollowsNone(cap: nat, b: Book)
    ensures Follows(cap, b, b, [])
  {}

  /** One write-back of an accumulator is one update. */
  lemma PushFollows(cap: nat, b: Book, orders: Orders, side: char, m: Totals, price: nat, total: nat)
    requires side == 'B' || side == 'S'
    requires Positive(m) == Change(Positive(TotalsOf(b, side)), price, total)
    ensures Follows(cap, b, ItchBook.Push(cap, b.(orders := orders), side, m, price, total), [Push(side, price, total)])
  {
    hide Update, Positive, Change;
    var ps := [Push(side, price, total)];
    assert ps[1..] == [];
    OneOn(side, price, total, 'B');
    OneOn(side, price, total, 'S');
    OneShown(true, cap, b.bids, price, total);
    OneShown(false, cap, b.asks, price, total);
    OneBehind(Positive(b.bidQty), price, total);
    OneBehind(Positive(b.askQty), price, total);
    NoneShown(cap, b);
  }

  lemma OneOn(side: char, price: nat, total: nat, at: char)
    ensures On([Push(side, price, total)], at) == if side == at then [(price, total)] else []
  {
    var ps := [Push(side, price, total)];
    assert ps[1..] == [];
  }

  lemma OneShown(descending: bool, cap: nat, levels: seq<Level>, price: nat, total: nat)
    ensures Shown(descending, cap, levels, [(price, total)]) == Update(descending, cap, levels, price, total)
  {
    hide Update;
    assert [(price, total)][1..] == [];
  }

  lemma OneBehind(agg: Aggregate, price: nat, total: nat)
    ensures Behind(agg, [(price, total)]) == Change(agg, price, total)
  {
    hide Change;
    assert [(price, total)][1..] == [];
  }

  lemma NoneShown(cap: nat, b: Book)
    ensures Shown(true, cap, b.bids, []) == b.bids && Shown(false, cap, b.asks, []) == b.asks
    ensures Behind(Positive(b.bidQty), []) == Positive(b.bidQty) && Behind(Positive(b.askQty), []) == Positive(b.askQty)
  {}

  // ------------------------------------------------------------ what each step pushes

  lemma SubFollows(cap: nat, b: Book, orders: Orders, o: Order, cut: nat)
    requires cap > 0 && Inv(cap, b) && (o.side == 'B' || o.side == 'S')
    requires forall side: char, price: nat ::
               Live(orders, side, price) + Share(o.(qty := cut), side, price) == Live(b.orders, side, price)
    ensures Follows(cap, b, SubQty(cap, b.(orders := orders), o.price, cut, o.side), [PushAt(orders, o)])
  {
    hide Live, Positive, Follows, ItchBook.Push;
    var m := TotalsOf(b, o.side);
    var left := Live(orders, o.side, o.price);
    assert TotalAt(m, o.price) == Live(b.orders, o.side, o.price) == left + cut;
    if o.price !in m {
      PositiveAbsent(m, o.price);
      PushFollows(cap, b, orders, o.side, m, o.price, 0);
    } else if m[o.price] <= cut {
      PositiveErase(m, o.price);
      PushFollows(cap, b, orders, o.side, m - {o.price}, o.price, 0);
    } else {
      PositiveSet(m, o.price, m[o.price] - cut);
      PushFollows(cap, b, orders, o.side, m[o.price := m[o.price] - cut], o.price, m[o.price] - cut);
    }
  }

  lemma AddFollows(cap: nat, b: Book, ref: nat, o: Order)
    requires cap > 0 && Inv(cap, b) && ref !in b.orders && (o.side == 'B' || o.side == 'S')
    ensures var orders := b.orders[ref := o];
            Follows(cap, b, AddQty(cap, b.(orders := orders), o.price, o.qty, o.side), [PushAt(orders, o)])
  {
    hide Live, Positive, Follows, ItchBook.Push;
    var m := TotalsOf(b, o.side);
    var total := TotalAt(m, o.price) + o.qty;
    LiveWith(b.orders, ref, o, o.side, o.price);
    PositiveSet(m, o.price, total);
    PushFollows(cap, b, b.orders[ref := o], o.side, m[o.price := total], o.price, total);
  }

  lemma DropFollows(cap: nat, b: Book, ref: nat)
    requires cap > 0 && Inv(cap, b) && ref in b.orders
    ensures Follows(cap, b, Drop(cap, b, ref), DropPushes(b.orders, ref))
  {
    hide Live, Follows, SubQty, Display;
    var o := b.orders[ref];
    forall side: char, price: nat
      ensures Live(b.orders - {ref}, side, price) + Share(o.(qty := o.qty), side, price) == Live(b.orders, side, price)
    {
      LiveWithout(b.orders, ref, side, price);
    }
    SubFollows(cap, b, b.orders - {ref}, o, o.qty);
  }

  lemma EnterFollows(cap: nat, b: Book, ref: nat, o: Order)
    requires cap > 0 && Inv(cap, b) && (o.side == 'B' || o.side == 'S')
    ensures Follows(cap, b, Enter(cap, b, ref, o), EnterPushes(b.orders, ref, o))
  {
    hide Inv, Follows, AddQty, PushAt, Drop;
    if ref in b.orders {
      var c := Drop(cap, b, ref);
      DropKeeps(cap, b, ref);
      DropFollows(cap, b, ref);
      AddFollows(cap, c, ref, o);
      assert c.orders[ref := o] == b.orders[ref := o];
      FollowsTrans(cap, b, c, Enter(cap, b, ref, o), DropPushes(b.orders, ref), [PushAt(b.orders[ref := o], o)]);
    } else {
      AddFollows(cap, b, ref, o);
      assert [] + [PushAt(b.orders[ref := o], o)] == [PushAt(b.orders[ref := o], o)];
    }
  }

  lemma ReduceFollows(cap: nat, b: Book, ref: nat, shares: nat)
    requires cap > 0 && Inv(cap, b) && ref in b.orders
    ensures Follows(cap, b, Process(cap, b, Reduce(ref, shares)).0,
                    [PushAt(Reduced(b.orders, ref, shares), b.orders[ref])])
  {
    hide Live, Follows, SubQty, Display;
    var o := b.orders[ref];
    var cut, left := Min(shares, o.qty), Reduced(b.orders, ref, shares);
    forall side: char, price: nat
      ensures Live(left, side, price) + Share(o.(qty := cut), side, price) == Live(b.orders, side, price)
    {
      if o.qty == cut {
        LiveWithout(b.orders, ref, side, price);
      } else {
        LiveChanged(b.orders, ref, o.(qty := o.qty - cut), side, price);
      }
    }
    SubFollows(cap, b, left, o, cut);
  }

  lemma SideOf(cap: nat, b: Book, ref: nat)
    requires Inv(cap, b) && ref in b.orders
    ensures b.orders[ref].side == 'B' || b.orders[ref].side == 'S'
  {}

  /** After every event each side shows exactly what the event's updates make of it, every update
      carrying the quantity then live at its price. */
  lemma ProcessShows(cap: nat, b: Book, e: Event)
    requires cap > 0 && Inv(cap, b)
    ensures Follows(cap, b, Process(cap, b, e).0, Pushes(b, e))
  {
    hide Inv, Follows, Enter, Drop, EnterPushes, DropPushes, PushAt, SubQty;
    if Ignored(b, e) {
      FollowsNone(cap, b);
    } else {
      match e
      case Add(ref, side, shares, price) =>
        EnterFollows(cap, b, ref, Order(price, shares, side));
      case Reduce(ref, shares) =>
        ReduceFollows(cap, b, ref, shares);
      case Delete(ref) =>
        DropFollows(cap, b, ref);
      case Replace(orig, newRef, shares, price) =>
        var o := Order(price, shares, b.orders[orig].side);
        var c := Drop(cap, b, orig);
        SideOf(cap, b, orig);
        DropKeeps(cap, b, orig);
        DropFollows(cap, b, orig);
        EnterFollows(cap, c, newRef, o);
        FollowsTrans(cap, b, c, Enter(cap, c, newRef, o), DropPushes(b.orders, orig), EnterPushes(c.orders, newRef, o));
    }
  }

  // ------------------------------------------------------------------ the returned flag

  /** The flag is false exactly for the events the builder ignores, and then nothing changes. */
  lemma FlagExact(cap: nat, b: Book, e: Event)
    ensures Process(cap, b, e).1 <==> !Ignored(b, e)
    ensures Ignored(b, e) ==> Process(cap, b, e).0 == b
  {
    hide Enter, Drop, SubQty;
  }

  /** The flag does not say that the displayed book changed: an add of no shares shows nothing. */
  lemma FlagWithoutChange()
    ensures var (c, acted) := Process(1, Empty, Add(1, 'B', 0, 10));
            acted && c.bids == Empty.bids && c.asks == Empty.asks
  {}

  lemma LiveDropped(orders: Orders, ref: nat, side: char, price: nat)
    requires ref in orders
    ensures Live(orders - {ref}, side, price) <= Live(orders, side, price)
    ensures orders[ref].side != side || orders[ref].price != price ==>
              Live(orders - {ref}, side, price) == Live(orders, side, price)
  {
    hide Live;
    LiveWithout(orders, ref, side, price);
  }

  lemma LiveRaised(orders: Orders, ref: nat, o: Order, side: char, price: nat)
    ensures Live(orders - {ref}, side, price) <= Live(orders[ref := o], side, price)
  {
    hide Live;
    LiveWithout(orders[ref := o], ref, side, price);
    assert orders[ref := o] - {ref} == orders - {ref};
  }

  lemma EnterShaped(orders: Orders, ref: nat, o: Order, side: char)
    ensures Shaped(On(EnterPushes(orders, ref, o), side))
    ensures |EnterPushes(orders, ref, o)| <= 2
  {
    hide Live, On;
    LiveRaised(orders, ref, o, o.side, o.price);
    var last := PushAt(orders[ref := o], o);
    OneOn(last.side, last.price, last.total, side);
    if ref in orders {
      var first := PushAt(orders - {ref}, orders[ref]);
      OneOn(first.side, first.price, first.total, side);
      OnAppend([first], [last], side);
    } else {
      assert [] + [last] == [last];
    }
  }

  lemma ThreeOn(a: Push, b: Push, c: Push, side: char)
    requires a.side == c.side
    requires b.side == c.side && b.price == c.price ==> b.total <= c.total
    requires a.side == b.side && a.price == b.price ==> b.total <= a.total
    requires a.price == c.price && !(a.side == b.side && a.price == b.price) ==> a.total <= c.total
    ensures Shaped(On([a], side) + (On([b], side) + On([c], side)))
  {
    hide On;
    OneOn(a.side, a.price, a.total, side);
    OneOn(b.side, b.price, b.total, side);
    OneOn(c.side, c.price, c.total, side);
  }

  lemma ReplaceShaped(orders: Orders, orig: nat, ref: nat, o: Order, side: char)
    requires orig in orders && o.side == orders[orig].side
    ensures Shaped(On(DropPushes(orders, orig) + EnterPushes(orders - {orig}, ref, o), side))
  {
    hide Live, On;
    var rest := orders - {orig};
    var first, last := PushAt(rest, orders[orig]), PushAt(rest[ref := o], o);
    LiveRaised(rest, ref, o, o.side, o.price);
    OnAppend(DropPushes(orders, orig), EnterPushes(rest, ref, o), side);
    OneOn(first.side, first.price, first.total, side);
    OneOn(last.side, last.price, last.total, side);
    if ref in rest {
      var mid := PushAt(rest - {ref}, rest[ref]);
      OneOn(mid.side, mid.price, mid.total, side);
      OnAppend([mid], [last], side);
      LiveDropped(rest, ref, first.side, first.price);
      ThreeOn(first, mid, last, side);
    } else {
      assert rest - {ref} == rest;
      assert [] + [last] == [last];
    }
  }

  lemma PushesShaped(b: Book, e: Event, side: char)
    ensures Shaped(On(Pushes(b, e), side))
  {
    hide Live, EnterPushes, DropPushes, PushAt, Shaped, Reduced;
    if !Ignored(b, e) {
      match e
      case Add(ref, s, shares, price) =>
        EnterShaped(b.orders, ref, Order(price, shares, s), side);
      case Reduce(ref, shares) =>
        OneShaped(PushAt(Reduced(b.orders, ref, shares), b.orders[ref]), side);
      case Delete(ref) =>
        DropShaped(b.orders, ref, side);
      case Replace(orig, newRef, shares, price) =>
        ReplaceShaped(b.orders, orig, newRef, Order(price, shares, b.orders[orig].side), side);
    } else {
      NoneShaped(side);
    }
  }

  lemma OneShaped(p: Push, side: char)
    ensures Shaped(On([p], side))
  {}

  lemma NoneShaped(side: char)
    ensures Shaped(On([], side))
  {}

  lemma DropShaped(orders: Orders, ref: nat, side: char)
    ensures Shaped(On(DropPushes(orders, ref), side))
  {
    hide Live;
  }

  /** An event leaves the displayed book exactly as it was if and only if, on both sides, its updates
      are a no-op: every price it touches is shown with its new total already, or stays unshown for
      want of quantity or of rank. */
  lemma DisplayUnchangedIff(cap: nat, b: Book, e: Event)
    requires cap > 0 && Inv(cap, b)
    ensures var c, ps := Process(cap, b, e).0, Pushes(b, e);
            c.bids == b.bids && c.asks == b.asks <==>
            Still(true, cap, b.bids, On(ps, 'B')) && Still(false, cap, b.asks, On(ps, 'S'))
  {
    hide Accounts, Process, Pushes, On, Shaped, Still, Positive;
    ProcessShows(cap, b, e);
    PushesShaped(b, e, 'B');
    PushesShaped(b, e, 'S');
    StillIff(true, cap, b.bids, On(Pushes(b, e), 'B'));
    StillIff(false, cap, b.asks, On(Pushes(b, e), 'S'));
  }
}
