/** The book builder as an object: live orders and accumulators in maps, each side in an array that
    every event updates in place. */
module ItchBuilder {
  import opened Basics
  import opened ArrayBook
  import opened ItchBook

  class Builder {
    var orders: Orders
    var bidQty: Totals
    var askQty: Totals
    const bids: array<Level>
    const asks: array<Level>
    var bidCount: nat
    var askCount: nat

    ghost predicate Valid()
      reads this
    {
      bids != asks && bids.Length == asks.Length > 0 && bidCount <= bids.Length && askCount <= asks.Length
    }

    /** The builder as a value of the model. */
    ghost function Model(): (b: Book)
      requires Valid()
      reads this, bids, asks
    {
      Book(orders, bidQty, askQty, bids[..bidCount], asks[..askCount])
    }

    constructor (maxLevels: nat)
      requires maxLevels > 0
      ensures Valid() && fresh(bids) && fresh(asks) && bids.Length == maxLevels && Model() == Empty
    {
      orders, bidQty, askQty := map[], map[], map[];
      bids := new Level[maxLevels](_ => Level(0, 0));
      asks := new Level[maxLevels](_ => Level(0, 0));
      bidCount, askCount := 0, 0;
    }

    /** Store one side's accumulators and push the level into that side of the book. */
    method Push(side: char, m: Totals, price: nat, total: nat)
      requires Valid()
      modifies this`bidQty, this`askQty, this`bidCount, this`askCount, bids, asks
      ensures Valid()
      ensures Model() == ItchBook.Push(bids.Length, old(Model()), side, m, price, total)
    {
      hide Update;
      if side == 'B' {
        bidQty := m;
        bidCount := UpdateSide(bids, bidCount, price, total, true);
      } else {
        askQty := m;
        askCount := UpdateSide(asks, askCount, price, total, false);
      }
    }

    method AddQty(price: nat, qty: nat, side: char)
      requires Valid()
      modifies this`bidQty, this`askQty, this`bidCount, this`askCount, bids, asks
      ensures Valid()
      ensures Model() == ItchBook.AddQty(bids.Length, old(Model()), price, qty, side)
    {
      hide ItchBook.Push;
      var m := if side == 'B' then bidQty else askQty;
      var total := TotalAt(m, price) + qty;
      Push(side, m[price := total], price, total);
    }

    method SubQty(price: nat, qty: nat, side: char)
      requires Valid()
      modifies this`bidQty, this`askQty, this`bidCount, this`askCount, bids, asks
      ensures Valid()
      ensures Model() == ItchBook.SubQty(bids.Length, old(Model()), price, qty, side)
    {
      hide ItchBook.Push;
      var m := if side == 'B' then bidQty else askQty;
      if price !in m {
        Push(side, m, price, 0);
        return;
      }
      var total := m[price] - qty;
      if total <= 0 {
        Push(side, m - {price}, price, 0);
      } else {
        Push(side, m[price := total], price, total);
      }
    }

    /** Erase a live order and take its quantity off its level. */
    method Drop(ref: nat)
      requires Valid() && ref in orders
      modifies this, bids, asks
      ensures Valid()
      ensures Model() == ItchBook.Drop(bids.Length, old(Model()), ref)
    {
      hide ItchBook.SubQty;
      var o := orders[ref];
      orders := orders - {ref};
      SubQty(o.price, o.qty, o.side);
    }

    method Enter(ref: nat, o: Order)
      requires Valid()
      modifies this, bids, asks
      ensures Valid()
      ensures Model() == ItchBook.Enter(bids.Length, old(Model()), ref, o)
    {
      hide ItchBook.AddQty, ItchBook.Drop;
      if ref in orders {
        Drop(ref);
      }
      orders := orders[ref := o];
      AddQty(o.price, o.qty, o.side);
    }

    /** One feed message; true when it was acted on. */
    method Process(e: Event) returns (acted: bool)
      requires Valid()
      modifies this, bids, asks
      ensures Valid()
      ensures (Model(), acted) == ItchBook.Process(bids.Length, old(Model()), e)
    {
      hide ItchBook.Enter, ItchBook.Drop, ItchBook.SubQty;
      acted := true;
      match e
      case Add(ref, side, shares, price) =>
        if side != 'B' && side != 'S' {
          return false;
        }
        Enter(ref, Order(price, shares, side));
      case Reduce(ref, shares) =>
        if ref !in orders {
          return false;
        }
        var o := orders[ref];
        var cut := Min(shares, o.qty);
        if o.qty == cut {
          orders := orders - {ref};
        } else {
          orders := orders[ref := o.(qty := o.qty - cut)];
        }
        SubQty(o.price, cut, o.side);
      case Delete(ref) =>
        if ref !in orders {
          return false;
        }
        Drop(ref);
      case Replace(orig, newRef, shares, price) =>
        if orig !in orders {
          return false;
        }
        var side := orders[orig].side;
        Drop(orig);
        Enter(newRef, Order(price, shares, side));
      case Other =>
        return false;
    }

    /** A whole feed: the object ends where the model does, with every level true. */
    method Feed(es: seq<Event>)
      requires Valid() && Inv(bids.Length, Model())
      modifies this, bids, asks
      ensures Valid()
      ensures Model() == ItchBook.Run(bids.Length, old(Model()), es) && Inv(bids.Length, Model())
    {
      hide ItchBook.Process, Inv;
      var i := 0;
      assert es[0..] == es;
      while i < |es|
        invariant 0 <= i <= |es| && Valid()
        invariant ItchBook.Run(bids.Length, old(Model()), es) == ItchBook.Run(bids.Length, Model(), es[i..])
      {
        var acted := Process(es[i]);
        assert es[i..][1..] == es[i + 1..];
        i := i + 1;
      }
      FeedAgrees(bids.Length, old(Model()), es);
    }
  }
}
