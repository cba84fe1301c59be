/** When updates leave what a side shows exactly as it was. */
module BookMoves {
  import opened Basics
  import opened ArrayBook
  import opened BookView

  /** Setting the total at `price` is a no-op on display: it is shown with that total already, or it
      is not shown and stays out, having no quantity or being no better than a full side's last. */
  predicate Unmoved(descending: bool, cap: nat, levels: seq<Level>, price: nat, total: nat) {
    if Displays(levels, price) then total > 0 && Level(price, total) in levels
    else total == 0 || (|levels| == cap && cap > 0 && !Better(descending, price, levels[cap - 1].price))
  }

  predicate Side(descending: bool, cap: nat, levels: seq<Level>) {
    cap > 0 && |levels| <= cap && Sorted(descending, levels)
  }

  lemma OnePerPrice(descending: bool, levels: seq<Level>, a: Level, b: Level)
    requires Sorted(descending, levels) && a in levels && b in levels && a.price == b.price
    ensures a == b
  {
    var i :| 0 <= i < |levels| && levels[i] == a;
    var j :| 0 <= j < |levels| && levels[j] == b;
    assert i == j;
  }

  /** One update moves nothing if and only if it is a no-op. */
  lemma UpdateUnmovedIff(descending: bool, cap: nat, levels: seq<Level>, price: nat, total: nat)
    requires Side(descending, cap, levels)
    ensures Update(descending, cap, levels, price, total) == levels <==> Unmoved(descending, cap, levels, price, total)
    ensures Side(descending, cap, Update(descending, cap, levels, price, total))
  {
    hide Update;
    var r := Update(descending, cap, levels, price, total);
    UpdateEffect(descending, cap, levels, price, total);
    FindDisplays(levels, price);
    if Displays(levels, price) {
      if total > 0 {
        SetUnmoved(descending, cap, levels, price, total);
      }
    } else if total > 0 && r == levels {
      assert Level(price, total) !in levels;
    }
  }

  lemma SetUnmoved(descending: bool, cap: nat, levels: seq<Level>, price: nat, total: nat)
    requires Side(descending, cap, levels) && Displays(levels, price) && total > 0
    ensures Update(descending, cap, levels, price, total) == levels <==> Level(price, total) in levels
  {
    FindDisplays(levels, price);
    var i := Find(levels, price);
    if Level(price, total) in levels {
      OnePerPrice(descending, levels, levels[i], Level(price, total));
    }
  }

  /** An update at another price neither brings back nor changes a level. */
  lemma OthersKept(descending: bool, cap: nat, levels: seq<Level>, price: nat, total: nat, l: Level)
    requires Side(descending, cap, levels) && l.price != price && l in Update(descending, cap, levels, price, total)
    ensures l in levels
  {
    hide Update;
    UpdateEffect(descending, cap, levels, price, total);
  }

  /** The worst level of a full side, and that every level shown is at least as good. */
  lemma Worst(descending: bool, cap: nat, levels: seq<Level>, l: Level)
    requires Side(descending, cap, levels) && |levels| == cap && l in levels
    ensures l == levels[cap - 1] || Better(descending, l.price, levels[cap - 1].price)
  {
    var i :| 0 <= i < |levels| && levels[i] == l;
  }

  /** A sorted side is determined by its levels. */
  lemma SameLevels(descending: bool, a: seq<Level>, b: seq<Level>)
    requires Sorted(descending, a) && Sorted(descending, b)
    requires forall l :: l in a <==> l in b
    ensures a == b
  {
    SameElements((x: Level, y: Level) => Better(descending, x.price, y.price), a, b);
  }

  /** What an update that moves something does. */
  datatype Move = Stays | Sets | Removes | Enters | Evicts

  ghost predicate Did(descending: bool, cap: nat, a: seq<Level>, price: nat, total: nat, b: seq<Level>, m: Move)
    requires cap > 0
  {
    match m
    case Stays => a == b
    case Sets =>
      && Displays(a, price) && total > 0 && |b| == |a| && Displays(b, price)
      && (forall l :: l in b <==> (l in a && l.price != price) || l == Level(price, total))
    case Removes =>
      && Displays(a, price) && total == 0 && |b| == |a| - 1 && !Displays(b, price)
      && (forall l :: l in b <==> l in a && l.price != price)
    case Enters =>
      && !Displays(a, price) && total > 0 && |a| < cap && |b| == |a| + 1 && Displays(b, price)
      && (forall l :: l in b <==> l in a || l == Level(price, total))
    case Evicts =>
      && !Displays(a, price) && total > 0 && |a| == |b| == cap && Displays(b, price)
      && Better(descending, price, a[cap - 1].price) && !Displays(b, a[cap - 1].price)
      && (forall l :: l in b <==> (l in a && l != a[cap - 1]) || l == Level(price, total))
  }

  function MoveOf(descending: bool, cap: nat, levels: seq<Level>, price: nat, total: nat): (m: Move) {
    if Unmoved(descending, cap, levels, price, total) then Stays
    else if Displays(levels, price) then if total > 0 then Sets else Removes
    else if |levels| < cap then Enters
    else Evicts
  }

  lemma UpdateDid(descending: bool, cap: nat, levels: seq<Level>, price: nat, total: nat)
    requires Side(descending, cap, levels)
    ensures var r := Update(descending, cap, levels, price, total);
            Side(descending, cap, r)
            && Did(descending, cap, levels, price, total, r, MoveOf(descending, cap, levels, price, total))
  {
    hide Update;
    var r := Update(descending, cap, levels, price, total);
    UpdateUnmovedIff(descending, cap, levels, price, total);
    UpdateEffect(descending, cap, levels, price, total);
    var m := MoveOf(descending, cap, levels, price, total);
    if m.Sets? || m.Enters? || m.Evicts? {
      assert Level(price, total) in r;
    }
    if m.Evicts? {
      var w := levels[cap - 1];
      forall l | l in r ensures l.price != w.price {
        if l in levels && l.price == w.price {
          OnePerPrice(descending, levels, l, w);
        }
      }
    }
  }

  /** At one price only the second update counts, unless the first brought the level in at the
      expense of another and the second takes it out again. */
  lemma Collapse(descending: bool, cap: nat, levels: seq<Level>, p: nat, t1: nat, t2: nat)
    requires Side(descending, cap, levels)
    requires !(MoveOf(descending, cap, levels, p, t1).Evicts? && t2 == 0)
    ensures Update(descending, cap, Update(descending, cap, levels, p, t1), p, t2)
         == Update(descending, cap, levels, p, t2)
  {
    hide Update;
    var a := Update(descending, cap, levels, p, t1);
    var b, c := Update(descending, cap, a, p, t2), Update(descending, cap, levels, p, t2);
    UpdateDid(descending, cap, levels, p, t1);
    UpdateDid(descending, cap, a, p, t2);
    UpdateDid(descending, cap, levels, p, t2);
    if a != levels {
      forall l ensures l in b <==> l in c {}
      SameLevels(descending, b, c);
    }
  }

  /** No update at another price restores what an update moved. */
  lemma NotRestored(descending: bool, cap: nat, levels: seq<Level>, p1: nat, t1: nat, p2: nat, t2: nat)
    requires Side(descending, cap, levels) && p1 != p2 && !Unmoved(descending, cap, levels, p1, t1)
    ensures Update(descending, cap, Update(descending, cap, levels, p1, t1), p2, t2) != levels
  {
    hide Update;
    var a := Update(descending, cap, levels, p1, t1);
    UpdateDid(descending, cap, levels, p1, t1);
    UpdateDid(descending, cap, a, p2, t2);
    var b := Update(descending, cap, a, p2, t2);
    if Displays(levels, p1) {
      var l :| l in levels && l.price == p1;
      if l in a {
        OnePerPrice(descending, a, l, Level(p1, t1));
      }
      if l in b {
        OthersKept(descending, cap, a, p2, t2, l);
      }
    } else if MoveOf(descending, cap, a, p2, t2).Evicts? {
      assert a[cap - 1] in a;
      if |levels| == cap && a[cap - 1] in levels {
        Worst(descending, cap, levels, a[cap - 1]);
      }
      assert Level(p2, t2) in b;
    } else {
      assert Displays(b, p1) by {
        assert Level(p1, t1) in a;
      }
    }
  }

  /** Two updates at different prices undo nothing: both were no-ops, or something moved. At one
      price only the second counts, provided it does not go below the first. */
  lemma TwoUpdates(descending: bool, cap: nat, levels: seq<Level>, p1: nat, t1: nat, p2: nat, t2: nat)
    requires Side(descending, cap, levels) && (p1 == p2 ==> t1 <= t2)
    ensures var a := Update(descending, cap, levels, p1, t1);
            Update(descending, cap, a, p2, t2) == levels <==>
            && Unmoved(descending, cap, levels, p2, t2)
            && (p1 != p2 ==> Unmoved(descending, cap, levels, p1, t1))
  {
    hide Update;
    UpdateUnmovedIff(descending, cap, levels, p1, t1);
    UpdateUnmovedIff(descending, cap, levels, p2, t2);
    if p1 == p2 {
      Collapse(descending, cap, levels, p1, t1, t2);
    } else if !Unmoved(descending, cap, levels, p1, t1) {
      NotRestored(descending, cap, levels, p1, t1, p2, t2);
    }
  }

  lemma NotRestoredByTwo(descending: bool, cap: nat, levels: seq<Level>, p1: nat, t1: nat, p2: nat, t2: nat,
                         p3: nat, t3: nat)
    requires Side(descending, cap, levels) && p1 != p2 && p1 != p3 && (p2 == p3 ==> t2 <= t3)
    requires !Unmoved(descending, cap, levels, p1, t1)
    ensures var a := Update(descending, cap, levels, p1, t1);
            Update(descending, cap, Update(descending, cap, a, p2, t2), p3, t3) != levels
  {
    hide Update;
    var a := Update(descending, cap, levels, p1, t1);
    var b := Update(descending, cap, a, p2, t2);
    var c := Update(descending, cap, b, p3, t3);
    UpdateDid(descending, cap, levels, p1, t1);
    UpdateDid(descending, cap, a, p2, t2);
    UpdateDid(descending, cap, b, p3, t3);
    if Displays(levels, p1) {
      var l :| l in levels && l.price == p1;
      if l in a {
        OnePerPrice(descending, a, l, Level(p1, t1));
      }
      if l in b {
        OthersKept(descending, cap, a, p2, t2, l);
      }
      if l in c {
        OthersKept(descending, cap, b, p3, t3, l);
      }
    } else if Displays(c, p1) {
    } else {
      Displaced(descending, cap, levels, p1, t1, p2, t2, p3, t3);
    }
  }

  /** The case where the level brought in by the first update has been pushed out again. */
  lemma Displaced(descending: bool, cap: nat, levels: seq<Level>, p1: nat, t1: nat, p2: nat, t2: nat, p3: nat, t3: nat)
    requires Side(descending, cap, levels) && p1 != p2 && p1 != p3 && (p2 == p3 ==> t2 <= t3)
    requires !Unmoved(descending, cap, levels, p1, t1) && !Displays(levels, p1)
    requires var a := Update(descending, cap, levels, p1, t1);
             !Displays(Update(descending, cap, Update(descending, cap, a, p2, t2), p3, t3), p1)
    ensures var a := Update(descending, cap, levels, p1, t1);
            Update(descending, cap, Update(descending, cap, a, p2, t2), p3, t3) != levels
  {
    hide Update;
    var a := Update(descending, cap, levels, p1, t1);
    var b := Update(descending, cap, a, p2, t2);
    var c := Update(descending, cap, b, p3, t3);
    UpdateDid(descending, cap, levels, p1, t1);
    UpdateDid(descending, cap, a, p2, t2);
    UpdateDid(descending, cap, b, p3, t3);
    assert Level(p1, t1) in a;
    if Displays(b, p1) {
      assert Level(p1, t1) in b;
      assert MoveOf(descending, cap, b, p3, t3).Evicts?;
      assert Level(p3, t3) in c;
      assert b[cap - 1] in b;
    } else {
      assert MoveOf(descending, cap, a, p2, t2).Evicts?;
      assert a[cap - 1] in a;
      assert Level(p2, t2) in b;
      if |b| == cap {
        assert b[cap - 1] in b;
        if |levels| == cap && b[cap - 1] in levels {
          Worst(descending, cap, levels, b[cap - 1]);
        }
      }
    }
  }

  /** The first and the third update at one price, another between them. */
  lemma AroundAnother(descending: bool, cap: nat, levels: seq<Level>, p: nat, t1: nat, p2: nat, t2: nat, t3: nat)
    requires Side(descending, cap, levels) && p != p2 && t1 <= t3
    ensures var a := Update(descending, cap, levels, p, t1);
            Update(descending, cap, Update(descending, cap, a, p2, t2), p, t3) == levels <==>
            Unmoved(descending, cap, levels, p, t3) && Unmoved(descending, cap, levels, p2, t2)
  {
    hide Update;
    var b := Update(descending, cap, Update(descending, cap, levels, p, t1), p2, t2);
    if Update(descending, cap, b, p, t3) == levels {
      AroundOnly(descending, cap, levels, p, t1, p2, t2, t3);
    } else if Unmoved(descending, cap, levels, p, t3) && Unmoved(descending, cap, levels, p2, t2) {
      AroundBack(descending, cap, levels, p, t1, p2, t2, t3);
    }
  }

  lemma AroundOnly(descending: bool, cap: nat, levels: seq<Level>, p: nat, t1: nat, p2: nat, t2: nat, t3: nat)
    requires Side(descending, cap, levels) && p != p2 && t1 <= t3
    requires var a := Update(descending, cap, levels, p, t1);
             Update(descending, cap, Update(descending, cap, a, p2, t2), p, t3) == levels
    ensures Unmoved(descending, cap, levels, p, t3) && Unmoved(descending, cap, levels, p2, t2)
  {
    hide Update;
    var a := Update(descending, cap, levels, p, t1);
    var b := Update(descending, cap, a, p2, t2);
    UpdateDid(descending, cap, levels, p, t1);
    UpdateDid(descending, cap, a, p2, t2);
    UpdateDid(descending, cap, b, p, t3);
  }

  lemma AroundBack(descending: bool, cap: nat, levels: seq<Level>, p: nat, t1: nat, p2: nat, t2: nat, t3: nat)
    requires Side(descending, cap, levels) && p != p2 && t1 <= t3
    requires Unmoved(descending, cap, levels, p, t3) && Unmoved(descending, cap, levels, p2, t2)
    ensures var a := Update(descending, cap, levels, p, t1);
            Update(descending, cap, Update(descending, cap, a, p2, t2), p, t3) == levels
  {
    hide Update;
    var a := Update(descending, cap, levels, p, t1);
    var b := Update(descending, cap, a, p2, t2);
    var c := Update(descending, cap, b, p, t3);
    UpdateDid(descending, cap, levels, p, t1);
    UpdateDid(descending, cap, a, p2, t2);
    UpdateDid(descending, cap, b, p, t3);
    if a != levels {
      var x := Level(p, t3);
      assert x in levels;
      if |levels| == cap {
        Worst(descending, cap, levels, x);
      }
      if t1 > 0 {
        if |a| == cap {
          assert a[cap - 1] in a;
          var l :| l in levels && l.price == a[cap - 1].price;
          Worst(descending, cap, levels, l);
        }
        assert b == a;
      } else if b != a {
        assert b[cap - 1] in b;
        Worst(descending, cap, b, Level(p2, t2));
        if b[cap - 1] in levels {
          Worst(descending, cap, levels, b[cap - 1]);
        }
        assert b[cap - 1] == Level(p2, t2);
      }
      forall l ensures l in c <==> l in levels {
        if l in levels && l.price == p {
          OnePerPrice(descending, levels, l, x);
        }
      }
      SameLevels(descending, c, levels);
    }
  }

  /** A level brought in at the expense of the last one and taken out again: the last one is gone,
      and only putting back that very level restores the side. */
  lemma InAndOut(descending: bool, cap: nat, levels: seq<Level>, p: nat, t1: nat, p3: nat, t3: nat)
    requires Side(descending, cap, levels) && MoveOf(descending, cap, levels, p, t1).Evicts?
    ensures |levels| == cap
    ensures var b := Update(descending, cap, Update(descending, cap, levels, p, t1), p, 0);
            Update(descending, cap, b, p3, t3) == levels <==> t3 > 0 && Level(p3, t3) == levels[cap - 1]
  {
    hide Update;
    var a := Update(descending, cap, levels, p, t1);
    var b := Update(descending, cap, a, p, 0);
    var c := Update(descending, cap, b, p3, t3);
    var w := levels[cap - 1];
    UpdateDid(descending, cap, levels, p, t1);
    UpdateDid(descending, cap, a, p, 0);
    UpdateDid(descending, cap, b, p3, t3);
    assert w in levels;
    assert forall l :: l in b <==> l in levels && l != w;
    if t3 > 0 && Level(p3, t3) == w {
      SameLevels(descending, c, levels);
    } else if w in c {
      assert w !in b;
    }
  }

  // ------------------------------------------------------- the updates of one event

  /** What one event does to one side: at most three updates, quantity taken off by the first of two
      or the first two of three, and put on by the last. */
  predicate Shaped(ups: seq<(nat, nat)>) {
    var n := |ups|;
    && n <= 3
    && (n >= 2 && ups[n - 2].0 == ups[n - 1].0 ==> ups[n - 2].1 <= ups[n - 1].1)
    && (n == 3 && ups[0].0 == ups[1].0 ==> ups[1].1 <= ups[0].1)
    && (n == 3 && ups[0].0 == ups[2].0 != ups[1].0 ==> ups[0].1 <= ups[2].1)
  }

  /** Whether the first update brings in a level at the last one's expense that the second takes out. */
  predicate Churns(descending: bool, cap: nat, levels: seq<Level>, ups: seq<(nat, nat)>) {
    && |ups| == 3 && ups[0].0 == ups[1].0 && ups[1].1 == 0
    && MoveOf(descending, cap, levels, ups[0].0, ups[0].1).Evicts?
  }

  /** Update `i` is the last one at its price. */
  predicate Settles(ups: seq<(nat, nat)>, i: nat)
    requires i < |ups|
  {
    forall j | i < j < |ups| :: ups[j].0 != ups[i].0
  }

  /** The updates together are a no-op on display: each price keeps its place with its last total. */
  predicate Still(descending: bool, cap: nat, levels: seq<Level>, ups: seq<(nat, nat)>) {
    if Churns(descending, cap, levels, ups) then
      |levels| == cap && cap > 0 && ups[2].1 > 0 && Level(ups[2].0, ups[2].1) == levels[cap - 1]
    else
      forall i | 0 <= i < |ups| && Settles(ups, i) :: Unmoved(descending, cap, levels, ups[i].0, ups[i].1)
  }

  lemma StillIff(descending: bool, cap: nat, levels: seq<Level>, ups: seq<(nat, nat)>)
    requires Side(descending, cap, levels) && Shaped(ups)
    ensures Shown(descending, cap, levels, ups) == levels <==> Still(descending, cap, levels, ups)
  {
    hide Update, Unmoved, MoveOf;
    ShownOf(descending, cap, levels, ups);
    if |ups| == 1 {
      UpdateUnmovedIff(descending, cap, levels, ups[0].0, ups[0].1);
      assert Settles(ups, 0);
    } else if |ups| == 2 {
      TwoUpdates(descending, cap, levels, ups[0].0, ups[0].1, ups[1].0, ups[1].1);
      assert Settles(ups, 1);
      assert Settles(ups, 0) <==> ups[0].0 != ups[1].0;
    } else if |ups| == 3 {
      ThreeUpdates(descending, cap, levels, ups);
      assert Settles(ups, 2);
      assert Settles(ups, 1) <==> ups[1].0 != ups[2].0;
      assert Settles(ups, 0) <==> ups[0].0 != ups[1].0 && ups[0].0 != ups[2].0;
    }
  }

  lemma ShownOf(descending: bool, cap: nat, levels: seq<Level>, ups: seq<(nat, nat)>)
    requires |ups| <= 3
    ensures var r := Shown(descending, cap, levels, ups);
            && (|ups| == 0 ==> r == levels)
            && (|ups| >= 1 ==>
                var a := Update(descending, cap, levels, ups[0].0, ups[0].1);
                && (|ups| == 1 ==> r == a)
                && (|ups| >= 2 ==>
                    var b := Update(descending, cap, a, ups[1].0, ups[1].1);
                    && (|ups| == 2 ==> r == b)
                    && (|ups| == 3 ==> r == Update(descending, cap, b, ups[2].0, ups[2].1))))
    decreases |ups|
  {
    hide Update;
    if ups != [] {
      ShownOf(descending, cap, Update(descending, cap, levels, ups[0].0, ups[0].1), ups[1..]);
    }
  }

  lemma ThreeUpdates(descending: bool, cap: nat, levels: seq<Level>, ups: seq<(nat, nat)>)
    requires Side(descending, cap, levels) && Shaped(ups) && |ups| == 3
    ensures var (p1, t1) := ups[0]; var (p2, t2) := ups[1]; var (p3, t3) := ups[2];
            var a := Update(descending, cap, levels, p1, t1);
            var c := Update(descending, cap, Update(descending, cap, a, p2, t2), p3, t3);
            c == levels <==>
            if Churns(descending, cap, levels, ups) then
              |levels| == cap && t3 > 0 && Level(p3, t3) == levels[cap - 1]
            else
              && Unmoved(descending, cap, levels, p3, t3)
              && (p2 != p3 ==> Unmoved(descending, cap, levels, p2, t2))
              && (p1 != p2 && p1 != p3 ==> Unmoved(descending, cap, levels, p1, t1))
  {
    hide Update, Unmoved, MoveOf;
    var (p1, t1) := ups[0]; var (p2, t2) := ups[1]; var (p3, t3) := ups[2];
    if Churns(descending, cap, levels, ups) {
      InAndOut(descending, cap, levels, p1, t1, p3, t3);
    } else if p1 == p2 {
      Collapse(descending, cap, levels, p1, t1, t2);
      TwoUpdates(descending, cap, levels, p2, t2, p3, t3);
    } else if p1 == p3 {
      AroundAnother(descending, cap, levels, p1, t1, p2, t2, t3);
    } else if Unmoved(descending, cap, levels, p1, t1) {
      UpdateUnmovedIff(descending, cap, levels, p1, t1);
      TwoUpdates(descending, cap, levels, p2, t2, p3, t3);
    } else {
      NotRestoredByTwo(descending, cap, levels, p1, t1, p2, t2, p3, t3);
    }
  }
}
