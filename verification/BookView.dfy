/** What a bounded side shows of the full aggregate behind it. */
module BookView {
  import opened ArrayBook

  /** Total quantity at each price that has any. */
  type Aggregate = map<nat, nat>

  /** The aggregate once the total at `price` has become `total`. */
  function Change(agg: Aggregate, price: nat, total: nat): (r: Aggregate) {
    if total > 0 then agg[price := total] else agg - {price}
  }

  predicate Displays(levels: seq<Level>, price: nat) {
    exists l :: l in levels && l.price == price
  }

  /** Sorted, within bounds, and every level shown carries its true total. */
  predicate Faithful(descending: bool, cap: nat, levels: seq<Level>, agg: Aggregate) {
    && Sorted(descending, levels) && |levels| <= cap
    && forall l <- levels :: l.price in agg && agg[l.price] == l.qty > 0
  }

  /** The best levels: nothing is left out unless the side is full, and what is left out is worse. */
  predicate Top(descending: bool, cap: nat, levels: seq<Level>, agg: Aggregate) {
    && Faithful(descending, cap, levels, agg)
    && forall p <- agg :: Displays(levels, p) || Beyond(descending, cap, levels, p)
  }

  predicate Beyond(descending: bool, cap: nat, levels: seq<Level>, price: nat) {
    |levels| == cap && forall l <- levels :: Better(descending, l.price, price)
  }

  // -------------------------------------------------------- the update's effect

  lemma RemoveEffect(descending: bool, levels: seq<Level>, i: nat)
    requires Sorted(descending, levels) && i < |levels|
    ensures Sorted(descending, Remove(levels, i))
    ensures forall l :: l in Remove(levels, i) <==> l in levels && l.price != levels[i].price
  {
    var r := Remove(levels, i);
    forall l | l in levels && l.price != levels[i].price
      ensures l in r
    {
      var j :| 0 <= j < |levels| && levels[j] == l;
      assert r[if j < i then j else j - 1] == l;
    }
  }

  lemma SetEffect(descending: bool, levels: seq<Level>, i: nat, q: nat)
    requires Sorted(descending, levels) && i < |levels|
    ensures var x := Level(levels[i].price, q); var r := levels[i := x];
            && Sorted(descending, r)
            && forall l :: l in r <==> l == x || (l in levels && l.price != x.price)
  {
    var x := Level(levels[i].price, q);
    var r := levels[i := x];
    assert r[i] == x;
    forall l | l in levels && l.price != x.price
      ensures l in r
    {
      var j :| 0 <= j < |levels| && levels[j] == l;
      assert r[j] == l;
    }
  }

  lemma InsertEffect(descending: bool, levels: seq<Level>, x: Level)
    requires Sorted(descending, levels) && !Displays(levels, x.price)
    ensures var r := Insert(levels, Position(descending, levels, x.price), x);
            && Sorted(descending, r)
            && forall l :: l in r <==> l == x || l in levels
  {
    hide Position, Displays, Sorted;
    var pos := Position(descending, levels, x.price);
    InsertSorted(descending, levels, pos, x);
    var r := Insert(levels, pos, x);
    assert r[pos] == x;
    forall l | l in levels
      ensures l in r
    {
      var j :| 0 <= j < |levels| && levels[j] == l;
      assert r[if j < pos then j else j + 1] == l;
    }
  }

  lemma InsertSorted(descending: bool, levels: seq<Level>, pos: nat, x: Level)
    requires Sorted(descending, levels) && !Displays(levels, x.price) && pos <= |levels|
    requires pos < |levels| ==> Better(descending, x.price, levels[pos].price)
    requires forall j | 0 <= j < pos :: !Better(descending, x.price, levels[j].price)
    ensures Sorted(descending, Insert(levels, pos, x))
  {
    var r := Insert(levels, pos, x);
    assert forall i | 0 <= i < pos :: r[i] == levels[i] && levels[i] in levels;
    assert forall i | pos < i < |r| :: r[i] == levels[i - 1];
    forall i, j | 0 <= i < j < |r|
      ensures Better(descending, r[i].price, r[j].price)
    {
      if i < pos && j == pos {
        assert levels[i].price != x.price;
      } else if i == pos && j > pos + 1 {
        assert Better(descending, levels[pos].price, levels[j - 1].price);
      }
    }
  }

  /** Which levels a side shows after an update, level by level. */
  ghost predicate After(descending: bool, cap: nat, levels: seq<Level>, price: nat, q: nat, r: seq<Level>)
    requires cap > 0
  {
    && Sorted(descending, r) && |r| <= cap
    && (Displays(levels, price) ==>
          && (forall l :: l in r <==> (l in levels && l.price != price) || (q > 0 && l == Level(price, q)))
          && |r| == if q > 0 then |levels| else |levels| - 1)
    && (!Displays(levels, price) && q == 0 ==> r == levels)
    && (!Displays(levels, price) && q > 0 && |levels| < cap ==>
          |r| == |levels| + 1 && forall l :: l in r <==> l in levels || l == Level(price, q))
    && (!Displays(levels, price) && q > 0 && |levels| == cap ==>
          var worst := levels[cap - 1];
          if Better(descending, price, worst.price) then
            |r| == cap && forall l :: l in r <==> (l in levels && l != worst) || l == Level(price, q)
          else r == levels)
  }

  /** A quantity of zero or less takes the price off the side and changes nothing else. */
  lemma NothingLeftRemoves(descending: bool, cap: nat, levels: seq<Level>, price: nat, qty: int)
    requires Sorted(descending, levels) && |levels| <= cap && cap > 0 && qty <= 0
    ensures var r := Update(descending, cap, levels, price, qty);
            !Displays(r, price) && forall l :: l in r <==> l in levels && l.price != price
  {
    hide Update;
    SameAsNone(descending, cap, levels, price, qty);
    UpdateEffect(descending, cap, levels, price, 0);
  }

  lemma SameAsNone(descending: bool, cap: nat, levels: seq<Level>, price: nat, qty: int)
    requires qty <= 0
    ensures Update(descending, cap, levels, price, qty) == Update(descending, cap, levels, price, 0)
  {}

  lemma UpdateEffect(descending: bool, cap: nat, levels: seq<Level>, price: nat, q: nat)
    requires Sorted(descending, levels) && |levels| <= cap && cap > 0
    ensures After(descending, cap, levels, price, q, Update(descending, cap, levels, price, q))
  {
    hide Find, Update, After;
    var i := Find(levels, price);
    if i < |levels| {
      UpdateShown(descending, cap, levels, price, q);
    } else if q == 0 {
      UpdateAbsent(descending, cap, levels, price);
    } else if |levels| < cap {
      UpdateRoom(descending, cap, levels, price, q);
    } else {
      UpdateFull(descending, cap, levels, price, q);
    }
  }

  lemma FindDisplays(levels: seq<Level>, price: nat)
    ensures Displays(levels, price) <==> Find(levels, price) < |levels|
  {
    hide Find;
    var i := Find(levels, price);
    assert i < |levels| ==> levels[i] in levels;
  }

  lemma UpdateShown(descending: bool, cap: nat, levels: seq<Level>, price: nat, q: nat)
    requires Sorted(descending, levels) && |levels| <= cap && cap > 0 && Find(levels, price) < |levels|
    ensures After(descending, cap, levels, price, q, Update(descending, cap, levels, price, q))
  {
    hide Find, Sorted, Displays;
    FindDisplays(levels, price);
    var i := Find(levels, price);
    if q == 0 {
      RemoveEffect(descending, levels, i);
    } else {
      SetEffect(descending, levels, i, q);
    }
  }

  lemma UpdateAbsent(descending: bool, cap: nat, levels: seq<Level>, price: nat)
    requires Sorted(descending, levels) && |levels| <= cap && cap > 0 && Find(levels, price) == |levels|
    ensures After(descending, cap, levels, price, 0, Update(descending, cap, levels, price, 0))
  {
    hide Find, Sorted, Displays;
    FindDisplays(levels, price);
  }

  lemma UpdateRoom(descending: bool, cap: nat, levels: seq<Level>, price: nat, q: nat)
    requires Sorted(descending, levels) && |levels| < cap && Find(levels, price) == |levels| && q > 0
    ensures After(descending, cap, levels, price, q, Update(descending, cap, levels, price, q))
  {
    hide Find, Sorted, Displays, Position;
    FindDisplays(levels, price);
    InsertEffect(descending, levels, Level(price, q));
  }

  lemma UpdateFull(descending: bool, cap: nat, levels: seq<Level>, price: nat, q: nat)
    requires Sorted(descending, levels) && |levels| == cap > 0 && Find(levels, price) == |levels| && q > 0
    ensures After(descending, cap, levels, price, q, Update(descending, cap, levels, price, q))
  {
    hide Find, Sorted, Displays, Position;
    FindDisplays(levels, price);
    EvictEffect(descending, levels, Level(price, q));
  }

  lemma EvictEffect(descending: bool, levels: seq<Level>, x: Level)
    requires Sorted(descending, levels) && levels != [] && !Displays(levels, x.price)
    ensures var n, pos := |levels|, Position(descending, levels, x.price);
            var worst := levels[n - 1];
            && (pos < n <==> Better(descending, x.price, worst.price))
            && (pos < n ==>
                var r := Insert(levels[..n - 1], pos, x);
                && Sorted(descending, r)
                && forall l :: l in r <==> (l in levels && l != worst) || l == x)
  {
    hide Position, Insert;
    var n, pos := |levels|, Position(descending, levels, x.price);
    var worst, kept := levels[n - 1], levels[..n - 1];
    if pos < n {
      if pos < n - 1 {
        assert Better(descending, levels[pos].price, worst.price);
      }
      PositionKept(descending, levels, x.price);
      assert levels == kept + [worst];
      forall l | l in kept
        ensures l in levels && l != worst
      {
        var j :| 0 <= j < n - 1 && kept[j] == l;
        assert levels[j] == l && Better(descending, levels[j].price, worst.price);
      }
      assert !Displays(kept, x.price);
      InsertEffect(descending, kept, x);
    }
  }

  lemma PositionKept(descending: bool, levels: seq<Level>, price: nat)
    requires levels != [] && Position(descending, levels, price) < |levels|
    ensures Position(descending, levels[..|levels| - 1], price) == Position(descending, levels, price)
  {
    var kept := levels[..|levels| - 1];
    var p, k := Position(descending, levels, price), Position(descending, kept, price);
    assert p < |kept| ==> kept[p] == levels[p];
    assert k < |kept| ==> kept[k] == levels[k];
    assert forall j | 0 <= j < p && j < |kept| :: !Better(descending, price, kept[j].price);
  }

  // ------------------------------------------------------ truth and completeness

  /** Whatever has been dropped before, an update leaves every level shown true. */
  lemma UpdateFaithful(descending: bool, cap: nat, levels: seq<Level>, agg: Aggregate, price: nat, total: nat)
    requires cap > 0 && Faithful(descending, cap, levels, agg)
    ensures Faithful(descending, cap, Update(descending, cap, levels, price, total), Change(agg, price, total))
  {
    hide Update, Sorted;
    UpdateEffect(descending, cap, levels, price, total);
  }

  /** The one way to stop showing the best levels: removing a shown level while others are hidden. */
  predicate Uncovers(levels: seq<Level>, agg: Aggregate, price: nat, total: nat) {
    total == 0 && Displays(levels, price) && exists p :: p in agg && !Displays(levels, p)
  }

  lemma UncoverBreaks(descending: bool, cap: nat, levels: seq<Level>, agg: Aggregate, price: nat, r: seq<Level>)
    requires cap > 0 && Top(descending, cap, levels, agg) && Uncovers(levels, agg, price, 0)
    requires After(descending, cap, levels, price, 0, r)
    ensures !Top(descending, cap, r, Change(agg, price, 0))
  {
    var hidden :| hidden in agg && !Displays(levels, hidden);
    assert Beyond(descending, cap, levels, hidden);
    assert hidden in Change(agg, price, 0);
    assert !Displays(r, hidden);
  }

  /** The last level is worse than the others. */
  lemma WorstLast(descending: bool, levels: seq<Level>, l: Level)
    requires Sorted(descending, levels) && l in levels
    ensures var worst := levels[|levels| - 1]; l == worst || Better(descending, l.price, worst.price)
  {
    var j :| 0 <= j < |levels| && levels[j] == l;
  }

  /** A full side that does not admit `price` is better throughout. */
  lemma NotAdmitted(descending: bool, cap: nat, levels: seq<Level>, price: nat)
    requires cap > 0 && Sorted(descending, levels) && |levels| == cap && !Displays(levels, price)
    requires !Better(descending, price, levels[cap - 1].price)
    ensures Beyond(descending, cap, levels, price)
  {
    var worst := levels[cap - 1];
    assert worst in levels && worst.price != price;
    forall l <- levels
      ensures Better(descending, l.price, price)
    {
      WorstLast(descending, levels, l);
    }
  }

  /** A full side that drops its worst level for a better one is better throughout than what it drops
      and than anything it already left out. */
  lemma Evicted(descending: bool, cap: nat, levels: seq<Level>, x: Level, r: seq<Level>, p: nat)
    requires cap > 0 && Sorted(descending, levels) && |levels| == |r| == cap
    requires var worst := levels[cap - 1];
             && Better(descending, x.price, worst.price)
             && (forall l :: l in r <==> (l in levels && l != worst) || l == x)
             && (p == worst.price || Better(descending, worst.price, p))
    ensures Beyond(descending, cap, r, p)
  {
    forall l <- r
      ensures Better(descending, l.price, p)
    {
      if l != x {
        WorstLast(descending, levels, l);
      }
    }
  }

  lemma StaysTop(descending: bool, cap: nat, levels: seq<Level>, agg: Aggregate, price: nat, total: nat,
                 r: seq<Level>, p: nat)
    requires cap > 0 && Top(descending, cap, levels, agg) && !Uncovers(levels, agg, price, total)
    requires After(descending, cap, levels, price, total, r)
    requires p in Change(agg, price, total)
    ensures Displays(r, p) || Beyond(descending, cap, r, p)
  {
    hide Sorted;
    if Displays(levels, price) {
      StaysTopShown(descending, cap, levels, agg, price, total, r, p);
    } else if total > 0 && |levels| == cap {
      var worst := levels[cap - 1];
      assert worst in levels;
      if !Better(descending, price, worst.price) {
        NotAdmitted(descending, cap, levels, price);
      } else if p == price {
        assert Level(price, total) in r;
      } else if Displays(levels, p) {
        var l :| l in levels && l.price == p;
        if l == worst {
          Evicted(descending, cap, levels, Level(price, total), r, p);
        } else {
          assert l in r;
        }
      } else {
        Evicted(descending, cap, levels, Level(price, total), r, p);
      }
    } else if total > 0 {
      StaysTopRoom(descending, cap, levels, agg, price, total, r, p);
    }
  }

  lemma StaysTopShown(descending: bool, cap: nat, levels: seq<Level>, agg: Aggregate, price: nat, total: nat,
                      r: seq<Level>, p: nat)
    requires cap > 0 && Top(descending, cap, levels, agg) && !Uncovers(levels, agg, price, total)
    requires After(descending, cap, levels, price, total, r) && Displays(levels, price)
    requires p in Change(agg, price, total)
    ensures Displays(r, p) || Beyond(descending, cap, r, p)
  {
    hide Sorted;
    if p == price {
      assert Level(price, total) in r;
    } else if Displays(levels, p) {
      var l :| l in levels && l.price == p;
      assert l in r;
    } else {
      assert total > 0 && Beyond(descending, cap, levels, p);
      var shown :| shown in levels && shown.price == price;
      forall l <- r
        ensures Better(descending, l.price, p)
      {}
    }
  }

  lemma StaysTopRoom(descending: bool, cap: nat, levels: seq<Level>, agg: Aggregate, price: nat, total: nat,
                     r: seq<Level>, p: nat)
    requires cap > 0 && Top(descending, cap, levels, agg) && |levels| < cap
    requires After(descending, cap, levels, price, total, r) && !Displays(levels, price) && total > 0
    requires p in Change(agg, price, total)
    ensures Displays(r, p)
  {
    if p == price {
      assert Level(price, total) in r;
    } else {
      var l :| l in levels && l.price == p;
      assert l in r;
    }
  }

  /** A side showing the best levels goes on doing so if and only if the update uncovers nothing. */
  lemma UpdateTopIff(descending: bool, cap: nat, levels: seq<Level>, agg: Aggregate, price: nat, total: nat)
    requires cap > 0 && Top(descending, cap, levels, agg)
    ensures Top(descending, cap, Update(descending, cap, levels, price, total), Change(agg, price, total))
       <==> !Uncovers(levels, agg, price, total)
  {
    hide Update;
    UpdateFaithful(descending, cap, levels, agg, price, total);
    UpdateEffect(descending, cap, levels, price, total);
    var r, agg' := Update(descending, cap, levels, price, total), Change(agg, price, total);
    if Uncovers(levels, agg, price, total) {
      UncoverBreaks(descending, cap, levels, agg, price, r);
    } else {
      forall p <- agg'
        ensures Displays(r, p) || Beyond(descending, cap, r, p)
      {
        StaysTop(descending, cap, levels, agg, price, total, r, p);
      }
    }
  }

  // ---------------------------------------------------------------- whole runs

  /** A side's levels after a run of updates, and the aggregate behind it. */
  function Shown(descending: bool, cap: nat, levels: seq<Level>, updates: seq<(nat, nat)>): (r: seq<Level>)
    decreases |updates|
  {
    if updates == [] then levels
    else Shown(descending, cap, Update(descending, cap, levels, updates[0].0, updates[0].1), updates[1..])
  }

  function Behind(agg: Aggregate, updates: seq<(nat, nat)>): (r: Aggregate)
    decreases |updates|
  {
    if updates == [] then agg else Behind(Change(agg, updates[0].0, updates[0].1), updates[1..])
  }

  /** The side shows the best levels after every update of the run. */
  ghost predicate AlwaysTop(descending: bool, cap: nat, levels: seq<Level>, agg: Aggregate, updates: seq<(nat, nat)>)
    decreases |updates|
  {
    && Top(descending, cap, levels, agg)
    && (updates != [] ==>
        var (p, t) := updates[0];
        AlwaysTop(descending, cap, Update(descending, cap, levels, p, t), Change(agg, p, t), updates[1..]))
  }

  /** No update of the run removes a shown level while another is hidden. */
  ghost predicate NeverUncovers(descending: bool, cap: nat, levels: seq<Level>, agg: Aggregate,
                                updates: seq<(nat, nat)>)
    decreases |updates|
  {
    updates != [] ==>
      var (p, t) := updates[0];
      && !Uncovers(levels, agg, p, t)
      && NeverUncovers(descending, cap, Update(descending, cap, levels, p, t), Change(agg, p, t), updates[1..])
  }

  /** Over any run: every level shown is true, always; and the side shows the best levels throughout
      if and only if no update uncovers a hidden one. */
  lemma {:induction false} RunTopIff(descending: bool, cap: nat, levels: seq<Level>, agg: Aggregate,
                                     updates: seq<(nat, nat)>)
    requires cap > 0 && Top(descending, cap, levels, agg)
    ensures AlwaysTop(descending, cap, levels, agg, updates) <==> NeverUncovers(descending, cap, levels, agg, updates)
    decreases |updates|
  {
    hide Top, Update, Change, Uncovers;
    if updates != [] {
      var (p, t) := updates[0];
      UpdateTopIff(descending, cap, levels, agg, p, t);
      if !Uncovers(levels, agg, p, t) {
        RunTopIff(descending, cap, Update(descending, cap, levels, p, t), Change(agg, p, t), updates[1..]);
      }
    }
  }

  lemma {:induction false} RunFaithful(descending: bool, cap: nat, levels: seq<Level>, agg: Aggregate,
                                       updates: seq<(nat, nat)>)
    requires cap > 0 && Faithful(descending, cap, levels, agg)
    ensures Faithful(descending, cap, Shown(descending, cap, levels, updates), Behind(agg, updates))
    decreases |updates|
  {
    hide Faithful, Update, Change;
    if updates != [] {
      var (p, t) := updates[0];
      UpdateFaithful(descending, cap, levels, agg, p, t);
      RunFaithful(descending, cap, Update(descending, cap, levels, p, t), Change(agg, p, t), updates[1..]);
    }
  }

  /** Three updates after which a one-level side shows nothing although a bid of 9 is resting. */
  lemma HiddenLevelLost()
    ensures var updates := [(10, 5), (9, 7), (10, 0)];
            Shown(true, 1, [], updates) == [] && Behind(map[], updates) == map[9 := 7]
  {
    var a := Level(10, 5);
    var u0, u1, u2 := [(10, 5), (9, 7), (10, 0)], [(9, 7), (10, 0)], [(10, 0)];
    assert u0[1..] == u1 && u1[1..] == u2 && u2[1..] == [];
    var m1, m2 := map[10 := 5], map[10 := 5, 9 := 7];
    assert Update(true, 1, [a], 10, 0) == [];
    assert Shown(true, 1, [a], u2) == Shown(true, 1, [], []) == [];
    assert Position(true, [a], 9) == 1;
    assert Update(true, 1, [a], 9, 7) == [a];
    assert Shown(true, 1, [a], u1) == Shown(true, 1, [a], u2);
    assert Update(true, 1, [], 10, 5) == [a];
    assert m2 - {10} == map[9 := 7];
    assert Behind(m2, u2) == Behind(map[9 := 7], []) == map[9 := 7];
    assert m1[9 := 7] == m2;
    assert Behind(m1, u1) == Behind(m2, u2);
    assert map[][10 := 5] == m1;
  }

  // ------------------------------------------------------------- what "best" means

  /** A side showing the best levels shows the k-th best price at place k: exactly k prices beat it. */
  lemma TopRank(descending: bool, cap: nat, levels: seq<Level>, agg: Aggregate, k: nat)
    requires Top(descending, cap, levels, agg) && k < |levels|
    ensures |set p | p in agg && Better(descending, p, levels[k].price)| == k
  {
    var beat := set p | p in agg && Better(descending, p, levels[k].price);
    var before := PricesBefore(levels, k);
    PricesBeforeSize(descending, levels, k);
    assert levels[k] in levels;
    forall p | p in beat
      ensures p in before
    {
      assert Displays(levels, p);
      var l :| l in levels && l.price == p;
      var j :| 0 <= j < |levels| && levels[j] == l;
      assert j < k;
      PriceAt(levels, k, j);
    }
    forall p | p in before
      ensures p in beat
    {
      var j := IndexOf(levels, k, p);
      assert levels[j] in levels;
    }
    assert beat == before;
  }

  ghost function PricesBefore(levels: seq<Level>, k: nat): (s: set<nat>)
    requires k <= |levels|
  {
    if k == 0 then {} else PricesBefore(levels, k - 1) + {levels[k - 1].price}
  }

  lemma {:induction false} PriceAt(levels: seq<Level>, k: nat, j: nat)
    requires j < k <= |levels|
    ensures levels[j].price in PricesBefore(levels, k)
  {
    if j < k - 1 {
      PriceAt(levels, k - 1, j);
    }
  }

  lemma {:induction false} IndexOf(levels: seq<Level>, k: nat, p: nat) returns (j: nat)
    requires k <= |levels| && p in PricesBefore(levels, k)
    ensures j < k && levels[j].price == p
  {
    if levels[k - 1].price == p {
      j := k - 1;
    } else {
      j := IndexOf(levels, k - 1, p);
    }
  }

  lemma {:induction false} PricesBeforeSize(descending: bool, levels: seq<Level>, k: nat)
    requires Sorted(descending, levels) && k <= |levels|
    ensures |PricesBefore(levels, k)| == k
  {
    if k > 0 {
      PricesBeforeSize(descending, levels, k - 1);
      if levels[k - 1].price in PricesBefore(levels, k - 1) {
        var j := IndexOf(levels, k - 1, levels[k - 1].price);
        assert false;
      }
    }
  }

  /** With no more prices than places, the best levels are all of them. */
  lemma TopIsAll(descending: bool, cap: nat, levels: seq<Level>, agg: Aggregate)
    requires Top(descending, cap, levels, agg) && |agg| <= cap
    ensures forall p <- agg :: Level(p, agg[p]) in levels
  {
    assert forall j | 0 <= j < |levels| :: levels[j] in levels;
    forall p <- agg
      ensures Level(p, agg[p]) in levels
    {
      if !Displays(levels, p) {
        var before := PricesBefore(levels, |levels|);
        PricesBeforeSize(descending, levels, |levels|);
        forall x | x in before + {p}
          ensures x in agg.Keys
        {
          if x in before {
            var j := IndexOf(levels, |levels|, x);
          }
        }
        if p in before {
          var j := IndexOf(levels, |levels|, p);
          assert false;
        }
        SubsetSize(before + {p}, agg.Keys);
        assert false;
      }
      var l :| l in levels && l.price == p;
      assert l == Level(p, agg[p]);
    }
  }

  lemma {:induction false} SubsetSize(a: set<nat>, b: set<nat>)
    requires a <= b
    ensures |a| <= |b|
    decreases |a|
  {
    if a != {} {
      var x :| x in a;
      SubsetSize(a - {x}, b - {x});
    }
  }
}
