/** When the updates of one event leave a side showing the best levels, told from the state before. */
module BookBest {
  import opened ArrayBook
  import opened BookView
  import opened BookMoves

  /** A price with quantity that is not shown. */
  predicate Hides(levels: seq<Level>, agg: Aggregate, h: nat) {
    h in agg && !Displays(levels, h)
  }

  /** Whatever is shown is better than whatever is hidden. */
  ghost predicate Ranked(descending: bool, levels: seq<Level>, agg: Aggregate) {
    forall h: nat, q: nat :: Hides(levels, agg, h) && Displays(levels, q) ==> Better(descending, q, h)
  }

  ghost predicate NoneHidden(levels: seq<Level>, agg: Aggregate) {
    forall h: nat :: !Hides(levels, agg, h)
  }

  /** `p` is better than every other hidden price. */
  ghost predicate BestHidden(descending: bool, levels: seq<Level>, agg: Aggregate, p: nat) {
    forall h: nat :: Hides(levels, agg, h) && h != p ==> Better(descending, p, h)
  }

  lemma TopIs(descending: bool, cap: nat, levels: seq<Level>, agg: Aggregate)
    requires cap > 0 && Faithful(descending, cap, levels, agg)
    ensures Top(descending, cap, levels, agg) <==>
            NoneHidden(levels, agg) || (|levels| == cap && Ranked(descending, levels, agg))
  {
    if Top(descending, cap, levels, agg) {
      forall h: nat, q: nat | Hides(levels, agg, h) && Displays(levels, q) ensures Better(descending, q, h) {
        assert Beyond(descending, cap, levels, h);
      }
      if !NoneHidden(levels, agg) {
        var h: nat :| Hides(levels, agg, h);
        assert Beyond(descending, cap, levels, h);
      }
    } else {
      var p :| p in agg && !Displays(levels, p) && !Beyond(descending, cap, levels, p);
      assert Hides(levels, agg, p);
      if |levels| == cap {
        var l :| l in levels && !Better(descending, l.price, p);
        assert Displays(levels, l.price);
      }
    }
  }

  /** Which prices are shown after an update, by what it did. */
  ghost predicate ShownThen(a: seq<Level>, price: nat, b: seq<Level>, worst: nat, m: Move, q: nat) {
    match m
    case Stays => Displays(b, q) <==> Displays(a, q)
    case Sets => Displays(b, q) <==> Displays(a, q)
    case Removes => Displays(b, q) <==> Displays(a, q) && q != price
    case Enters => Displays(b, q) <==> Displays(a, q) || q == price
    case Evicts => Displays(b, q) <==> (Displays(a, q) && q != worst) || q == price
  }

  function WorstOf(levels: seq<Level>): (p: nat) {
    if levels == [] then 0 else levels[|levels| - 1].price
  }

  lemma ShownAfter(descending: bool, cap: nat, levels: seq<Level>, price: nat, total: nat, q: nat)
    requires Side(descending, cap, levels)
    ensures var r := Update(descending, cap, levels, price, total);
            ShownThen(levels, price, r, WorstOf(levels), MoveOf(descending, cap, levels, price, total), q)
  {
    hide Update;
    var r := Update(descending, cap, levels, price, total);
    var m := MoveOf(descending, cap, levels, price, total);
    UpdateDid(descending, cap, levels, price, total);
    if Displays(levels, q) {
      var l :| l in levels && l.price == q;
      if m.Evicts? && q != WorstOf(levels) {
        assert l in r;
      } else if q != price && !m.Evicts? {
        assert l in r;
      }
    }
    if Displays(r, q) {
      var l :| l in r && l.price == q;
    }
  }

  /** The last level of a full side is worse than every other one shown. */
  lemma WorstIs(descending: bool, cap: nat, levels: seq<Level>, q: nat)
    requires Side(descending, cap, levels) && |levels| == cap && Displays(levels, q)
    ensures Displays(levels, WorstOf(levels)) && (q == WorstOf(levels) || Better(descending, q, WorstOf(levels)))
  {
    var l :| l in levels && l.price == q;
    Worst(descending, cap, levels, l);
    assert levels[cap - 1] in levels;
  }

  // ---------------------------------------------------------------- one update at a time

  function Grows(m: Move): (d: int) {
    if m.Enters? then 1 else if m.Removes? then -1 else 0
  }

  /** What an update does to the prices shown and to how many there are. */
  ghost predicate Stepped(descending: bool, cap: nat, a: seq<Level>, agg: Aggregate, p: nat, t: nat,
                          b: seq<Level>, m: Move)
  {
    && Faithful(descending, cap, b, Change(agg, p, t))
    && |b| == |a| + Grows(m)
    && forall q: nat :: ShownThen(a, p, b, WorstOf(a), m, q)
  }

  lemma UpdateSteps(descending: bool, cap: nat, levels: seq<Level>, agg: Aggregate, p: nat, t: nat)
    requires cap > 0 && Faithful(descending, cap, levels, agg)
    ensures Stepped(descending, cap, levels, agg, p, t, Update(descending, cap, levels, p, t),
                    MoveOf(descending, cap, levels, p, t))
  {
    hide Update, ShownThen, MoveOf;
    UpdateFaithful(descending, cap, levels, agg, p, t);
    UpdateDid(descending, cap, levels, p, t);
    forall q: nat
      ensures ShownThen(levels, p, Update(descending, cap, levels, p, t), WorstOf(levels),
                        MoveOf(descending, cap, levels, p, t), q)
    {
      ShownAfter(descending, cap, levels, p, t, q);
    }
  }

  /** A side with room that hides something is made good by one update exactly if that brings in the
      best of the hidden into the last place, or the only one. */
  lemma FinishGap(descending: bool, cap: nat, levels: seq<Level>, agg: Aggregate, p: nat, t: nat)
    requires cap > 0 && Faithful(descending, cap, levels, agg) && Ranked(descending, levels, agg)
    requires |levels| < cap && !NoneHidden(levels, agg) && (p in agg ==> t > 0)
    ensures Top(descending, cap, Update(descending, cap, levels, p, t), Change(agg, p, t)) <==>
            || (|levels| + 1 == cap && t > 0 && !Displays(levels, p) && BestHidden(descending, levels, agg, p))
            || (forall h: nat :: Hides(levels, agg, h) ==> h == p)
  {
    hide Update, Faithful, Top;
    var r, agg' := Update(descending, cap, levels, p, t), Change(agg, p, t);
    var m := MoveOf(descending, cap, levels, p, t);
    UpdateSteps(descending, cap, levels, agg, p, t);
    TopIs(descending, cap, r, agg');
    var h0: nat :| Hides(levels, agg, h0);
    ShownIn(descending, cap, levels, agg, p);
    if Displays(levels, p) || t == 0 {
      SameShown(levels, agg, p, t, r, m, h0);
      assert Hides(r, agg', h0);
    } else {
      assert m.Enters?;
      forall h: nat ensures Hides(r, agg', h) <==> Hides(levels, agg, h) && h != p {
        assert ShownThen(levels, p, r, WorstOf(levels), m, h);
      }
      if BestHidden(descending, levels, agg, p) {
        forall h: nat, q: nat | Hides(r, agg', h) && Displays(r, q) ensures Better(descending, q, h) {
          assert ShownThen(levels, p, r, WorstOf(levels), m, q);
        }
      } else {
        assert ShownThen(levels, p, r, WorstOf(levels), m, p);
      }
    }
  }

  lemma ShownIn(descending: bool, cap: nat, levels: seq<Level>, agg: Aggregate, p: nat)
    requires Faithful(descending, cap, levels, agg)
    ensures Displays(levels, p) ==> p in agg
  {}

  lemma SameShown(levels: seq<Level>, agg: Aggregate, p: nat, t: nat, r: seq<Level>, m: Move, h: nat)
    requires (m.Stays? || m.Sets?) && ShownThen(levels, p, r, WorstOf(levels), m, h)
    requires p in agg <==> t > 0
    ensures Hides(r, Change(agg, p, t), h) <==> Hides(levels, agg, h)
  {}

  /** A hidden price that is not the best has taken the last place: one update makes that good exactly
      if it brings in the best of all that was hidden. */
  lemma FinishFull(descending: bool, cap: nat, levels: seq<Level>, agg: Aggregate, x: nat, tx: nat, p: nat, t: nat)
    requires cap > 0 && Faithful(descending, cap, levels, agg) && Ranked(descending, levels, agg)
    requires |levels| + 1 == cap && Hides(levels, agg, x) && tx > 0 && !BestHidden(descending, levels, agg, x)
    requires p in agg ==> t > 0
    ensures var b, agg2 := Update(descending, cap, levels, x, tx), Change(agg, x, tx);
            Top(descending, cap, Update(descending, cap, b, p, t), Change(agg2, p, t)) <==>
            t > 0 && p != x && !Displays(levels, p) && BestHidden(descending, levels, agg, p)
  {
    hide Update, Faithful, Top, MoveOf;
    var b, agg2 := Update(descending, cap, levels, x, tx), Change(agg, x, tx);
    UpdateSteps(descending, cap, levels, agg, x, tx);
    ItEnters(descending, cap, levels, x, tx);
    forall q: nat ensures Displays(b, q) <==> Displays(levels, q) || q == x {
      assert ShownThen(levels, x, b, WorstOf(levels), Enters, q);
    }
    FaithfulSide(descending, cap, b, agg2);
    LastIs(descending, cap, levels, agg, x, b);
    var h0: nat :| Hides(levels, agg, h0) && h0 != x && !Better(descending, x, h0);
    FullThen(descending, cap, levels, agg, x, b, agg2, h0, p, t);
  }

  lemma FaithfulSide(descending: bool, cap: nat, levels: seq<Level>, agg: Aggregate)
    requires cap > 0 && Faithful(descending, cap, levels, agg)
    ensures Side(descending, cap, levels)
  {}

  lemma ItEnters(descending: bool, cap: nat, levels: seq<Level>, x: nat, t: nat)
    requires !Displays(levels, x) && t > 0 && |levels| < cap
    ensures MoveOf(descending, cap, levels, x, t) == Enters
  {}

  /** A hidden price that enters goes last. */
  lemma LastIs(descending: bool, cap: nat, levels: seq<Level>, agg: Aggregate, x: nat, b: seq<Level>)
    requires Ranked(descending, levels, agg) && Hides(levels, agg, x)
    requires Side(descending, cap, b) && |b| == cap
    requires forall q: nat :: Displays(b, q) <==> Displays(levels, q) || q == x
    ensures WorstOf(b) == x
  {
    WorstIs(descending, cap, b, x);
  }

  lemma FullThen(descending: bool, cap: nat, levels: seq<Level>, agg: Aggregate, x: nat, b: seq<Level>, agg2: Aggregate,
                 h0: nat, p: nat, t: nat)
    requires cap > 0 && Ranked(descending, levels, agg) && Hides(levels, agg, x)
    requires Faithful(descending, cap, b, agg2) && |b| == cap && WorstOf(b) == x
    requires forall q: nat :: Displays(b, q) <==> Displays(levels, q) || q == x
    requires forall q: nat :: q in agg2 <==> q in agg
    requires Hides(levels, agg, h0) && h0 != x && !Better(descending, x, h0)
    requires p in agg ==> t > 0
    ensures Top(descending, cap, Update(descending, cap, b, p, t), Change(agg2, p, t)) <==>
            t > 0 && p != x && !Displays(levels, p) && BestHidden(descending, levels, agg, p)
  {
    hide Update, Faithful, Top;
    var r, agg' := Update(descending, cap, b, p, t), Change(agg2, p, t);
    var m := MoveOf(descending, cap, b, p, t);
    UpdateSteps(descending, cap, b, agg2, p, t);
    TopIs(descending, cap, r, agg');
    ShownIn(descending, cap, b, agg2, p);
    assert ShownThen(b, p, r, x, m, x) && ShownThen(b, p, r, x, m, h0);
    if m.Evicts? {
      assert Displays(r, p) by { assert ShownThen(b, p, r, x, m, p); }
      forall h: nat ensures Hides(r, agg', h) <==> Hides(levels, agg, h) && h != p {
        assert ShownThen(b, p, r, x, m, h);
      }
      if BestHidden(descending, levels, agg, p) {
        forall h: nat, q: nat | Hides(r, agg', h) && Displays(r, q) ensures Better(descending, q, h) {
          assert ShownThen(b, p, r, x, m, q);
        }
      }
    } else {
      assert Displays(r, x) && Hides(r, agg', h0);
      if t > 0 && p != x && !Displays(levels, p) {
        assert !Better(descending, p, x);
      }
    }
  }

  // ------------------------------------------------------------ the updates of one event

  /** Updates as one event makes them: quantity is taken off where there is some, by all but the
      last of several, and the last leaves some where there was some. */
  ghost predicate Eventlike(agg: Aggregate, ups: seq<(nat, nat)>) {
    && |ups| <= 3
    && (|ups| >= 2 ==> ups[0].1 > 0 ==> ups[0].0 in agg)
    && (|ups| == 3 ==> ups[1].1 > 0 ==> ups[1].0 in Change(agg, ups[0].0, ups[0].1))
    && (|ups| >= 2 ==> ups[|ups| - 1].0 in Spared(agg, ups) ==> ups[|ups| - 1].1 > 0)
  }

  /** The aggregate once all but the last update are made. */
  function Spared(agg: Aggregate, ups: seq<(nat, nat)>): (r: Aggregate)
    requires 2 <= |ups| <= 3
  {
    var a := Change(agg, ups[0].0, ups[0].1);
    if |ups| == 2 then a else Change(a, ups[1].0, ups[1].1)
  }

  /** A shown price that lost all its quantity. */
  predicate Lost(levels: seq<Level>, left: Aggregate, p: nat) {
    Displays(levels, p) && p !in left
  }

  /** The last update brings in the best of what is hidden. */
  ghost predicate Fills(descending: bool, levels: seq<Level>, left: Aggregate, p: nat, t: nat) {
    t > 0 && !(Displays(levels, p) && p in left) && BestHidden(descending, levels, left, p)
  }

  /** The second update takes the place the first one freed, and is the best of what is hidden. */
  ghost predicate StepsIn(descending: bool, levels: seq<Level>, agg: Aggregate, left: Aggregate, ups: seq<(nat, nat)>) {
    && |ups| == 3 && ups[0].1 == 0 && Displays(levels, ups[0].0)
    && ups[1].1 > 0 && Hides(levels, agg, ups[1].0) && BestHidden(descending, levels, left, ups[1].0)
  }

  /** Told from the state before: the side still shows the best levels after the event. Either no
      shown price loses its quantity, or nothing is hidden any more; or one place is freed and the best
      of the hidden takes it; or two are and a single hidden price is left and put in. */
  ghost predicate KeepsTop(descending: bool, levels: seq<Level>, agg: Aggregate, ups: seq<(nat, nat)>) {
    if |ups| == 1 then !Uncovers(levels, agg, ups[0].0, ups[0].1)
    else if 2 <= |ups| <= 3 then
      var n, left := |ups|, Spared(agg, ups);
      var a, b, last := ups[0].0, ups[n - 2].0, ups[n - 1];
      || (!Lost(levels, left, a) && !Lost(levels, left, b))
      || NoneHidden(levels, left)
      || if a != b && Lost(levels, left, a) && Lost(levels, left, b) then
           forall h: nat :: Hides(levels, left, h) ==> h == last.0
         else
           Fills(descending, levels, left, last.0, last.1) || StepsIn(descending, levels, agg, left, ups)
    else true
  }

  lemma UncoversIs(descending: bool, cap: nat, levels: seq<Level>, agg: Aggregate, p: nat, t: nat)
    requires Faithful(descending, cap, levels, agg)
    ensures Uncovers(levels, agg, p, t) <==> Displays(levels, p) && t == 0 && !NoneHidden(levels, agg)
  {
    if Uncovers(levels, agg, p, t) {
      var h :| h in agg && !Displays(levels, h);
      assert Hides(levels, agg, h);
    } else if !NoneHidden(levels, agg) {
      var h: nat :| Hides(levels, agg, h);
    }
  }

  /** What an update that uncovers leaves: one place free, and everything hidden still worse. */
  ghost predicate Gap(descending: bool, cap: nat, levels: seq<Level>, agg: Aggregate, p: nat, a: seq<Level>) {
    && Faithful(descending, cap, a, Change(agg, p, 0)) && |a| + 1 == cap
    && (forall q: nat :: Displays(a, q) <==> Displays(levels, q) && q != p)
    && Ranked(descending, a, Change(agg, p, 0)) && !NoneHidden(a, Change(agg, p, 0))
  }

  lemma UncoverLeavesGap(descending: bool, cap: nat, levels: seq<Level>, agg: Aggregate, p: nat)
    requires cap > 0 && Top(descending, cap, levels, agg) && Uncovers(levels, agg, p, 0)
    ensures Gap(descending, cap, levels, agg, p, Update(descending, cap, levels, p, 0))
  {
    hide Update, Top;
    TopFaithful(descending, cap, levels, agg);
    hide Faithful;
    var a, agg1 := Update(descending, cap, levels, p, 0), Change(agg, p, 0);
    TopIs(descending, cap, levels, agg);
    UncoversIs(descending, cap, levels, agg, p, 0);
    UpdateSteps(descending, cap, levels, agg, p, 0);
    assert MoveOf(descending, cap, levels, p, 0) == Removes;
    forall q: nat ensures Displays(a, q) <==> Displays(levels, q) && q != p {
      assert ShownThen(levels, p, a, WorstOf(levels), Removes, q);
    }
    assert forall h: nat :: Hides(a, agg1, h) <==> Hides(levels, agg, h);
  }

  lemma TopFaithful(descending: bool, cap: nat, levels: seq<Level>, agg: Aggregate)
    requires Top(descending, cap, levels, agg)
    ensures Faithful(descending, cap, levels, agg)
  {}

  /** An update that leaves quantity where there was some uncovers nothing. */
  lemma RiseKeeps(descending: bool, cap: nat, levels: seq<Level>, agg: Aggregate, p: nat, t: nat)
    requires cap > 0 && Top(descending, cap, levels, agg) && (p in agg ==> t > 0)
    ensures Top(descending, cap, Update(descending, cap, levels, p, t), Change(agg, p, t))
  {
    hide Update;
    UpdateTopIff(descending, cap, levels, agg, p, t);
  }

  lemma BehindOf(agg: Aggregate, ups: seq<(nat, nat)>)
    requires |ups| <= 3
    ensures |ups| == 0 ==> Behind(agg, ups) == agg
    ensures |ups| == 1 ==> Behind(agg, ups) == Change(agg, ups[0].0, ups[0].1)
    ensures |ups| >= 2 ==> Behind(agg, ups) == Change(Spared(agg, ups), ups[|ups| - 1].0, ups[|ups| - 1].1)
    decreases |ups|
  {
    hide Change;
    if ups != [] {
      BehindOf(Change(agg, ups[0].0, ups[0].1), ups[1..]);
    }
  }

  lemma TwoTop(descending: bool, cap: nat, levels: seq<Level>, agg: Aggregate, ups: seq<(nat, nat)>)
    requires cap > 0 && Top(descending, cap, levels, agg) && |ups| == 2 && Eventlike(agg, ups)
    ensures Top(descending, cap, Shown(descending, cap, levels, ups), Behind(agg, ups))
       <==> KeepsTop(descending, levels, agg, ups)
  {
    hide Update, Top, Shown, Behind;
    TopFaithful(descending, cap, levels, agg);
    ShownOf(descending, cap, levels, ups);
    BehindOf(agg, ups);
    var (p1, t1) := ups[0];
    var (p2, t2) := ups[1];
    var a, agg1 := Update(descending, cap, levels, p1, t1), Change(agg, p1, t1);
    UpdateTopIff(descending, cap, levels, agg, p1, t1);
    UncoversIs(descending, cap, levels, agg, p1, t1);
    if Uncovers(levels, agg, p1, t1) {
      UncoverLeavesGap(descending, cap, levels, agg, p1);
      FinishGap(descending, cap, a, agg1, p2, t2);
      GapHides(descending, cap, levels, agg, p1, a);
    } else {
      RiseKeeps(descending, cap, a, agg1, p2, t2);
      assert Lost(levels, agg1, p1) ==> NoneHidden(levels, agg1);
    }
  }

  lemma GapHides(descending: bool, cap: nat, levels: seq<Level>, agg: Aggregate, p: nat, a: seq<Level>)
    requires Gap(descending, cap, levels, agg, p, a) && Faithful(descending, cap, levels, agg)
    ensures forall h: nat :: Hides(a, Change(agg, p, 0), h) <==> Hides(levels, Change(agg, p, 0), h)
    ensures forall q: nat :: Displays(a, q) <==> Displays(levels, q) && q in Change(agg, p, 0)
  {}

  /** A first update that uncovers nothing does not matter to what the others do. */
  lemma SkipFirst(descending: bool, cap: nat, levels: seq<Level>, agg: Aggregate, ups: seq<(nat, nat)>)
    requires cap > 0 && Top(descending, cap, levels, agg) && |ups| == 3 && Eventlike(agg, ups)
    requires !Uncovers(levels, agg, ups[0].0, ups[0].1)
    ensures var a := Update(descending, cap, levels, ups[0].0, ups[0].1);
            KeepsTop(descending, a, Change(agg, ups[0].0, ups[0].1), ups[1..]) <==>
            KeepsTop(descending, levels, agg, ups)
  {
    hide Update, Top, Faithful;
    var (p1, t1) := ups[0];
    var a, agg1, left := Update(descending, cap, levels, p1, t1), Change(agg, p1, t1), Spared(agg, ups);
    assert Spared(agg1, ups[1..]) == left;
    TopFaithful(descending, cap, levels, agg);
    TopIs(descending, cap, levels, agg);
    UncoversIs(descending, cap, levels, agg, p1, t1);
    UpdateSteps(descending, cap, levels, agg, p1, t1);
    if NoneHidden(levels, agg) {
      AllShown(descending, cap, levels, agg, p1, t1, a);
      FewerHidden(levels, agg, left);
      FewerHidden(a, agg1, left);
    } else {
      NothingMoves(descending, cap, levels, agg, p1, t1);
      forall q: nat ensures Displays(a, q) <==> Displays(levels, q) {
        assert ShownThen(levels, p1, a, WorstOf(levels), MoveOf(descending, cap, levels, p1, t1), q);
      }
      SameHides(levels, a, left);
      ShownIn(descending, cap, levels, agg, p1);
    }
  }

  lemma FewerHidden(levels: seq<Level>, agg: Aggregate, left: Aggregate)
    requires NoneHidden(levels, agg) && forall q: nat :: q in left ==> q in agg
    ensures NoneHidden(levels, left)
  {
    forall h: nat ensures !Hides(levels, left, h) {
      assert !Hides(levels, agg, h);
    }
  }

  lemma AllShown(descending: bool, cap: nat, levels: seq<Level>, agg: Aggregate, p: nat, t: nat, a: seq<Level>)
    requires NoneHidden(levels, agg) && (t > 0 ==> p in agg)
    requires Stepped(descending, cap, levels, agg, p, t, a, MoveOf(descending, cap, levels, p, t))
    ensures NoneHidden(a, Change(agg, p, t))
  {
    hide Faithful;
    forall h: nat ensures !Hides(a, Change(agg, p, t), h) {
      assert ShownThen(levels, p, a, WorstOf(levels), MoveOf(descending, cap, levels, p, t), h);
      assert !Hides(levels, agg, h);
      assert t > 0 ==> !Hides(levels, agg, p);
    }
  }

  /** On a full side showing the best levels, taking quantity off without emptying a shown price
      changes no price shown. */
  lemma NothingMoves(descending: bool, cap: nat, levels: seq<Level>, agg: Aggregate, p: nat, t: nat)
    requires cap > 0 && Faithful(descending, cap, levels, agg) && |levels| == cap && Ranked(descending, levels, agg)
    requires (t > 0 ==> p in agg) && !(Displays(levels, p) && t == 0)
    ensures var m := MoveOf(descending, cap, levels, p, t); m.Stays? || m.Sets?
  {
    if !Displays(levels, p) && t > 0 {
      assert Hides(levels, agg, p);
      assert levels[cap - 1] in levels;
      assert Displays(levels, levels[cap - 1].price);
    }
  }

  lemma SameHides(levels: seq<Level>, a: seq<Level>, left: Aggregate)
    requires forall q: nat :: Displays(a, q) <==> Displays(levels, q)
    ensures forall h: nat :: Hides(a, left, h) <==> Hides(levels, left, h)
    ensures forall p: nat :: Lost(a, left, p) <==> Lost(levels, left, p)
  {}

  lemma ThreeTop(descending: bool, cap: nat, levels: seq<Level>, agg: Aggregate, ups: seq<(nat, nat)>)
    requires cap > 0 && Top(descending, cap, levels, agg) && |ups| == 3 && Eventlike(agg, ups)
    ensures Top(descending, cap, Shown(descending, cap, levels, ups), Behind(agg, ups))
       <==> KeepsTop(descending, levels, agg, ups)
  {
    hide Update, Top, KeepsTop;
    var (p1, t1) := ups[0];
    var a, agg1 := Update(descending, cap, levels, p1, t1), Change(agg, p1, t1);
    UpdateTopIff(descending, cap, levels, agg, p1, t1);
    TopFaithful(descending, cap, levels, agg);
    if Uncovers(levels, agg, p1, t1) {
      UncoverLeavesGap(descending, cap, levels, agg, p1);
      ThreeFromGap(descending, cap, levels, agg, ups, a);
    } else {
      SkipFirst(descending, cap, levels, agg, ups);
      TwoTop(descending, cap, a, agg1, ups[1..]);
    }
  }

  /** The last update leaves the side showing the best levels. */
  ghost predicate EndsTop(descending: bool, cap: nat, levels: seq<Level>, agg: Aggregate, last: (nat, nat)) {
    Top(descending, cap, Update(descending, cap, levels, last.0, last.1), Change(agg, last.0, last.1))
  }

  lemma ThreeFromGap(descending: bool, cap: nat, levels: seq<Level>, agg: Aggregate, ups: seq<(nat, nat)>,
                     a: seq<Level>)
    requires cap > 0 && Faithful(descending, cap, levels, agg) && |ups| == 3 && Eventlike(agg, ups)
    requires Displays(levels, ups[0].0) && ups[0].1 == 0
    requires a == Update(descending, cap, levels, ups[0].0, 0) && Gap(descending, cap, levels, agg, ups[0].0, a)
    ensures Top(descending, cap, Shown(descending, cap, levels, ups), Behind(agg, ups))
       <==> KeepsTop(descending, levels, agg, ups)
  {
    hide Update, Top, Shown, Behind, Faithful, MoveOf;
    ShownOf(descending, cap, levels, ups);
    BehindOf(agg, ups);
    GapHides(descending, cap, levels, agg, ups[0].0, a);
    var agg1 := Change(agg, ups[0].0, 0);
    var (p2, t2) := ups[1];
    if Hides(a, agg1, p2) && t2 > 0 {
      GapTaken(descending, cap, levels, agg, ups, a);
    } else {
      GapStays(descending, cap, levels, agg, ups, a);
    }
  }

  lemma GapTaken(descending: bool, cap: nat, levels: seq<Level>, agg: Aggregate, ups: seq<(nat, nat)>, a: seq<Level>)
    requires cap > 0 && Faithful(descending, cap, levels, agg) && |ups| == 3 && Eventlike(agg, ups)
    requires Displays(levels, ups[0].0) && ups[0].1 == 0 && Gap(descending, cap, levels, agg, ups[0].0, a)
    requires Hides(a, Change(agg, ups[0].0, 0), ups[1].0) && ups[1].1 > 0
    ensures EndsTop(descending, cap, Update(descending, cap, a, ups[1].0, ups[1].1), Spared(agg, ups), ups[2]) <==>
            KeepsTop(descending, levels, agg, ups)
  {
    hide Update, Top, Faithful, MoveOf;
    var agg1, left := Change(agg, ups[0].0, 0), Spared(agg, ups);
    var (p2, t2) := ups[1];
    var (p3, t3) := ups[2];
    GapHides(descending, cap, levels, agg, ups[0].0, a);
    assert forall q: nat :: q in left <==> q in agg1;
    assert forall h: nat :: Hides(levels, left, h) <==> Hides(a, agg1, h);
    assert Lost(levels, left, ups[0].0) && !Lost(levels, left, p2) && Hides(levels, left, p2);
    if BestHidden(descending, a, agg1, p2) {
      FinishGap(descending, cap, a, agg1, p2, t2);
      RiseKeeps(descending, cap, Update(descending, cap, a, p2, t2), left, p3, t3);
      assert StepsIn(descending, levels, agg, left, ups);
    } else {
      FinishFull(descending, cap, a, agg1, p2, t2, p3, t3);
      assert !BestHidden(descending, levels, left, p2);
      assert BestHidden(descending, levels, left, p3) <==> BestHidden(descending, a, agg1, p3);
    }
  }

  lemma GapStays(descending: bool, cap: nat, levels: seq<Level>, agg: Aggregate, ups: seq<(nat, nat)>, a: seq<Level>)
    requires cap > 0 && Faithful(descending, cap, levels, agg) && |ups| == 3 && Eventlike(agg, ups)
    requires Displays(levels, ups[0].0) && ups[0].1 == 0 && Gap(descending, cap, levels, agg, ups[0].0, a)
    requires !(Hides(a, Change(agg, ups[0].0, 0), ups[1].0) && ups[1].1 > 0)
    ensures EndsTop(descending, cap, Update(descending, cap, a, ups[1].0, ups[1].1), Spared(agg, ups), ups[2]) <==>
            KeepsTop(descending, levels, agg, ups)
  {
    hide Update, Top, Faithful;
    var agg1, left := Change(agg, ups[0].0, 0), Spared(agg, ups);
    var (p2, t2) := ups[1];
    var (p3, t3) := ups[2];
    var b := Update(descending, cap, a, p2, t2);
    GapHides(descending, cap, levels, agg, ups[0].0, a);
    UpdateSteps(descending, cap, a, agg1, p2, t2);
    ShownIn(descending, cap, a, agg1, p2);
    var m := MoveOf(descending, cap, a, p2, t2);
    assert m.Stays? || m.Sets? || m.Removes?;
    forall q: nat ensures Displays(b, q) <==> Displays(levels, q) && q in left {
      assert ShownThen(a, p2, b, WorstOf(a), m, q);
    }
    assert forall h: nat :: Hides(b, left, h) <==> Hides(levels, left, h);
    assert forall h: nat :: Hides(b, left, h) ==> Hides(a, agg1, h);
    TopIs(descending, cap, b, left);
    if NoneHidden(b, left) {
      RiseKeeps(descending, cap, b, left, p3, t3);
    } else {
      FinishGap(descending, cap, b, left, p3, t3);
    }
  }

  /** A side showing the best levels shows them after the updates of an event if and only if the
      condition on the state before holds. */
  lemma EventTopIff(descending: bool, cap: nat, levels: seq<Level>, agg: Aggregate, ups: seq<(nat, nat)>)
    requires cap > 0 && Top(descending, cap, levels, agg) && Eventlike(agg, ups)
    ensures Top(descending, cap, Shown(descending, cap, levels, ups), Behind(agg, ups))
       <==> KeepsTop(descending, levels, agg, ups)
  {
    hide Top, Update, Shown, Behind;
    if |ups| <= 1 {
      hide Eventlike;
      ShownOf(descending, cap, levels, ups);
      BehindOf(agg, ups);
      if |ups| == 1 {
        UpdateTopIff(descending, cap, levels, agg, ups[0].0, ups[0].1);
      }
    } else if |ups| == 2 {
      TwoTop(descending, cap, levels, agg, ups);
    } else {
      ThreeTop(descending, cap, levels, agg, ups);
    }
  }
}
