/** One side of a bounded price-level book kept sorted in an array, best price first. Prices are
    integer ticks: two floating-point prices that compare equal within a tolerance are one tick. */
module ArrayBook {

  datatype Level = Level(price: nat, qty: nat)

  /** Bids put the higher price first, asks the lower. */
  predicate Better(descending: bool, a: nat, b: nat) {
    if descending then a > b else a < b
  }

  predicate Sorted(descending: bool, levels: seq<Level>) {
    forall i, j | 0 <= i < j < |levels| :: Better(descending, levels[i].price, levels[j].price)
  }

  /** The index of the level at `price`, or the length when there is none. */
  function Find(levels: seq<Level>, price: nat): (i: nat)
    ensures i <= |levels|
    ensures i < |levels| ==> levels[i].price == price
    ensures forall j | 0 <= j < i :: levels[j].price != price
  {
    if levels == [] then 0
    else if levels[0].price == price then 0
    else 1 + Find(levels[1..], price)
  }

  /** The index before which `price` belongs. */
  function Position(descending: bool, levels: seq<Level>, price: nat): (i: nat)
    ensures i <= |levels|
    ensures i < |levels| ==> Better(descending, price, levels[i].price)
    ensures forall j | 0 <= j < i :: !Better(descending, price, levels[j].price)
  {
    if levels == [] then 0
    else if Better(descending, price, levels[0].price) then 0
    else 1 + Position(descending, levels[1..], price)
  }

  function Remove(levels: seq<Level>, i: nat): (r: seq<Level>)
    requires i < |levels|
  {
    levels[..i] + levels[i + 1..]
  }

  function Insert(levels: seq<Level>, i: nat, x: Level): (r: seq<Level>)
    requires i <= |levels|
  {
    levels[..i] + [x] + levels[i..]
  }

  /** A level set, changed or removed; a full side drops its worst level for a better one. */
  function Update(descending: bool, cap: nat, levels: seq<Level>, price: nat, qty: int): (r: seq<Level>) {
    var q: nat := if qty < 0 then 0 else qty;
    var i := Find(levels, price);
    if i < |levels| then
      if q == 0 then Remove(levels, i) else levels[i := Level(price, q)]
    else if q == 0 then levels
    else
      var pos := Position(descending, levels, price);
      if |levels| < cap then Insert(levels, pos, Level(price, q))
      else if pos >= cap then levels
      else Insert(levels[..|levels| - 1], pos, Level(price, q))
  }

  // ----------------------------------------------------- the array in place

  /** Open slot `pos` by moving `levels[pos..n]` one up; the entry at `n` is overwritten. */
  method ShiftUp(levels: array<Level>, n: nat, pos: nat)
    requires pos <= n < levels.Length
    modifies levels
    ensures forall j | 0 <= j <= pos :: levels[j] == old(levels[j])
    ensures forall j | pos < j <= n :: levels[j] == old(levels[j - 1])
  {
    var k := n;
    while k > pos
      invariant pos <= k <= n
      invariant forall j | 0 <= j <= k :: levels[j] == old(levels[j])
      invariant forall j | k < j <= n :: levels[j] == old(levels[j - 1])
    {
      levels[k] := levels[k - 1];
      k := k - 1;
    }
  }

  method InsertAt(levels: array<Level>, n: nat, pos: nat, x: Level)
    requires pos <= n < levels.Length
    modifies levels
    ensures levels[..n + 1] == Insert(old(levels[..n]), pos, x)
  {
    ghost var was := levels[..n];
    ShiftUp(levels, n, pos);
    levels[pos] := x;
    InsertIs(was, levels[..n + 1], pos, x);
  }

  lemma InsertIs(was: seq<Level>, now: seq<Level>, pos: nat, x: Level)
    requires pos <= |was| && |now| == |was| + 1
    requires forall j | 0 <= j < pos :: now[j] == was[j]
    requires now[pos] == x
    requires forall j | pos < j < |now| :: now[j] == was[j - 1]
    ensures now == Insert(was, pos, x)
  {}

  /** Close slot `i` by moving `levels[i + 1..n]` one down. */
  method RemoveAt(levels: array<Level>, n: nat, i: nat)
    requires i < n <= levels.Length
    modifies levels
    ensures levels[..n - 1] == Remove(old(levels[..n]), i)
  {
    ghost var was := levels[..];
    var k := i;
    while k + 1 < n
      invariant i <= k < n
      invariant forall j | 0 <= j < i :: levels[j] == was[j]
      invariant forall j | i <= j < k :: levels[j] == was[j + 1]
      invariant forall j | k <= j < n :: levels[j] == was[j]
    {
      levels[k] := levels[k + 1];
      k := k + 1;
    }
    assert levels[..n - 1] == was[..i] + was[i + 1..n];
  }

  method FindLevel(levels: array<Level>, count: nat, price: nat) returns (i: nat)
    requires count <= levels.Length
    ensures i == Find(levels[..count], price)
  {
    i := 0;
    while i < count && levels[i].price != price
      invariant i <= count
      invariant forall j | 0 <= j < i :: levels[j].price != price
    {
      i := i + 1;
    }
    ghost var view := levels[..count];
    assert forall j | 0 <= j < i :: view[j].price != price;
    ghost var f := Find(view, price);
  }

  method FindPosition(levels: array<Level>, count: nat, descending: bool, price: nat) returns (pos: nat)
    requires count <= levels.Length
    ensures pos == Position(descending, levels[..count], price)
  {
    pos := 0;
    while pos < count && !Better(descending, price, levels[pos].price)
      invariant pos <= count
      invariant forall j | 0 <= j < pos :: !Better(descending, price, levels[j].price)
    {
      pos := pos + 1;
    }
    ghost var view := levels[..count];
    assert pos < count ==> Better(descending, price, view[pos].price);
    assert forall j | 0 <= j < pos :: !Better(descending, price, view[j].price);
    ghost var p := Position(descending, view, price);
  }

  /** The three cases of an update, worked in place on the first `count` entries. */
  method UpdateSide(levels: array<Level>, count: nat, price: nat, qty: int, descending: bool) returns (count': nat)
    requires 0 < levels.Length && count <= levels.Length
    modifies levels
    ensures count' <= levels.Length
    ensures levels[..count'] == Update(descending, levels.Length, old(levels[..count]), price, qty)
  {
    hide Find, Position;
    ghost var was := levels[..count];
    var q: nat := if qty < 0 then 0 else qty;
    count' := count;
    var i := FindLevel(levels, count, price);
    if i < count {
      if q == 0 {
        RemoveAt(levels, count, i);
        count' := count - 1;
      } else {
        levels[i] := Level(price, q);
        assert levels[..count] == was[i := Level(price, q)];
      }
      return;
    }
    if q == 0 {
      return;
    }
    var pos := FindPosition(levels, count, descending, price);
    if count >= levels.Length {
      if pos < levels.Length {
        assert levels[..count - 1] == was[..count - 1];
        InsertAt(levels, count - 1, pos, Level(price, q));
      }
      return;
    }
    InsertAt(levels, count, pos, Level(price, q));
    count' := count + 1;
  }
}
