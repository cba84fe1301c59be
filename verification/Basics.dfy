/** What several parts share: the smaller of two numbers, the width of a 32-bit word, and that a
    strictly ordered list is determined by its elements. */
module Basics {
  const WRAP32: nat := 0x1_0000_0000

  function Min(a: int, b: int): (m: int) {
    if a <= b then a else b
  }

  predicate InOrder<T>(before: (T, T) -> bool, s: seq<T>) {
    forall i, j | 0 <= i < j < |s| :: before(s[i], s[j])
  }

  ghost predicate Strict<T(!new)>(before: (T, T) -> bool) {
    forall x, y | before(x, y) :: !before(y, x)
  }

  lemma {:induction false} SameElements<T(!new)>(before: (T, T) -> bool, a: seq<T>, b: seq<T>)
    requires Strict(before) && InOrder(before, a) && InOrder(before, b)
    requires forall x :: x in a <==> x in b
    ensures a == b
  {
    assert a != [] ==> a[0] in b;
    assert b != [] ==> b[0] in a;
    if a != [] {
      var x, a', b' := a[|a| - 1], a[..|a| - 1], b[..|b| - 1];
      SameLast(before, a, b);
      forall z ensures z in a' <==> z in b' {
        InInit(before, a, z);
        InInit(before, b, z);
      }
      SameElements(before, a', b');
      assert a == a' + [x] && b == b' + [x];
    }
  }

  lemma SameLast<T(!new)>(before: (T, T) -> bool, a: seq<T>, b: seq<T>)
    requires Strict(before) && InOrder(before, a) && InOrder(before, b) && a != [] && b != []
    requires forall x :: x in a <==> x in b
    ensures a[|a| - 1] == b[|b| - 1]
  {
    var x, y := a[|a| - 1], b[|b| - 1];
    assert x in a && y in b;
    var i :| 0 <= i < |b| && b[i] == x;
    var j :| 0 <= j < |a| && a[j] == y;
  }

  lemma InInit<T(!new)>(before: (T, T) -> bool, a: seq<T>, x: T)
    requires Strict(before) && InOrder(before, a) && a != []
    ensures x in a[..|a| - 1] <==> x in a && x != a[|a| - 1]
  {
    var n := |a| - 1;
    if x in a[..n] {
      var i :| 0 <= i < n && a[..n][i] == x;
      assert a[i] == x;
    }
    assert a == a[..n] + [a[n]];
  }
}
