/** Octets, network byte order and the XOR mask, shared by the wire-format modules. */
module Bytes {

  type byte = bv8

  /** A WebSocket masking key is exactly four octets. */
  type Key = k: seq<byte> | |k| == 4 witness [0, 0, 0, 0]

  /** The octet whose value is `v`. */
  function Octet(v: nat): (b: byte)
    requires v < 256
    ensures b as int == v
  {
    if v == 0 then 0 else Successor(Octet(v - 1)); Octet(v - 1) + 1
  }

  lemma Successor(b: byte)
    requires b as int < 255
    ensures (b + 1) as int == b as int + 1
  {}

  ghost function Pow256(n: nat): (p: nat)
    ensures p > 0
  {
    if n == 0 then 1 else 256 * Pow256(n - 1)
  }

  /** The value of an octet string read most significant octet first. */
  function BigEndian(s: seq<byte>): (v: nat)
  {
    if s == [] then 0 else BigEndian(s[..|s| - 1]) * 256 + s[|s| - 1] as int
  }

  /** The low `width` octets of `v`, most significant first. */
  function ToBigEndian(v: nat, width: nat): (s: seq<byte>)
    ensures |s| == width
  {
    if width == 0 then [] else ToBigEndian(v / 256, width - 1) + [Octet(v % 256)]
  }

  lemma {:induction false} BigEndianBound(s: seq<byte>)
    ensures BigEndian(s) < Pow256(|s|)
  {
    if s != [] {
      BigEndianBound(s[..|s| - 1]);
    }
  }

  lemma {:induction false} BigEndianOfTo(v: nat, width: nat)
    requires v < Pow256(width)
    ensures BigEndian(ToBigEndian(v, width)) == v
  {
    if width > 0 {
      BigEndianOfTo(v / 256, width - 1);
      var s := ToBigEndian(v, width);
      assert s[..|s| - 1] == ToBigEndian(v / 256, width - 1);
    }
  }

  /** The numerals of the field widths in use. */
  lemma FieldWidths()
    ensures Pow256(2) == 0x1_0000
    ensures Pow256(8) == 0x1_0000_0000_0000_0000
  {
    assert Pow256(3) == 256 * Pow256(2);
    assert Pow256(4) == 256 * Pow256(3);
    assert Pow256(5) == 256 * Pow256(4);
    assert Pow256(6) == 256 * Pow256(5);
    assert Pow256(7) == 256 * Pow256(6);
  }

  /** Masking as section 5.3 of RFC 6455 defines it: octet i against key octet i mod 4. */
  function Masked(s: seq<byte>, key: Key): (r: seq<byte>)
    ensures |r| == |s|
  {
    if s == [] then []
    else Masked(s[..|s| - 1], key) + [s[|s| - 1] ^ key[(|s| - 1) % 4]]
  }

  lemma {:induction false} MaskedAt(s: seq<byte>, key: Key, i: nat)
    requires i < |s|
    ensures Masked(s, key)[i] == s[i] ^ key[i % 4]
  {
    if i < |s| - 1 {
      MaskedAt(s[..|s| - 1], key, i);
    }
  }

  lemma {:induction false} MaskedTwice(s: seq<byte>, key: Key)
    ensures Masked(Masked(s, key), key) == s
  {
    if s != [] {
      var init, last, k := s[..|s| - 1], s[|s| - 1], key[(|s| - 1) % 4];
      MaskedTwice(init, key);
      var m := Masked(s, key);
      assert m[..|m| - 1] == Masked(init, key);
      assert (last ^ k) ^ k == last;
    }
  }

  /** Masking restarts at a cut whose position is a multiple of four. */
  lemma {:induction false} MaskedAppend(a: seq<byte>, b: seq<byte>, key: Key)
    requires |a| % 4 == 0
    ensures Masked(a + b, key) == Masked(a, key) + Masked(b, key)
  {
    if b == [] {
      assert a + b == a;
    } else {
      var init := b[..|b| - 1];
      assert (a + b)[..|a + b| - 1] == a + init;
      MaskedAppend(a, init, key);
      SamePhase(|a + b| - 1, |a|);
    }
  }

  lemma SamePhase(i: nat, n: nat)
    requires n % 4 == 0 && i >= n
    ensures i % 4 == (i - n) % 4
  {}

  lemma Slices(a: seq<byte>, b: seq<byte>, c: seq<byte>, d: seq<byte>)
    ensures var s := a + (b + c) + d;
            && s[|a|..|a| + |b|] == b
            && s[|a| + |b|..|a| + |b| + |c|] == c
            && forall i | 0 <= i < |a| :: s[i] == a[i]
  {}

  lemma PrefixSlice(a: seq<byte>, b: seq<byte>, i: nat, j: nat)
    requires i <= j <= |a|
    ensures (a + b)[i..j] == a[i..j]
  {}

  lemma Rejoin(s: seq<byte>, i: nat, j: nat, k: nat)
    requires i <= j <= k <= |s|
    ensures s[..i] + (s[i..j] + s[j..k]) == s[..k]
  {}

  function Concat(parts: seq<seq<byte>>): (r: seq<byte>)
  {
    if parts == [] then [] else parts[0] + Concat(parts[1..])
  }

  lemma {:induction false} ConcatAppend(a: seq<seq<byte>>, b: seq<seq<byte>>)
    ensures Concat(a + b) == Concat(a) + Concat(b)
  {
    if a == [] {
      assert a + b == b;
    } else {
      assert (a + b)[1..] == a[1..] + b;
      ConcatAppend(a[1..], b);
    }
  }
}
