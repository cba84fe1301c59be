/** The word-at-a-time mask loops, proved equal to the octet-at-a-time mask they stand for. */
module WsMask {
  import opened Bytes

  /** A 32-bit word as `memcpy` loads it on a little-endian host. */
  function Load32(a: byte, b: byte, c: byte, d: byte): (w: bv32) {
    (a as bv32) | ((b as bv32) << 8) | ((c as bv32) << 16) | ((d as bv32) << 24)
  }

  /** Octet `i` of a word as `memcpy` stores it. */
  function Byte0(w: bv32): (b: byte) { (w & 0xFF) as byte }
  function Byte1(w: bv32): (b: byte) { ((w >> 8) & 0xFF) as byte }
  function Byte2(w: bv32): (b: byte) { ((w >> 16) & 0xFF) as byte }
  function Byte3(w: bv32): (b: byte) { ((w >> 24) & 0xFF) as byte }

  /** A 64-bit word with `lo` in its low half. */
  function Join(lo: bv32, hi: bv32): (w: bv64) {
    (lo as bv64) | ((hi as bv64) << 32)
  }

  /** Word exclusive or is octet exclusive or: no bit crosses an octet boundary. */
  lemma Xor32(a: byte, b: byte, c: byte, d: byte, e: byte, f: byte, g: byte, h: byte)
    ensures Load32(a, b, c, d) ^ Load32(e, f, g, h) == Load32(a ^ e, b ^ f, c ^ g, d ^ h)
  {}

  lemma Stored(a: byte, b: byte, c: byte, d: byte)
    ensures Byte0(Load32(a, b, c, d)) == a
    ensures Byte1(Load32(a, b, c, d)) == b
    ensures Byte2(Load32(a, b, c, d)) == c
    ensures Byte3(Load32(a, b, c, d)) == d
  {}

  function Low(w: bv64): (lo: bv32) { (w & 0xFFFF_FFFF) as bv32 }
  function High(w: bv64): (hi: bv32) { ((w >> 32) & 0xFFFF_FFFF) as bv32 }

  /** A 64-bit exclusive or with the mask word repeated is the 32-bit one on each half. */
  lemma Xor64(lo: bv32, hi: bv32, m: bv32)
    ensures Low(Join(lo, hi) ^ Join(m, m)) == lo ^ m
    ensures High(Join(lo, hi) ^ Join(m, m)) == hi ^ m
  {}

  lemma MaskedFour(s: seq<byte>, key: Key)
    requires |s| == 4
    ensures Masked(s, key) == [s[0] ^ key[0], s[1] ^ key[1], s[2] ^ key[2], s[3] ^ key[3]]
  {
    MaskedAt(s, key, 0);
    MaskedAt(s, key, 1);
    MaskedAt(s, key, 2);
    MaskedAt(s, key, 3);
    FourOctets(Masked(s, key), s[0] ^ key[0], s[1] ^ key[1], s[2] ^ key[2], s[3] ^ key[3]);
  }

  lemma FourOctets(m: seq<byte>, a: byte, b: byte, c: byte, d: byte)
    requires |m| == 4 && m[0] == a && m[1] == b && m[2] == c && m[3] == d
    ensures m == [a, b, c, d]
  {}

  ghost predicate SameOctets(r: seq<byte>, w: bv32) {
    r == [Byte0(w), Byte1(w), Byte2(w), Byte3(w)]
  }

  lemma MaskedWord(s: seq<byte>, key: Key, r: seq<byte>)
    requires |s| == 4
    requires SameOctets(r, Load32(s[0], s[1], s[2], s[3]) ^ Load32(key[0], key[1], key[2], key[3]))
    ensures r == Masked(s, key)
  {
    Xor32(s[0], s[1], s[2], s[3], key[0], key[1], key[2], key[3]);
    Stored(s[0] ^ key[0], s[1] ^ key[1], s[2] ^ key[2], s[3] ^ key[3]);
    MaskedFour(s, key);
  }

  /** `memcpy` of a word into four octets. */
  method StoreWord(w: bv32) returns (r: seq<byte>)
    ensures SameOctets(r, w)
  {
    r := [Byte0(w), Byte1(w), Byte2(w), Byte3(w)];
  }

  /** `memcpy` of four octets into a word. */
  method LoadWord(s: seq<byte>) returns (w: bv32)
    requires |s| == 4
    ensures w == Load32(s[0], s[1], s[2], s[3])
  {
    w := Load32(s[0], s[1], s[2], s[3]);
  }

  /** One 32-bit block against the key loaded as a word. */
  method MaskBlock32(s: seq<byte>, key: Key) returns (r: seq<byte>)
    requires |s| == 4
    ensures r == Masked(s, key)
  {
    var block := LoadWord(s);
    var m := LoadWord(key);
    r := StoreWord(block ^ m);
    MaskedWord(s, key, r);
  }

  /** `w` is the 64-bit word with these halves. */
  ghost predicate Wide(w: bv64, lo: bv32, hi: bv32) {
    w == Join(lo, hi)
  }

  /** The halves of `w` are these halves, each against `m`. */
  ghost predicate Halves(w: bv64, lo: bv32, hi: bv32, m: bv32) {
    Low(w) == lo ^ m && High(w) == hi ^ m
  }

  /** `memcpy` of eight octets into a word. */
  method LoadWide(a: seq<byte>, b: seq<byte>) returns (w: bv64)
    requires |a| == |b| == 4
    ensures Wide(w, Load32(a[0], a[1], a[2], a[3]), Load32(b[0], b[1], b[2], b[3]))
  {
    hide Load32, Join;
    var lo := LoadWord(a);
    var hi := LoadWord(b);
    w := Join(lo, hi);
  }

  method XorWide(w: bv64, mask: bv64, ghost lo: bv32, ghost hi: bv32, ghost m: bv32) returns (x: bv64)
    requires Wide(w, lo, hi) && Wide(mask, m, m)
    ensures Halves(x, lo, hi, m)
  {
    hide Join, Low, High;
    x := w ^ mask;
    Xor64(lo, hi, m);
  }

  /** `memcpy` of a word into eight octets. */
  method StoreWide(w: bv64) returns (lo: seq<byte>, hi: seq<byte>)
    ensures SameOctets(lo, Low(w)) && SameOctets(hi, High(w))
  {
    hide Low, High, SameOctets;
    lo := StoreWord(Low(w));
    hi := StoreWord(High(w));
  }

  lemma HalvesMasked(a: seq<byte>, b: seq<byte>, key: Key, w: bv64, lo: seq<byte>, hi: seq<byte>)
    requires |a| == |b| == 4
    requires Halves(w, Load32(a[0], a[1], a[2], a[3]), Load32(b[0], b[1], b[2], b[3]),
                    Load32(key[0], key[1], key[2], key[3]))
    requires SameOctets(lo, Low(w)) && SameOctets(hi, High(w))
    ensures lo + hi == Masked(a + b, key)
  {
    hide Low, High, Load32, SameOctets;
    MaskedWord(a, key, lo);
    MaskedWord(b, key, hi);
    MaskedAppend(a, b, key);
  }

  /** One 64-bit block against the key repeated in both halves. */
  method MaskBlock64(a: seq<byte>, b: seq<byte>, key: Key) returns (r: seq<byte>)
    requires |a| == |b| == 4
    ensures r == Masked(a + b, key)
  {
    hide Load32, Wide, Halves, SameOctets, Masked;
    var block := LoadWide(a, b);
    var mask := LoadWide(key, key);
    var x := XorWide(block, mask, Load32(a[0], a[1], a[2], a[3]), Load32(b[0], b[1], b[2], b[3]),
                     Load32(key[0], key[1], key[2], key[3]));
    var lo, hi := StoreWide(x);
    r := lo + hi;
    HalvesMasked(a, b, key, x, lo, hi);
  }

  /** `memcpy` of a block into the buffer. */
  method StoreBlock(dst: array<byte>, at: nat, block: seq<byte>)
    requires at + |block| <= dst.Length
    modifies dst
    ensures dst[..] == old(dst[..at]) + block + old(dst[at + |block|..])
  {
    forall j | 0 <= j < |block| {
      dst[at + j] := block[j];
    }
  }

  /** The buffer after the first `i` octets of `src` have been masked into `was[off..]`. */
  ghost function Written(was: seq<byte>, off: nat, src: seq<byte>, key: Key, i: nat): (now: seq<byte>)
    requires i <= |src| && off + |src| <= |was|
    ensures |now| == |was|
  {
    was[..off] + Masked(src[..i], key) + was[off + i..]
  }

  lemma WrittenStep(was: seq<byte>, off: nat, src: seq<byte>, key: Key, i: nat, block: seq<byte>)
    requires i + |block| <= |src| && off + |src| <= |was|
    requires Masked(src[..i + |block|], key) == Masked(src[..i], key) + block
    ensures var now := Written(was, off, src, key, i);
            now[..off + i] + block + now[off + i + |block|..] == Written(was, off, src, key, i + |block|)
  {
    var now := Written(was, off, src, key, i);
    assert now[..off + i] == was[..off] + Masked(src[..i], key);
    assert now[off + i + |block|..] == was[off + i + |block|..];
  }

  lemma MaskedBlock(src: seq<byte>, key: Key, words: nat, n: nat)
    requires 4 * words + n <= |src|
    ensures var i := 4 * words;
            Masked(src[..i + n], key) == Masked(src[..i], key) + Masked(src[i..i + n], key)
  {
    var i := 4 * words;
    assert src[..i + n] == src[..i] + src[i..i + n];
    MaskedAppend(src[..i], src[i..i + n], key);
  }

  lemma MaskedOctet(src: seq<byte>, key: Key, i: nat)
    requires i < |src|
    ensures Masked(src[..i + 1], key) == Masked(src[..i], key) + [src[i] ^ key[i % 4]]
  {
    assert src[..i + 1][..i] == src[..i];
  }

  /** Store one masked block after the masked prefix. */
  method Emit(dst: array<byte>, ghost was: seq<byte>, off: nat, ghost src: seq<byte>, key: Key, i: nat,
              block: seq<byte>)
    requires i + |block| <= |src| && off + |src| <= |was|
    requires dst[..] == Written(was, off, src, key, i)
    requires Masked(src[..i + |block|], key) == Masked(src[..i], key) + block
    modifies dst
    ensures dst[..] == Written(was, off, src, key, i + |block|)
  {
    WrittenStep(was, off, src, key, i, block);
    StoreBlock(dst, off + i, block);
  }

  lemma SliceOfSlice(s: seq<byte>, lo: nat, hi: nat, i: nat, n: nat)
    requires lo <= hi <= |s| && i + n <= hi - lo
    ensures s[lo..hi][i..i + n] == s[lo + i..lo + i + n]
  {
    var x, y := s[lo..hi][i..i + n], s[lo + i..lo + i + n];
    forall k | 0 <= k < n
      ensures x[k] == y[k]
    {
      assert x[k] == s[lo..hi][i + k];
    }
  }

  lemma WrittenRest(was: seq<byte>, off: nat, src: seq<byte>, key: Key, i: nat, n: nat)
    requires i + n <= |src| && off + |src| <= |was| && src == was[off..off + |src|]
    ensures Written(was, off, src, key, i)[off + i..off + i + n] == src[i..i + n]
  {
    var now := Written(was, off, src, key, i);
    SliceOfSlice(was, off, off + |src|, i, n);
    var x, y := now[off + i..off + i + n], was[off + i..off + i + n];
    forall k | 0 <= k < n
      ensures x[k] == y[k]
    {
      assert now[off + i + k] == was[off + i + k];
    }
  }

  /** The octet loop that finishes both routines. */
  method Tail(dst: array<byte>, ghost was: seq<byte>, off: nat, src: seq<byte>, key: Key, from: nat)
    requires from <= |src| && off + |src| <= |was|
    requires dst[..] == Written(was, off, src, key, from)
    modifies dst
    ensures dst[..] == Written(was, off, src, key, |src|)
  {
    var i := from;
    while i < |src|
      invariant i <= |src|
      invariant dst[..] == Written(was, off, src, key, i)
    {
      MaskedOctet(src, key, i);
      Emit(dst, was, off, src, key, i, [src[i] ^ key[i % 4]]);
      i := i + 1;
    }
  }

  /** One four-octet step of the in-place loop: load from the buffer, mask, store back. */
  method StepInPlace(data: array<byte>, ghost was: seq<byte>, off: nat, ghost src: seq<byte>, key: Key, i: nat,
                     ghost words: nat)
    requires i == 4 * words && i + 4 <= |src| && off + |src| <= |was| && src == was[off..off + |src|]
    requires data[..] == Written(was, off, src, key, i)
    modifies data
    ensures data[..] == Written(was, off, src, key, i + 4)
  {
    WrittenRest(was, off, src, key, i, 4);
    assert data[off + i..off + i + 4] == data[..][off + i..off + i + 4];
    var block := MaskBlock32(data[off + i..off + i + 4], key);
    MaskedBlock(src, key, words, 4);
    Emit(data, was, off, src, key, i, block);
  }

  /** In-place masking of `data[off..]`: four octets per step, then the tail. */
  method ApplyMask(data: array<byte>, off: nat, key: Key)
    requires off <= data.Length
    modifies data
    ensures data[..] == old(data[..off]) + Masked(old(data[off..]), key)
  {
    var was, src := data[..], data[off..];
    var i := 0;
    ghost var words := 0;
    WrittenAll(was, off, src, key);
    while i + 4 <= |src|
      invariant i <= |src| && i == 4 * words
      invariant data[..] == Written(was, off, src, key, i)
    {
      StepInPlace(data, was, off, src, key, i, words);
      i, words := i + 4, words + 1;
    }
    Tail(data, was, off, src, key, i);
  }

  lemma WrittenAll(was: seq<byte>, off: nat, src: seq<byte>, key: Key)
    requires off + |src| <= |was|
    ensures Written(was, off, src, key, 0) == was
    ensures Written(was, off, src, key, |src|) == was[..off] + Masked(src, key) + was[off + |src|..]
  {
    assert src[..|src|] == src;
  }

  /** One step of the copying loop on four or eight octets. */
  method StepCopy(dst: array<byte>, ghost was: seq<byte>, off: nat, src: seq<byte>, key: Key, i: nat,
                  wide: bool, ghost words: nat)
    returns (j: nat)
    requires i == 4 * words && i + (if wide then 8 else 4) <= |src| && off + |src| <= |was|
    requires dst[..] == Written(was, off, src, key, i)
    modifies dst
    ensures j == i + (if wide then 8 else 4)
    ensures dst[..] == Written(was, off, src, key, j)
  {
    var block;
    if wide {
      j := i + 8;
      block := MaskBlock64(src[i..i + 4], src[i + 4..i + 8], key);
      assert src[i..i + 4] + src[i + 4..i + 8] == src[i..i + 8];
    } else {
      j := i + 4;
      block := MaskBlock32(src[i..i + 4], key);
    }
    MaskedBlock(src, key, words, j - i);
    Emit(dst, was, off, src, key, i, block);
  }

  /** Fused copy and mask into `dst[off..]`: eight octets per step, then four, then one. */
  method MaskedCopy(dst: array<byte>, off: nat, src: seq<byte>, key: Key)
    requires off + |src| <= dst.Length
    modifies dst
    ensures dst[..] == old(dst[..off]) + Masked(src, key) + old(dst[off + |src|..])
  {
    ghost var was := dst[..];
    var i := 0;
    ghost var words := 0;
    WrittenAll(was, off, src, key);
    while i + 8 <= |src|
      invariant i <= |src| && i == 4 * words
      invariant dst[..] == Written(was, off, src, key, i)
    {
      i := StepCopy(dst, was, off, src, key, i, true, words);
      words := words + 2;
    }
    if i + 4 <= |src| {
      i := StepCopy(dst, was, off, src, key, i, false, words);
    }
    Tail(dst, was, off, src, key, i);
  }
}
