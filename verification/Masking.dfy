/** Payload masking, section 5.3 of RFC 6455, and its word-at-a-time form. */
module Masking {
  import opened Bytes

  type Key = k: seq<byte> | |k| == 4 witness [0, 0, 0, 0]

  function Xor8(x: byte, k: byte): byte { x ^ k }

  function Xor64(x: bv64, k: bv64): bv64 { x ^ k }

  /** The transformation of section 5.3, starting `offset` octets into the frame. */
  function Masked(s: seq<byte>, key: Key, offset: nat): (r: seq<byte>)
    ensures |r| == |s|
  {
    if s == [] then [] else [Xor8(s[0], key[offset % 4])] + Masked(s[1..], key, offset + 1)
  }

  /** Octet i of the result is octet i XOR octet i modulo 4 of the key. */
  lemma {:induction false} MaskedAt(s: seq<byte>, key: Key, offset: nat, i: nat)
    requires i < |s|
    ensures Masked(s, key, offset)[i] == Xor8(s[i], key[(offset + i) % 4])
  {
    if i > 0 {
      MaskedAt(s[1..], key, offset + 1, i - 1);
    }
  }

  lemma MaskedFrom0(s: seq<byte>, key: Key, i: nat, k: nat)
    requires i < |s| && k == i % 4
    ensures Masked(s, key, 0)[i] == Xor8(s[i], key[k])
  {
    MaskedAt(s, key, 0, i);
  }

  /** Only the offset modulo four matters. */
  lemma {:induction false} MaskedModulo(s: seq<byte>, key: Key, m: nat, n: nat)
    requires m % 4 == n % 4
    ensures Masked(s, key, m) == Masked(s, key, n)
  {
    if s != [] {
      MaskedModulo(s[1..], key, m + 1, n + 1);
    }
  }

  /** Masking chunk by chunk with the carried offset masks the whole. */
  lemma {:induction false} MaskedChunks(a: seq<byte>, b: seq<byte>, key: Key, offset: nat)
    ensures Masked(a + b, key, offset) == Masked(a, key, offset) + Masked(b, key, (offset + |a|) % 4)
  {
    if a == [] {
      assert a + b == b;
      MaskedModulo(b, key, offset, (offset + |a|) % 4);
    } else {
      MaskedChunks(a[1..], b, key, offset + 1);
      hide Xor8;
      assert (a + b)[0] == a[0] && (a + b)[1..] == a[1..] + b;
      assert offset + 1 + |a[1..]| == offset + |a|;
    }
  }

  lemma XorTwice(x: byte, k: byte)
    ensures Xor8(Xor8(x, k), k) == x
  {
  }

  /** Masking twice is the identity. */
  lemma {:induction false} MaskedTwice(s: seq<byte>, key: Key, offset: nat)
    ensures Masked(Masked(s, key, offset), key, offset) == s
  {
    if s != [] {
      XorTwice(s[0], key[offset % 4]);
      MaskedTwice(s[1..], key, offset + 1);
      assert Masked(s, key, offset)[1..] == Masked(s[1..], key, offset + 1);
    }
  }

  /** A uint8. */
  type Uint8 = n: nat | n < 256

  /** rotateMaskKey: the key as seen from `offset`. */
  method Rotate(key: Key, offset: Uint8) returns (r: Key)
    ensures forall i :: 0 <= i < 4 ==> r[i] == key[(offset + i) % 4]
  {
    var o := offset % 4;
    r := key;
    if o != 0 {
      r := [key[o], key[(o + 1) % 4], key[(o + 2) % 4], key[(o + 3) % 4]];
    }
  }

  /** Octet 0 to 7 of a little-endian word, by its bit position. */
  function Octet(w: bv64, shift: bv64): byte
    requires shift <= 56
  {
    ((w >> shift) & 0xff) as byte
  }

  /** Eight octets as a word; four twice over as a key word. */
  function ToWord(a: byte, b: byte, c: byte, d: byte, e: byte, f: byte, g: byte, h: byte): bv64 {
    (a as bv64) | (b as bv64 << 8) | (c as bv64 << 16) | (d as bv64 << 24)
    | (e as bv64 << 32) | (f as bv64 << 40) | (g as bv64 << 48) | (h as bv64 << 56)
  }

  lemma OctetsOfWord(a: byte, b: byte, c: byte, d: byte, e: byte, f: byte, g: byte, h: byte)
    ensures var w := ToWord(a, b, c, d, e, f, g, h);
            && Octet(w, 0) == a && Octet(w, 8) == b && Octet(w, 16) == c && Octet(w, 24) == d
            && Octet(w, 32) == e && Octet(w, 40) == f && Octet(w, 48) == g && Octet(w, 56) == h
  {
  }

  /** XOR on words is XOR on their octets. */
  lemma XorOfWords(a: byte, b: byte, c: byte, d: byte, e: byte, f: byte, g: byte, h: byte,
                   a': byte, b': byte, c': byte, d': byte, e': byte, f': byte, g': byte, h': byte)
    ensures Xor64(ToWord(a, b, c, d, e, f, g, h), ToWord(a', b', c', d', e', f', g', h'))
            == ToWord(Xor8(a, a'), Xor8(b, b'), Xor8(c, c'), Xor8(d, d'), Xor8(e, e'), Xor8(f, f'), Xor8(g, g'),
              Xor8(h, h'))
  {
  }

  function KeyWord(key: Key): bv64 {
    ToWord(key[0], key[1], key[2], key[3], key[0], key[1], key[2], key[3])
  }

  /** Load eight octets as a word, XOR it, and give the octets to store. */
  method XorWord(s: seq<byte>, k64: bv64, ghost key: Key) returns (o: seq<byte>)
    requires |s| == 8 && k64 == KeyWord(key)
    ensures o == Masked(s, key, 0)
  {
    hide ToWord, KeyWord, Masked, Xor8, Xor64;
    var w := Xor64(ToWord(s[0], s[1], s[2], s[3], s[4], s[5], s[6], s[7]), k64);
    ghost var a, b := s[..4], s[4..];
    XorIsMasked(a, b, key);
    o := SplitWord(w, Masked(a, key, 0), Masked(b, key, 0));
    MaskedTwo(a, b, key);
    assert s == a + b;
  }

  lemma XorIsMasked(a: seq<byte>, b: seq<byte>, key: Key)
    requires |a| == |b| == 4
    ensures Xor64(ToWord(a[0], a[1], a[2], a[3], b[0], b[1], b[2], b[3]), KeyWord(key))
            == var m, n := Masked(a, key, 0), Masked(b, key, 0);
               ToWord(m[0], m[1], m[2], m[3], n[0], n[1], n[2], n[3])
  {
    hide ToWord, Masked, Xor8, Xor64;
    XorOfWords(a[0], a[1], a[2], a[3], b[0], b[1], b[2], b[3],
               key[0], key[1], key[2], key[3], key[0], key[1], key[2], key[3]);
    MaskedFour(a, key);
    MaskedFour(b, key);
  }

  lemma MaskedTwo(a: seq<byte>, b: seq<byte>, key: Key)
    requires |a| == 4
    ensures Masked(a + b, key, 0) == Masked(a, key, 0) + Masked(b, key, 0)
  {
    MaskedChunks(a, b, key, 0);
  }

  method SplitWord(w: bv64, ghost a: seq<byte>, ghost b: seq<byte>) returns (o: seq<byte>)
    requires |a| == |b| == 4
    requires w == ToWord(a[0], a[1], a[2], a[3], b[0], b[1], b[2], b[3])
    ensures o == a + b
  {
    OctetsOfWord(a[0], a[1], a[2], a[3], b[0], b[1], b[2], b[3]);
    o := [Octet(w, 0), Octet(w, 8), Octet(w, 16), Octet(w, 24), Octet(w, 32), Octet(w, 40), Octet(w, 48), Octet(w, 56)];
  }

  /** The same for a 32-bit word. */
  method XorHalf(s: seq<byte>, key: Key) returns (o: seq<byte>)
    requires |s| == 4
    ensures o == Masked(s, key, 0)
  {
    hide ToHalf, Octet32, Xor8, Xor32, Masked;
    var w := Xor32(ToHalf(s[0], s[1], s[2], s[3]), ToHalf(key[0], key[1], key[2], key[3]));
    XorOfHalves(s[0], s[1], s[2], s[3], key[0], key[1], key[2], key[3]);
    MaskedFour(s, key);
    ghost var m := Masked(s, key, 0);
    OctetsOfHalf(m[0], m[1], m[2], m[3]);
    o := [Octet32(w, 0), Octet32(w, 8), Octet32(w, 16), Octet32(w, 24)];
  }

  function Xor32(x: bv32, k: bv32): bv32 { x ^ k }

  function ToHalf(a: byte, b: byte, c: byte, d: byte): bv32 {
    (a as bv32) | (b as bv32 << 8) | (c as bv32 << 16) | (d as bv32 << 24)
  }

  function Octet32(w: bv32, shift: bv32): byte
    requires shift <= 24
  {
    ((w >> shift) & 0xff) as byte
  }

  lemma OctetsOfHalf(a: byte, b: byte, c: byte, d: byte)
    ensures var w := ToHalf(a, b, c, d);
            Octet32(w, 0) == a && Octet32(w, 8) == b && Octet32(w, 16) == c && Octet32(w, 24) == d
  {
  }

  lemma XorOfHalves(a: byte, b: byte, c: byte, d: byte, a': byte, b': byte, c': byte, d': byte)
    ensures Xor32(ToHalf(a, b, c, d), ToHalf(a', b', c', d'))
            == ToHalf(Xor8(a, a'), Xor8(b, b'), Xor8(c, c'), Xor8(d, d'))
  {
  }

  /** What a destination holding `dst` becomes once `n` octets are masked into it at `d`. */
  ghost function Done(dst: seq<byte>, d: nat, src: seq<byte>, p: nat, n: nat, key: Key): (r: seq<byte>)
    requires d + n <= |dst| && p + n <= |src|
    ensures |r| == |dst|
  {
    dst[..d] + Masked(src[p..p + n], key, 0) + dst[d + n..]
  }

  lemma DoneNone(dst: seq<byte>, d: nat, src: seq<byte>, p: nat, key: Key)
    requires d <= |dst| && p <= |src|
    ensures Done(dst, d, src, p, 0, key) == dst
  {
    assert src[p..p + 0] == [];
  }

  lemma DoneParts(dst: seq<byte>, d: nat, src: seq<byte>, p: nat, n: nat, key: Key)
    requires d + n <= |dst| && p + n <= |src|
    ensures
      var r := Done(dst, d, src, p, n, key);
      r[..d] == dst[..d] && r[d..d + n] == Masked(src[p..p + n], key, 0) && r[d + n..] == dst[d + n..]
  {
  }

  /** Storing the next `m` masked octets extends what is done. */
  lemma DoneStep(dst: seq<byte>, d: nat, src: seq<byte>, p: nat, n: nat, m: nat, key: Key, r: seq<byte>)
    requires d + n + m <= |dst| && p + n + m <= |src| && |r| == |dst|
    requires r[..d + n] == Done(dst, d, src, p, n, key)[..d + n]
    requires r[d + n..d + n + m] == Masked(src[p + n..p + n + m], key, n)
    requires r[d + n + m..] == dst[d + n + m..]
    ensures r == Done(dst, d, src, p, n + m, key)
  {
    hide Masked;
    var a, b := src[p..p + n], src[p + n..p + n + m];
    MaskedChunks(a, b, key, 0);
    MaskedModulo(b, key, n, n % 4);
    assert a + b == src[p..p + n + m];
    assert r == r[..d + n] + r[d + n..d + n + m] + r[d + n + m..];
    assert Done(dst, d, src, p, n, key)[..d + n] == dst[..d] + Masked(a, key, 0);
  }

  /** One 64-bit or 32-bit load, XOR and store, `n` octets in. */
  method Xor(dst: array<byte>, d: nat, src: array<byte>, p: nat, n: nat, m: nat, key: Key,
             ghost dst0: seq<byte>, ghost src0: seq<byte>)
    requires m == 8 || m == 4
    requires n % 4 == 0
    requires |dst0| == dst.Length && |src0| == src.Length
    requires d + n + m <= dst.Length && p + n + m <= src.Length
    requires dst == src ==> d == p && dst0 == src0
    requires dst != src ==> src[..] == src0
    requires dst[..] == Done(dst0, d, src0, p, n, key)
    modifies dst
    ensures dst[..] == Done(dst0, d, src0, p, n + m, key)
  {
    var s := src[p + n..p + n + m];
    UnreadIsIntact(dst, d, src, p, n, m, key, dst0, src0);
    var o := MaskedWord(s, key);
    ghost var before := dst[..];
    DoneParts(dst0, d, src0, p, n, key);
    MaskedModulo(s, key, 0, n);
    Store(dst, d + n, o);
    assert dst[..][..d + n] == before[..d + n];
    assert dst[..][d + n + m..] == before[d + n..][m..] == dst0[d + n..][m..];
    DoneStep(dst0, d, src0, p, n, m, key, dst[..]);
  }

  /** Masking in place never reads an octet it has already written. */
  lemma UnreadIsIntact(dst: array<byte>, d: nat, src: array<byte>, p: nat, n: nat, m: nat, key: Key,
                       dst0: seq<byte>, src0: seq<byte>)
    requires |dst0| == dst.Length && |src0| == src.Length
    requires d + n + m <= dst.Length && p + n + m <= src.Length
    requires dst == src ==> d == p && dst0 == src0
    requires dst != src ==> src[..] == src0
    requires dst[..] == Done(dst0, d, src0, p, n, key)
    ensures src[p + n..p + n + m] == src0[p + n..p + n + m]
  {
    DoneParts(dst0, d, src0, p, n, key);
    if dst == src {
      assert src[p + n..p + n + m] == dst[..][d + n..][..m];
      assert src0[p + n..p + n + m] == dst0[d + n..][..m];
    }
  }

  lemma MaskedFour(s: seq<byte>, key: Key)
    requires |s| == 4
    ensures var r := Masked(s, key, 0);
            r[0] == Xor8(s[0], key[0]) && r[1] == Xor8(s[1], key[1]) && r[2] == Xor8(s[2], key[2])
              && r[3] == Xor8(s[3], key[3])
  {
    MaskedFrom0(s, key, 0, 0);
    MaskedFrom0(s, key, 1, 1);
    MaskedFrom0(s, key, 2, 2);
    MaskedFrom0(s, key, 3, 3);
  }

  method MaskedWord(s: seq<byte>, key: Key) returns (o: seq<byte>)
    requires |s| == 8 || |s| == 4
    ensures o == Masked(s, key, 0)
  {
    if |s| == 8 {
      o := XorWord(s, KeyWord(key), key);
    } else {
      o := XorHalf(s, key);
    }
  }

  method Store(dst: array<byte>, d: nat, o: seq<byte>)
    requires d + |o| <= dst.Length
    modifies dst
    ensures dst[..d] == old(dst[..d]) && dst[d..d + |o|] == o && dst[d + |o|..] == old(dst[d + |o|..])
  {
    forall j | 0 <= j < |o| {
      dst[d + j] := o[j];
    }
  }

  lemma MaskedOne(s: seq<byte>, key: Key, n: nat, k: nat)
    requires |s| == 1 && k < 4 && k == n % 4
    ensures Masked(s, key, n) == [Xor8(s[0], key[k])]
  {
    assert s[1..] == [];
  }

  /** One octet, `n` octets in, with octet `k` of the key. */
  method XorOne(dst: array<byte>, d: nat, src: array<byte>, p: nat, n: nat, k: nat, key: Key,
                ghost dst0: seq<byte>, ghost src0: seq<byte>)
    requires k < 4 && k == n % 4
    requires |dst0| == dst.Length && |src0| == src.Length
    requires d + n < dst.Length && p + n < src.Length
    requires dst == src ==> d == p && dst0 == src0
    requires dst != src ==> src[..] == src0
    requires dst[..] == Done(dst0, d, src0, p, n, key)
    modifies dst
    ensures dst[..] == Done(dst0, d, src0, p, n + 1, key)
  {
    hide Done, Masked, Xor8;
    UnreadIsIntact(dst, d, src, p, n, 1, key, dst0, src0);
    ghost var s := src[p + n..p + n + 1];
    MaskedOne(s, key, n, k);
    ghost var before := dst[..];
    DoneParts(dst0, d, src0, p, n, key);
    dst[d + n] := Xor8(src[p + n], key[k]);
    assert dst[..][d + n..d + n + 1] == Masked(s, key, n);
    assert dst[..][..d + n] == before[..d + n];
    assert dst[..][d + n + 1..] == before[d + n..][1..] == dst0[d + n..][1..];
    DoneStep(dst0, d, src0, p, n, 1, key, dst[..]);
  }

  /** The 64, 32, 16, 8, 4, 1 cascade, with the key already rotated. */
  method Cascade(dst: array<byte>, d: nat, src: array<byte>, p: nat, n: nat, key: Key)
    requires d + n <= dst.Length && p + n <= src.Length
    requires dst == src ==> d == p
    modifies dst
    ensures dst[..] == Done(old(dst[..]), d, old(src[..]), p, n, key)
  {
    hide *;
    ghost var dst0, src0 := dst[..], src[..];
    var i := 0;
    DoneNone(dst0, d, src0, p, key);
    while i + 64 <= n
      invariant i <= n && i % 4 == 0
      invariant dst != src ==> src[..] == src0
      invariant dst[..] == Done(dst0, d, src0, p, i, key)
    {
      i := XorWords(dst, d, src, p, i, 8, key, dst0, src0);
    }
    Small(dst, d, src, p, i, n, key, dst0, src0);
  }

  /** Fewer than 64 octets left. */
  method Small(dst: array<byte>, d: nat, src: array<byte>, p: nat, done: nat, n: nat, key: Key,
               ghost dst0: seq<byte>, ghost src0: seq<byte>)
    requires done % 4 == 0 && done <= n < done + 64
    requires |dst0| == dst.Length && |src0| == src.Length
    requires d + n <= dst.Length && p + n <= src.Length
    requires dst == src ==> d == p && dst0 == src0
    requires dst != src ==> src[..] == src0
    requires dst[..] == Done(dst0, d, src0, p, done, key)
    modifies dst
    ensures dst[..] == Done(dst0, d, src0, p, n, key)
  {
    hide *;
    var i := done;
    if i + 32 <= n {
      i := XorWords(dst, d, src, p, i, 4, key, dst0, src0);
    }
    if i + 16 <= n {
      i := XorWords(dst, d, src, p, i, 2, key, dst0, src0);
    }
    if i + 8 <= n {
      i := XorWords(dst, d, src, p, i, 1, key, dst0, src0);
    }
    if i + 4 <= n {
      Xor(dst, d, src, p, i, 4, key, dst0, src0);
      i := i + 4;
    }
    XorTail(dst, d, src, p, i, n - i, key, dst0, src0);
  }

  /** The octets left over, one by one. */
  method XorTail(dst: array<byte>, d: nat, src: array<byte>, p: nat, n: nat, m: nat, key: Key,
                 ghost dst0: seq<byte>, ghost src0: seq<byte>)
    requires n % 4 == 0 && m < 4
    requires |dst0| == dst.Length && |src0| == src.Length
    requires d + n + m <= dst.Length && p + n + m <= src.Length
    requires dst == src ==> d == p && dst0 == src0
    requires dst != src ==> src[..] == src0
    requires dst[..] == Done(dst0, d, src0, p, n, key)
    modifies dst
    ensures dst[..] == Done(dst0, d, src0, p, n + m, key)
  {
    hide Masked, Done;
    for i := 0 to m
      invariant dst != src ==> src[..] == src0
      invariant dst[..] == Done(dst0, d, src0, p, n + i, key)
    {
      XorOne(dst, d, src, p, n + i, i, key, dst0, src0);
    }
  }

  /** mask: `dst` and `src` are distinct or the very same stretch, as in Encode and in Mask. */
  method MaskInto(dst: array<byte>, d: nat, src: array<byte>, p: nat, n: nat, key: Key, offset: Uint8)
    requires d + n <= dst.Length && p + n <= src.Length
    requires dst == src ==> d == p
    modifies dst
    ensures dst[d..d + n] == Masked(old(src[p..p + n]), key, offset)
    ensures dst[..d] == old(dst[..d]) && dst[d + n..] == old(dst[d + n..])
  {
    hide Masked, Done;
    ghost var dst0, src0 := dst[..], src[..];
    var k := Rotate(key, offset);
    Cascade(dst, d, src, p, n, k);
    RotatedMasks(src0[p..p + n], key, k, 0, offset);
    DoneParts(dst0, d, src0, p, n, k);
    assert dst[..][d..d + n] == dst[d..d + n] && dst[..][..d] == dst[..d] && dst[..][d + n..] == dst[d + n..];
  }

  /** One of the unrolled groups of eight, four, two or one words. */
  method XorWords(dst: array<byte>, d: nat, src: array<byte>, p: nat, n: nat, count: nat, key: Key,
                  ghost dst0: seq<byte>, ghost src0: seq<byte>) returns (n': nat)
    requires n % 4 == 0
    requires |dst0| == dst.Length && |src0| == src.Length
    requires d + n + 8 * count <= dst.Length && p + n + 8 * count <= src.Length
    requires dst == src ==> d == p && dst0 == src0
    requires dst != src ==> src[..] == src0
    requires dst[..] == Done(dst0, d, src0, p, n, key)
    modifies dst
    ensures n' == n + 8 * count
    ensures dst[..] == Done(dst0, d, src0, p, n', key)
  {
    hide Masked, Done;
    n' := n;
    for i := 0 to count
      invariant n' == n + 8 * i
      invariant dst != src ==> src[..] == src0
      invariant dst[..] == Done(dst0, d, src0, p, n', key)
    {
      Xor(dst, d, src, p, n', 8, key, dst0, src0);
      n' := n' + 8;
    }
  }

  lemma {:induction false} RotatedMasks(s: seq<byte>, key: Key, rotated: Key, m: nat, offset: nat)
    requires forall i :: 0 <= i < 4 ==> rotated[i] == key[(offset + i) % 4]
    ensures Masked(s, rotated, m) == Masked(s, key, offset + m)
  {
    if s != [] {
      assert rotated[m % 4] == key[(offset + m % 4) % 4] == key[(offset + m) % 4];
      RotatedMasks(s[1..], key, rotated, m + 1, offset);
    }
  }

  /** Mask: in place, returning the offset to carry into the next chunk. */
  method Mask(buf: array<byte>, lo: nat, hi: nat, key: Key, offset: Uint8) returns (next: Uint8)
    requires lo <= hi <= buf.Length
    modifies buf
    ensures buf[lo..hi] == Masked(old(buf[lo..hi]), key, offset)
    ensures buf[..lo] == old(buf[..lo]) && buf[hi..] == old(buf[hi..])
    ensures next == (offset + (hi - lo)) % 4
  {
    hide Masked;
    MaskInto(buf, lo, buf, lo, hi - lo, key, offset);
    next := (offset + (hi - lo) % 4) % 256 % 4; // Octet addition wraps at 256, which four divides.
  }
}
