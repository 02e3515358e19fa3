/** Octets and the few facts about byte strings that the other modules share. */
module Bytes {

  type byte = bv8

  datatype Option<+T> = None | Some(value: T)

  function Min(a: nat, b: nat): nat { if a < b then a else b }

  /** The last `n` elements of `s`, or all of `s` when it is shorter. */
  function Last<T>(s: seq<T>, n: nat): (r: seq<T>)
    ensures |r| == if |s| < n then |s| else n
  {
    if |s| <= n then s else s[|s| - n..]
  }

  /** `t` ends with `s`. */
  predicate IsSuffix<T(==)>(s: seq<T>, t: seq<T>) {
    |s| <= |t| && t[|t| - |s|..] == s
  }

  /** Trimming before appending does not change what the last `n` are. */
  lemma LastAppend<T>(a: seq<T>, p: seq<T>, n: nat)
    ensures Last(Last(a, n) + p, n) == Last(a + p, n)
  {
  }

  /** A suffix at least `n` long has the same last `n`. */
  lemma LastOfSuffix<T>(a: seq<T>, b: seq<T>, n: nat)
    requires |b| >= n
    ensures Last(a + b, n) == Last(b, n)
  {
  }

  lemma LastOfLast<T>(a: seq<T>, m: nat, n: nat)
    requires n <= m
    ensures Last(Last(a, m), n) == Last(a, n)
  {
  }

  lemma LastOfTail<T>(p: seq<T>, n: nat)
    requires |p| >= n
    ensures Last(p[|p| - n..], n) == Last(p, n)
  {
  }

  lemma LastOfNone<T>(n: nat)
    ensures Last<T>([], n) == []
  {
  }

  lemma LastIsSuffix<T>(s: seq<T>, n: nat)
    ensures IsSuffix(Last(s, n), s)
  {
  }

  lemma SuffixAppend<T>(s: seq<T>, t: seq<T>, x: seq<T>)
    requires IsSuffix(s, t)
    ensures IsSuffix(s + x, t + x)
  {
    assert (t + x)[|t + x| - |s + x|..] == t[|t| - |s|..] + x;
  }

  lemma SuffixTrans<T>(s: seq<T>, t: seq<T>, u: seq<T>)
    requires IsSuffix(s, t) && IsSuffix(t, u)
    ensures IsSuffix(s, u)
  {
    assert u[|u| - |s|..] == u[|u| - |t|..][|t| - |s|..];
  }

  /** The elements of `ss`, one after the other. */
  function Flatten<T>(ss: seq<seq<T>>): (r: seq<T>) {
    if ss == [] then [] else ss[0] + Flatten(ss[1..])
  }

  lemma {:induction false} FlattenAppend<T>(ss: seq<seq<T>>, ts: seq<seq<T>>)
    ensures Flatten(ss + ts) == Flatten(ss) + Flatten(ts)
  {
    if ss == [] {
      assert ss + ts == ts;
    } else {
      calc {
        Flatten(ss + ts);
        { assert (ss + ts)[1..] == ss[1..] + ts && (ss + ts)[0] == ss[0]; }
        ss[0] + Flatten(ss[1..] + ts);
        { FlattenAppend(ss[1..], ts); }
        ss[0] + (Flatten(ss[1..]) + Flatten(ts));
        Flatten(ss) + Flatten(ts);
      }
    }
  }

  lemma FlattenOne<T>(s: seq<T>)
    ensures Flatten([s]) == s
  {
    assert [s][1..] == [];
  }

  /** The eight octets at `i` as one little-endian word. */
  function Word(src: seq<byte>, i: nat): bv64
    requires i + 8 <= |src|
  {
    (src[i] as bv64) | (src[i + 1] as bv64 << 8) | (src[i + 2] as bv64 << 16) | (src[i + 3] as bv64 << 24)
    | (src[i + 4] as bv64 << 32) | (src[i + 5] as bv64 << 40) | (src[i + 6] as bv64 << 48) | (src[i + 7] as bv64 << 56)
  }
}
