/** Well-formed UTF-8, as the syntax of section 4 of RFC 3629 defines it. */
module Utf8 {
  import opened Bytes

  predicate IsTail(b: byte) { 0x80 <= b <= 0xbf }

  /** The first two octets of a three-octet character. */
  predicate Begins3(a: byte, b: byte) {
    || (a == 0xe0 && 0xa0 <= b <= 0xbf)
    || (0xe1 <= a <= 0xec && IsTail(b))
    || (a == 0xed && 0x80 <= b <= 0x9f)
    || (0xee <= a <= 0xef && IsTail(b))
  }

  /** The first two octets of a four-octet character. */
  predicate Begins4(a: byte, b: byte) {
    || (a == 0xf0 && 0x90 <= b <= 0xbf)
    || (0xf1 <= a <= 0xf3 && IsTail(b))
    || (a == 0xf4 && 0x80 <= b <= 0x8f)
  }

  /** The length of the character `s` starts with, or zero when there is none. */
  function CharLen(s: seq<byte>): (n: nat)
    ensures n <= 4 && n <= |s|
  {
    if |s| >= 1 && s[0] <= 0x7f then 1
    else if |s| >= 2 && 0xc2 <= s[0] <= 0xdf && IsTail(s[1]) then 2
    else if |s| >= 3 && Begins3(s[0], s[1]) && IsTail(s[2]) then 3
    else if |s| >= 4 && Begins4(s[0], s[1]) && IsTail(s[2]) && IsTail(s[3]) then 4
    else 0
  }

  /** `s` is a sequence of characters. */
  predicate WellFormed(s: seq<byte>)
    decreases |s|
  {
    s == [] || (CharLen(s) != 0 && WellFormed(s[CharLen(s)..]))
  }

  predicate IsAscii(s: seq<byte>) {
    forall i :: 0 <= i < |s| ==> s[i] < 0x80
  }

  /** A leading run of ASCII does not matter. */
  lemma {:induction false} AsciiPrefixSkips(a: seq<byte>, s: seq<byte>)
    requires IsAscii(a)
    ensures WellFormed(a + s) <==> WellFormed(s)
  {
    if a == [] {
      assert a + s == s;
    } else {
      AsciiPrefixSkips(a[1..], s);
      assert (a + s)[0] == a[0];
      assert (a + s)[1..] == a[1..] + s;
    }
  }
}
