/** The same strings from the other side: section 3 of RFC 3629 encodes scalar values. */
module Utf8Scalars {
  import opened Bytes
  import opened Utf8

  /** A code point that is no surrogate. */
  type Scalar = c: nat | c < 0xd800 || 0xe000 <= c < 0x110000

  function Octet(n: nat): byte
    requires n < 256
  {
    n as byte
  }

  /** One scalar value in one to four octets. */
  function Encode(c: Scalar): seq<byte> {
    if c < 0x80 then [Octet(c)]
    else if c < 0x800 then [Octet(0xc0 + c / 64), Octet(0x80 + c % 64)]
    else if c < 0x1_0000 then [Octet(0xe0 + c / 64 / 64), Octet(0x80 + c / 64 % 64), Octet(0x80 + c % 64)]
    else [Octet(0xf0 + c / 64 / 64 / 64), Octet(0x80 + c / 64 / 64 % 64), Octet(0x80 + c / 64 % 64),
      Octet(0x80 + c % 64)]
  }

  function EncodeAll(cs: seq<Scalar>): seq<byte> {
    if cs == [] then [] else Encode(cs[0]) + EncodeAll(cs[1..])
  }

  /** Octets compare as numbers. */
  lemma Order(a: byte, b: byte)
    ensures a <= b <==> a as nat <= b as nat
  {
  }

  lemma OctetIs(n: nat)
    requires n < 256
    ensures Octet(n) as nat == n
  {
    assert n % 256 == n;
  }

  lemma OctetBack(b: byte)
    ensures b as nat < 256 && Octet(b as nat) == b
  {
  }

  // ----- The syntax in numbers -----

  function Number(b: byte): nat { b as nat }

  predicate TailNumber(n: nat) { 0x80 <= n <= 0xbf }

  predicate Begins3Numbers(a: nat, b: nat) {
    || (a == 0xe0 && 0xa0 <= b <= 0xbf)
    || (0xe1 <= a <= 0xec && TailNumber(b))
    || (a == 0xed && 0x80 <= b <= 0x9f)
    || (0xee <= a <= 0xef && TailNumber(b))
  }

  predicate Begins4Numbers(a: nat, b: nat) {
    || (a == 0xf0 && 0x90 <= b <= 0xbf)
    || (0xf1 <= a <= 0xf3 && TailNumber(b))
    || (a == 0xf4 && 0x80 <= b <= 0x8f)
  }

  lemma Within(b: byte, lo: byte, hi: byte)
    ensures lo <= b <= hi <==> Number(lo) <= Number(b) <= Number(hi)
  {
    Order(lo, b);
    Order(b, hi);
  }

  lemma TailIs(b: byte)
    ensures IsTail(b) <==> TailNumber(Number(b))
  {
    Within(b, 0x80, 0xbf);
  }

  lemma Begins3Is(a: byte, b: byte)
    ensures Begins3(a, b) <==> Begins3Numbers(Number(a), Number(b))
  {
    TailIs(b);
    Within(a, 0xe0, 0xe0);
    Within(b, 0xa0, 0xbf);
    Within(a, 0xe1, 0xec);
    Within(a, 0xed, 0xed);
    Within(b, 0x80, 0x9f);
    Within(a, 0xee, 0xef);
  }

  lemma Begins4Is(a: byte, b: byte)
    ensures Begins4(a, b) <==> Begins4Numbers(Number(a), Number(b))
  {
    TailIs(b);
    Within(a, 0xf0, 0xf0);
    Within(b, 0x90, 0xbf);
    Within(a, 0xf1, 0xf3);
    Within(a, 0xf4, 0xf4);
    Within(b, 0x80, 0x8f);
  }

  /** CharLen in numbers. */
  function Length(s: seq<byte>): nat {
    if |s| >= 1 && Number(s[0]) <= 0x7f then 1
    else if |s| >= 2 && 0xc2 <= Number(s[0]) <= 0xdf && TailNumber(Number(s[1])) then 2
    else if |s| >= 3 && Begins3Numbers(Number(s[0]), Number(s[1])) && TailNumber(Number(s[2])) then 3
    else if |s| >= 4 && Begins4Numbers(Number(s[0]), Number(s[1])) && TailNumber(Number(s[2]))
            && TailNumber(Number(s[3])) then 4
    else 0
  }

  lemma LengthIs(s: seq<byte>)
    ensures CharLen(s) == Length(s)
  {
    hide IsTail, TailNumber, Begins3, Begins3Numbers, Begins4, Begins4Numbers, Number;
    if |s| >= 1 {
      assert s[0] <= 0x7f <==> Number(s[0]) <= 0x7f by {
        Within(s[0], 0, 0x7f);
        Zero(s[0]);
      }
      assert 0xc2 <= s[0] <= 0xdf <==> 0xc2 <= Number(s[0]) <= 0xdf by {
        Within(s[0], 0xc2, 0xdf);
        Ends();
      }
    }
    if |s| >= 2 {
      TailIs(s[1]);
      Begins3Is(s[0], s[1]);
      Begins4Is(s[0], s[1]);
    }
    if |s| >= 3 {
      TailIs(s[2]);
    }
    if |s| >= 4 {
      TailIs(s[3]);
    }
  }

  lemma Zero(b: byte)
    ensures 0 <= b && Number(0) == 0 && Number(0x7f) == 0x7f
  {
  }

  lemma Ends()
    ensures Number(0xc2) == 0xc2 && Number(0xdf) == 0xdf
  {
  }

  // ----- Characters -----

  lemma NumberOf(n: nat)
    requires n < 256
    ensures Number(Octet(n)) == n
  {
    OctetIs(n);
  }

  /** Digits to the base 64. */
  lemma Digits(x: nat, y: nat)
    requires y < 64
    ensures (x * 64 + y) / 64 == x && (x * 64 + y) % 64 == y
  {
  }

  lemma Three(c: Scalar)
    requires 0x800 <= c < 0x1_0000
    ensures Begins3Numbers(0xe0 + c / 64 / 64, 0x80 + c / 64 % 64) && TailNumber(0x80 + c % 64)
  {
    var q := c / 64;
    assert 32 <= q < 1024 && !(0x360 <= q < 0x380);
    ThreeOf(q);
  }

  lemma ThreeOf(q: nat)
    requires 32 <= q < 1024 && !(0x360 <= q < 0x380)
    ensures Begins3Numbers(0xe0 + q / 64, 0x80 + q % 64)
  {
  }

  lemma FourOf(q: nat)
    requires 16 <= q < 272
    ensures Begins4Numbers(0xf0 + q / 64, 0x80 + q % 64)
  {
  }

  lemma Four(c: Scalar)
    requires 0x1_0000 <= c
    ensures Begins4Numbers(0xf0 + c / 64 / 64 / 64, 0x80 + c / 64 / 64 % 64)
    ensures TailNumber(0x80 + c / 64 % 64) && TailNumber(0x80 + c % 64)
  {
    var q := c / 64;
    assert 1024 <= q < 17408;
    assert 16 <= q / 64 < 272;
    FourOf(q / 64);
  }

  /** An encoded scalar value is a character. */
  lemma EncodedIsChar(c: Scalar, rest: seq<byte>)
    ensures CharLen(Encode(c) + rest) == |Encode(c)|
  {
    hide Octet, Number, CharLen, TailNumber, Begins3Numbers, Begins4Numbers;
    var s := Encode(c) + rest;
    LengthIs(s);
    if c < 0x80 {
      NumberOf(c);
    } else if c < 0x800 {
      NumberOf(0xc0 + c / 64);
      NumberOf(0x80 + c % 64);
      assert TailNumber(0x80 + c % 64) by {
        Tail(c % 64);
      }
    } else if c < 0x1_0000 {
      Encoded3(c, rest);
    } else {
      Encoded4(c, rest);
    }
  }

  lemma Tail(n: nat)
    requires n < 64
    ensures TailNumber(0x80 + n)
  {
  }

  lemma Encoded3(c: Scalar, rest: seq<byte>)
    requires 0x800 <= c < 0x1_0000
    ensures Length(Encode(c) + rest) == 3
  {
    hide Octet, Number, TailNumber, Begins3Numbers, Begins4Numbers;
    var a, b, d := 0xe0 + c / 64 / 64, 0x80 + c / 64 % 64, 0x80 + c % 64;
    Three(c);
    assert 0xe0 <= a < 256;
    NumberOf(a);
    NumberOf(b);
    NumberOf(d);
    ThreeIs([Octet(a), Octet(b), Octet(d)] + rest, a, b, d);
  }

  lemma ThreeIs(s: seq<byte>, a: nat, b: nat, d: nat)
    requires |s| >= 3 && Number(s[0]) == a && Number(s[1]) == b && Number(s[2]) == d && a >= 0xe0
    requires Begins3Numbers(a, b) && TailNumber(d)
    ensures Length(s) == 3
  {
    hide Number;
  }

  lemma Encoded4(c: Scalar, rest: seq<byte>)
    requires 0x1_0000 <= c
    ensures Length(Encode(c) + rest) == 4
  {
    hide Octet, Number, TailNumber, Begins3Numbers, Begins4Numbers;
    var a, b, d, e := 0xf0 + c / 64 / 64 / 64, 0x80 + c / 64 / 64 % 64, 0x80 + c / 64 % 64, 0x80 + c % 64;
    Four(c);
    assert 0xf0 <= a < 256;
    NumberOf(a);
    NumberOf(b);
    NumberOf(d);
    NumberOf(e);
    FourIs([Octet(a), Octet(b), Octet(d), Octet(e)] + rest, a, b, d, e);
  }

  lemma FourIs(s: seq<byte>, a: nat, b: nat, d: nat, e: nat)
    requires |s| >= 4 && Number(s[0]) == a && Number(s[1]) == b && Number(s[2]) == d && Number(s[3]) == e && a >= 0xf0
    requires Begins4Numbers(a, b) && TailNumber(d) && TailNumber(e)
    ensures Length(s) == 4
  {
    hide Number;
  }

  lemma OctetOf(b: byte)
    ensures Number(b) < 256 && Octet(Number(b)) == b
  {
    OctetBack(b);
  }

  /** The scalar value of three digits, and of four. */
  lemma Value3(a: nat, b: nat, d: nat) returns (c: Scalar)
    requires Begins3Numbers(a, b) && TailNumber(d)
    ensures 0x800 <= c < 0x1_0000 && 0xe0 + c / 64 / 64 == a && 0x80 + c / 64 % 64 == b && 0x80 + c % 64 == d
  {
    var q := (a - 0xe0) * 64 + (b - 0x80);
    Digits(a - 0xe0, b - 0x80);
    Digits(q, d - 0x80);
    assert 32 <= q < 1024 && !(0x360 <= q < 0x380);
    c := q * 64 + (d - 0x80);
  }

  lemma Value4(a: nat, b: nat, d: nat, e: nat) returns (c: Scalar)
    requires Begins4Numbers(a, b) && TailNumber(d) && TailNumber(e)
    ensures 0x1_0000 <= c && 0xf0 + c / 64 / 64 / 64 == a && 0x80 + c / 64 / 64 % 64 == b
    ensures 0x80 + c / 64 % 64 == d && 0x80 + c % 64 == e
  {
    var p := (a - 0xf0) * 64 + (b - 0x80);
    var q := p * 64 + (d - 0x80);
    Digits(a - 0xf0, b - 0x80);
    Digits(p, d - 0x80);
    Digits(q, e - 0x80);
    assert 16 <= p < 272;
    c := q * 64 + (e - 0x80);
  }

  lemma Value2(a: nat, b: nat) returns (c: Scalar)
    requires 0xc2 <= a <= 0xdf && TailNumber(b)
    ensures 0x80 <= c < 0x800 && 0xc0 + c / 64 == a && 0x80 + c % 64 == b
  {
    Digits(a - 0xc0, b - 0x80);
    c := (a - 0xc0) * 64 + (b - 0x80);
  }

  /** And every character is one. */
  lemma CharIsEncoded(s: seq<byte>) returns (c: Scalar)
    requires CharLen(s) != 0
    ensures s[..CharLen(s)] == Encode(c)
  {
    hide Octet, Number, CharLen, TailNumber, Begins3Numbers, Begins4Numbers;
    LengthIs(s);
    var n := Length(s);
    var a := Number(s[0]);
    OctetOf(s[0]);
    if n == 1 {
      c := a;
    } else {
      OctetOf(s[1]);
      if n == 2 {
        c := Value2(a, Number(s[1]));
      } else if n == 3 {
        OctetOf(s[2]);
        c := Value3(a, Number(s[1]), Number(s[2]));
      } else {
        OctetOf(s[2]);
        OctetOf(s[3]);
        c := Value4(a, Number(s[1]), Number(s[2]), Number(s[3]));
      }
    }
  }

  // ----- Strings -----

  lemma {:induction false} EncodedIsWellFormed(cs: seq<Scalar>)
    ensures WellFormed(EncodeAll(cs))
  {
    hide Encode, CharLen;
    if cs != [] {
      var rest := EncodeAll(cs[1..]);
      EncodedIsChar(cs[0], rest);
      EncodedIsWellFormed(cs[1..]);
      assert (Encode(cs[0]) + rest)[|Encode(cs[0])|..] == rest;
    }
  }

  lemma {:induction false} WellFormedIsEncoded(s: seq<byte>) returns (cs: seq<Scalar>)
    requires WellFormed(s)
    ensures EncodeAll(cs) == s
    decreases |s|
  {
    hide Encode, CharLen;
    if s == [] {
      cs := [];
    } else {
      var c := CharIsEncoded(s);
      var n := CharLen(s);
      var rest := WellFormedIsEncoded(s[n..]);
      cs := [c] + rest;
      assert cs[1..] == rest && s == s[..n] + s[n..];
    }
  }

  /**
   * The well-formed strings are the encodings of scalar values: no surrogates, nothing overlong,
   * nothing past the end.
   */
  lemma WellFormedExactly(s: seq<byte>)
    ensures WellFormed(s) <==> exists cs :: EncodeAll(cs) == s
  {
    hide EncodeAll, WellFormed;
    if WellFormed(s) {
      var cs := WellFormedIsEncoded(s);
    }
    if exists cs :: EncodeAll(cs) == s {
      var cs :| EncodeAll(cs) == s;
      EncodedIsWellFormed(cs);
    }
  }
}
