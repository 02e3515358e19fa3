/**
 * The lookup validator of internal/utf8/valid_simd.go. A vector is a sequence
 * of 16 or 32 octets; each vector instruction is a function on such sequences.
 */
module Utf8Simd {
  import opened Bytes
  import opened Utf8
  import Dfa = Utf8Dfa

  const WIDE_THRESHOLD := 384

  type Vector = seq<byte>

  /** The three 16-entry tables; the 32-octet tables repeat them per 128-bit group. */
  function FirstHigh(n: byte): byte {
    if n < 8 then 0x02 else if n < 12 then 0x80
    else if n == 12 then 0x21 else if n == 13 then 0x01 else if n == 14 then 0x15 else 0x49
  }

  function FirstLow(n: byte): byte {
    if n == 0 then 0xe7 else if n == 1 then 0xa3 else if n < 4 then 0x83
    else if n == 4 then 0x8b else if n == 13 then 0xdb else 0xcb
  }

  function SecondHigh(n: byte): byte {
    if n < 8 then 0x01 else if n == 8 then 0xe6 else if n == 9 then 0xae
    else if n < 12 then 0xba else 0x01
  }

  function High(x: byte): byte { x >> 4 }

  function Low(x: byte): byte { x & 0x0f }

  /** The low octet of the 16-bit lane `x`, `y` shifted right by four. */
  function ShiftedLow(x: byte, y: byte): byte { (x >> 4) | (y << 4) }

  /** PermuteOrZero: a table lookup per lane, zero where the index is negative as a signed octet. */
  function Permute(table: byte -> byte, index: Vector): (r: Vector)
    ensures |r| == |index|
  {
    seq(|index|, i requires 0 <= i < |index| => if index[i] >= 0x80 then 0 else table(Low(index[i])))
  }

  function And(x: Vector, y: Vector): (r: Vector)
    requires |x| == |y|
    ensures |r| == |x|
  {
    seq(|x|, i requires 0 <= i < |x| => x[i] & y[i])
  }

  function LowNibbles(x: Vector): (r: Vector)
    ensures |r| == |x|
  {
    seq(|x|, i requires 0 <= i < |x| => Low(x[i]))
  }

  /** A 16-bit lane shift by four, read back as octets and masked. */
  function HighNibbles(x: Vector): (r: Vector)
    requires |x| % 2 == 0
    ensures |r| == |x|
  {
    seq(|x|, i requires 0 <= i < |x| =>
      Low(if i % 2 == 0 then ShiftedLow(x[i], x[i + 1]) else High(x[i])))
  }

  function SubSaturated(a: byte, b: byte): byte {
    if a > b then a - b else 0
  }

  /** The sign bit in every lane whose second or third predecessor needs it to continue. */
  function Required(p2: Vector, p3: Vector): (r: Vector)
    requires |p2| == |p3|
    ensures |r| == |p2|
  {
    seq(|p2|, i requires 0 <= i < |p2| =>
      if SubSaturated(p2[i], 0xdf) | SubSaturated(p3[i], 0xef) > 0 then 0x80 else 0)
  }

  function Special(p1: Vector, input: Vector): (r: Vector)
    requires |p1| == |input| && |input| % 2 == 0
    ensures |r| == |input|
  {
    And(And(Permute(FirstHigh, HighNibbles(p1)), Permute(FirstLow, LowNibbles(p1))),
        Permute(SecondHigh, HighNibbles(input)))
  }

  /** No lane of the block differs between what is required and what the tables report. */
  predicate BlockOk(p3: Vector, p2: Vector, p1: Vector, input: Vector)
    requires |p1| == |p2| == |p3| == |input| && |input| % 2 == 0
  {
    forall i :: 0 <= i < |input| ==> Required(p2, p3)[i] ^ Special(p1, input)[i] == 0
  }

  /** ConcatShiftBytesRight: `y` then `x`, shifted right by `c` octets. */
  function ConcatShift(x: Vector, y: Vector, c: nat): (r: Vector)
    requires |x| == |y| == 16 && c <= 16
    ensures |r| == 16
  {
    (y + x)[c..c + 16]
  }

  /** The same on each 128-bit group of a 256-bit vector. */
  function ConcatShiftGrouped(x: Vector, y: Vector, c: nat): (r: Vector)
    requires |x| == |y| == 32 && c <= 16
    ensures |r| == 32
  {
    ConcatShift(x[..16], y[..16], c) + ConcatShift(x[16..], y[16..], c)
  }

  /** The check of one lane, in terms of four consecutive octets. */
  predicate LaneOk(p3: byte, p2: byte, p1: byte, x: byte) {
    (if p2 > 0xdf || p3 > 0xef then 0x80 else 0)
    == FirstHigh(High(p1)) & FirstLow(Low(p1)) & SecondHigh(High(x))
  }

  /** Octet `i` of `t`, or zero outside it. */
  function At(t: seq<byte>, i: int): byte {
    if 0 <= i < |t| then t[i] else 0
  }

  predicate Lane(t: seq<byte>, i: nat) {
    LaneOk(At(t, i - 3), At(t, i - 2), At(t, i - 1), At(t, i))
  }

  predicate LanesOk(t: seq<byte>, lo: nat, hi: nat) {
    forall i :: lo <= i < hi ==> Lane(t, i)
  }

  lemma NibbleBits(x: byte, y: byte)
    ensures Low(High(x)) == High(x) == Low(ShiftedLow(x, y)) && High(x) < 0x80
    ensures Low(Low(x)) == Low(x) < 0x80
  {
  }

  lemma LaneBits(p3: byte, p2: byte, s: byte)
    ensures (if SubSaturated(p2, 0xdf) | SubSaturated(p3, 0xef) > 0 then 0x80 else 0) ^ s == 0
            <==> (if p2 > 0xdf || p3 > 0xef then 0x80 else 0) == s
  {
  }

  lemma SpecialAt(p1: Vector, input: Vector, i: nat)
    requires |p1| == |input| && |input| % 2 == 0 && i < |input|
    ensures Special(p1, input)[i] == FirstHigh(High(p1[i])) & FirstLow(Low(p1[i])) & SecondHigh(High(input[i]))
  {
    NibblesAt(p1, i);
    NibblesAt(input, i);
  }

  lemma NibblesAt(x: Vector, i: nat)
    requires |x| % 2 == 0 && i < |x|
    ensures HighNibbles(x)[i] == High(x[i]) < 0x80 && Low(High(x[i])) == High(x[i])
    ensures LowNibbles(x)[i] == Low(x[i]) < 0x80 && Low(Low(x[i])) == Low(x[i])
  {
    NibbleBits(x[i], if i % 2 == 0 then x[i + 1] else 0);
  }

  /** The vector instructions compute the lane check in every lane. */
  lemma BlockAt(p3: Vector, p2: Vector, p1: Vector, input: Vector, i: nat)
    requires |p1| == |p2| == |p3| == |input| && |input| % 2 == 0 && i < |input|
    ensures Required(p2, p3)[i] ^ Special(p1, input)[i] == 0 <==> LaneOk(p3[i], p2[i], p1[i], input[i])
  {
    SpecialAt(p1, input, i);
    LaneBits(p3[i], p2[i], Special(p1, input)[i]);
  }

  // ----- What four consecutive octets say about the automaton -----

  /** `q` can be the state after a string ending in `p3`, `p2`, `p1`, zero standing for nothing. */
  predicate Context(q: Dfa.State, p3: byte, p2: byte, p1: byte) {
    var quiet := p2 <= 0xdf && p3 <= 0xef;
    match q
    case Accept => quiet && p1 < 0xc0
    case Cont1 =>
      || (quiet && 0xc2 <= p1 <= 0xdf)
      || (0xe0 <= p2 <= 0xef && p3 <= 0xef && IsTail(p1))
      || (0xf0 <= p3 <= 0xf4 && IsTail(p2) && IsTail(p1))
    case Cont2 =>
      || (quiet && 0xe1 <= p1 <= 0xef && p1 != 0xed)
      || (0xf0 <= p2 <= 0xf4 && p3 <= 0xef && IsTail(p1))
    case AfterE0 => quiet && p1 == 0xe0
    case AfterED => quiet && p1 == 0xed
    case AfterF0 => quiet && p1 == 0xf0
    case AfterF1 => quiet && 0xf1 <= p1 <= 0xf3
    case AfterF4 => quiet && p1 == 0xf4
    case Reject => false
  }

  /** Octets that begin nothing: the tables report them one lane late. */
  predicate Barren(x: byte) { 0xc0 <= x <= 0xc1 || 0xf5 <= x }

  /** One lane is one transition: it fails exactly when the automaton rejects, save after a barren octet. */
  lemma LaneIsTransition(q: Dfa.State, p3: byte, p2: byte, p1: byte, x: byte)
    requires Context(q, p3, p2, p1)
    ensures LaneOk(p3, p2, p1, x) <==> Dfa.Transition(q, x) != Dfa.Reject || (q == Dfa.Accept && Barren(x))
    ensures Dfa.Transition(q, x) != Dfa.Reject ==> Context(Dfa.Transition(q, x), p2, p1, x)
  {
  }

  lemma BarrenFailsNext(p3: byte, p2: byte, p1: byte, x: byte)
    requires Barren(p1)
    ensures !LaneOk(p3, p2, p1, x)
  {
  }

  /** `t` cut or zero-extended to `n` octets. */
  function Extended(t: seq<byte>, n: nat): (r: seq<byte>)
    ensures |r| == n
  {
    seq(n, i => At(t, i))
  }

  /** The last octet is barren and everything before it is accepted. */
  predicate EndsBarren(r: seq<byte>) {
    r != [] && Barren(r[|r| - 1]) && Dfa.Run(Dfa.Accept, r) == Dfa.Reject
  }

  /** All lanes pass exactly when the automaton has not rejected, or did so on a barren last octet. */
  lemma {:induction false} LanesAreRun(t: seq<byte>, n: nat)
    ensures Dfa.Run(Dfa.Accept, Extended(t, n)) != Dfa.Reject ==>
              LanesOk(t, 0, n) && Context(Dfa.Run(Dfa.Accept, Extended(t, n)), At(t, n - 3), At(t, n - 2), At(t, n - 1))
    ensures LanesOk(t, 0, n) ==> Dfa.Run(Dfa.Accept, Extended(t, n)) != Dfa.Reject || EndsBarren(Extended(t, n))
  {
    if n > 0 {
      var m := n - 1;
      LanesAreRun(t, m);
      assert Extended(t, n) == Extended(t, m) + [At(t, m)];
      Dfa.RunOne(Dfa.Accept, Extended(t, m), At(t, m));
      assert LanesOk(t, 0, n) <==> LanesOk(t, 0, m) && Lane(t, m);
      var q := Dfa.Run(Dfa.Accept, Extended(t, m));
      if q != Dfa.Reject {
        LaneIsTransition(q, At(t, m - 3), At(t, m - 2), At(t, m - 1), At(t, m));
      } else if EndsBarren(Extended(t, m)) {
        BarrenFailsNext(At(t, m - 3), At(t, m - 2), At(t, m - 1), At(t, m));
      }
    }
  }

  lemma StateIsPrefix(s: seq<byte>, i: nat, j: nat)
    requires i <= j <= |s| && Dfa.StateAt(s, j) != Dfa.Reject
    ensures Dfa.StateAt(s, i) != Dfa.Reject
  {
    Dfa.StateAtSkip(s, i, j);
    Dfa.RejectAbsorbs(s[i..j]);
  }

  lemma StateAfterFirst(s: seq<byte>, k: nat, j: nat)
    requires 0 < k == CharLen(s) && j <= |s[k..]|
    ensures Dfa.StateAt(s, k + j) == Dfa.Run(Dfa.Accept, s[k..][..j])
  {
    Dfa.CharIsRun(s[..k]);
    Dfa.StateAtSkip(s, k, k + j);
    assert s[k..k + j] == s[k..][..j];
  }

  /**
   * The back-up to the last octet that is not a continuation: once every lane
   * up to `e` has passed, the string from there decides the whole.
   */
  lemma TailDecides(s: seq<byte>, k: nat, e: nat, last: nat)
    requires 0 < k == CharLen(s) && k < e <= |s| && last < e
    requires LanesOk(s[k..], 0, e - k)
    requires last > 0 ==> !IsTail(s[last])
    requires forall j :: last < j < e ==> IsTail(s[j])
    ensures WellFormed(s) <==> WellFormed(s[last..])
  {
    LanesAreRun(s[k..], e - k);
    assert Extended(s[k..], e - k) == s[k..][..e - k];
    StateAfterFirst(s, k, e - k);
    if last == 0 {
      assert s[last..] == s;
    } else if Dfa.StateAt(s, e) != Dfa.Reject {
      StateIsPrefix(s, last + 1, e);
      AcceptDecides(s, last);
    } else {
      assert s[e - 1] == Extended(s[k..], e - k)[e - k - 1];
      RejectDecides(s, e);
    }
  }

  /** Before an octet that continues nothing, an unrejected string is complete. */
  lemma AcceptDecides(s: seq<byte>, last: nat)
    requires last < |s| && !IsTail(s[last]) && Dfa.StateAt(s, last + 1) != Dfa.Reject
    ensures WellFormed(s) <==> WellFormed(s[last..])
  {
    Dfa.StateAtNext(s, last);
    assert Dfa.StateAt(s, last) == Dfa.Accept;
    Dfa.StateAtSkip(s, last, |s|);
    assert s[last..|s|] == s[last..] && s[..|s|] == s;
    Dfa.RunAcceptsWellFormed(s);
    Dfa.RunAcceptsWellFormed(s[last..]);
  }

  lemma RejectDecides(s: seq<byte>, e: nat)
    requires 0 < e <= |s| && Barren(s[e - 1]) && Dfa.StateAt(s, e) == Dfa.Reject
    ensures !WellFormed(s) && !WellFormed(s[e - 1..])
  {
    assert s[e - 1..][0] == s[e - 1];
    Dfa.StateAtSkip(s, e, |s|);
    Dfa.RejectAbsorbs(s[e..|s|]);
    assert s[..|s|] == s;
    Dfa.RunAcceptsWellFormed(s);
  }

  /** A failing lane, padding included, is an ill-formed string. */
  lemma LaneFailureIsFinal(s: seq<byte>, k: nat, n: nat)
    requires 0 < k == CharLen(s) && !LanesOk(s[k..], 0, n)
    ensures !WellFormed(s)
  {
    var t := s[k..];
    if WellFormed(s) {
      Dfa.RunAcceptsWellFormed(s);
      assert s[..|s|] == s;
      if n <= |t| {
        StateIsPrefix(s, k + n, |s|);
        StateAfterFirst(s, k, n);
        assert Extended(t, n) == t[..n];
      } else {
        StateAfterFirst(s, k, |t|);
        assert t[..|t|] == t;
        var zeros := Extended([], n - |t|);
        assert Extended(t, n) == t + zeros;
        Dfa.RunAppend(Dfa.Accept, t, zeros);
        Dfa.AsciiRunStays(zeros);
      }
      LanesAreRun(t, n);
    }
  }

  // ----- The kernels -----

  /** The `width` octets of `t` from `i`, zero outside `t`: a full or a partial load. */
  function Load(t: seq<byte>, i: int, width: nat): (r: Vector)
    ensures |r| == width
  {
    seq(width, j => At(t, i + j))
  }

  /** A block checked against itself moved by one, two and three octets checks its lanes. */
  lemma LoadsAreLanes(t: seq<byte>, i: nat, width: nat)
    requires width % 2 == 0
    ensures BlockOk(Load(t, i - 3, width), Load(t, i - 2, width), Load(t, i - 1, width), Load(t, i, width))
            <==> LanesOk(t, i, i + width)
  {
    var p3, p2, p1, x := Load(t, i - 3, width), Load(t, i - 2, width), Load(t, i - 1, width), Load(t, i, width);
    forall j | 0 <= j < width
      ensures Required(p2, p3)[j] ^ Special(p1, x)[j] == 0 <==> Lane(t, i + j)
    {
      BlockAt(p3, p2, p1, x, j);
    }
    if BlockOk(p3, p2, p1, x) {
      forall k: nat | i <= k < i + width
        ensures Lane(t, k)
      {
        assert Required(p2, p3)[k - i] ^ Special(p1, x)[k - i] == 0;
      }
    }
  }

  /** The concatenated shift brings in the octets of the previous vector. */
  lemma ShiftIsLoad(t: seq<byte>, i: int, d: nat)
    requires d <= 16
    ensures ConcatShift(Load(t, i, 16), Load(t, i - 16, 16), 16 - d) == Load(t, i - d, 16)
  {
  }

  method NarrowBlock(t: seq<byte>, i: nat, previous: Vector) returns (input: Vector, ok: bool)
    requires previous == Load(t, i - 16, 16)
    ensures input == Load(t, i, 16)
    ensures ok <==> LanesOk(t, i, i + 16)
  {
    input := Load(t, i, 16);
    var p1 := ConcatShift(input, previous, 15);
    var p2 := ConcatShift(input, previous, 14);
    var p3 := ConcatShift(input, previous, 13);
    ok := BlockOk(p3, p2, p1, input);
    ShiftIsLoad(t, i, 1);
    ShiftIsLoad(t, i, 2);
    ShiftIsLoad(t, i, 3);
    LoadsAreLanes(t, i, 16);
  }

  method ValidNarrow(original: seq<byte>, size: nat) returns (ok: bool)
    requires 0 < size == CharLen(original) && size < |original|
    ensures ok <==> WellFormed(original)
  {
    var t := original[size..];
    var i := 0;
    var previous: Vector := seq(16, _ => 0);
    assert forall j :: 0 <= j < 16 ==> previous[j] == Load(t, 0 - 16, 16)[j];
    assert previous == Load(t, 0 - 16, 16);
    while i + 32 <= |t|
      invariant i <= |t|
      invariant previous == Load(t, i - 16, 16) && LanesOk(t, 0, i)
    {
      var input0, ok0 := NarrowBlock(t, i, previous);
      if !ok0 {
        LaneFailureIsFinal(original, size, i + 16);
        return false;
      }
      var input1, ok1 := NarrowBlock(t, i + 16, input0);
      if !ok1 {
        LaneFailureIsFinal(original, size, i + 32);
        return false;
      }
      previous := input1;
      i := i + 32;
    }
    while i + 16 <= |t|
      invariant i <= |t|
      invariant previous == Load(t, i - 16, 16) && LanesOk(t, 0, i)
    {
      var input, ok0 := NarrowBlock(t, i, previous);
      if !ok0 {
        LaneFailureIsFinal(original, size, i + 16);
        return false;
      }
      previous := input;
      i := i + 16;
    }
    if i < |t| {
      var _, ok0 := NarrowBlock(t, i, previous);
      if !ok0 {
        LaneFailureIsFinal(original, size, i + 16);
        return false;
      }
    }
    var last := BackUp(original, |original| - 1);
    TailDecides(original, size, |original|, last);
    return WellFormed(original[last..]); // unicode/utf8.Valid
  }

  /** Back up over continuation octets. */
  method BackUp(original: seq<byte>, from: nat) returns (last: nat)
    requires from < |original|
    ensures last <= from && (last > 0 ==> !IsTail(original[last]))
    ensures forall j :: last < j <= from ==> IsTail(original[j])
  {
    last := from;
    while last > 0 && original[last] & 0xc0 == 0x80
      invariant last <= from
      invariant forall j :: last < j <= from ==> IsTail(original[j])
    {
      TailBits(original[last]);
      last := last - 1;
    }
    TailBits(original[last]);
  }

  lemma TailBits(b: byte)
    ensures b & 0xc0 == 0x80 <==> IsTail(b)
  {
  }

  /** The same across the two 128-bit groups, with the preceding group beside each. */
  lemma GroupedShiftIsLoad(t: seq<byte>, i: int, d: nat)
    requires d <= 16
    ensures
      var input, previous := Load(t, i, 32), Load(t, i - 32, 32);
      ConcatShiftGrouped(input, previous[16..] + input[..16], 16 - d) == Load(t, i - d, 32)
  {
    var input, previous := Load(t, i, 32), Load(t, i - 32, 32);
    assert input[..16] == Load(t, i, 16) && input[16..] == Load(t, i + 16, 16);
    assert previous[16..] == Load(t, i - 16, 16);
    ShiftIsLoad(t, i, d);
    ShiftIsLoad(t, i + 16, d);
    assert Load(t, i - d, 32) == Load(t, i - d, 16) + Load(t, i + 16 - d, 16);
    var prior := previous[16..] + input[..16];
    assert prior[..16] == previous[16..] && prior[16..] == input[..16];
  }

  method WideBlock(t: seq<byte>, i: nat, previous: Vector) returns (input: Vector, ok: bool)
    requires previous == Load(t, i - 32, 32)
    ensures input == Load(t, i, 32)
    ensures ok <==> LanesOk(t, i, i + 32)
  {
    input := Load(t, i, 32);
    var prior := previous[16..] + input[..16];
    var p1 := ConcatShiftGrouped(input, prior, 15);
    var p2 := ConcatShiftGrouped(input, prior, 14);
    var p3 := ConcatShiftGrouped(input, prior, 13);
    ok := BlockOk(p3, p2, p1, input);
    GroupedShiftIsLoad(t, i, 1);
    GroupedShiftIsLoad(t, i, 2);
    GroupedShiftIsLoad(t, i, 3);
    LoadsAreLanes(t, i, 32);
  }

  method ValidWide(original: seq<byte>, size: nat) returns (ok: bool)
    requires 0 < size == CharLen(original) && size + 32 <= |original|
    ensures ok <==> WellFormed(original)
  {
    var t := original[size..];
    var i := 0;
    var previous: Vector := seq(32, _ => 0);
    assert forall j :: 0 <= j < 32 ==> previous[j] == Load(t, 0 - 32, 32)[j];
    assert previous == Load(t, 0 - 32, 32);
    while i + 32 <= |t|
      invariant i <= |t|
      invariant previous == Load(t, i - 32, 32) && LanesOk(t, 0, i)
    {
      var input, ok0 := WideBlock(t, i, previous);
      if !ok0 {
        LaneFailureIsFinal(original, size, i + 32);
        return false;
      }
      previous := input;
      i := i + 32;
    }
    var last := BackUp(original, size + i - 1);
    TailDecides(original, size, size + i, last);
    return WellFormed(original[last..]); // unicode/utf8.Valid
  }

  /** Valid of the vector build, with and without the 256-bit kernel: exactly the well-formed strings. */
  method Valid(src: seq<byte>, avx2: bool) returns (ok: bool)
    ensures ok <==> WellFormed(src)
  {
    var i := Dfa.AsciiPrefix(src);
    assert src == src[..i] + src[i..];
    AsciiPrefixSkips(src[..i], src[i..]);
    if i == |src| {
      return true;
    }
    var original := src[i..];
    if |original| < 32 {
      return WellFormed(original); // unicode/utf8.Valid
    }
    var size := CharLen(original); // unicode/utf8.DecodeRune
    if size == 0 {
      return false;
    }
    if |original| >= WIDE_THRESHOLD && avx2 {
      ok := ValidWide(original, size);
    } else {
      ok := ValidNarrow(original, size);
    }
  }
}
