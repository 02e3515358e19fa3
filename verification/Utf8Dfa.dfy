/**
 * The shift-based automaton of internal/utf8/valid_swar.go: one 64-bit table
 * entry per octet holds the next state for every current state.
 */
module Utf8Dfa {
  import opened Bytes
  import opened Utf8

  /** Which octets may come next. */
  datatype State =
    | Accept  // Start of a sequence.
    | Cont1   // One continuation octet left.
    | Cont2   // Two left.
    | AfterE0 // A0-BF, then one left.
    | AfterED // 80-9F, then one left.
    | AfterF0 // 90-BF, then two left.
    | AfterF1 // 80-BF, then two left.
    | AfterF4 // 80-8F, then two left.
    | Reject

  /** A state's name in the table: the shift that selects its field. */
  function Offset(q: State): (n: bv64)
    ensures n <= 48
  {
    match q
    case Accept => 0
    case Cont1 => 6
    case Cont2 => 12
    case AfterE0 => 18
    case AfterED => 24
    case AfterF0 => 30
    case AfterF1 => 36
    case AfterF4 => 42
    case Reject => 48
  }

  function Transition(q: State, b: byte): State {
    match q
    case Accept =>
      if b < 0x80 then Accept
      else if 0xc2 <= b <= 0xdf then Cont1
      else if b == 0xe0 then AfterE0
      else if b == 0xed then AfterED
      else if 0xe1 <= b <= 0xef then Cont2
      else if b == 0xf0 then AfterF0
      else if 0xf1 <= b <= 0xf3 then AfterF1
      else if b == 0xf4 then AfterF4
      else Reject
    case Cont1 => if IsTail(b) then Accept else Reject
    case Cont2 => if IsTail(b) then Cont1 else Reject
    case AfterE0 => if 0xa0 <= b <= 0xbf then Cont1 else Reject
    case AfterED => if 0x80 <= b <= 0x9f then Cont1 else Reject
    case AfterF0 => if 0x90 <= b <= 0xbf then Cont2 else Reject
    case AfterF1 => if IsTail(b) then Cont2 else Reject
    case AfterF4 => if 0x80 <= b <= 0x8f then Cont2 else Reject
    case Reject => Reject
  }

  /** Shifting `e` by a state leaves, in the low six bits, the state that follows it on `b`. */
  ghost predicate IsEntry(e: bv64, b: byte) {
    forall q: State :: (e >> Offset(q)) & 63 == Offset(Transition(q, b))
  }

  ghost predicate IsTable(t: seq<bv64>) {
    |t| == 256 && forall i :: 0 <= i < 256 ==> IsEntry(t[i], i as byte)
  }

  /** The table, built octet by octet. */
  method BuildTable() returns (t: seq<bv64>)
    ensures IsTable(t)
  {
    t := [];
    for b := 0 to 256
      invariant |t| == b
      invariant forall i :: 0 <= i < b ==> IsEntry(t[i], i as byte)
    {
      var e := BuildEntry(b as byte);
      t := t + [e];
    }
  }

  /** The loop over the nine states, written out. */
  method BuildEntry(b: byte) returns (e: bv64)
    ensures IsEntry(e, b)
  {
    e := Pack(Offset(Transition(Accept, b)), Offset(Transition(Cont1, b)), Offset(Transition(Cont2, b)),
              Offset(Transition(AfterE0, b)), Offset(Transition(AfterED, b)), Offset(Transition(AfterF0, b)),
              Offset(Transition(AfterF1, b)), Offset(Transition(AfterF4, b)), Offset(Transition(Reject, b)));
    forall q: State
      ensures (e >> Offset(q)) & 63 == Offset(Transition(q, b))
    {
      match q
      case Accept =>
      case Cont1 =>
      case Cont2 =>
      case AfterE0 =>
      case AfterED =>
      case AfterF0 =>
      case AfterF1 =>
      case AfterF4 =>
      case Reject =>
    }
  }

  /** Six-bit fields side by side do not disturb each other. */
  method Pack(t0: bv64, t1: bv64, t2: bv64, t3: bv64, t4: bv64, t5: bv64, t6: bv64, t7: bv64, t8: bv64)
    returns (e: bv64)
    requires t0 < 64 && t1 < 64 && t2 < 64 && t3 < 64 && t4 < 64 && t5 < 64 && t6 < 64 && t7 < 64 && t8 < 64
    ensures (e >> 0) & 63 == t0 && (e >> 6) & 63 == t1 && (e >> 12) & 63 == t2
    ensures (e >> 18) & 63 == t3 && (e >> 24) & 63 == t4 && (e >> 30) & 63 == t5
    ensures (e >> 36) & 63 == t6 && (e >> 42) & 63 == t7 && (e >> 48) & 63 == t8
  {
    e := t0;
    e := e | (t1 << 6);
    e := e | (t2 << 12);
    e := e | (t3 << 18);
    e := e | (t4 << 24);
    e := e | (t5 << 30);
    e := e | (t6 << 36);
    e := e | (t7 << 42);
    e := e | (t8 << 48);
  }

  /** The state after reading all of `s` from state `q`. */
  function Run(q: State, s: seq<byte>): State
    decreases |s|
  {
    if s == [] then q else Run(Transition(q, s[0]), s[1..])
  }

  lemma {:induction false} RunAppend(q: State, s: seq<byte>, t: seq<byte>)
    ensures Run(q, s + t) == Run(Run(q, s), t)
    decreases |s|
  {
    if s == [] {
      assert s + t == t;
    } else {
      RunAppend(Transition(q, s[0]), s[1..], t);
      assert (s + t)[1..] == s[1..] + t;
    }
  }

  lemma RunOne(q: State, s: seq<byte>, b: byte)
    ensures Run(q, s + [b]) == Transition(Run(q, s), b)
  {
    RunAppend(q, s, [b]);
    assert [b][1..] == [];
  }

  lemma {:induction false} RejectAbsorbs(s: seq<byte>)
    ensures Run(Reject, s) == Reject
  {
    if s != [] {
      RejectAbsorbs(s[1..]);
    }
  }

  /** The automaton accepts exactly the well-formed strings. */
  lemma {:induction false} RunAcceptsWellFormed(s: seq<byte>)
    ensures Run(Accept, s) == Accept <==> WellFormed(s)
    decreases |s|
  {
    if s != [] {
      var n := CharLen(s);
      if n == 0 {
        NoCharRejects(s);
      } else {
        CharIsRun(s[..n]);
        assert s == s[..n] + s[n..];
        RunAppend(Accept, s[..n], s[n..]);
        RunAcceptsWellFormed(s[n..]);
      }
    }
  }

  lemma CharIsRun(c: seq<byte>)
    requires c != [] && CharLen(c) == |c|
    ensures Run(Accept, c) == Accept
  {
    RunFour(c);
  }

  /** A run over at most four octets, unrolled. */
  lemma RunFour(c: seq<byte>)
    requires |c| <= 4
    ensures |c| == 1 ==> Run(Accept, c) == Transition(Accept, c[0])
    ensures |c| == 2 ==> Run(Accept, c) == Transition(Transition(Accept, c[0]), c[1])
    ensures |c| == 3 ==> Run(Accept, c) == Transition(Transition(Transition(Accept, c[0]), c[1]), c[2])
    ensures |c| == 4 ==>
      Run(Accept, c) == Transition(Transition(Transition(Transition(Accept, c[0]), c[1]), c[2]), c[3])
  {
    if |c| > 0 {
      var d := c[..|c| - 1];
      RunOne(Accept, d, c[|c| - 1]);
      assert c == d + [c[|c| - 1]];
      RunFour(d);
    }
  }

  lemma NoCharRejects(s: seq<byte>)
    requires s != [] && CharLen(s) == 0
    ensures Run(Accept, s) != Accept
  {
    if |s| < 4 {
      RunFour(s);
    } else {
      RunFour(s[..4]);
      assert Run(Accept, s[..4]) == Reject;
      assert s == s[..4] + s[4..];
      RunAppend(Accept, s[..4], s[4..]);
      RejectAbsorbs(s[4..]);
    }
  }

  const HIGH: bv64 := 0x8080_8080_8080_8080

  predicate AsciiRange(src: seq<byte>, lo: nat, hi: nat)
    requires lo <= hi <= |src|
  {
    forall j :: lo <= j < hi ==> src[j] < 0x80
  }

  lemma WordHighBits(a: byte, b: byte, c: byte, d: byte, e: byte, f: byte, g: byte, h: byte)
    ensures ((a as bv64) | (b as bv64 << 8) | (c as bv64 << 16) | (d as bv64 << 24)
             | (e as bv64 << 32) | (f as bv64 << 40) | (g as bv64 << 48) | (h as bv64 << 56)) & HIGH == 0
            <==> a < 0x80 && b < 0x80 && c < 0x80 && d < 0x80 && e < 0x80 && f < 0x80 && g < 0x80 && h < 0x80
  {
  }

  /** Testing the high bits of a word tests its eight octets. */
  lemma WordIsAscii(src: seq<byte>, i: nat)
    requires i + 8 <= |src|
    ensures Word(src, i) & HIGH == 0 <==> AsciiRange(src, i, i + 8)
  {
    WordHighBits(src[i], src[i + 1], src[i + 2], src[i + 3], src[i + 4], src[i + 5], src[i + 6], src[i + 7]);
  }

  lemma OrHighBits(a: bv64, b: bv64)
    ensures (a | b) & HIGH == 0 <==> a & HIGH == 0 && b & HIGH == 0
  {
  }

  lemma TwoWordsAscii(src: seq<byte>, i: nat)
    requires i + 16 <= |src|
    ensures (Word(src, i) | Word(src, i + 8)) & HIGH == 0 <==> AsciiRange(src, i, i + 16)
  {
    OrHighBits(Word(src, i), Word(src, i + 8));
    WordIsAscii(src, i);
    WordIsAscii(src, i + 8);
    assert AsciiRange(src, i, i + 16) <==> AsciiRange(src, i, i + 8) && AsciiRange(src, i + 8, i + 16);
  }

  lemma FourWordsAscii(src: seq<byte>, i: nat)
    requires i + 32 <= |src|
    ensures (Word(src, i) | Word(src, i + 8) | Word(src, i + 16) | Word(src, i + 24)) & HIGH == 0
            <==> AsciiRange(src, i, i + 32)
  {
    var a, b, c, d := Word(src, i), Word(src, i + 8), Word(src, i + 16), Word(src, i + 24);
    OrHighBits(a | b | c, d);
    OrHighBits(a | b, c);
    TwoWordsAscii(src, i);
    WordIsAscii(src, i + 16);
    WordIsAscii(src, i + 24);
    assert AsciiRange(src, i, i + 32)
      <==> AsciiRange(src, i, i + 16) && AsciiRange(src, i + 16, i + 24) && AsciiRange(src, i + 24, i + 32);
  }

  /** The length of the leading run of ASCII: 32, 16 and 8 octets per step, then one by one. */
  method AsciiPrefix(src: seq<byte>) returns (i: nat)
    ensures i <= |src| && AsciiRange(src, 0, i)
    ensures i < |src| ==> src[i] >= 0x80
  {
    i := 0;
    while i + 32 <= |src|
      invariant i <= |src| && AsciiRange(src, 0, i)
    {
      FourWordsAscii(src, i);
      if (Word(src, i) | Word(src, i + 8) | Word(src, i + 16) | Word(src, i + 24)) & HIGH != 0 {
        break;
      }
      i := i + 32;
    }
    if i + 16 <= |src| {
      TwoWordsAscii(src, i);
      if (Word(src, i) | Word(src, i + 8)) & HIGH == 0 {
        i := i + 16;
      }
    }
    if i + 8 <= |src| {
      WordIsAscii(src, i);
      if Word(src, i) & HIGH == 0 {
        i := i + 8;
      }
    }
    while i < |src| && src[i] < 0x80
      invariant i <= |src| && AsciiRange(src, 0, i)
    {
      i := i + 1;
    }
  }

  lemma {:induction false} AsciiRunStays(s: seq<byte>)
    requires AsciiRange(s, 0, |s|)
    ensures Run(Accept, s) == Accept
  {
    if s != [] {
      AsciiRunStays(s[1..]);
    }
  }

  /** The state after the first `i` octets of `src`. */
  function StateAt(src: seq<byte>, i: nat): State
    requires i <= |src|
  {
    Run(Accept, src[..i])
  }

  lemma StateAtNext(src: seq<byte>, i: nat)
    requires i < |src|
    ensures StateAt(src, i + 1) == Transition(StateAt(src, i), src[i])
  {
    assert src[..i + 1] == src[..i] + [src[i]];
    RunOne(Accept, src[..i], src[i]);
  }

  lemma StateAtSkip(src: seq<byte>, i: nat, j: nat)
    requires i <= j <= |src|
    ensures StateAt(src, j) == Run(StateAt(src, i), src[i..j])
  {
    assert src[..j] == src[..i] + src[i..j];
    RunAppend(Accept, src[..i], src[i..j]);
  }

  /** One step of the unrolled loop: a table load shifted by the current state. */
  method Step(dfa: seq<bv64>, src: seq<byte>, i: nat, state: bv64) returns (next: bv64)
    requires IsTable(dfa) && i < |src| && Is(state, StateAt(src, i))
    ensures Is(next, StateAt(src, i + 1))
  {
    var b := src[i];
    assert IsEntry(dfa[b as int], (b as int) as byte);
    next := dfa[b as int] >> (state & 63);
    StateAtNext(src, i);
  }

  /** Eight octets, unrolled. */
  method Block(dfa: seq<bv64>, src: seq<byte>, i: nat, state: bv64) returns (next: bv64)
    requires IsTable(dfa) && i + 8 <= |src| && Is(state, StateAt(src, i))
    ensures Is(next, StateAt(src, i + 8))
  {
    next := Step(dfa, src, i, state);
    next := Step(dfa, src, i + 1, next);
    next := Step(dfa, src, i + 2, next);
    next := Step(dfa, src, i + 3, next);
    next := Step(dfa, src, i + 4, next);
    next := Step(dfa, src, i + 5, next);
    next := Step(dfa, src, i + 6, next);
    next := Step(dfa, src, i + 7, next);
  }

  /** The register holds state `q`: its low six bits are that state's shift offset. */
  predicate Is(state: bv64, q: State) { state & 63 == Offset(q) }

  lemma OffsetInjective(state: bv64, q: State, r: State)
    requires Is(state, q)
    ensures Is(state, r) <==> q == r
  {
  }

  method AsciiWord(src: seq<byte>, i: nat) returns (ascii: bool)
    requires i + 8 <= |src|
    ensures ascii <==> AsciiRange(src, i, i + 8)
  {
    WordIsAscii(src, i);
    ascii := Word(src, i) & HIGH == 0;
  }

  /** The loop over whole blocks. A rejected block stays rejected to the end. */
  method Blocks(dfa: seq<bv64>, src: seq<byte>, start: nat) returns (i: nat, state: bv64, ok: bool)
    requires IsTable(dfa) && start <= |src| && StateAt(src, start) == Accept
    ensures i <= |src|
    ensures if ok then Is(state, StateAt(src, i)) else StateAt(src, |src|) == Reject
  {
    i, state, ok := start, 0, true;
    while i + 8 <= |src|
      invariant i <= |src| && ok
      invariant Is(state, StateAt(src, i))
    {
      OffsetInjective(state, StateAt(src, i), Accept);
      var ascii := AsciiWord(src, i);
      if Is(state, Accept) && ascii {
        AsciiRunStays(src[i..i + 8]);
        StateAtSkip(src, i, i + 8);
        i := i + 8;
        continue;
      }
      state := Block(dfa, src, i, state);
      OffsetInjective(state, StateAt(src, i + 8), Reject);
      if Is(state, Reject) {
        StateAtSkip(src, i + 8, |src|);
        assert src[i + 8..|src|] == src[i + 8..];
        RejectAbsorbs(src[i + 8..]);
        return i, state, false;
      }
      i := i + 8;
    }
  }

  /** Valid of the shift-based build: exactly the well-formed strings. */
  method Valid(dfa: seq<bv64>, src: seq<byte>) returns (ok: bool)
    requires IsTable(dfa)
    ensures ok <==> WellFormed(src)
  {
    var i := AsciiPrefix(src);
    AsciiRunStays(src[..i]);
    assert src == src[..|src|];
    RunAcceptsWellFormed(src);
    if i == |src| {
      return true;
    }
    if |src| - i < 16 {
      // unicode/utf8.Valid on the rest.
      assert src == src[..i] + src[i..];
      AsciiPrefixSkips(src[..i], src[i..]);
      return WellFormed(src[i..]);
    }

    var state: bv64;
    i, state, ok := Blocks(dfa, src, i);
    if !ok {
      return;
    }
    while i < |src|
      invariant i <= |src|
      invariant Is(state, StateAt(src, i))
    {
      state := Step(dfa, src, i, state);
      i := i + 1;
    }
    OffsetInjective(state, StateAt(src, |src|), Accept);
    return Is(state, Accept);
  }
}
