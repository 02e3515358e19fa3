/** deflate/window.go: one direction's compression history. */
module DeflateWindow {
  import opened Bytes

  const WINDOW_SIZE: nat := 32768

  /** The window size that `bits` names. */
  function SizeOf(bits: int): (n: nat)
    ensures 256 <= n <= WINDOW_SIZE
  {
    match bits
    case 8 => 256
    case 9 => 512
    case 10 => 1024
    case 11 => 2048
    case 12 => 4096
    case 13 => 8192
    case 14 => 16384
    case _ => WINDOW_SIZE
  }

  function Power(n: nat): nat { if n == 0 then 1 else 2 * Power(n - 1) }

  /** Two to the number of bits, from 8 to 14; anything else names the largest window. */
  lemma SizeIsPower(bits: int)
    ensures SizeOf(bits) == if 8 <= bits <= 14 then Power(bits) else Power(15)
  {
    assert Power(4) == 16;
    assert Power(8) == 256;
    assert Power(12) == 4096;
    assert Power(15) == 32768;
  }

  /** What a window means: the bytes it offers as a dictionary, and how often it changed. */
  datatype History = History(size: nat, data: seq<byte>, gen: nat) {
    predicate Valid() { 0 < size && |data| <= size }

    function Remember(p: seq<byte>): (h: History)
      ensures Valid() ==> h.Valid()
    {
      if p == [] then this else History(size, Last(data + p, size), gen + 1)
    }

    function Reset(): (h: History)
      ensures Valid() ==> h.Valid()
    {
      History(size, [], gen + 1)
    }
  }

  class Window {
    const bits: int
    var buf: seq<byte>
    var cap: nat // Capacity of the buffer's storage.
    var gen: nat

    predicate Valid()
      reads this
    {
      |buf| <= cap
    }

    function Size(): nat { SizeOf(bits) }

    /** dict: the last Size bytes of the buffer. */
    function Dict(): seq<byte>
      reads this
    {
      Last(buf, Size())
    }

    function View(): History
      reads this
    {
      History(Size(), Dict(), gen)
    }

    /** The zero value with its size set. */
    constructor (bits: int)
      ensures Valid() && View() == History(SizeOf(bits), [], 0) && this.bits == bits
    {
      this.bits := bits;
      buf, cap, gen := [], 0, 0;
    }

    method Reset()
      requires Valid()
      modifies this
      ensures Valid() && View() == old(View()).Reset()
    {
      buf := [];
      gen := gen + 1;
    }

    /**
     * remember: the buffer holds up to twice the window and is compacted only
     * when full, yet its dictionary is always the last Size bytes.
     * `spare` is what an allocation rounds a capacity up by.
     */
    method Remember(p: seq<byte>, spare: nat)
      requires Valid()
      modifies this
      ensures Valid() && View() == old(View()).Remember(p)
    {
      if |p| == 0 {
        return;
      }
      gen := gen + 1;
      var size := Size();
      hide SizeOf, Last;
      ghost var whole := buf + p;
      LastAppend(buf, p, size);
      if |p| >= size {
        LastOfSuffix(buf, p, size);
        LastOfTail(p, size);
        buf := p[|p| - size..];
        cap := if cap < size then size + spare else cap;
        return;
      }
      if cap < 2 * size {
        buf := Dict();
        cap := 2 * size;
      }
      assert Last(buf + p, size) == Last(whole, size);
      if |buf| + |p| > cap {
        var keep := size - |p|;
        KeepSuffices(buf, p, keep, size);
        buf := buf[|buf| - keep..];
      }
      buf := buf + p;
    }
  }

  /** Compaction keeps just enough: with `p` it still fills the window. */
  lemma KeepSuffices<T>(buf: seq<T>, p: seq<T>, keep: nat, size: nat)
    requires keep <= |buf| && keep + |p| == size
    ensures Last(buf[|buf| - keep..] + p, size) == Last(buf + p, size)
  {
    assert buf == buf[..|buf| - keep] + buf[|buf| - keep..];
  }

  // ----- Any sequence of operations -----

  datatype Op = Add(p: seq<byte>) | Clear

  function Apply(h: History, ops: seq<Op>): History {
    if ops == [] then h
    else
      var h' := Apply(h, ops[..|ops| - 1]);
      match ops[|ops| - 1] case Add(p) => h'.Remember(p) case Clear => h'.Reset()
  }

  /** Everything added since the last reset. */
  function Since(ops: seq<Op>): seq<byte> {
    if ops == [] then []
    else match ops[|ops| - 1] case Add(p) => Since(ops[..|ops| - 1]) + p case Clear => []
  }

  /** The dictionary is exactly the last bytes since the last reset. */
  lemma {:induction false} WindowIsSuffix(size: nat, gen: nat, ops: seq<Op>)
    requires 0 < size
    ensures Apply(History(size, [], gen), ops).data == Last(Since(ops), size)
    ensures Apply(History(size, [], gen), ops).size == size
  {
    if ops != [] {
      var before := ops[..|ops| - 1];
      WindowIsSuffix(size, gen, before);
      if ops[|ops| - 1].Add? {
        LastAppend(Since(before), ops[|ops| - 1].p, size);
      }
    }
  }

  /** An unchanged generation means an unchanged history. */
  lemma {:induction false} GenerationWitnessesChange(h: History, ops: seq<Op>)
    ensures Apply(h, ops).gen >= h.gen
    ensures Apply(h, ops).gen == h.gen ==> Apply(h, ops) == h
  {
    if ops != [] {
      GenerationWitnessesChange(h, ops[..|ops| - 1]);
    }
  }
}
