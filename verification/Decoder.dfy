/** codec/decoder.go: an incremental decoder that borrows the caller's buffers. */
module Decoders {
  import opened Bytes
  import opened Framing

  /**
   * Go's append of `src[from..to]` to `dst[..n]`: in place when it fits, overlap included, else
   * into a larger array.
   */
  method Append(dst: array<byte>, n: nat, src: array<byte>, from: nat, to: nat, spare: nat) returns (r: array<byte>)
    requires n <= dst.Length && from <= to <= src.Length
    modifies dst
    ensures r == dst || fresh(r)
    ensures n + (to - from) <= r.Length
    ensures r[..n + (to - from)] == old(dst[..n] + src[from..to])
    ensures dst[..n] == old(dst[..n])
  {
    if n + (to - from) <= dst.Length {
      r := dst;
    } else {
      r := new byte[n + (to - from) + spare];
      forall i | 0 <= i < n {
        r[i] := dst[i];
      }
    }
    forall i | n <= i < n + (to - from) {
      r[i] := src[from + (i - n)];
    }
  }

  datatype HeaderErr = PayloadPendingErr | LengthErr

  datatype NextHeaderResult = Header(head: Head) | Wait | Error(err: HeaderErr)

  class Decoder {
    // Input fed and not yet consumed: buf[lo..hi]. It may be a caller's buffer or scratch.
    var buf: array<byte>
    var lo: nat
    var hi: nat
    var scratch: array<byte>
    var remaining: nat

    ghost predicate Valid()
      reads this
    {
      lo <= hi <= buf.Length
    }

    ghost function Pending(): seq<byte>
      requires Valid()
      reads this, buf
    {
      buf[lo..hi]
    }

    constructor ()
      ensures Valid() && fresh(buf) && fresh(scratch)
      ensures Pending() == [] && remaining == 0
    {
      var none := new byte[0];
      buf, scratch := none, none;
      lo, hi, remaining := 0, 0, 0;
    }

    method Reset()
      modifies this
      ensures Valid() && Pending() == [] && remaining == 0
      ensures scratch == old(scratch) && buf == old(buf)
    {
      lo, hi, remaining := 0, 0, 0;
    }

    /** Appends `b[from..to]`, borrowing `b` when nothing is pending. */
    method Feed(b: array<byte>, from: nat, to: nat, spare: nat)
      requires Valid() && from <= to <= b.Length
      requires b != scratch
      modifies this, scratch
      ensures Valid() && remaining == old(remaining)
      ensures Pending() == old(Pending()) + old(b[from..to])
      ensures fresh(buf) || buf in {old(buf), b, old(scratch)}
      ensures scratch == old(scratch) || fresh(scratch)
      ensures old(Pending()) == [] && from < to ==> buf == b && lo == from && hi == to && scratch == old(scratch)
      ensures old(Pending()) != [] && from < to ==> buf == scratch
      ensures from == to ==> unchanged(this)
    {
      if from == to {
        return;
      }
      if lo == hi {
        buf, lo, hi := b, from, to;
        return;
      }
      var n := hi - lo;
      var first := Append(scratch, 0, buf, lo, hi, spare);
      assert first[..n] == old(Pending());
      scratch := Append(first, n, b, from, to, spare);
      buf, lo, hi := scratch, 0, n + (to - from);
    }

    /** Moves pending input into storage of the decoder's own, so that the feed buffer can be reused. */
    method Preserve(spare: nat)
      requires Valid()
      modifies this, scratch
      ensures Valid() && remaining == old(remaining)
      ensures Pending() == old(Pending())
      ensures Pending() != [] ==> buf == scratch
      ensures Pending() == [] ==> unchanged(this)
      ensures scratch == old(scratch) || fresh(scratch)
    {
      if lo == hi {
        return;
      }
      scratch := Append(scratch, 0, buf, lo, hi, spare);
      buf, lo, hi := scratch, 0, hi - lo;
    }

    /** Parses a header off the pending input; an error or an incomplete header consumes nothing. */
    method NextHeader() returns (r: NextHeaderResult)
      requires Valid()
      modifies this
      ensures Valid() && scratch == old(scratch) && buf == old(buf)
      ensures
        if old(remaining) != 0 then r == Error(PayloadPendingErr) && unchanged(this)
        else match ParseHeader(old(Pending()))
             case Incomplete => r == Wait && unchanged(this)
             case BadLength => r == Error(LengthErr) && unchanged(this)
             case Complete(h, n) =>
               && r == Header(h) && remaining == h.length
               && hi == old(hi) && lo == old(lo) + n && n <= |old(Pending())|
    {
      if remaining != 0 {
        return Error(PayloadPendingErr);
      }
      if hi - lo < 2 {
        return Wait;
      }
      var n := HeaderSize(buf[lo + 1]);
      if hi - lo < n {
        return Wait;
      }
      var raw := buf[lo..lo + n];
      assert raw == Pending()[..n];
      var length := PayloadLen(raw);
      if !GoodLength(LengthCode(raw[1]), length) {
        return Error(LengthErr);
      }
      lo, remaining := lo + n, length;
      r := Header(HeadOf(raw));
    }

    /** Consumes at most `n` bytes of the open frame's payload: the chunk is buf[from..to], borrowed. */
    method PayloadN(n: int) returns (from: nat, to: nat, done: bool)
      requires Valid()
      modifies this
      ensures Valid() && scratch == old(scratch) && buf == old(buf) && hi == old(hi)
      ensures from <= to && to <= hi
      ensures var avail := old(hi - lo);
              to - from ==
              if n <= 0 then 0
              else if n <= avail && n <= old(remaining) then n
              else if avail <= old(remaining) then avail
              else old(remaining)
      ensures remaining == old(remaining) - (to - from) && lo == old(lo) + (to - from)
      ensures to != from ==> from == old(lo)
      ensures done == (remaining == 0)
    {
      if remaining == 0 {
        return 0, 0, true;
      }
      if n <= 0 || lo == hi {
        return 0, 0, false;
      }
      var k := if n < hi - lo then n else hi - lo;
      if remaining < k {
        k := remaining;
      }
      from, to := lo, lo + k;
      lo, remaining := lo + k, remaining - k;
      done := remaining == 0;
    }
  }
}
