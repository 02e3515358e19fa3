/** ws/receiver.go: the receiver over a borrowing decoder, its control buffer filled and unmasked in place. */
module Receivers {
  import opened Bytes
  import opened Masking
  import opened Framing
  import opened Reception
  import opened Decoders
  import Chunking

  datatype Fields = Fields(
    role: Role, compression: bool,
    head: Head, remaining: nat, key: Option<Key>, offset: Uint8,
    message: Option<Opcode>, compressed: bool,
    controlLen: nat, controlOp: Opcode, controlOpen: bool,
    closed: bool, failed: Option<nat>)

  const CONTROL_SIZE := 125

  class Receiver {
    const dec: Decoder
    const control: array<byte>
    var f: Fields

    /** The storage is well formed, and no buffer of the decoder's is the control buffer. */
    ghost predicate Wired()
      reads this, dec
    {
      && dec.Valid()
      && control.Length == CONTROL_SIZE && f.controlLen <= CONTROL_SIZE
      && control != dec.buf && control != dec.scratch
    }

    ghost function State(): Rx
      requires Wired()
      reads this, dec, control
    {
      Rx(f.role, f.compression, f.head, f.remaining, dec.remaining, f.key, f.offset, f.message, f.compressed,
         control[..f.controlLen], f.controlOp, f.controlOpen, f.closed, f.failed)
    }

    ghost function Pending(): seq<byte>
      requires Wired()
      reads this, dec, dec.buf
    {
      dec.Pending()
    }

    ghost predicate Valid()
      reads this, dec, dec.buf, control
    {
      Wired() && State().Valid() && (State().Over() ==> Pending() == [])
    }

    constructor (role: Role, compression: bool)
      ensures Valid() && fresh(dec) && fresh(control) && fresh(dec.buf) && fresh(dec.scratch)
      ensures State() == Reception.Init(role, compression) && Pending() == []
    {
      dec := new Decoder();
      control := new byte[CONTROL_SIZE];
      f := Fields(role, compression, NO_HEAD, 0, None, 0, None, false, 0, Continuation, false, false, None);
      new;
      assert control[..0] == [];
    }

    method Init(role: Role, compression: bool)
      requires Wired()
      modifies this, dec
      ensures Valid() && State() == Reception.Init(role, compression) && Pending() == []
      ensures dec.scratch == old(dec.scratch)
    {
      f := Fields(role, compression, NO_HEAD, 0, None, 0, None, false, 0, Continuation, false, false, None);
      dec.Reset();
      assert control[..0] == [];
    }

    /** Nothing is fed after a close or a failure. */
    method Feed(b: array<byte>, from: nat, to: nat, spare: nat)
      requires Valid() && from <= to <= b.Length
      requires b != dec.scratch && b != control
      modifies dec, dec.scratch
      ensures Valid() && State() == old(State())
      ensures Pending() == if State().Over() then old(Pending()) else old(Pending()) + old(b[from..to])
      ensures dec.scratch == old(dec.scratch) || fresh(dec.scratch)
      ensures old(Pending()) == [] && from < to && !State().Over() ==> dec.buf == b && dec.lo == from && dec.hi == to
      ensures fresh(dec.buf) || dec.buf in {old(dec.buf), b, old(dec.scratch)}
    {
      if f.failed.None? && !f.closed {
        dec.Feed(b, from, to, spare);
      }
    }

    method Preserve(spare: nat)
      requires Valid()
      modifies dec, dec.scratch
      ensures Valid() && State() == old(State()) && Pending() == old(Pending())
      ensures Pending() != [] ==> dec.buf == dec.scratch
      ensures dec.scratch == old(dec.scratch) || fresh(dec.scratch)
      ensures dec.buf in {old(dec.buf), dec.scratch}
    {
      dec.Preserve(spare);
    }

    /** fail. */
    method Fail(code: nat)
      requires Wired()
      modifies this, dec
      ensures Wired() && dec.buf == old(dec.buf) && dec.scratch == old(dec.scratch)
      ensures State() == Failing(old(State()), code) && Pending() == []
    {
      f := f.(failed := Some(code), remaining := 0, controlOpen := false, message := None);
      dec.Reset();
    }

    /** finishControl. */
    method FinishControl() returns (kind: Kind, err: NextErr)
      requires Wired() && !State().Over() && State().left == 0 && !State().controlOpen && State().remaining == 0
      modifies this, dec
      ensures Wired() && dec.buf == old(dec.buf) && dec.scratch == old(dec.scratch)
      ensures State() == Delivered(old(State()))
      ensures State().failed.Some? ==> kind == NeedInput && err == Failed(State().failed.value)
      ensures State().failed.None? ==> kind == ControlFrame && err == NoErr
      ensures Pending() == if State().Over() then [] else old(Pending())
    {
      hide CloseFault;
      if f.controlOp.Close? {
        var fault := CloseFault(control[..f.controlLen]);
        if fault.Some? {
          Fail(fault.value);
          return NeedInput, Failed(fault.value);
        }
        f := f.(closed := true);
        dec.Reset();
      }
      return ControlFrame, NoErr;
    }

    /** Copies a chunk of the control frame's payload behind the control buffer's contents. */
    method Copy(from: nat, to: nat)
      requires Wired() && from <= to <= dec.buf.Length && f.controlLen + (to - from) <= CONTROL_SIZE
      modifies `f, control
      ensures f == old(f).(controlLen := old(f).controlLen + (to - from))
      ensures control[..f.controlLen] == old(control[..f.controlLen]) + dec.buf[from..to]
    {
      var k := f.controlLen;
      forall i | k <= i < k + (to - from) {
        control[i] := dec.buf[from + (i - k)];
      }
      f := f.(controlLen := k + (to - from));
    }

    /** Unmasks the control buffer from `k` on, in place. */
    method Unmask(k: nat)
      requires k <= f.controlLen <= control.Length
      modifies `f, control
      ensures f == old(f).(offset := f.offset)
      ensures f.key.None? ==> f.offset == old(f).offset && control[..f.controlLen] == old(control[..f.controlLen])
      ensures f.key.Some? ==>
        && f.offset == (old(f).offset + (f.controlLen - k)) % 4
        && control[..f.controlLen]
          == old(control[..k]) + Masked(old(control[k..f.controlLen]), f.key.value, old(f).offset)
    {
      hide Masked;
      if f.key.Some? {
        var offset := Mask(control, k, f.controlLen, f.key.value, f.offset);
        f := f.(offset := offset);
        assert control[..f.controlLen] == control[..k] + control[k..f.controlLen];
      }
    }

    /** A chunk copied and unmasked. */
    method Absorb(from: nat, to: nat)
      requires Wired() && from <= to <= dec.buf.Length && f.controlLen + (to - from) <= CONTROL_SIZE
      modifies `f, control
      ensures Wired()
      ensures
        var s, c := old(State()), dec.buf[from..to];
        State() == s.(control := s.control + Unmasked(s, c), offset := Carried(s, |c|))
    {
      hide Masked;
      ghost var s, c := State(), dec.buf[from..to];
      var k := f.controlLen;
      Copy(from, to);
      assert control[..f.controlLen] == s.control + c;
      assert control[..k] == s.control && control[k..f.controlLen] == c;
      Unmask(k);
    }

    /** The control branch up to the copy and the unmasking; nothing is cut off by the buffer's end. */
    method Pull() returns (done: bool)
      requires Valid() && State().controlOpen
      modifies this, dec, control
      ensures Wired() && dec.buf == old(dec.buf) && dec.scratch == old(dec.scratch)
      ensures
        var s, p := old(State()), old(Pending());
        var n := if |p| < s.left then |p| else s.left;
        && State() == Gathered(s, p[..n]) && Pending() == p[n..]
        && done == (State().left == 0)
    {
      hide Unmasked, Carried;
      ghost var s, p := State(), Pending();
      var from, to;
      from, to, done := dec.PayloadN(dec.hi - dec.lo);
      ghost var c := p[..to - from];
      assert dec.buf[from..to] == c && Pending() == p[to - from..];
      UnmaskingIgnoresLeft(s, dec.remaining, c);
      Absorb(from, to);
    }

    /** The control branch of Next. */
    method GatherControl() returns (kind: Kind, err: NextErr)
      requires Valid() && State().controlOpen
      modifies this, dec, control
      ensures Wired() && dec.buf == old(dec.buf) && dec.scratch == old(dec.scratch)
      ensures
        var r := Gather(old(State()), old(Pending()));
        && kind == r.kind && err == r.err && State() == r.next && r.used <= |old(Pending())|
        && Pending() == old(Pending())[r.used..]
    {
      hide Unmasked, CloseFault;
      var done := Pull();
      if !done {
        return NeedInput, NoErr;
      }
      f := f.(controlOpen := false);
      kind, err := FinishControl();
    }

    /** accept: the checks on a header, and the message it opens. */
    method Accept(h: Head) returns (ok: bool)
      requires Wired()
      modifies `f
      ensures Wired() && ok == Accepts(old(State()), h)
      ensures f ==
        if ok && (h.op.Text? || h.op.Binary?) then old(f).(message := Some(h.op), compressed := h.rsv1) else old(f)
    {
      if h.Masked() != f.role.Server? || h.rsv2 || h.rsv3 {
        return false;
      }
      match h.op {
      case Text | Binary =>
        if f.message.Some? || (h.rsv1 && !f.compression) {
          return false;
        }
        f := f.(message := Some(h.op), compressed := h.rsv1);
      case Continuation =>
        if f.message.None? || h.rsv1 {
          return false;
        }
      case Close | Ping | Pong =>
        if !h.fin || h.rsv1 || h.length > 125 {
          return false;
        }
      case Reserved(_) =>
        return false;
      }
      return true;
    }

    /** The header branch of Next up to the open frame; None when a header was accepted. */
    method NextHeader() returns (r: Option<(Kind, NextErr)>)
      requires Valid() && !State().Over() && State().remaining == 0 && !State().controlOpen
      modifies this, dec
      ensures Wired() && dec.buf == old(dec.buf) && dec.scratch == old(dec.scratch)
      ensures
        var s, p := old(State()), old(Pending());
        match ParseHeader(p)
        case Incomplete => r == Some((NeedInput, NoErr)) && State() == s && Pending() == p
        case BadLength => r == Some((NeedInput, Failed(1002))) && State() == Failing(s.(head := NO_HEAD), 1002)
          && Pending() == []
        case Complete(h, n) =>
          if !Accepts(s, h) then r == Some((NeedInput, Failed(1002))) && State() == Failing(s.(head := h), 1002)
            && Pending() == []
          else
            && r == None && Pending() == p[n..] && (!h.op.IsData() ==> h.op.IsControl() && h.length <= 125)
            && State() == s.(head := h, left := h.length, key := h.key, offset := 0,
                             message := if h.op.Text? || h.op.Binary? then Some(h.op) else s.message,
                             compressed := if h.op.Text? || h.op.Binary? then h.rsv1 else s.compressed)
    {
      hide ParseHeader;
      ghost var s := State();
      var h := dec.NextHeader();
      match h
      case Error(_) =>
        f := f.(head := NO_HEAD);
        Fail(1002);
        return Some((NeedInput, Failed(1002)));
      case Wait =>
        return Some((NeedInput, NoErr));
      case Header(h) =>
        f := f.(head := h);
        var ok := Accept(h);
        if !ok {
          Fail(1002);
          return Some((NeedInput, Failed(1002)));
        }
        f := f.(key := h.key, offset := 0);
        return None;
    }

    /** finishFrame. */
    method FinishFrame()
      requires Wired()
      modifies `f
      ensures Wired() && State() == if old(f).head.fin then old(State()).(message := None) else old(State())
    {
      if f.head.fin {
        f := f.(message := None);
      }
    }

    /** The control branch from an accepted header on. */
    method OpenControl() returns (kind: Kind, err: NextErr)
      requires Wired() && !State().Over() && State().remaining == 0 && !State().controlOpen
      requires f.head.op.IsControl() && State().left == f.head.length <= 125 && f.offset == 0
      modifies this, dec, control
      ensures Wired() && dec.buf == old(dec.buf) && dec.scratch == old(dec.scratch)
      ensures
        var h, p := old(f).head, old(Pending());
        var t := old(State()).(controlOp := h.op, control := [], controlOpen := h.length > 0);
        var r := if h.length == 0 then Finish(t, if Delivered(t).Over() then |p| else 0) else Gather(t, p);
        && kind == r.kind && err == r.err && State() == r.next && r.used <= |p|
        && Pending() == p[r.used..]
    {
      hide Gather, CloseFault;
      f := f.(controlOp := f.head.op, controlLen := 0);
      assert control[..0] == [];
      if f.head.length == 0 {
        kind, err := FinishControl();
        return;
      }
      f := f.(controlOpen := true);
      kind, err := GatherControl();
    }

    /** The data branch from an accepted header on. */
    method OpenData()
      requires Wired()
      modifies `f
      ensures Wired() && State() == Ended(old(State()).(remaining := old(f).head.length))
    {
      f := f.(remaining := f.head.length);
      if f.remaining == 0 {
        FinishFrame();
      }
    }

    /** Next between frames. */
    method NextFrame() returns (kind: Kind, err: NextErr)
      requires Valid() && !State().Over() && State().remaining == 0 && !State().controlOpen
      modifies this, dec, control
      ensures Wired() && dec.buf == old(dec.buf) && dec.scratch == old(dec.scratch)
      ensures Answers(Reception.Next(old(State()), old(Pending())), kind, err, old(Pending()))
    {
      hide ParseHeader, Accepts, Delivered, Gather;
      var r := NextHeader();
      if r.Some? {
        return r.value.0, r.value.1;
      }
      if f.head.op.IsData() {
        OpenData();
        return DataFrame, NoErr;
      }
      kind, err := OpenControl();
    }

    /** The receiver has done what `r` says, with `p` pending. */
    ghost predicate Answers(r: NextResult, kind: Kind, err: NextErr, p: seq<byte>)
      requires Wired()
      reads this, dec, dec.buf, control
    {
      && kind == r.kind && err == r.err && State() == r.next
      && r.used <= |p| && Pending() == p[r.used..]
    }

    /** Next, as the pure step on the state and the pending input. */
    method Next() returns (kind: Kind, err: NextErr)
      requires Valid()
      modifies this, dec, control
      ensures Valid() && dec.buf == old(dec.buf) && dec.scratch == old(dec.scratch)
      ensures Answers(Reception.Next(old(State()), old(Pending())), kind, err, old(Pending()))
    {
      hide ParseHeader, Accepts, Opened, Delivered, Gather, OneShot, Step, Tracks;
      NextInStep(State(), Pending());
      if f.failed.Some? {
        return NeedInput, Failed(f.failed.value);
      }
      if f.remaining != 0 {
        return NeedInput, PayloadPending;
      }
      if f.closed {
        return NeedInput, NoErr;
      }
      if f.controlOpen {
        kind, err := GatherControl();
      } else {
        kind, err := NextFrame();
      }
    }

    /** PayloadN: the chunk dec.buf[from..to] is unmasked where it lies; nothing else of the buffer changes. */
    method PayloadN(n: int) returns (from: nat, to: nat, done: bool, err: NextErr)
      requires Valid()
      modifies this, dec, dec.buf
      ensures Valid() && dec.buf == old(dec.buf) && dec.scratch == old(dec.scratch)
      ensures from <= to <= dec.buf.Length
      ensures
        var r := Chunking.PayloadN(old(State()), old(Pending()), n);
        && dec.buf[from..to] == r.chunk && done == r.done && err == r.err && State() == r.next
        && r.used <= |old(Pending())| && Pending() == old(Pending())[r.used..]
      ensures dec.buf[..from] == old(dec.buf[..from]) && dec.buf[to..] == old(dec.buf[to..])
    {
      hide Masked, Unmasked, Taken, TakenEvents, Tracks, OneShot, Step;
      Chunking.PayloadInStep(State(), Pending(), n);
      if f.failed.Some? {
        return 0, 0, false, Failed(f.failed.value);
      }
      if f.remaining == 0 {
        return 0, 0, true, NoErr;
      }
      from, to, done := dec.PayloadN(n);
      assert from < to ==> dec.buf[from..to] == old(Pending())[..to - from];
      Consumed(from, to, done);
      err := NoErr;
    }

    /** The chunk is unmasked in place and the key's offset carried on. */
    method UnmaskChunk(from: nat, to: nat)
      requires Wired() && from <= to <= dec.buf.Length
      modifies `f, dec.buf
      ensures Wired() && State() == old(State()).(offset := Carried(old(State()), to - from))
      ensures dec.buf[from..to] == Unmasked(old(State()), old(dec.buf[from..to]))
      ensures dec.buf[..from] == old(dec.buf[..from]) && dec.buf[to..] == old(dec.buf[to..])
    {
      hide Masked;
      if f.key.Some? {
        var offset := Mask(dec.buf, from, to, f.key.value, f.offset);
        f := f.(offset := offset);
      }
    }

    /** consumed. */
    method Consumed(from: nat, to: nat, done: bool)
      requires Wired() && from <= to <= dec.buf.Length && (from < to ==> dec.lo == to)
      requires to - from <= f.remaining && f.remaining - (to - from) == dec.remaining && done == (dec.remaining == 0)
        && 0 < f.remaining
      modifies `f, dec.buf
      ensures Wired() && Pending() == old(Pending())
      ensures from < to ==>
        var s := old(State()).(left := old(f).remaining);
        State() == Taken(s, to - from) && dec.buf[from..to] == Unmasked(s, old(dec.buf[from..to]))
      ensures from == to ==> State() == old(State())
      ensures dec.buf[..from] == old(dec.buf[..from]) && dec.buf[to..] == old(dec.buf[to..])
    {
      hide Masked;
      if from < to {
        UnmaskChunk(from, to);
        assert Pending() == dec.buf[to..][..dec.hi - to];
        f := f.(remaining := f.remaining - (to - from));
      }
      if done {
        FinishFrame();
      }
    }
  }

  lemma UnmaskingIgnoresLeft(s: Rx, left: nat, c: seq<byte>)
    ensures Unmasked(s.(left := left), c) == Unmasked(s, c) && Carried(s.(left := left), |c|) == Carried(s, |c|)
  {
  }

  /**
   * fill: the read buffer is read into again while the receiver may still
   * borrow it. What is pending has been moved out of the way first, so the
   * receiver sees the wire go on.
   */
  method Fill(r: Receiver, buf: array<byte>, data: seq<byte>, spare: nat)
    requires r.Valid() && |data| <= buf.Length
    requires buf != r.control && buf != r.dec.scratch
    modifies r.dec, r.dec.scratch, buf
    ensures r.Valid() && r.State() == old(r.State())
    ensures r.Pending() == if r.State().Over() then [] else old(r.Pending()) + data
    ensures buf != r.control && buf != r.dec.scratch
  {
    r.Preserve(spare);
    ghost var pending := r.Pending();
    forall i | 0 <= i < |data| {
      buf[i] := data[i];
    }
    assert buf[0..|data|] == data;
    assert r.Pending() == pending;
    r.Feed(buf, 0, |data|, spare);
  }
}
