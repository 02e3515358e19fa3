/** ws/conn_read.go: the read loops of a connection, over the receiver and a transport that may fail and be retried. */
module ConnReads {
  import opened Bytes
  import opened Framing
  import opened Reception
  import opened Messages
  import Chunking
  import D = Decompressors
  import opened DeflateWindow
  import Flate
  import MessageReaders
  import Utf8

  /** What ends or interrupts a read; a message that does not inflate, or text that is not UTF-8, closes with 1007. */
  datatype Err = Transport | Broken(code: nat) | Handler | TooLarge | Corrupt | BadText | Writer

  /** How the transport answers a read: with up to `n` bytes, none at all when that is 0, or with an error. */
  datatype Arrival = Upto(n: nat) | Fault

  const MAX_EMPTY_READS: nat := 100

  /** The empty reads ahead of the next answer. */
  function Empties(arrivals: seq<Arrival>): nat {
    if arrivals == [] || arrivals[0] != Upto(0) then 0 else 1 + Empties(arrivals[1..])
  }

  /** No errors, and never so many empty reads in a row that read gives up. */
  predicate Prompt(arrivals: seq<Arrival>) {
    arrivals == [] || (arrivals[0].Upto? && Empties(arrivals) < MAX_EMPTY_READS && Prompt(arrivals[1..]))
  }

  /** How a read comes out: with an error, or with up to `n` bytes. */
  datatype Reply = Fails | Gives(n: Option<nat>)

  /** The reply behind `empty` empty reads, and the answers behind it: an error, or the hundredth empty read, fails. */
  function Replied(arrivals: seq<Arrival>, empty: nat): (r: (Reply, seq<Arrival>))
    ensures |r.1| <= |arrivals| && (arrivals != [] && empty < 100 ==> |r.1| < |arrivals|)
    decreases |arrivals|
  {
    if empty >= 100 then (Fails, arrivals)
    else if arrivals == [] then (Gives(None), [])
    else
      match arrivals[0]
      case Fault => (Fails, arrivals[1..])
      case Upto(n) => if n == 0 then Replied(arrivals[1..], empty + 1) else (Gives(Some(n)), arrivals[1..])
  }

  /** How many reads are still to fail. */
  function Troubles(arrivals: seq<Arrival>): nat
    decreases |arrivals|
  {
    if arrivals == [] then 0
    else
      var (reply, rest) := Replied(arrivals, 0);
      (if reply.Fails? then 1 else 0) + Troubles(rest)
  }

  /** A reader may come back empty-handed 99 times in a row, and not a hundred times. */
  lemma {:induction false} HundredEmptyReads(k: nat, rest: seq<Arrival>)
    requires Prompt(rest) && Empties(rest) == 0
    ensures var all := seq(k, _ => Upto(0)) + rest; Empties(all) == k && (Prompt(all) <==> k < 100)
    decreases k
  {
    var all := seq(k, _ => Upto(0)) + rest;
    if k == 0 {
      assert all == rest;
    } else {
      assert all[0] == Upto(0) && all[1..] == seq(k - 1, _ => Upto(0)) + rest;
      HundredEmptyReads(k - 1, rest);
    }
  }

  /** The handler's answer to the control frame at `k`, true for an error, or the close ends reading. */
  predicate Stops(handled: seq<Signal>, verdicts: seq<bool>, k: nat)
    requires k < |handled|
  {
    (k < |verdicts| && verdicts[k]) || handled[k].op == Close
  }

  /** Reading has gone on behind every control frame handed over, but for the last when it has stopped there. */
  ghost predicate Obeys(handled: seq<Signal>, verdicts: seq<bool>, stopped: bool) {
    && (forall k :: 0 <= k < |handled| && !(stopped && k == |handled| - 1) ==> !Stops(handled, verdicts, k))
    && (stopped ==> handled != [] && Stops(handled, verdicts, |handled| - 1))
  }

  /**
   * The connection's read side. `incoming` is what the transport has yet to
   * deliver, `arrivals` how, `handled` are the control frames handed to the
   * control handler so far, and `verdicts` is what it answers to each.
   */
  datatype Reading = Reading(
    rx: Rx, pending: seq<byte>, incoming: seq<byte>, arrivals: seq<Arrival>, verdicts: seq<bool>,
    handled: seq<Signal>, inMessage: bool, readErr: Option<Err>)
  {
    ghost predicate Valid() {
      && rx.Valid() && (rx.Over() ==> pending == [])
      && (readErr.None? ==> !rx.Over())
      && (readErr.None? && !inMessage ==> rx.message.None?)
      && (readErr.Some? ==> !inMessage)
      && Obeys(handled, verdicts, readErr == Some(Handler))
    }

    ghost function Input(): seq<byte> { pending + incoming }

    /** The rest of the current message. */
    ghost function Left(): Remainder
      requires rx.Valid()
    {
      Messages.Left(rx, Input())
    }

    /** The messages after it. */
    ghost function Upcoming(): seq<Coming>
      requires rx.Valid()
    {
      Messages.Upcoming(rx, Input())
    }

    ghost function Size(): nat { |pending| + |incoming| }

    /** The control frames handed over and those to come. */
    ghost function Signals(): seq<Signal>
      requires rx.Valid()
    {
      handled + AllSignals(rx, Input())
    }

    /** The control frames handed over and those ahead of the next message. */
    ghost function Due(): seq<Signal>
      requires rx.Valid()
    {
      handled + DueSignals(rx, Input())
    }

    /** One more handed over, the one the receiver holds. */
    function Told(): Reading { this.(handled := handled + [Signal(rx.controlOp, rx.control)]) }

    /** Neither transport nor handler will refuse anything. */
    ghost predicate Undisturbed() { Prompt(arrivals) && true !in verdicts }

    /** There is no more to come than the rest of the current message, and that is cut off. */
    ghost predicate Barren()
      requires rx.Valid()
    {
      Upcoming() == [] && (rx.message.Some? ==> Left().Cut?)
    }
  }

  class Conn {
    const bufSize: nat
    const fragmentSize: nat
    const limit: nat
    const validateUtf8: bool
    var s: Reading

    ghost predicate Valid()
      reads this
    {
      s.Valid() && bufSize > 0 && fragmentSize > 0
    }

    constructor (role: Role, compression: bool, bufSize: nat, fragmentSize: nat, limit: nat, validateUtf8: bool,
                 incoming: seq<byte>, arrivals: seq<Arrival>, verdicts: seq<bool>)
      requires bufSize > 0 && fragmentSize > 0
      ensures Valid() && s == Reading(Init(role, compression), [], incoming, arrivals, verdicts, [], false, None)
      ensures this.bufSize == bufSize && this.fragmentSize == fragmentSize
      ensures this.limit == limit && this.validateUtf8 == validateUtf8
    {
      this.bufSize, this.fragmentSize, this.limit, this.validateUtf8 := bufSize, fragmentSize, limit, validateUtf8;
      s := Reading(Init(role, compression), [], incoming, arrivals, verdicts, [], false, None);
    }

    /** read: at least one byte into `room`, or an error that loses nothing, a hundred empty reads among them. */
    method ReadTransport(room: nat) returns (data: seq<byte>, err: Option<Err>)
      requires room > 0
      modifies this
      ensures s == old(s).(incoming := s.incoming, arrivals := s.arrivals)
      ensures err.None? ==> 0 < |data| <= room && old(s).incoming == data + s.incoming
      ensures err.Some? ==> data == [] && err == Some(Transport) && s.incoming == old(s).incoming
      ensures old(s).Undisturbed() ==> s.Undisturbed() && (err.Some? ==> s.incoming == [])
      ensures
        var (reply, rest) := Replied(old(s).arrivals, 0);
        && s.arrivals == rest && (err.Some? <==> reply.Fails? || old(s).incoming == [])
        && (err.None? ==>
              |data| == Min(Min(room, |old(s).incoming|), if reply.n.Some? then reply.n.value else room))
    {
      var empty := 0;
      while empty < MAX_EMPTY_READS
        invariant s == old(s).(arrivals := s.arrivals)
        invariant Replied(s.arrivals, empty) == Replied(old(s).arrivals, 0)
        invariant Prompt(old(s).arrivals) ==> Prompt(s.arrivals) && empty + Empties(s.arrivals) < MAX_EMPTY_READS
      {
        var n := room;
        if s.arrivals != [] {
          var a := s.arrivals[0];
          s := s.(arrivals := s.arrivals[1..]);
          if a.Fault? {
            return [], Some(Transport);
          }
          if a.n == 0 {
            empty := empty + 1;
            continue;
          }
          n := if a.n < room then a.n else room;
        }
        if s.incoming == [] {
          return [], Some(Transport);
        }
        n := if n > |s.incoming| then |s.incoming| else n;
        data := s.incoming[..n];
        s := s.(incoming := s.incoming[n..]);
        return data, None;
      }
      return [], Some(Transport);
    }

    /** fill: bytes move from the transport to the receiver; the parse ahead is the same. */
    method Fill() returns (err: Option<Err>)
      requires Valid() && s.readErr.None?
      modifies this
      ensures Valid() && s == old(s).(pending := s.pending, incoming := s.incoming, arrivals := s.arrivals)
      ensures s.Input() == old(s).Input()
      ensures err.None? ==> |s.incoming| < |old(s).incoming|
      ensures err.Some? ==> err == Some(Transport) && s.pending == old(s).pending
      ensures old(s).Undisturbed() ==> s.Undisturbed() && (err.Some? ==> s.incoming == [])
      ensures Keeps(old(s), s)
      ensures err.None? ==> Troubles(s.arrivals) == Troubles(old(s).arrivals)
    {
      hide AllSignals, DueSignals;
      var data;
      data, err := ReadTransport(bufSize);
      s := s.(pending := s.pending + data);
    }

    /** fail. */
    method Fail(e: Err)
      modifies this
      ensures s == old(s).(readErr := Some(e), inMessage := false)
    {
      s := s.(readErr := Some(e), inMessage := false);
    }

    /** Payload and PayloadN of the receiver. */
    method Payload(n: int) returns (chunk: seq<byte>, done: bool)
      requires Valid() && s.readErr.None?
      modifies this
      ensures Valid() && s == old(s).(rx := s.rx, pending := s.pending)
      ensures old(s).Left() == s.Left().After(chunk) && s.Upcoming() == old(s).Upcoming()
      ensures |chunk| == Chunking.Take(old(s).rx, |old(s).pending|, n)
      ensures s.rx.remaining == old(s).rx.remaining - |chunk| && s.rx.compressed == old(s).rx.compressed
      ensures done == (s.rx.remaining == 0) && |s.pending| == |old(s).pending| - |chunk|
      ensures chunk == [] ==> s == old(s) && (done || n <= 0 || s.pending == [])
      ensures Keeps(old(s), s)
    {
      hide AllSignals, DueSignals;
      var r := Chunking.PayloadN(s.rx, s.pending, n);
      PayloadMoves(s, n);
      s := s.(rx := r.next, pending := s.pending[r.used..]);
      return r.chunk, r.done;
    }

    /** handleControl: the handler is called, and its error ends reading; a close always does. */
    method HandleControl() returns (err: Option<Err>)
      requires s.readErr.None? && Obeys(s.handled, s.verdicts, false)
      modifies this
      ensures s == if err.None? then old(s).Told() else old(s).Told().(readErr := err, inMessage := false)
      ensures if err.Some? then err == Some(Handler) else !s.rx.controlOp.Close?
      ensures err.Some? <==> Stops(s.handled, s.verdicts, |old(s).handled|)
      ensures Obeys(s.handled, s.verdicts, err.Some?)
      ensures old(s).Undisturbed() ==> s.Undisturbed() && (err.Some? ==> s.rx.controlOp.Close?)
    {
      var k := |s.handled|;
      ObeysSnoc(s.handled, s.verdicts, Signal(s.rx.controlOp, s.rx.control));
      s := s.Told();
      if s.rx.controlOp.Close? || (k < |s.verdicts| && s.verdicts[k]) {
        Fail(Handler);
        return Some(Handler);
      }
      return None;
    }

    /** Next of the receiver. */
    method Next() returns (kind: Kind, err: Option<Err>)
      requires Valid() && s.readErr.None? && s.rx.remaining == 0
      modifies this
      ensures s == if err.Some? then Nexted(old(s)).(readErr := err, inMessage := false) else Nexted(old(s))
      ensures s.rx.Valid() && (s.rx.Over() ==> s.pending == []) && s.Size() <= old(s).Size()
      ensures err.Some? ==> kind == NeedInput && err.value.Broken? && old(s).Barren()
      ensures err.None? ==>
        match kind
        case DataFrame => Entered(old(s), s) && s.Size() < old(s).Size()
        case ControlFrame =>
          Same(old(s), s) && s.Size() < old(s).Size() && s.rx.remaining == 0 && (s.rx.controlOp.Close? ==> s.Barren())
          && (s.rx.Over() <==> s.rx.controlOp.Close?)
        case NeedInput =>
          Same(old(s), s) && s.rx.remaining == 0 && !s.rx.Over() && (s.incoming == [] ==> s.Barren())
      ensures s.handled == old(s).handled
      ensures err.None? ==>
        match kind
        case DataFrame => Relays(old(s), s) && old(s).Due() == if old(s).rx.message.Some? then s.Due() else s.handled
        case ControlFrame => Keeps(old(s), s.Told())
        case NeedInput => Keeps(old(s), s)
      ensures err.Some? ==> Keeps(old(s), s)
    {
      hide Reception.Next, Entered, Same, Reading.Barren, AllSignals, DueSignals;
      NextMoves(s);
      NextMisses(s);
      NextSignals(s);
      var r := Reception.Next(s.rx, s.pending);
      s := s.(rx := r.next, pending := s.pending[r.used..]);
      if s.rx.Over() {
        OverIsBarren(s);
      }
      if r.err.Failed? {
        Fail(Broken(r.err.code));
        return NeedInput, Some(Broken(r.err.code));
      }
      return r.kind, None;
    }

    /** How a call that met an error leaves the connection: ended for good, or as it was for a retry. */
    ghost predicate Interrupted(was: Reading, err: Option<Err>)
      requires was.rx.Valid()
      reads this
    {
      && s.Valid() && err != Some(TooLarge) && err != Some(Corrupt) && err != Some(BadText) && err != Some(Writer)
      && (s.readErr.None? ==>
        err == Some(Transport) && Alike(was, s) && s.inMessage == was.inMessage && s.rx.compressed == was.rx.compressed)
      && (s.readErr.Some? ==> s.readErr == err)
    }

    /** One turn of nextFrame: a data frame is entered, a control frame handled, or input fetched. */
    method Advance() returns (entered: bool, err: Option<Err>)
      requires Valid() && s.readErr.None? && s.rx.remaining == 0
      modifies this
      ensures s.rx.Valid() && Relays(old(s), s) && Obeys(s.handled, s.verdicts, err == Some(Handler))
      ensures err.None? && entered ==>
        && !s.rx.Over() && s.readErr.None? && s.inMessage == old(s).inMessage && Entered(old(s), s)
        && s.Size() < old(s).Size() && old(s).Due() == if old(s).rx.message.Some? then s.Due() else s.handled
      ensures err.None? && !entered ==>
        && Valid() && s.readErr.None? && s.rx.remaining == 0 && s.inMessage == old(s).inMessage && Same(old(s), s)
        && (s.Size() < old(s).Size() || (s.Size() == old(s).Size() && |s.incoming| < |old(s).incoming|))
      ensures err.Some? ==> Interrupted(old(s), err) && (s.readErr.None? ==> s.rx.remaining == 0)
      ensures err.Some? || !entered ==> Keeps(old(s), s)
      ensures old(s).Undisturbed() ==> s.Undisturbed() && (err.Some? ==> old(s).Barren())
      ensures err.None? ==> Troubles(s.arrivals) == Troubles(old(s).arrivals)
    {
      hide Entered, Same, Nexted, Reading.Left, Reading.Upcoming, Reading.Barren, Prompt, Rx.Valid, Troubles;
      hide Obeys, Stops, AllSignals, DueSignals;
      ghost var was := s;
      var kind;
      kind, err := Next();
      assert Nexted(was) == was.(rx := Nexted(was).rx, pending := Nexted(was).pending) by {
        NextedIs(was);
      }
      entered := kind == DataFrame;
      if err.Some? || entered {
        if entered {
          SameSelf(was);
          EnteredAfter(was, was, s);
        }
        return;
      }
      SameMessage(was, s);
      SameAfter(was, was, s);
      ghost var now := s;
      if kind == ControlFrame {
        err := HandleControl();
      } else {
        err := Fill();
        assert |s.Input()| == |now.Input()|;
      }
      SameParts(now, s);
      SameAfter(was, now, s);
      SameAlike(was, s);
    }

    /** nextFrame. */
    method NextFrame() returns (err: Option<Err>)
      requires Valid() && s.readErr.None? && s.rx.remaining == 0
      modifies this
      ensures err.None? ==>
        && s.rx.Valid() && !s.rx.Over() && s.readErr.None? && s.inMessage == old(s).inMessage && Entered(old(s), s)
        && s.Size() < old(s).Size()
      ensures err.Some? ==> Interrupted(old(s), err) && (s.readErr.None? ==> s.rx.remaining == 0)
      ensures old(s).Undisturbed() ==> s.Undisturbed() && (err.Some? ==> old(s).Barren())
      ensures s.rx.Valid() && Obeys(s.handled, s.verdicts, err == Some(Handler)) && Relays(old(s), s)
      ensures err.Some? || old(s).rx.message.Some? ==> Keeps(old(s), s)
      ensures err.None? && old(s).rx.message.None? ==> s.handled == old(s).Due()
      ensures err.None? ==> Troubles(s.arrivals) == Troubles(old(s).arrivals)
    {
      hide Entered, Same, Reading.Left, Reading.Upcoming, Reading.Barren, Reading.Signals, Reading.Due, Prompt,
        Rx.Valid, Troubles;
      hide Obeys;
      SameSelf(s);
      SameAfter(s, s, s);
      var entered := false;
      err := None;
      while !entered
        invariant Troubles(s.arrivals) == Troubles(old(s).arrivals)
        invariant s.rx.Valid() && err.None?
        invariant !entered ==>
          && Valid() && s.readErr.None? && s.rx.remaining == 0 && s.inMessage == old(s).inMessage && Same(old(s), s)
          && s.Barren() == old(s).Barren() && s.Size() <= old(s).Size() && Keeps(old(s), s)
        invariant entered ==>
          && !s.rx.Over() && s.readErr.None? && s.inMessage == old(s).inMessage && Entered(old(s), s)
          && s.Size() < old(s).Size() && Obeys(s.handled, s.verdicts, false) && Relays(old(s), s)
          && old(s).Due() == if old(s).rx.message.Some? then s.Due() else s.handled
        invariant old(s).Undisturbed() ==> s.Undisturbed()
        decreases !entered, s.Size(), |s.incoming|
      {
        ghost var was := s;
        SameMessage(old(s), was);
        entered, err := Advance();
        if err.Some? {
          InterruptedAfter(old(s), was, s);
          return;
        }
        if entered {
          EnteredAfter(old(s), was, s);
        } else {
          SameAfter(old(s), was, s);
        }
      }
    }

    /** readDirect and readInto: payload of the open frame straight from the transport, never past the frame's end. */
    method ReadDirect(n: nat) returns (chunk: seq<byte>, err: Option<Err>)
      requires Valid() && s.readErr.None? && s.pending == [] && 0 < n <= s.rx.remaining
      modifies this
      ensures Valid() && s.readErr.None? && s.inMessage == old(s).inMessage && s.pending == []
      ensures old(s).Left() == s.Left().After(chunk) && s.Upcoming() == old(s).Upcoming()
      ensures |chunk| <= n && s.rx.remaining == old(s).rx.remaining - |chunk| && s.Size() == old(s).Size() - |chunk|
      ensures err.None? ==> chunk != []
      ensures err.Some? ==> err == Some(Transport) && chunk == [] && s.rx == old(s).rx
      ensures s.rx.compressed == old(s).rx.compressed
      ensures old(s).Undisturbed() ==> s.Undisturbed() && (err.Some? ==> old(s).Left().Cut?)
      ensures Keeps(old(s), s)
      ensures err.None? ==> Troubles(s.arrivals) == Troubles(old(s).arrivals)
    {
      hide Messages.Left, Messages.Upcoming, Prompt, AllSignals, DueSignals;
      AfterNothing(s.Left());
      var data;
      data, err := ReadTransport(n);
      if err.Some? {
        if s.incoming == [] {
          DryIsCut(s);
        }
        return [], err;
      }
      s := s.(pending := data);
      assert s.Input() == old(s).Input();
      var done;
      chunk, done := Payload(|data|);
    }

    /** The loop of Read: an uncompressed message into a buffer of `n` bytes. */
    method ReadPlain(n: nat) returns (r: seq<byte>, eof: bool, err: Option<Err>)
      requires Valid()
      modifies this
      ensures Valid() && |r| <= n
      ensures old(s).readErr.Some? ==> err == old(s).readErr && s == old(s)
      ensures old(s).readErr.None? && (!old(s).inMessage || n == 0) ==>
        r == [] && err.None? && eof == !old(s).inMessage && s == old(s)
      ensures old(s).readErr.None? && old(s).inMessage && n > 0 && err.None? ==>
        && s.readErr.None? && s.Upcoming() == old(s).Upcoming() && s.inMessage == !eof
        && old(s).Left() == (if eof then Ends([]) else s.Left().After(r))
        && (eof <==> r == []) && s.Size() <= old(s).Size() - |r| && s.rx.compressed == old(s).rx.compressed
      ensures old(s).readErr.None? && err.Some? ==> r == [] && !eof && Interrupted(old(s), err)
      ensures old(s).readErr.None? && old(s).Undisturbed() ==> s.Undisturbed() && (err.Some? ==> old(s).Left().Cut?)
      ensures Keeps(old(s), s)
      ensures err.None? ==> Troubles(s.arrivals) == Troubles(old(s).arrivals)
    {
      hide Messages.Left, Messages.Upcoming, Entered, FrameOpened, Reading.Left, Reading.Upcoming, Prompt, AllSignals,
        DueSignals, Troubles;
      r, eof, err := [], false, None;
      if s.readErr.Some? {
        return [], false, s.readErr;
      }
      if !s.inMessage {
        return [], true, None;
      }
      if n == 0 {
        return;
      }
      SameSelf(s);
      while true
        invariant Troubles(s.arrivals) == Troubles(old(s).arrivals)
        invariant Valid() && s.readErr.None? && s.inMessage && r == [] && err.None? && !eof
        invariant Keeps(old(s), s)
        invariant Alike(old(s), s) && s.Size() <= old(s).Size() && s.rx.compressed == old(s).rx.compressed
        invariant old(s).Undisturbed() ==> s.Undisturbed()
        decreases s.Size(), |s.incoming|
      {
        ghost var was := s;
        var done;
        r, done := Payload(n);
        if r != [] {
          return;
        }
        if !done {
          var k := if s.rx.remaining < n then s.rx.remaining else n;
          if k >= bufSize {
            r, err := ReadDirect(k);
            return;
          }
          ghost var now := s;
          err := Fill();
          SameParts(now, s);
          if err.Some? {
            if s.incoming == [] {
              DryIsCut(s);
            }
            return;
          }
          continue;
        }
        if s.rx.message.None? {
          LeftOver(s);
          s := s.(inMessage := false);
          return [], true, None;
        }
        err := NextFrame();
        if err.Some? {
          return;
        }
        Within(was, s);
        EnteredAtStart(was, s);
      }
    }

    /** The next piece of an uncompressed message for WriteTo, or none yet: `done` at the end of a frame. */
    method NextPiece() returns (chunk: seq<byte>, done: bool, err: Option<Err>)
      requires Valid() && s.readErr.None? && s.inMessage
      modifies this
      ensures Valid() && s.readErr.None? && s.inMessage && s.rx.compressed == old(s).rx.compressed
      ensures old(s).Left() == s.Left().After(chunk) && s.Upcoming() == old(s).Upcoming()
      ensures done ==> s.rx.remaining == 0
      ensures s.Size() == old(s).Size() - |chunk|
        && (chunk == [] && !done && err.None? ==> |s.incoming| < |old(s).incoming|)
      ensures err.Some? ==> err == Some(Transport) && chunk == []
      ensures old(s).Undisturbed() ==> s.Undisturbed() && (err.Some? ==> old(s).Left().Cut?)
      ensures Keeps(old(s), s)
      ensures err.None? ==> Troubles(s.arrivals) == Troubles(old(s).arrivals)
    {
      hide Messages.Left, Messages.Upcoming, Reading.Left, Reading.Upcoming, Prompt, AllSignals, DueSignals, Troubles;
      err := None;
      chunk, done := Payload(|s.pending|);
      if chunk == [] && !done {
        AfterNothing(s.Left());
        ghost var was := s;
        if s.rx.remaining < bufSize {
          err := Fill();
          SameParts(was, s);
          if err.Some? && s.incoming == [] {
            DryIsCut(s);
          }
        } else {
          chunk, err := ReadDirect(if s.rx.remaining < fragmentSize then s.rx.remaining else fragmentSize);
          done := err.None? && s.rx.remaining == 0;
        }
      }
    }

    /**
     * The loop of WriteTo: an uncompressed message, to a writer that takes `room` bytes
     * and then fails or writes short. What it did not take of a piece is lost.
     */
    method WritePlainTo(room: nat) returns (out: seq<byte>, ghost lost: seq<byte>, err: Option<Err>)
      requires Valid()
      modifies this
      ensures Valid()
      ensures |out| <= room && (lost != [] <==> err == Some(Writer) && old(s).readErr.None?)
      ensures err == Some(Writer) && old(s).readErr.None? ==> |out| == room && s.readErr.None?
      ensures old(s).readErr.Some? ==> err == old(s).readErr && out == [] && s == old(s)
      ensures old(s).readErr.None? && !old(s).inMessage ==> err.None? && out == [] && s == old(s)
      ensures old(s).readErr.None? && old(s).inMessage && err.None? ==>
        old(s).Left() == Ends(out) && !s.inMessage && s.readErr.None? && s.Upcoming() == old(s).Upcoming()
      ensures old(s).readErr.None? && old(s).inMessage && s.readErr.None? && err.Some? ==>
        && old(s).Left() == s.Left().After(out + lost) && s.inMessage && s.Upcoming() == old(s).Upcoming()
        && s.rx.compressed == old(s).rx.compressed && (err == Some(Transport) || err == Some(Writer))
      ensures old(s).readErr.None? && s.readErr.Some? ==> s.readErr == err
      ensures old(s).readErr.None? && old(s).Undisturbed() ==>
        s.Undisturbed() && (err.Some? && err != Some(Writer) ==> old(s).Left().Cut?)
      ensures old(s).readErr.None? && old(s).Undisturbed() && old(s).inMessage && old(s).Left().Ends? ==>
        (err.None? <==> |old(s).Left().content| <= room)
      ensures Keeps(old(s), s)
      ensures err.None? ==> Troubles(s.arrivals) == Troubles(old(s).arrivals)
    {
      hide Messages.Left, Messages.Upcoming, Entered, FrameOpened, Reading.Left, Reading.Upcoming, Prompt, AllSignals,
        DueSignals, Troubles;
      out, lost, err := [], [], None;
      if s.readErr.Some? {
        return [], [], s.readErr;
      }
      if !s.inMessage {
        return;
      }
      AfterNothing(s.Left());
      while true
        invariant Troubles(s.arrivals) == Troubles(old(s).arrivals)
        invariant Valid() && s.readErr.None? && s.inMessage && err.None? && lost == [] && |out| <= room
        invariant Keeps(old(s), s)
        invariant old(s).Left() == s.Left().After(out) && s.Upcoming() == old(s).Upcoming()
        invariant s.rx.compressed == old(s).rx.compressed && (old(s).Undisturbed() ==> s.Undisturbed())
        decreases s.Size(), |s.incoming|
      {
        var chunk, done;
        chunk, done, err := NextPiece();
        AfterTwice(s.Left(), out, chunk);
        if err.Some? {
          assert out + lost == out + chunk == out;
          return;
        }
        if |chunk| > room - |out| {
          lost, err := chunk[room - |out|..], Some(Writer);
          assert out + chunk == out + chunk[..room - |out|] + lost;
          out := out + chunk[..room - |out|];
          return;
        }
        out := out + chunk;
        if !done {
          continue;
        }
        if s.rx.message.None? {
          LeftOver(s);
          s := s.(inMessage := false);
          assert out + [] == out;
          return;
        }
        ghost var now := s;
        err := NextFrame();
        assert out + lost == out;
        if err.Some? {
          return;
        }
        Within(now, s);
        EnteredAtStart(now, s);
      }
    }

    /** The inner loop of assemble: the rest of the open frame joins `msg`. */
    method AssembleFrame(msg: seq<byte>) returns (out: seq<byte>, err: Option<Err>)
      requires Valid() && s.readErr.None? && s.inMessage && |msg| + s.rx.remaining <= limit
      modifies this
      ensures Valid() && s.readErr.None? && s.inMessage && s.Upcoming() == old(s).Upcoming()
        && s.rx.compressed == old(s).rx.compressed
      ensures err.None? ==> s.rx.remaining == 0 && |out| <= limit && old(s).Left().After(msg) == s.Left().After(out)
      ensures err.None? ==> s.Size() <= old(s).Size()
      ensures err.Some? ==> err == Some(Transport)
      ensures old(s).Undisturbed() ==> s.Undisturbed() && (err.Some? ==> old(s).Left().Cut?)
      ensures Keeps(old(s), s)
      ensures err.None? ==> Troubles(s.arrivals) == Troubles(old(s).arrivals)
    {
      hide Messages.Left, Messages.Upcoming, Reading.Left, Reading.Upcoming, Prompt, AllSignals, DueSignals, Troubles;
      out, err := msg, None;
      while true
        invariant Troubles(s.arrivals) == Troubles(old(s).arrivals)
        invariant Valid() && s.readErr.None? && s.inMessage && s.Upcoming() == old(s).Upcoming()
        invariant Keeps(old(s), s)
        invariant old(s).Left().After(msg) == s.Left().After(out) && |out| + s.rx.remaining <= limit
        invariant s.Size() <= old(s).Size() && err.None? && s.rx.compressed == old(s).rx.compressed
        invariant old(s).Undisturbed() ==> s.Undisturbed()
        decreases s.Size(), |s.incoming|
      {
        ghost var was := s;
        var chunk, done := Payload(|s.pending|);
        if chunk != [] || done {
          AfterTwice(s.Left(), out, chunk);
          out := out + chunk;
          if done {
            return;
          }
          continue;
        }
        if s.rx.remaining >= bufSize {
          chunk, err := ReadDirect(s.rx.remaining);
          if err.Some? {
            return;
          }
          AfterTwice(s.Left(), out, chunk);
          out := out + chunk;
          continue;
        }
        err := Fill();
        SameParts(was, s);
        if err.Some? {
          if s.incoming == [] {
            DryIsCut(s);
          }
          return;
        }
      }
    }

    /** assemble, from the start of a message's first frame: within the limit, or TooLarge exactly when it is not. */
    method Assemble() returns (msg: seq<byte>, err: Option<Err>)
      requires Valid() && s.readErr.None? && s.inMessage && s.rx.remaining == s.rx.head.length
      modifies this
      ensures Valid()
      ensures s.rx.compressed == old(s).rx.compressed || s.readErr.Some?
      ensures err.None? ==>
        && old(s).Left() == Ends(msg) && |msg| <= limit
        && s.readErr.None? && s.inMessage && s.rx.message.None? && s.Upcoming() == old(s).Upcoming()
      ensures err == Some(TooLarge) && old(s).Left().Ends? ==> |old(s).Left().content| > limit
      ensures s.readErr.None? && err.Some? ==>
        err == Some(Transport) && s.inMessage && s.Upcoming() == old(s).Upcoming()
      ensures s.readErr.Some? ==> s.readErr == err && err != Some(Corrupt) && err != Some(BadText)
      ensures old(s).Undisturbed() ==> s.Undisturbed() && (err.Some? && err != Some(TooLarge) ==> old(s).Left().Cut?)
      ensures Keeps(old(s), s)
      ensures err.None? ==> Troubles(s.arrivals) == Troubles(old(s).arrivals)
    {
      hide Messages.Left, Messages.Upcoming, Reading.Left, Reading.Upcoming, Entered, Prompt, AllSignals, DueSignals,
        Troubles;
      msg, err := [], None;
      AfterNothing(s.Left());
      while true
        invariant Troubles(s.arrivals) == Troubles(old(s).arrivals)
        invariant Valid() && s.readErr.None? && s.inMessage && s.Upcoming() == old(s).Upcoming()
        invariant Keeps(old(s), s)
        invariant old(s).Left() == s.Left().After(msg) && |msg| <= limit && s.rx.remaining == s.rx.head.length
        invariant s.rx.compressed == old(s).rx.compressed && (old(s).Undisturbed() ==> s.Undisturbed())
        decreases s.Size()
      {
        if s.rx.head.length > limit - |msg| {
          Larger(s, msg);
          Fail(TooLarge);
          return [], Some(TooLarge);
        }
        msg, err := AssembleFrame(msg);
        if err.Some? {
          return;
        }
        if s.rx.message.None? {
          LeftOver(s);
          assert msg + [] == msg;
          return;
        }
        ghost var now := s;
        err := NextFrame();
        if err.Some? {
          return;
        }
        Within(now, s);
        EnteredAtStart(now, s);
      }
    }

    /** The loop of discard: the rest of the message is skipped. */
    method Skip() returns (err: Option<Err>)
      requires Valid() && s.readErr.None?
      modifies this
      ensures Valid()
      ensures err.None? ==> s.readErr.None? && !s.inMessage && s.rx.remaining == 0 && s.Upcoming() == old(s).Upcoming()
      ensures s.readErr.None? && err.Some? ==>
        err == Some(Transport) && s.inMessage && s.Upcoming() == old(s).Upcoming()
      ensures !old(s).inMessage ==> err.None? && s == old(s)
      ensures old(s).inMessage && err.None? ==> old(s).Left().Ends?
      ensures s.readErr.Some? ==>
        s.readErr == err && err != Some(TooLarge) && err != Some(Corrupt) && err != Some(BadText)
      ensures old(s).Undisturbed() ==> s.Undisturbed() && (err.Some? ==> old(s).Left().Cut?)
      ensures Keeps(old(s), s)
      ensures err.None? ==> Troubles(s.arrivals) == Troubles(old(s).arrivals)
    {
      hide Messages.Left, Messages.Upcoming, Reading.Left, Reading.Upcoming, Entered, Prompt, AllSignals, DueSignals,
        Troubles;
      err := None;
      while s.inMessage
        invariant Troubles(s.arrivals) == Troubles(old(s).arrivals)
        invariant Valid() && s.readErr.None? && s.Upcoming() == old(s).Upcoming() && err.None?
        invariant Keeps(old(s), s)
        invariant !old(s).inMessage ==> s == old(s)
        invariant s.inMessage ==> s.Left().Ends? == old(s).Left().Ends?
        invariant !s.inMessage && old(s).inMessage ==> old(s).Left().Ends?
        invariant old(s).Undisturbed() ==> s.Undisturbed()
        decreases s.inMessage, s.Size(), |s.incoming|
      {
        ghost var was := s;
        var chunk, done := Payload(|s.pending|);
        if !done {
          if chunk == [] {
            err := Fill();
            SameParts(was, s);
            if err.Some? {
              if s.incoming == [] {
                DryIsCut(s);
              }
              return;
            }
          }
          continue;
        }
        if s.rx.message.None? {
          LeftOver(s);
          s := s.(inMessage := false);
          return;
        }
        ghost var now := s;
        err := NextFrame();
        if err.Some? {
          return;
        }
        Within(now, s);
        EnteredAtStart(now, s);
      }
    }

    /** nextChunk, to the end of the message: its payload in the chunks the inflater is given. Any error is final. */
    method Chunks() returns (chunks: seq<seq<byte>>, err: Option<Err>)
      requires Valid() && s.readErr.None? && s.inMessage
      modifies this
      ensures Valid()
      ensures err.None? ==>
        && old(s).Left() == Ends(Flatten(chunks)) && s.Upcoming() == old(s).Upcoming()
        && s.readErr.None? && !s.inMessage && s.rx.remaining == 0
        && s.rx.message.None? && s.rx.compressed == old(s).rx.compressed
      ensures err.Some? ==>
        && s.readErr == err && err.value != TooLarge && err.value != Corrupt && err.value != BadText
        && err.value != Writer
      ensures old(s).Undisturbed() ==> s.Undisturbed() && (err.None? <==> old(s).Left().Ends?)
      ensures Keeps(old(s), s)
      ensures err.None? ==> Troubles(s.arrivals) == Troubles(old(s).arrivals)
    {
      hide Messages.Left, Messages.Upcoming, Reading.Left, Reading.Upcoming, Entered, Prompt, AllSignals, DueSignals,
        Troubles;
      chunks, err := [], None;
      AfterNothing(s.Left());
      while true
        invariant Troubles(s.arrivals) == Troubles(old(s).arrivals)
        invariant Valid() && s.readErr.None? && s.inMessage && s.Upcoming() == old(s).Upcoming() && err.None?
        invariant Keeps(old(s), s)
        invariant s.rx.compressed == old(s).rx.compressed
        invariant old(s).Left() == s.Left().After(Flatten(chunks)) && (old(s).Undisturbed() ==> s.Undisturbed())
        decreases s.Size(), |s.incoming|
      {
        ghost var was := s;
        var chunk, done := Payload(|s.pending|);
        if chunk != [] {
          AfterTwice(s.Left(), Flatten(chunks), chunk);
          FlattenAppend(chunks, [chunk]);
          FlattenOne(chunk);
          chunks := chunks + [chunk];
          continue;
        }
        if !done {
          err := Fill();
          SameParts(was, s);
          if err.Some? && s.incoming == [] {
            DryIsCut(s);
          }
        } else if s.rx.message.None? {
          LeftOver(s);
          assert Flatten(chunks) + [] == Flatten(chunks);
          s := s.(inMessage := false);
          return;
        } else {
          err := NextFrame();
          if err.None? {
            Within(was, s);
            EnteredAtStart(was, s);
          }
        }
        if err.Some? {
          if s.readErr.None? {
            Fail(err.value);
          }
          return;
        }
      }
    }

    /**
     * A compressed message streamed to its end, by repeated Read, WriteTo or
     * discard: its chunks go through the inflater, and come out as the
     * decompressor's whole-message form would have them.
     */
    method Inflate(d: D.Decompressor, w: Option<Window>, sizes: seq<nat>, size: nat, spare: nat)
      returns (out: seq<byte>, err: Option<Err>)
      requires Valid() && s.readErr.None? && s.inMessage
      requires d.Idle() && Fit(d, w) && D.Decompressor.AllPositive(sizes, size)
      modifies this, d, d.reader, d.scratch, if w.Some? then {w.value} else {}
      ensures Valid() && d.Idle() && Fit(d, w)
      ensures err.None? ==>
        && s.Upcoming() == old(s).Upcoming() && s.readErr.None? && !s.inMessage && s.rx.remaining == 0
        && old(s).Left().Ends? && Inflated(d, w, old(Past(w)), old(s).Left().content) == Some(out)
        && (w.Some? ==> Past(w) == Last(old(Past(w)) + out, w.value.Size()))
      ensures err.Some? ==> s.readErr == err && err.value != TooLarge && err.value != BadText
      ensures err == Some(Corrupt) && d.reader.steady ==>
        old(s).Left().Ends? && Inflated(d, w, old(Past(w)), old(s).Left().content) == None
      ensures old(s).Undisturbed() && d.reader.steady ==>
        && s.Undisturbed()
        && (err.None? <==> old(s).Left().Ends? && Inflated(d, w, old(Past(w)), old(s).Left().content).Some?)
      ensures Keeps(old(s), s)
      ensures err.None? ==> Troubles(s.arrivals) == Troubles(old(s).arrivals)
    {
      hide Messages.Left, Messages.Upcoming, Reading.Left, Reading.Upcoming, SizeOf, Last, D.Message, Prompt,
        AllSignals, DueSignals, Troubles;
      var chunks;
      chunks, err := Chunks();
      var e;
      out, e := d.Drain(chunks, err.Some?, w, sizes, size, spare);
      if err.Some? {
        return [], err;
      }
      if e != D.Eof {
        Fail(Corrupt);
        return [], Some(Corrupt);
      }
    }

    /** The inflater is in the middle of the current message, all of whose payload it has been handed. */
    ghost predicate Streaming(d: D.Decompressor, w: Option<Window>)
      reads this, d, d.reader, d.scratch, if d.window.Some? then {d.window.value} else {}
    {
      && s.readErr.None? && s.inMessage && s.rx.compressed && s.rx.message.None?
      && d.Live() && d.streaming && d.window == w && d.reader.reliable == d.reader.steady
    }

    /** The inflater is at rest, or busy with the current message. */
    ghost predicate Usable(d: D.Decompressor, w: Option<Window>)
      reads this, d, d.reader, d.scratch, if d.window.Some? then {d.window.value} else {},
            if w.Some? then {w.value} else {}
    {
      Fit(d, w) && (d.Idle() || Streaming(d, w))
    }

    /** The history once the message in progress is left behind, or None when it does not inflate. */
    ghost function Behind(d: D.Decompressor, w: Option<Window>): Option<seq<byte>>
      requires s.rx.Valid()
      reads this, d, d.reader, if w.Some? then {w.value} else {}
    {
      if !d.active then Remembered(d, w, s, Past(w))
      else if w.None? then Some([])
      else match d.Expected()
           case None => None
           case Some(x) => Some(Last(d.msg.hist + x, w.value.Size()))
    }

    /** inflate on a message that has not been started: its chunks become the inflater's source. */
    method StartStream(d: D.Decompressor, w: Option<Window>, spare: nat) returns (err: Option<Err>)
      requires Valid() && s.readErr.None? && s.inMessage && s.rx.compressed && d.Idle() && Fit(d, w)
      modifies this, d, d.reader, d.scratch
      ensures Valid() && Fit(d, w)
      ensures err.None? ==>
        && Streaming(d, w) && s.Upcoming() == old(s).Upcoming() && Behind(d, w) == old(Behind(d, w))
        && old(s).Left().Ends? && d.msg.total == []
        && d.Expected() == Inflated(d, w, old(Past(w)), old(s).Left().content)
      ensures err.Some? ==>
        && d.Idle() && s.readErr == err && err.value != TooLarge && err.value != Corrupt && err.value != BadText
        && err.value != Writer
      ensures old(s).Undisturbed() ==> s.Undisturbed() && (err.None? <==> old(s).Left().Ends?)
      ensures Keeps(old(s), s)
      ensures err.None? ==> Troubles(s.arrivals) == Troubles(old(s).arrivals)
    {
      hide Messages.Left, Messages.Upcoming, Reading.Left, Reading.Upcoming, SizeOf, Last, D.Message, Prompt,
        AllSignals, DueSignals, Troubles;
      var chunks;
      chunks, err := Chunks();
      if err.Some? {
        return;
      }
      ghost var now := s;
      s := s.(inMessage := true);
      SameParts(now, s);
      var src := MessageReaders.Source(chunks, [], Flate.INFLATE_TAIL, false, false);
      assert src.Rest() == Flatten(chunks) + Flate.INFLATE_TAIL by {
        assert [] + Flatten(chunks) == Flatten(chunks);
      }
      d.Begin(D.Chunked(src), w, spare);
    }

    /** inflate: the next of the message's text, or its end. */
    method ReadStream(d: D.Decompressor, w: Option<Window>, n: nat, spare: nat)
      returns (r: seq<byte>, eof: bool, err: Option<Err>)
      requires Valid() && Streaming(d, w) && Fit(d, w) && n > 0
      modifies this, d, d.reader, d.scratch, if w.Some? then {w.value} else {}
      ensures Valid() && Usable(d, w) && |r| <= n
      ensures err.None? && !eof ==>
        && Streaming(d, w) && s == old(s) && r != [] && d.msg == old(d.msg).(total := old(d.msg).total + r)
        && d.Expected() == old(d.Expected()) && Behind(d, w) == old(Behind(d, w)) && d.Progressed()
      ensures eof ==>
        && err.None? && r == [] && d.Idle() && s == old(s).(inMessage := false)
        && old(d.Expected()) == Some(old(d.msg.total)) && old(Behind(d, w)) == Some(Past(w))
      ensures err.Some? ==>
        && err == Some(Corrupt) && r == [] && d.Idle() && s == old(s).(inMessage := false, readErr := err)
        && (d.reader.steady ==> old(d.Expected()) == None)
      ensures Keeps(old(s), s)
    {
      hide SizeOf, Last, D.Message, AllSignals, DueSignals;
      var e;
      r, e := d.Read(n, spare);
      if e == D.Ok {
        return r, false, None;
      }
      if e == D.Eof {
        s := s.(inMessage := false);
        return [], true, None;
      }
      Fail(Corrupt);
      return [], false, Some(Corrupt);
    }

    /** The loop of discard over inflate: a message streamed in part is streamed to its end. */
    method FinishStream(d: D.Decompressor, w: Option<Window>, spare: nat) returns (err: Option<Err>)
      requires Valid() && Streaming(d, w) && Fit(d, w)
      modifies this, d, d.reader, d.scratch, if w.Some? then {w.value} else {}
      ensures Valid() && d.Idle() && Fit(d, w)
      ensures err.None? ==> s == old(s).(inMessage := false) && old(Behind(d, w)) == Some(Past(w))
      ensures err.Some? ==>
        && err == Some(Corrupt) && s == old(s).(inMessage := false, readErr := err)
        && (d.reader.steady ==> old(d.Expected()) == None)
      ensures Keeps(old(s), s)
    {
      hide Last, D.Message, Remembered, AllSignals, DueSignals;
      while true
        invariant Valid() && Streaming(d, w) && Fit(d, w) && s == old(s)
        invariant Keeps(old(s), s)
        invariant Behind(d, w) == old(Behind(d, w)) && d.Expected() == old(d.Expected())
        decreases |d.reader.input|, |d.reader.todo|
      {
        var r, eof;
        r, eof, err := ReadStream(d, w, fragmentSize, spare);
        if eof || err.Some? {
          return;
        }
      }
    }

    /** What is still to be read of the current message, or None when it is cut off or does not inflate. */
    ghost function Text(d: D.Decompressor, w: Option<Window>): Option<seq<byte>>
      requires s.rx.Valid()
      reads this, d, d.reader, if w.Some? then {w.value} else {}
    {
      if d.active then d.Rest()
      else if s.Left().Cut? then None
      else Understood(d, w, s.rx.compressed, Past(w), s.Left().content)
    }

    /** The end of the message has been reached: the next is ahead, and this one in the history. */
    twostate predicate Over(d: D.Decompressor, w: Option<Window>)
      requires old(s.rx.Valid()) && s.rx.Valid()
      reads this, d, d.reader, d.scratch, if d.window.Some? then {d.window.value} else {},
            if w.Some? then {w.value} else {}
    {
      && s.readErr.None? && !s.inMessage && d.Idle() && s.Upcoming() == old(s.Upcoming())
      && old(Behind(d, w)) == Some(Past(w))
    }

    /** Still in the message, `r` further. */
    twostate predicate Onward(d: D.Decompressor, w: Option<Window>, r: seq<byte>)
      requires old(s.rx.Valid()) && s.rx.Valid()
      reads this, d, d.reader, d.scratch, if d.window.Some? then {d.window.value} else {},
            if w.Some? then {w.value} else {}
    {
      && s.readErr.None? && s.inMessage && s.Upcoming() == old(s.Upcoming())
      && s.rx.compressed == old(s.rx.compressed) && s.Left().Ends? == old(s.Left().Ends?)
      && Behind(d, w) == old(Behind(d, w)) && old(Text(d, w)) == D.Prepend(r, Text(d, w))
    }

    /** inflate, with the stream started when it has not been. */
    method ReadPacked(d: D.Decompressor, w: Option<Window>, n: nat, spare: nat)
      returns (r: seq<byte>, eof: bool, err: Option<Err>)
      requires Valid() && s.readErr.None? && s.inMessage && s.rx.compressed && Usable(d, w) && n > 0
      modifies this, d, d.reader, d.scratch, if w.Some? then {w.value} else {}
      ensures Valid() && Usable(d, w) && |r| <= n
      ensures err.None? && !eof ==> r != [] && d.active && Onward(d, w, r) && (old(d.active) ==> d.Progressed())
      ensures eof ==> err.None? && r == [] && old(Text(d, w)) == Some([]) && Over(d, w)
      ensures err.Some? ==>
        r == [] && !eof && s.readErr == err && err != Some(TooLarge) && err != Some(BadText) && err != Some(Writer)
      ensures old(s).Undisturbed() && d.reader.steady ==> s.Undisturbed() && (err.Some? ==> old(Text(d, w)) == None)
      ensures Keeps(old(s), s)
      ensures err.None? ==> Troubles(s.arrivals) == Troubles(old(s).arrivals)
    {
      hide Messages.Left, Messages.Upcoming, Reading.Left, SizeOf, Last, D.Message, Remembered, Prompt, AllSignals,
        DueSignals, Troubles;
      r, eof := [], false;
      if !d.active {
        err := StartStream(d, w, spare);
        if err.Some? {
          return;
        }
        NothingRead(d);
      }
      LeftOver(s);
      ghost var rest, total := d.Rest(), d.msg.total;
      r, eof, err := ReadStream(d, w, n, spare);
      if err.None? {
        ReadOn(total, r, rest, d.Rest());
      }
    }

    /** Read, of a message of either kind. */
    method Read(d: D.Decompressor, w: Option<Window>, n: nat, spare: nat)
      returns (r: seq<byte>, eof: bool, err: Option<Err>)
      requires Valid() && Usable(d, w)
      modifies this, d, d.reader, d.scratch, if w.Some? then {w.value} else {}
      ensures Valid() && Usable(d, w) && |r| <= n
      ensures old(s).readErr.Some? ==> err == old(s).readErr && s == old(s)
      ensures old(s).readErr.None? && !old(s).inMessage ==> r == [] && err.None? && eof && s == old(s)
      ensures old(s).readErr.None? && old(s).inMessage && err.None? ==>
        if eof then r == [] && n > 0 && old(Text(d, w)) == Some([]) && Over(d, w)
        else Onward(d, w, r) && (n > 0 ==> r != [] && Shrunk(d))
      ensures n == 0 && old(s).readErr.None? && old(s).inMessage ==> err.None? && !eof && s == old(s) && Unmoved(d)
      ensures old(s).readErr.None? && err.Some? ==> r == [] && !eof && (s.readErr.Some? ==> s.readErr == err)
      ensures old(s).readErr.None? && err.Some? && s.readErr.None? ==> err == Some(Transport) && Onward(d, w, [])
      ensures old(s).readErr.None? && old(s).Undisturbed() && d.reader.steady ==>
        s.Undisturbed() && (err.Some? ==> old(Text(d, w)) == None)
      ensures Keeps(old(s), s)
      ensures err.None? ==> Troubles(s.arrivals) == Troubles(old(s).arrivals)
    {
      hide Messages.Left, Messages.Upcoming, Reading.Left, SizeOf, Last, D.Message, Prompt, AllSignals, DueSignals,
        Troubles;
      if s.readErr.Some? {
        return [], false, s.readErr;
      }
      if !s.inMessage {
        return [], true, None;
      }
      D.PrependNothing(Text(d, w));
      if n == 0 {
        return [], false, None;
      }
      if s.rx.compressed {
        r, eof, err := ReadPacked(d, w, n, spare);
      } else {
        r, eof, err := ReadPlain(n);
      }
    }

    /** There is less to do: less of the wire, a stream that was to be started, or less of it. */
    twostate predicate Shrunk(d: D.Decompressor)
      reads this, d, d.reader
    {
      if s.rx.compressed then d.active && (old(d.active) ==> d.Progressed())
      else s.Size() < old(s.Size())
    }

    twostate predicate Unmoved(d: D.Decompressor)
      reads this, d, d.reader
    {
      d.active == old(d.active) && d.reader.input == old(d.reader.input) && d.reader.todo == old(d.reader.todo)
    }

    /** How a call that meets an error leaves the message: it failed for good, or the rest of it is still to be read. */
    ghost predicate Failed(err: Option<Err>)
      reads this
    {
      err.Some? && (if s.readErr.Some? then s.readErr == err else err == Some(Transport))
    }

    /** Read with buffers of the given sizes, empty ones among them, as far as the message goes. */
    method ReadSome(d: D.Decompressor, w: Option<Window>, sizes: seq<nat>, spare: nat)
      returns (out: seq<byte>, eof: bool, err: Option<Err>)
      requires Valid() && s.readErr.None? && s.inMessage && Usable(d, w)
      modifies this, d, d.reader, d.scratch, if w.Some? then {w.value} else {}
      ensures Valid() && Usable(d, w)
      ensures err.None? && !eof ==> Onward(d, w, out)
      ensures eof ==> err.None? && old(Text(d, w)) == Some(out) && Over(d, w)
      ensures err.Some? ==> Failed(err) && !eof
      ensures old(s).Undisturbed() && d.reader.steady ==> s.Undisturbed() && (err.Some? ==> old(Text(d, w)) == None)
      ensures Keeps(old(s), s)
      ensures err.None? ==> Troubles(s.arrivals) == Troubles(old(s).arrivals)
    {
      hide Messages.Left, Messages.Upcoming, Reading.Left, Reading.Upcoming, Behind, Text, D.Prepend, Prompt,
        AllSignals, DueSignals, Troubles;
      out, eof, err := [], false, None;
      D.PrependNothing(Text(d, w));
      for i := 0 to |sizes|
        invariant Troubles(s.arrivals) == Troubles(old(s).arrivals)
        invariant Valid() && Usable(d, w) && Onward(d, w, out) && !eof && err.None?
        invariant Keeps(old(s), s)
        invariant old(s).Undisturbed() && d.reader.steady ==> s.Undisturbed()
      {
        ghost var rest := Text(d, w);
        var r;
        r, eof, err := Read(d, w, sizes[i], spare);
        AfterRead(out, r, rest, Text(d, w));
        if eof || err.Some? {
          return;
        }
        out := out + r;
      }
    }

    /** Repeated Read with buffers of the given sizes, then of `size`, until the message ends. */
    method ReadAll(d: D.Decompressor, w: Option<Window>, sizes: seq<nat>, size: nat, spare: nat)
      returns (out: seq<byte>, err: Option<Err>)
      requires Valid() && s.readErr.None? && s.inMessage && Usable(d, w) && size > 0
      modifies this, d, d.reader, d.scratch, if w.Some? then {w.value} else {}
      ensures Valid() && Usable(d, w)
      ensures err.None? ==> old(Text(d, w)) == Some(out) && Over(d, w)
      ensures err.Some? ==> Failed(err)
      ensures old(s).Undisturbed() && d.reader.steady ==> s.Undisturbed() && (err.None? <==> old(Text(d, w)).Some?)
      ensures Keeps(old(s), s)
      ensures err.None? ==> Troubles(s.arrivals) == Troubles(old(s).arrivals)
    {
      hide Messages.Left, Messages.Upcoming, Reading.Left, Reading.Upcoming, Behind, Text, D.Prepend, Prompt,
        AllSignals, DueSignals, Troubles;
      var eof;
      out, eof, err := ReadSome(d, w, sizes, spare);
      if eof || err.Some? {
        return;
      }
      while true
        invariant Troubles(s.arrivals) == Troubles(old(s).arrivals)
        invariant Valid() && Usable(d, w) && Onward(d, w, out) && err.None?
        invariant Keeps(old(s), s)
        invariant old(s).Undisturbed() && d.reader.steady ==> s.Undisturbed()
        decreases if s.rx.compressed then if d.active then 0 else 1 else s.Size(), |d.reader.input|, |d.reader.todo|
      {
        ghost var rest := Text(d, w);
        var r;
        r, eof, err := Read(d, w, size, spare);
        AfterRead(out, r, rest, Text(d, w));
        if eof || err.Some? {
          return;
        }
        out := out + r;
      }
    }

    /** The loop of WriteTo over inflate: a compressed message, piece by piece, to a writer that takes `room` bytes. */
    method WritePackedTo(d: D.Decompressor, w: Option<Window>, room: nat, spare: nat)
      returns (out: seq<byte>, ghost lost: seq<byte>, err: Option<Err>)
      requires Valid() && s.readErr.None? && s.inMessage && s.rx.compressed && Usable(d, w)
      modifies this, d, d.reader, d.scratch, if w.Some? then {w.value} else {}
      ensures Valid() && Usable(d, w)
      ensures |out| <= room && (lost != [] <==> err == Some(Writer)) && (err == Some(Writer) ==> |out| == room)
      ensures err.None? ==> old(Text(d, w)) == Some(out) && Over(d, w)
      ensures err == Some(Writer) ==> Onward(d, w, out + lost)
      ensures err.Some? && err != Some(Writer) ==> s.readErr == err
      ensures old(s).Undisturbed() && d.reader.steady ==>
        s.Undisturbed() && (err.Some? && err != Some(Writer) ==> old(Text(d, w)) == None)
      ensures Keeps(old(s), s)
      ensures err.None? ==> Troubles(s.arrivals) == Troubles(old(s).arrivals)
    {
      hide Messages.Left, Messages.Upcoming, Reading.Left, Reading.Upcoming, Behind, Text, D.Prepend, Prompt,
        AllSignals, DueSignals, Troubles;
      out, lost, err := [], [], None;
      D.PrependNothing(Text(d, w));
      while true
        invariant Troubles(s.arrivals) == Troubles(old(s).arrivals)
        invariant Valid() && Usable(d, w) && Onward(d, w, out) && err.None? && lost == [] && |out| <= room
        invariant Keeps(old(s), s)
        invariant old(s).Undisturbed() && d.reader.steady ==> s.Undisturbed()
        decreases if d.active then 0 else 1, |d.reader.input|, |d.reader.todo|
      {
        ghost var rest := Text(d, w);
        var r, eof;
        r, eof, err := ReadPacked(d, w, fragmentSize, spare);
        AfterRead(out, r, rest, Text(d, w));
        if eof || err.Some? {
          return;
        }
        if |r| > room - |out| {
          lost, err := r[room - |out|..], Some(Writer);
          assert out + r == out + r[..room - |out|] + lost;
          out := out + r[..room - |out|];
          return;
        }
        out := out + r;
      }
    }

    /** WriteTo, of a message of either kind. */
    method WriteTo(d: D.Decompressor, w: Option<Window>, room: nat, spare: nat)
      returns (out: seq<byte>, ghost lost: seq<byte>, err: Option<Err>)
      requires Valid() && Usable(d, w)
      modifies this, d, d.reader, d.scratch, if w.Some? then {w.value} else {}
      ensures Valid() && Usable(d, w)
      ensures old(s).readErr.Some? ==> err == old(s).readErr && out == [] && s == old(s)
      ensures old(s).readErr.None? && !old(s).inMessage ==> err.None? && out == [] && s == old(s)
      ensures old(s).readErr.None? ==>
        |out| <= room && (lost != [] <==> err == Some(Writer)) && (err == Some(Writer) ==> |out| == room)
      ensures old(s).readErr.None? && old(s).inMessage && err.None? ==> old(Text(d, w)) == Some(out) && Over(d, w)
      ensures old(s).readErr.None? && err.Some? ==>
        if s.readErr.Some? then s.readErr == err
        else Onward(d, w, out + lost) && (err == Some(Transport) || err == Some(Writer))
      ensures old(s).readErr.None? && old(s).Undisturbed() && d.reader.steady ==>
        s.Undisturbed() && (err.Some? && err != Some(Writer) ==> old(Text(d, w)) == None)
      ensures Keeps(old(s), s)
      ensures err.None? ==> Troubles(s.arrivals) == Troubles(old(s).arrivals)
    {
      hide Messages.Left, Messages.Upcoming, Reading.Left, SizeOf, Last, D.Message, Prompt, AllSignals, DueSignals,
        Troubles;
      out, lost, err := [], [], None;
      if s.readErr.Some? {
        return [], [], s.readErr;
      }
      if !s.inMessage {
        return;
      }
      if s.rx.compressed {
        out, lost, err := WritePackedTo(d, w, room, spare);
      } else {
        out, lost, err := WritePlainTo(room);
      }
    }

    /**
     * discard: under takeover a compressed message is inflated into the
     * history, from its start or from where a reader left it; any other is
     * skipped, and an inflate in progress abandoned.
     */
    method Discard(d: D.Decompressor, w: Option<Window>, spare: nat) returns (err: Option<Err>)
      requires Valid() && s.readErr.None? && Usable(d, w)
      modifies this, d, d.reader, d.scratch, if w.Some? then {w.value} else {}
      ensures Valid() && d.Idle() && Fit(d, w)
      ensures err.None? ==>
        && s.readErr.None? && !s.inMessage && s.rx.remaining == 0 && s.Upcoming() == old(s).Upcoming()
        && old(Behind(d, w)) == Some(Past(w))
      ensures !old(s).inMessage ==> err.None? && s == old(s)
      ensures old(s).inMessage && err.None? ==> old(s).Left().Ends?
      ensures s.readErr.None? && err.Some? ==>
        && err == Some(Transport) && s.inMessage && s.Upcoming() == old(s).Upcoming()
        && (w.Some? ==> Past(w) == old(Past(w)) && !old(s).rx.compressed)
      ensures s.readErr.Some? ==> s.readErr == err && err != Some(TooLarge) && err != Some(BadText)
      ensures err == Some(Corrupt) && d.reader.steady ==> old(Behind(d, w)) == None
      ensures old(s).Undisturbed() && d.reader.steady ==>
        s.Undisturbed() && (err.Some? ==> old(s).Left().Cut? || old(Behind(d, w)) == None)
      ensures Keeps(old(s), s)
      ensures err.None? ==> Troubles(s.arrivals) == Troubles(old(s).arrivals)
    {
      hide Messages.Left, Messages.Upcoming, Reading.Left, SizeOf, Last, D.Message, Prompt, AllSignals, DueSignals,
        Troubles;
      if s.inMessage && s.rx.compressed && w.Some? {
        if d.active {
          LeftOver(s);
          err := FinishStream(d, w, spare);
        } else {
          var out;
          out, err := Inflate(d, w, [], fragmentSize, spare);
        }
        if err.Some? {
          return;
        }
      } else if d.active {
        d.Fail(spare);
      }
      err := Skip();
    }

    /** Read with some buffers, or none, and then discard: the message is behind as if all of it had been read. */
    method ReadAndDiscard(d: D.Decompressor, w: Option<Window>, sizes: seq<nat>, spare: nat)
      returns (out: seq<byte>, err: Option<Err>)
      requires Valid() && s.readErr.None? && s.inMessage && d.Idle() && Fit(d, w)
      modifies this, d, d.reader, d.scratch, if w.Some? then {w.value} else {}
      ensures Valid() && Usable(d, w)
      ensures err.None? ==> Over(d, w) && old(s).Left().Ends?
      ensures err.None? && old(Text(d, w)).Some? ==> out <= old(Text(d, w)).value
      ensures old(s).Undisturbed() && d.reader.steady ==> s.Undisturbed() && (err.Some? ==> old(Text(d, w)) == None)
      ensures Keeps(old(s), s)
      ensures err.None? ==> Troubles(s.arrivals) == Troubles(old(s).arrivals)
    {
      hide Messages.Left, Messages.Upcoming, Reading.Left, Reading.Upcoming, Behind, Text, Understood, Kept, Prompt,
        AllSignals, DueSignals, Troubles;
      TextRemembered(d, w);
      var eof;
      out, eof, err := ReadSome(d, w, sizes, spare);
      if err.None? && !eof {
        err := Discard(d, w, spare);
      }
    }

    /** A message with a text is not cut off, and leaves a history. */
    lemma TextRemembered(d: D.Decompressor, w: Option<Window>)
      requires s.rx.Valid() && !d.active
      ensures Text(d, w).Some? ==> s.Left().Ends? && Behind(d, w).Some?
    {
      hide Messages.Left, D.Message;
    }

    /**
     * NextMessage: whatever happened before, retries after transport errors
     * included, it enters the next message of the wire and returns its
     * opcode, Text or Binary.
     */
    method NextMessage(d: D.Decompressor, w: Option<Window>, spare: nat) returns (op: Opcode, err: Option<Err>)
      requires Valid() && Usable(d, w)
      modifies this, d, d.reader, d.scratch, if w.Some? then {w.value} else {}
      ensures Valid() && d.Idle() && Fit(d, w)
      ensures old(s).readErr.Some? ==> err == old(s).readErr && s == old(s)
      ensures err.None? ==>
        && (op.Text? || op.Binary?)
        && old(s).Upcoming() == [Coming(op, s.rx.compressed, s.Left())] + s.Upcoming()
        && s.readErr.None? && s.inMessage && s.rx.remaining == s.rx.head.length
        && old(Behind(d, w)) == Some(Past(w))
      ensures s.readErr.None? && err.Some? ==> err == Some(Transport) && s.Upcoming() == old(s).Upcoming()
      ensures old(s).readErr.None? ==> err != Some(TooLarge) && err != Some(BadText)
      ensures old(s).readErr.None? && err == Some(Corrupt) && d.reader.steady ==>
        old(Behind(d, w)) == None
      ensures old(s).readErr.None? && !old(s).inMessage && old(s).Undisturbed() ==>
        s.Undisturbed() && (err.Some? ==> old(s).Upcoming() == [])
      ensures Relays(old(s), s) && (if err.None? then s.handled == old(s).Due() else Keeps(old(s), s))
      ensures err.None? ==> Troubles(s.arrivals) == Troubles(old(s).arrivals)
    {
      hide Messages.Left, Messages.Upcoming, Reading.Left, Reading.Upcoming, SizeOf, Last, Behind, Prompt, AllSignals,
        DueSignals, Troubles;
      op := Continuation;
      if s.readErr.Some? {
        return op, s.readErr;
      }
      err := Discard(d, w, spare);
      if err.Some? {
        return;
      }
      err := NextFrame();
      if err.Some? {
        return;
      }
      ghost var now := s;
      s := s.(inMessage := true);
      SameParts(now, s);
      return s.rx.head.op, None;
    }

    /** How a call that met an error leaves what is to come: all of it, or all but the message it was in. */
    ghost predicate LeftFor(was: Reading, err: Option<Err>)
      requires was.rx.Valid() && s.rx.Valid()
      reads this
    {
      s.readErr.None? ==>
        && err == Some(Transport)
        && (s.Upcoming() == was.Upcoming()
          || (s.inMessage && was.Upcoming() != [] && s.Upcoming() == was.Upcoming()[1..]))
    }

    /**
     * ReadMessage up to finishMessage: the payload of the wire's next message.
     * After a transport error a retry goes on with the same message if it had
     * not been entered, and with the one after it if it had.
     */
    method ReadPayload(d: D.Decompressor, w: Option<Window>, spare: nat)
      returns (op: Opcode, payload: seq<byte>, err: Option<Err>)
      requires Valid() && Usable(d, w)
      modifies this, d, d.reader, d.scratch, if w.Some? then {w.value} else {}
      ensures Valid() && d.Idle() && Fit(d, w)
      ensures old(s).readErr.Some? ==> err == old(s).readErr && s == old(s)
      ensures err.None? ==>
        && (op.Text? || op.Binary?) && |payload| <= limit && s.readErr.None? && s.inMessage && s.rx.message.None?
        && old(s).Upcoming() == [Coming(op, s.rx.compressed, Ends(payload))] + s.Upcoming()
        && old(Behind(d, w)) == Some(Past(w))
      ensures err == Some(TooLarge) && old(s).readErr.None? ==>
        old(s).Upcoming() != [] && (old(s).Upcoming()[0].rest.Ends? ==> |old(s).Upcoming()[0].rest.content| > limit)
      ensures old(s).readErr.None? ==> err != Some(BadText)
      ensures old(s).readErr.None? && err == Some(Corrupt) && d.reader.steady ==>
        old(Behind(d, w)) == None
      ensures err.Some? ==> LeftFor(old(s), err)
      ensures old(s).readErr.None? && !old(s).inMessage && old(s).Undisturbed() ==>
        s.Undisturbed()
          && (err.Some? && err != Some(TooLarge) ==> old(s).Upcoming() == [] || old(s).Upcoming()[0].rest.Cut?)
      ensures Relays(old(s), s) && (err.None? ==> old(s).Due() <= s.handled)
      ensures err.None? ==> Troubles(s.arrivals) == Troubles(old(s).arrivals)
    {
      hide Messages.Left, Messages.Upcoming, Reading.Left, Reading.Upcoming, SizeOf, Last, Behind, Prompt, AllSignals,
        DueSignals, Troubles;
      op, err := NextMessage(d, w, spare);
      if err.Some? {
        return op, [], err;
      }
      ghost var now := s;
      payload, err := Assemble();
      HandledStays(now, s);
    }

    /** The next message is there, whole, within the limit before and after inflating, and text where it has to be. */
    ghost predicate Welcome(d: D.Decompressor, w: Option<Window>, past: seq<byte>, ahead: seq<Coming>) {
      && ahead != [] && ahead[0].rest.Ends? && |ahead[0].rest.content| <= limit
      && match Understood(d, w, ahead[0].compressed, past, ahead[0].rest.content)
         case None => false
         case Some(x) => |x| <= limit && (ahead[0].op.Text? && validateUtf8 ==> Utf8.WellFormed(x))
    }

    /** finishMessage: a compressed payload is inflated, and text checked. */
    method FinishMessage(d: D.Decompressor, w: Option<Window>, op: Opcode, payload: seq<byte>, spare: nat)
      returns (msg: seq<byte>, err: Option<Err>)
      requires Valid() && s.readErr.None? && s.rx.message.None? && d.Idle() && Fit(d, w) && |payload| <= limit
      modifies this, d, d.reader, d.scratch, if w.Some? then {w.value} else {}
      ensures Valid() && d.Idle() && Fit(d, w)
      ensures s == old(s).(inMessage := false, readErr := err) && s.Upcoming() == old(s).Upcoming()
      ensures err.None? ==>
        && |msg| <= limit && (op.Text? && validateUtf8 ==> Utf8.WellFormed(msg))
        && Understood(d, w, s.rx.compressed, old(Past(w)), payload) == Some(msg)
        && Past(w) == Kept(w, s.rx.compressed, old(Past(w)), msg)
      ensures err.Some? && d.reader.steady ==>
        match Understood(d, w, s.rx.compressed, old(Past(w)), payload)
        case None => err == Some(Corrupt) || err == Some(TooLarge)
        case Some(x) =>
          if |x| > limit then err == Some(TooLarge)
          else err == Some(BadText) && op.Text? && validateUtf8 && !Utf8.WellFormed(x)
      ensures Keeps(old(s), s)
    {
      hide Messages.Left, Messages.Upcoming, SizeOf, Last, D.Message, D.InflatesTo, AllSignals, DueSignals;
      hide Obeys, Utf8.WellFormed, Flate.INFLATE_TAIL;
      s := s.(inMessage := false);
      msg, err := payload, None;
      if s.rx.compressed {
        var e;
        msg, e := d.Decompress(payload, limit, w, spare);
        if e != D.Ok {
          err := Some(if e == D.TooLarge then TooLarge else Corrupt);
          Fail(err.value);
          return;
        }
      }
      if op.Text? && validateUtf8 && !Utf8.WellFormed(msg) {
        Fail(BadText);
        return [], Some(BadText);
      }
    }

    /**
     * ReadMessage: the wire's next message whole, inflated when it is
     * compressed against the history behind everything before it, within the
     * limit before and after, and valid when it is text that is to be checked.
     */
    method ReadMessage(d: D.Decompressor, w: Option<Window>, spare: nat)
      returns (op: Opcode, msg: seq<byte>, err: Option<Err>)
      requires Valid() && Usable(d, w)
      modifies this, d, d.reader, d.scratch, if w.Some? then {w.value} else {}
      ensures Valid() && d.Idle() && Fit(d, w)
      ensures old(s).readErr.Some? ==> err == old(s).readErr && s == old(s)
      ensures err.None? ==>
        && (op.Text? || op.Binary?) && s.readErr.None? && !s.inMessage && |msg| <= limit
        && (op.Text? && validateUtf8 ==> Utf8.WellFormed(msg))
        && old(s).Upcoming() != [] && old(s).Upcoming()[0].op == op && old(s).Upcoming()[0].rest.Ends?
        && |old(s).Upcoming()[0].rest.content| <= limit
        && s.Upcoming() == old(s).Upcoming()[1..]
      ensures err.None? ==>
        var first, past := old(s).Upcoming()[0], old(Behind(d, w));
        && past.Some? && Understood(d, w, first.compressed, past.value, first.rest.content) == Some(msg)
        && Past(w) == Kept(w, first.compressed, past.value, msg)
      ensures err.Some? ==> LeftFor(old(s), err)
      ensures old(s).readErr.None? && !old(s).inMessage && old(s).Undisturbed() && d.reader.steady ==>
        s.Undisturbed() && (err.None? <==> Welcome(d, w, old(Past(w)), old(s).Upcoming()))
      ensures Relays(old(s), s) && (err.None? ==> old(s).Due() <= s.handled)
      ensures err.None? ==> Troubles(s.arrivals) == Troubles(old(s).arrivals)
    {
      hide Messages.Left, Messages.Upcoming, Reading.Left, Reading.Upcoming, SizeOf, Last, Understood, Kept, Prompt,
        AllSignals, DueSignals, Troubles;
      op, msg, err := ReadPayload(d, w, spare);
      if err.Some? {
        return;
      }
      assert old(s).Upcoming()[1..] == s.Upcoming();
      msg, err := FinishMessage(d, w, op, msg, spare);
    }
  }

  /** The decompressor and the window are each other's to use. */
  ghost predicate Fit(d: D.Decompressor, w: Option<Window>)
    reads d, if w.Some? then {w.value} else {}
  {
    w.Some? ==> w.value != d.scratch && w.value.Valid()
  }

  /** The receive direction's history. */
  ghost function Past(w: Option<Window>): seq<byte>
    reads if w.Some? then {w.value} else {}
  {
    if w.Some? then w.value.Dict() else []
  }

  /** What a compressed payload inflates to behind a history. */
  ghost function Inflated(d: D.Decompressor, w: Option<Window>, past: seq<byte>, payload: seq<byte>): Option<seq<byte>>
  {
    D.Message(d.reader.inf, D.Decompressor.SizeFor(w), past, payload + Flate.INFLATE_TAIL)
  }

  /** What a payload says. */
  ghost function Understood(d: D.Decompressor, w: Option<Window>, compressed: bool, past: seq<byte>,
                            payload: seq<byte>): Option<seq<byte>>
  {
    if compressed then Inflated(d, w, past, payload) else Some(payload)
  }

  /** The history behind a message. */
  ghost function Kept(w: Option<Window>, compressed: bool, past: seq<byte>, msg: seq<byte>): seq<byte> {
    if compressed && w.Some? then Last(past + msg, w.value.Size()) else past
  }

  /** The same for a message that has not been started on. */
  ghost function Remembered(d: D.Decompressor, w: Option<Window>, s: Reading, past: seq<byte>): Option<seq<byte>>
    requires s.rx.Valid()
  {
    if !s.inMessage || !s.rx.compressed || w.None? then Some(past)
    else if s.Left().Cut? then None
    else match Inflated(d, w, past, s.Left().content)
         case None => None
         case Some(x) => Some(Kept(w, true, past, x))
  }

  /** Before anything is read, all of the message is to come. */
  lemma NothingRead(d: D.Decompressor)
    requires d.Live() && d.msg.total == []
    ensures d.Rest() == d.Expected()
  {
    hide D.Message, Last;
    if d.Rest().Some? {
      assert [] + d.Rest().value == d.Rest().value;
    }
  }

  /** What is to come after `r`, given what was to come before it. */
  lemma ReadOn(total: seq<byte>, r: seq<byte>, rest: Option<seq<byte>>, rest': Option<seq<byte>>)
    ensures D.Prepend(total, rest) == D.Prepend(total + r, rest') ==> rest == D.Prepend(r, rest')
    ensures D.Prepend(total, rest) == Some(total) ==> rest == Some([])
  {
    if rest.Some? {
      assert rest.value == (total + rest.value)[|total|..];
      if rest'.Some? {
        assert (total + r + rest'.value)[|total|..] == r + rest'.value;
      }
    }
  }

  /** Output gathered so far, the next piece of it, and what is to come. */
  lemma AfterRead(out: seq<byte>, r: seq<byte>, rest: Option<seq<byte>>, rest': Option<seq<byte>>)
    ensures rest == D.Prepend(r, rest') ==> D.Prepend(out, rest) == D.Prepend(out + r, rest')
    ensures D.Prepend(out, Some([])) == Some(out) && D.Prepend(out, None) == None
  {
    D.PrependTwice(out, r, rest');
    assert out + [] == out;
  }

  lemma EnteredAtStart(s: Reading, t: Reading)
    requires s.rx.Valid() && t.rx.Valid() && Entered(s, t)
    ensures t.rx.remaining == t.rx.head.length && !t.rx.Over()
    ensures s.rx.message.Some? ==> t.rx.compressed == s.rx.compressed
  {
  }

  /** A frame too long for what is left of the limit makes the whole message too long. */
  lemma Larger(s: Reading, msg: seq<byte>)
    requires s.Valid() && s.readErr.None? && s.rx.remaining > 0
    ensures s.Left().Ends? ==> |s.Left().After(msg).content| >= |msg| + s.rx.remaining
  {
    hide Messages.Left;
    if s.Left().Ends? {
      OpenFrameIsWhole(s.rx, s.Input());
    }
  }

  lemma AfterTwice(m: Remainder, a: seq<byte>, b: seq<byte>)
    ensures m.After(b).After(a) == m.After(a + b)
  {
    assert a + (b + m.content) == a + b + m.content;
  }

  lemma LeftOver(s: Reading)
    requires s.rx.Valid() && s.rx.message.None?
    ensures s.Left() == Ends([]) && s.(inMessage := false).Left() == Ends([])
      && s.(inMessage := false).Upcoming() == s.Upcoming()
  {
  }

  lemma Within(s: Reading, t: Reading)
    requires s.rx.Valid() && t.rx.Valid() && s.rx.message.Some? && Entered(s, t)
    ensures Alike(s, t)
  {
  }

  /** The same message is being read, with as much of it left. */
  ghost predicate Alike(s: Reading, t: Reading)
    requires s.rx.Valid() && t.rx.Valid()
  {
    t.Left() == s.Left() && t.Upcoming() == s.Upcoming()
  }

  lemma NextedIs(s: Reading)
    requires s.Valid()
    ensures Nexted(s) == s.(rx := Nexted(s).rx, pending := Nexted(s).pending)
  {
  }

  lemma SameSelf(s: Reading)
    requires s.rx.Valid()
    ensures Same(s, s)
  {
  }

  lemma SameMessage(s: Reading, t: Reading)
    requires s.rx.Valid() && t.rx.Valid() && Same(s, t)
    ensures t.rx.message == s.rx.message
  {
  }

  lemma SameAlike(s: Reading, t: Reading)
    requires s.rx.Valid() && t.rx.Valid() && Same(s, t)
    ensures Alike(s, t)
  {
  }

  /** One more control frame handed over: it stops reading, or reading goes on. */
  lemma ObeysSnoc(handled: seq<Signal>, verdicts: seq<bool>, signal: Signal)
    requires Obeys(handled, verdicts, false)
    ensures Obeys(handled + [signal], verdicts, Stops(handled + [signal], verdicts, |handled|))
  {
    var all := handled + [signal];
    forall k | 0 <= k < |handled|
      ensures Stops(all, verdicts, k) == Stops(handled, verdicts, k)
    {
      assert all[k] == handled[k];
    }
  }

  /**
   * Whichever call handed it over: a control frame that was refused, or a close, is the last one,
   * and the error stays.
   */
  lemma RefusalIsFinal(s: Reading, k: nat)
    requires s.Valid() && k < |s.handled| && Stops(s.handled, s.verdicts, k)
    ensures s.readErr == Some(Handler) && k == |s.handled| - 1
  {
  }

  /** What was handed over stays so. */
  lemma HandledStays(s: Reading, t: Reading)
    requires s.rx.Valid() && t.rx.Valid() && Relays(s, t)
    ensures s.handled <= t.handled
  {
    hide AllSignals;
    assert s.handled == s.Signals()[..|s.handled|] && t.handled == t.Signals()[..|t.handled|];
  }

  /** No control frame is lost, and each handed over takes the next verdict. */
  ghost predicate Relays(s: Reading, t: Reading)
    requires s.rx.Valid() && t.rx.Valid()
  {
    t.verdicts == s.verdicts && |s.handled| <= |t.handled| && t.Signals() == s.Signals()
  }

  /** The same, short of the next message. */
  ghost predicate Keeps(s: Reading, t: Reading)
    requires s.rx.Valid() && t.rx.Valid()
  {
    Relays(s, t) && t.Due() == s.Due()
  }

  /** What Next makes of the control frames ahead. */
  lemma NextSignals(s: Reading)
    requires s.Valid() && s.readErr.None? && s.rx.remaining == 0
    ensures
      var r, t := Next(s.rx, s.pending), Nexted(s);
      && t.rx.Valid()
      && (r.kind == DataFrame ==>
            Relays(s, t) && s.Due() == if s.rx.message.Some? then t.Due() else t.handled)
      && (r.kind == ControlFrame ==> Keeps(s, t.Told()))
      && (r.kind == NeedInput ==> Keeps(s, t))
  {
    hide OneShot, Step, Next, Messages.Left, Messages.Upcoming, FrameOpened, Tracks, AllSignals, DueSignals;
    var r := Next(s.rx, s.pending);
    NextInStep(s.rx, s.pending);
    Chunking.NextReports(s.rx, s.pending);
    NextOpensOrIsQuiet(s.rx, s.pending);
    NextErrs(s.rx, s.pending);
    var t := Nexted(s);
    var c, rest := s.pending[..r.used], s.pending[r.used..] + s.incoming;
    assert s.Input() == c + rest && t.Input() == rest;
    if r.kind == DataFrame {
      OpenedMessage(s.rx, r.next);
      FrameAdvances(s.rx, c, r.next, rest, r.next.head);
      assert s.handled + [] == s.handled;
    } else if r.err.Failed? {
      FailureIsLast(s.rx, s.pending);
      FailedSilently(s.rx, s.Input(), r.next, rest, c, r.events);
    } else {
      QuietAdvances(s.rx, c, r.next, rest, r.events);
      if r.kind == ControlFrame {
        var signal := [Signal(r.next.controlOp, r.next.control)];
        assert s.handled + (signal + AllSignals(r.next, rest)) == s.handled + signal + AllSignals(r.next, rest);
        assert s.handled + (signal + DueSignals(r.next, rest)) == s.handled + signal + DueSignals(r.next, rest);
      } else {
        assert [] + AllSignals(r.next, rest) == AllSignals(r.next, rest);
        assert [] + DueSignals(r.next, rest) == DueSignals(r.next, rest);
      }
    }
  }

  /** A failure passes no control frame. */
  lemma FailedSilently(s: Rx, input: seq<byte>, t: Rx, rest: seq<byte>, c: seq<byte>, ev: seq<Event>)
    requires s.Valid() && t.Valid() && t.Over() && Tracks(s, c, ev, t) && input == c + rest && |ev| == 1 && ev[0].Fail?
    ensures AllSignals(s, input) == AllSignals(t, rest) == [] && DueSignals(s, input) == DueSignals(t, rest) == []
  {
    hide OneShot, Step;
    OverYieldsNothing(t, rest);
    var all, open := OneShot(s, input), s.message.Some?;
    assert all == ev + [] == ev && all[1..] == [];
    assert Signals(all) == Signals([]) == [] && Before(open, all) == Before(open, []) == [];
  }

  lemma OverIsBarren(s: Reading)
    requires s.rx.Valid() && s.rx.Over()
    ensures s.Barren()
  {
    OverYieldsNothing(s.rx, s.Input());
  }

  /** An open frame with no input left never ends. */
  lemma DryIsCut(s: Reading)
    requires s.rx.Valid() && s.rx.remaining > 0 && s.Input() == []
    ensures s.Left().Cut?
  {
    NothingFromNothing(s.rx);
  }

  /** When Next fails or asks for input that will not come, no message is to come either. */
  lemma NextMisses(s: Reading)
    requires s.Valid() && s.readErr.None? && s.rx.remaining == 0
    ensures
      var r := Next(s.rx, s.pending);
      && r.next.Valid()
      && (r.err.Failed? ==> s.Barren())
      && (r.kind == NeedInput && r.err == NoErr && s.incoming == [] ==> Nexted(s).Barren())
  {
    hide OneShot, Step, Next;
    var r := Next(s.rx, s.pending);
    NextInStep(s.rx, s.pending);
    var c, rest := s.pending[..r.used], s.pending[r.used..] + s.incoming;
    assert s.Input() == c + rest;
    if r.err.Failed? {
      FailureIsLast(s.rx, s.pending);
      OverYieldsNothing(r.next, rest);
      var ev := OneShot(s.rx, s.Input());
      assert ev == r.events + [] == r.events;
      assert ev[0].Fail? && ev[1..] == [];
      assert Rest(ev).Cut? && Scan(s.rx.message.Some?, ev) == Scan(s.rx.message.Some?, []);
    } else if s.incoming == [] {
      assert rest == s.pending[r.used..];
    }
  }

  lemma FailureIsLast(s: Rx, input: seq<byte>)
    requires s.Valid() && !s.Over() && Next(s, input).err.Failed?
    ensures Next(s, input).next.Over() && |Next(s, input).events| == 1 && Next(s, input).events[0].Fail?
  {
    hide ParseHeader, Accepts, CloseFault, Unmasked;
  }

  lemma SameParts(s: Reading, t: Reading)
    requires s.rx.Valid() && t.rx == s.rx && t.Input() == s.Input()
    ensures Same(s, t)
  {
  }

  lemma SameAfter(s: Reading, t: Reading, u: Reading)
    requires s.rx.Valid() && t.rx.Valid() && u.rx.Valid() && Same(s, t) && Same(t, u)
    ensures Same(s, u) && s.Barren() == u.Barren()
  {
  }

  lemma InterruptedAfter(s: Reading, t: Reading, u: Reading)
    requires s.rx.Valid() && t.rx.Valid() && u.rx.Valid() && Same(s, t)
    ensures Alike(t, u) ==> Alike(s, u)
    ensures t.rx.compressed == s.rx.compressed
  {
  }

  lemma EnteredAfter(s: Reading, t: Reading, u: Reading)
    requires s.rx.Valid() && t.rx.Valid() && u.rx.Valid() && Same(s, t) && Entered(t, u)
    ensures Entered(s, u) && !u.rx.Over()
  {
  }

  lemma PayloadMoves(s: Reading, n: int)
    requires s.Valid() && s.readErr.None?
    ensures
      var r := Chunking.PayloadN(s.rx, s.pending, n);
      var t := s.(rx := r.next, pending := if r.used <= |s.pending| then s.pending[r.used..] else []);
      && r.used <= |s.pending| && t.Valid() && r.err == NoErr && |r.chunk| == r.used
      && s.Left() == t.Left().After(r.chunk) && t.Upcoming() == s.Upcoming()
      && r.used == Chunking.Take(s.rx, |s.pending|, n) && r.next.remaining == s.rx.remaining - r.used
      && r.done == (r.next.remaining == 0) && r.next.compressed == s.rx.compressed
      && (r.used == 0 ==> r.next == s.rx && (r.done || n <= 0 || s.pending == []))
      && Keeps(s, t)
  {
    hide OneShot, Step, Unmasked, Messages.Left, Messages.Upcoming, AllSignals, DueSignals;
    var r := Chunking.PayloadN(s.rx, s.pending, n);
    if r.used == 0 {
      AfterNothing(s.Left());
      assert s.pending[0..] == s.pending;
    } else {
      var c := s.pending[..r.used];
      assert s.Input() == c + (s.pending[r.used..] + s.incoming);
      PayloadTakes(s.rx, c, s.pending[r.used..] + s.incoming);
    }
  }

  lemma AfterNothing(m: Remainder)
    ensures m.After([]) == m
  {
    assert [] + m.content == m.content;
  }

  /** The state after Next. */
  ghost function Nexted(s: Reading): Reading
    requires s.Valid()
  {
    var r := Next(s.rx, s.pending);
    s.(rx := r.next, pending := if r.used <= |s.pending| then s.pending[r.used..] else [])
  }

  /** Nothing of the messages ahead is lost. */
  ghost predicate Same(s: Reading, t: Reading)
    requires s.rx.Valid() && t.rx.Valid()
  {
    t.Left() == s.Left() && t.Upcoming() == s.Upcoming() && t.rx.message == s.rx.message
      && t.rx.compressed == s.rx.compressed
  }

  /** A data frame is open: the current message goes on, or the next one has started. */
  ghost predicate Entered(s: Reading, t: Reading)
    requires s.rx.Valid() && t.rx.Valid()
  {
    && FrameOpened(s.rx, t.rx)
    && (s.rx.message.Some? ==> t.Left() == s.Left() && t.Upcoming() == s.Upcoming())
    && (s.rx.message.None? ==> s.Upcoming() == [Coming(t.rx.head.op, t.rx.compressed, t.Left())] + t.Upcoming())
  }

  lemma NextMoves(s: Reading)
    requires s.Valid() && s.readErr.None? && s.rx.remaining == 0
    ensures
      var r := Next(s.rx, s.pending);
      var t := Nexted(s);
      && r.used <= |s.pending| && t.rx.Valid() && (t.rx.Over() ==> t.pending == [])
      && match r.kind
         case DataFrame => r.err == NoErr && Entered(s, t) && r.used > 0
         case ControlFrame => r.err == NoErr && Same(s, t) && r.used > 0 && t.rx.remaining == 0
           && (t.rx.Over() <==> t.rx.controlOp.Close?)
         case NeedInput => r.err.Failed? || (r.err == NoErr && Same(s, t) && t.rx.remaining == 0 && !t.rx.Over())
  {
    hide OneShot, Step, Next, Messages.Left, Messages.Upcoming, FrameOpened, Tracks;
    var r := Next(s.rx, s.pending);
    NextInStep(s.rx, s.pending);
    Chunking.NextReports(s.rx, s.pending);
    NextOpensOrIsQuiet(s.rx, s.pending);
    NextErrs(s.rx, s.pending);
    var c, rest := s.pending[..r.used], s.pending[r.used..] + s.incoming;
    assert s.Input() == c + rest;
    if r.kind != NeedInput {
      FrameTakes(s.rx, s.pending);
    }
    if r.kind == DataFrame {
      OpenedMessage(s.rx, r.next);
      FrameAdvances(s.rx, c, r.next, rest, r.next.head);
    } else if !r.err.Failed? {
      QuietAdvances(s.rx, c, r.next, rest, r.events);
    }
  }

  lemma OpenedMessage(s: Rx, t: Rx)
    requires FrameOpened(s, t)
    ensures t.message.Some? == !(t.head.length == 0 && t.head.fin)
    ensures s.message.None? ==> t.compressed == t.head.rsv1
  {
  }

  lemma NextErrs(s: Rx, input: seq<byte>)
    requires s.Valid() && !s.Over() && s.remaining == 0
    ensures !Next(s, input).err.PayloadPending?
  {
    hide ParseHeader, CloseFault, Unmasked, Delivered, Accepts;
  }
}
