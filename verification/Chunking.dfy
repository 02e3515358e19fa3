/** Runs of Feed, Next and PayloadN: however the wire is cut up, they report what a one-shot parse of it reports. */
module Chunking {
  import opened Bytes
  import opened Framing
  import opened Reception

  // ----- PayloadN -----

  datatype PayloadResult = PayloadResult(chunk: seq<byte>, done: bool, err: NextErr, next: Rx, used: nat,
                                         events: seq<Event>)

  /** How much of the open frame PayloadN takes. */
  function Take(s: Rx, avail: nat, n: int): nat {
    if n <= 0 then 0
    else if n <= avail && n <= s.remaining then n
    else if avail <= s.remaining then avail
    else s.remaining
  }

  /** PayloadN on the pending input. */
  function PayloadN(s: Rx, input: seq<byte>, n: int): PayloadResult
    requires s.Valid()
  {
    if s.failed.Some? then PayloadResult([], false, Failed(s.failed.value), s, 0, [])
    else if s.remaining == 0 then PayloadResult([], true, NoErr, s, 0, [])
    else
      var k := Take(s, |input|, n);
      if k == 0 then PayloadResult([], false, NoErr, s, 0, [])
      else PayloadResult(Unmasked(s, input[..k]), k == s.remaining, NoErr, Taken(s, k), k, TakenEvents(s, input[..k]))
  }

  lemma PayloadInStep(s: Rx, input: seq<byte>, n: int)
    requires s.Valid()
    ensures
      var r := PayloadN(s, input, n);
      && r.used <= |input| && r.next.Valid() && r.next.Over() == s.Over()
      && Tracks(s, input[..r.used], r.events, r.next)
      && |r.chunk| == r.used
  {
    hide OneShot, Step, Taken, TakenEvents, Unmasked, Tracks;
    var k := Take(s, |input|, n);
    if s.failed.Some? || s.remaining == 0 || k == 0 {
      TracksNothing(s);
      assert input[..0] == [];
    } else {
      PayloadTracks(s, input[..k]);
      TakenValid(s, k);
    }
  }

  // ----- What the caller learns -----

  /**
   * Every event is visible in the results: a data frame through its header, a
   * control frame through its opcode and payload, a failure through its code,
   * payload octets through the chunk.
   */
  lemma NextReports(s: Rx, input: seq<byte>)
    requires s.Valid()
    ensures Reports(s, Next(s, input))
  {
    hide Gather, Finish, CloseFault, ParseHeader, Accepts;
    if s.failed.None? && s.remaining == 0 && !s.closed {
      if s.controlOpen {
        GatherReports(s, input);
      } else if ParseHeader(input).Complete? && Accepts(s, ParseHeader(input).head) {
        var p := ParseHeader(input);
        var t := Opened(s, p.head);
        if p.head.op.IsData() {
        } else if p.head.length == 0 {
          FinishReports(t, if Delivered(t).Over() then |input| else p.size);
        } else {
          GatherReports(t, input[p.size..]);
        }
      }
    }
  }

  ghost predicate Reports(s: Rx, r: NextResult) {
    match r.kind
    case DataFrame =>
      var h := r.next.head;
      r.err == NoErr && h.op.IsData()
      && r.events == [Frame(h.op, h.rsv1, h.length)] + if h.length == 0 then [EndFrame(h.fin)] else []
    case ControlFrame => r.err == NoErr && r.events == [Control(r.next.controlOp, r.next.control)]
    case NeedInput => r.events == if r.err.Failed? && s.failed.None? then [Fail(r.err.code)] else []
  }

  lemma FinishReports(s: Rx, used: nat)
    requires s.failed.None?
    ensures Reports(s, Finish(s, used))
  {
    hide CloseFault;
  }

  lemma GatherReports(s: Rx, input: seq<byte>)
    requires s.controlOpen && s.failed.None?
    ensures Reports(s, Gather(s, input))
  {
    hide Finish, Delivered, Unmasked;
    var n := if |input| < s.left then |input| else s.left;
    var t := Gathered(s, input[..n]);
    FinishReports(t, if Delivered(t).Over() then |input| else n);
  }

  // ----- Sessions -----

  datatype Call = Feed(b: seq<byte>) | CallNext | CallPayload(n: int)

  /** The receiver, its pending input, and everything fed and reported so far. */
  datatype Session = Session(rx: Rx, pending: seq<byte>, fed: seq<byte>, log: seq<Event>)

  function Begin(role: Role, compression: bool): Session {
    Session(Init(role, compression), [], [], [])
  }

  function Do(s: Session, c: Call): (t: Session)
    requires s.rx.Valid()
    ensures t.rx.Valid()
  {
    match c
    case Feed(b) =>
      if s.rx.Over() then s.(fed := s.fed + b) else s.(pending := s.pending + b, fed := s.fed + b)
    case CallNext =>
      var r := Next(s.rx, s.pending);
      NextInStep(s.rx, s.pending);
      s.(rx := r.next, pending := s.pending[r.used..], log := s.log + r.events)
    case CallPayload(n) =>
      var r := PayloadN(s.rx, s.pending, n);
      PayloadInStep(s.rx, s.pending, n);
      s.(rx := r.next, pending := s.pending[r.used..], log := s.log + r.events)
  }

  /** What is fed is what is consumed and what is pending, and the log is in step with the one-shot parser. */
  ghost predicate InStep(start: Rx, s: Session, consumed: seq<byte>)
    requires start.Valid()
  {
    && s.rx.Valid()
    && s.fed == consumed + s.pending
    && Tracks(start, consumed, s.log, s.rx)
    && (s.rx.Over() ==> s.pending == [])
  }

  lemma ConsumeInStep(start: Rx, s: Session, consumed: seq<byte>, used: nat, ev: seq<Event>, next: Rx)
    returns (now: seq<byte>)
    requires start.Valid() && InStep(start, s, consumed)
    requires used <= |s.pending| && next.Valid() && Tracks(s.rx, s.pending[..used], ev, next)
    requires next.Over() ==> used == |s.pending|
    ensures InStep(start, s.(rx := next, pending := s.pending[used..], log := s.log + ev), now)
  {
    hide OneShot, Step;
    now := consumed + s.pending[..used];
    TracksCompose(start, consumed, s.log, s.rx, s.pending[..used], ev, next);
    assert s.pending == s.pending[..used] + s.pending[used..];
  }

  lemma CallInStep(start: Rx, s: Session, consumed: seq<byte>, c: Call) returns (now: seq<byte>)
    requires start.Valid() && InStep(start, s, consumed)
    ensures InStep(start, Do(s, c), now)
  {
    hide OneShot, Step, Next, PayloadN, Tracks;
    match c
    case Feed(b) =>
      if s.rx.Over() {
        TracksAll(start, consumed, s.log, s.rx, b);
        now := consumed + b;
        assert s.fed + b == now + s.pending;
      } else {
        now := consumed;
        assert s.fed + b == consumed + (s.pending + b);
      }
    case CallNext =>
      NextInStep(s.rx, s.pending);
      var r := Next(s.rx, s.pending);
      now := ConsumeInStep(start, s, consumed, r.used, r.events, r.next);
    case CallPayload(n) =>
      PayloadInStep(s.rx, s.pending, n);
      var r := PayloadN(s.rx, s.pending, n);
      now := ConsumeInStep(start, s, consumed, r.used, r.events, r.next);
  }

  function Run(s: Session, calls: seq<Call>): (t: Session)
    requires s.rx.Valid()
    ensures t.rx.Valid()
    decreases |calls|
  {
    if calls == [] then s else Run(Do(s, calls[0]), calls[1..])
  }

  lemma {:induction false} RunInStep(start: Rx, s: Session, consumed: seq<byte>, calls: seq<Call>)
    returns (now: seq<byte>)
    requires start.Valid() && InStep(start, s, consumed)
    ensures InStep(start, Run(s, calls), now)
    decreases |calls|
  {
    hide OneShot, Step, Next, PayloadN, Tracks, Do;
    now := consumed;
    if calls != [] {
      var mid := CallInStep(start, s, consumed, calls[0]);
      now := RunInStep(start, Do(s, calls[0]), mid, calls[1..]);
    }
  }

  /**
   * Chunking independence: after any calls, what was reported followed by
   * what the pending input still holds is a one-shot parse of everything fed.
   */
  lemma ReportsOneShot(role: Role, compression: bool, calls: seq<Call>)
    ensures
      var t := Run(Begin(role, compression), calls);
      OneShot(Init(role, compression), t.fed) == t.log + OneShot(t.rx, t.pending)
  {
    hide OneShot, Step, Next, PayloadN, Do, Run;
    var s := Begin(role, compression);
    TracksNothing(s.rx);
    var consumed := RunInStep(s.rx, s, [], calls);
  }

  /** The receiver has nothing more to give: Next asks for input, or the connection is over. */
  ghost predicate Drained(s: Session)
    requires s.rx.Valid()
  {
    var r := Next(s.rx, s.pending);
    s.rx.Over() || (r.kind == NeedInput && r.err == NoErr && r.events == [])
  }

  lemma DrainedHasNothing(s: Session)
    requires s.rx.Valid() && Drained(s)
    ensures OneShot(s.rx, s.pending) == []
  {
    hide OneShot, Step, Next;
    if s.rx.Over() {
      OverYieldsNothing(s.rx, s.pending);
    } else {
      NextInStep(s.rx, s.pending);
      var r := Next(s.rx, s.pending);
      assert s.pending == s.pending[..r.used] + s.pending[r.used..];
    }
  }

  /** Two runs over one wire, however differently they cut it and call, report the same once both are drained. */
  lemma CutsDoNotMatter(role: Role, compression: bool, calls: seq<Call>, calls': seq<Call>)
    requires
      var t, t' := Run(Begin(role, compression), calls), Run(Begin(role, compression), calls');
      t.fed == t'.fed && Drained(t) && Drained(t')
    ensures Run(Begin(role, compression), calls).log == Run(Begin(role, compression), calls').log
  {
    hide OneShot, Step, Next, PayloadN, Do, Run, Drained;
    ReportsOneShot(role, compression, calls);
    ReportsOneShot(role, compression, calls');
    var t, t' := Run(Begin(role, compression), calls), Run(Begin(role, compression), calls');
    DrainedHasNothing(t);
    DrainedHasNothing(t');
    assert t.log + [] == t.log && t'.log + [] == t'.log;
  }

  /** A failure, or a close, is final: nothing is reported after it and its code stays. */
  lemma {:induction false} OverIsFinal(s: Session, calls: seq<Call>)
    requires s.rx.Valid() && s.rx.Over()
    ensures Run(s, calls).rx == s.rx && Run(s, calls).log == s.log
    ensures s.rx.failed.Some? ==> Next(s.rx, s.pending).err == Failed(s.rx.failed.value)
    decreases |calls|
  {
    if calls != [] {
      var t := Do(s, calls[0]);
      assert t.rx == s.rx && t.log == s.log;
      OverIsFinal(t, calls[1..]);
    }
  }
}
