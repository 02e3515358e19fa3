/**
 * What a receiver makes of a wire: a parser of the whole input at once, and
 * the incremental operations of ws/receiver.go measured against it.
 */
module Reception {
  import opened Bytes
  import opened Masking
  import opened Framing
  import Utf8

  datatype Role = Server | Client

  /** What the parser reports, octet by octet, in wire order. */
  datatype Event =
    | Frame(op: Opcode, rsv1: bool, length: nat)
    | Octet(b: byte)
    | EndFrame(fin: bool)
    | Control(cop: Opcode, payload: seq<byte>)
    | Fail(code: nat)

  /** The receiver's fields. `left` is what the decoder still expects of the open frame. */
  datatype Rx = Rx(
    role: Role, compression: bool,
    head: Head, remaining: nat, left: nat, key: Option<Key>, offset: Uint8,
    message: Option<Opcode>, compressed: bool,
    control: seq<byte>, controlOp: Opcode, controlOpen: bool,
    closed: bool, failed: Option<nat>)
  {
    predicate Valid() {
      && offset < 4
      && (Over() ==> left == 0 && remaining == 0 && !controlOpen)
      && (controlOpen ==> remaining == 0 && 0 < left && |control| + left <= 125)
      && (!controlOpen ==> remaining == left)
      && (remaining > 0 ==> message.Some?)
    }

    /** Nothing more will be taken. */
    predicate Over() { closed || failed.Some? }
  }

  const NO_HEAD: Head := Head(false, false, false, false, Continuation, None, 0)

  function Init(role: Role, compression: bool): (s: Rx)
    ensures s.Valid()
  {
    Rx(role, compression, NO_HEAD, 0, 0, None, 0,
       None, false, [], Continuation, false, false, None)
  }

  // ----- Close payloads: ws/close.go -----

  predicate ValidCloseCode(code: nat) {
    1000 <= code <= 1003 || 1007 <= code <= 1014 || 3000 <= code <= 4999
  }

  /** validateClose: the failure's close code, or None. */
  function CloseFault(payload: seq<byte>): Option<nat> {
    if |payload| == 0 then None
    else if |payload| < 2 || |payload| > 125 || !ValidCloseCode(BigEndian(payload[..2])) then Some(1002)
    else if !Utf8.WellFormed(payload[2..]) then Some(1007)
    else None
  }

  // ----- Steps on the fields -----

  function Unmasked(s: Rx, c: seq<byte>): (r: seq<byte>)
    ensures |r| == |c|
  {
    if s.key.Some? then Masked(c, s.key.value, s.offset) else c
  }

  /** The offset carried past `n` octets. */
  function Carried(s: Rx, n: nat): Uint8 {
    if s.key.Some? then (s.offset + n) % 4 else s.offset
  }

  /** fail. */
  function Failing(s: Rx, code: nat): Rx {
    s.(failed := Some(code), remaining := 0, left := 0, controlOpen := false, message := None)
  }

  /** accept. */
  predicate Accepts(s: Rx, h: Head) {
    && h.Masked() == s.role.Server? && !h.rsv2 && !h.rsv3
    && match h.op
       case Text => s.message.None? && (h.rsv1 ==> s.compression)
       case Binary => s.message.None? && (h.rsv1 ==> s.compression)
       case Continuation => s.message.Some? && !h.rsv1
       case Reserved(_) => false
       case _ => h.fin && !h.rsv1 && h.length <= 125
  }

  /** After an accepted header: masking set up, a control frame or a data frame open. */
  function Opened(s: Rx, h: Head): Rx {
    var t := s.(head := h, left := h.length, key := h.key, offset := 0);
    if h.op.IsData() then
      Ended(t.(remaining := h.length,
         message := if h.op.Continuation? then s.message else Some(h.op),
         compressed := if h.op.Continuation? then s.compressed else h.rsv1))
    else t.(controlOp := h.op, control := [], controlOpen := h.length > 0)
  }

  /** finishFrame, once the data frame is drained. */
  function Ended(s: Rx): Rx {
    if s.remaining == 0 && s.head.fin then s.(message := None) else s
  }

  /** Payload octets taken from the open data frame. */
  function Taken(s: Rx, n: nat): Rx
    requires n <= s.remaining && s.remaining == s.left
  {
    Ended(s.(remaining := s.remaining - n, left := s.left - n, offset := Carried(s, n)))
  }

  function Octets(c: seq<byte>): seq<Event> {
    seq(|c|, i requires 0 <= i < |c| => Octet(c[i]))
  }

  /** The events of taking `c` from the open data frame. */
  function TakenEvents(s: Rx, c: seq<byte>): seq<Event> {
    Octets(Unmasked(s, c)) + if |c| == s.remaining then [EndFrame(s.head.fin)] else []
  }

  /** Payload octets taken into the control buffer. */
  function Gathered(s: Rx, c: seq<byte>): Rx
    requires |c| <= s.left
  {
    s.(control := s.control + Unmasked(s, c), left := s.left - |c|, offset := Carried(s, |c|))
  }

  /** finishControl. */
  function Delivered(s: Rx): Rx {
    var t := s.(controlOpen := false, left := 0);
    if t.controlOp.Close? then
      match CloseFault(t.control) case Some(code) => Failing(t, code) case None => t.(closed := true, remaining := 0)
    else t
  }

  function DeliveredEvent(s: Rx): Event {
    if s.controlOp.Close? && CloseFault(s.control).Some? then Fail(CloseFault(s.control).value)
    else Control(s.controlOp, s.control)
  }

  // ----- The one-shot parser -----

  datatype Move = Stuck | Go(events: seq<Event>, next: Rx, used: nat)

  /** Between frames, with `all` octets pending of which `p` is the header. */
  function HeaderMove(s: Rx, p: Parsed, all: nat): (m: Move)
    requires s.Valid() && !s.Over() && !s.controlOpen && s.remaining == 0
    requires p.Complete? ==> 2 <= p.size <= all
    requires p.BadLength? ==> 2 <= all
    ensures m.Go? ==> 0 < m.used <= all && m.next.Valid()
  {
    match p
    case Incomplete => Stuck
    case BadLength => Go([Fail(1002)], Failing(s.(head := NO_HEAD), 1002), all)
    case Complete(h, n) =>
      if !Accepts(s, h) then Go([Fail(1002)], Failing(s.(head := h), 1002), all)
      else
        var t := Opened(s, h);
        if h.op.IsData() then
          Go([Frame(h.op, h.rsv1, h.length)] + if h.length == 0 then [EndFrame(h.fin)] else [], t, n)
        else if h.length > 0 then Go([], t, n)
        else Go([DeliveredEvent(t)], Delivered(t), if Delivered(t).Over() then all else n)
  }

  /** The next thing the input holds: a header, the rest of a payload, a whole control frame, or a failure. */
  function Step(s: Rx, input: seq<byte>): (m: Move)
    requires s.Valid()
    ensures m.Go? ==> 0 < m.used <= |input| && m.next.Valid()
  {
    if s.Over() then Stuck
    else if s.controlOpen then
      if |input| < s.left then Stuck
      else
        var t := Gathered(s, input[..s.left]);
        Go([DeliveredEvent(t)], Delivered(t), if Delivered(t).Over() then |input| else s.left)
    else if s.remaining > 0 then
      if input == [] then Stuck
      else
        var n := if |input| < s.remaining then |input| else s.remaining;
        Go(TakenEvents(s, input[..n]), Taken(s, n), n)
    else
      HeaderMove(s, ParseHeader(input), |input|)
  }

  /** Everything the input yields, from state `s`. */
  function OneShot(s: Rx, input: seq<byte>): seq<Event>
    requires s.Valid()
    decreases |input|
  {
    match Step(s, input)
    case Stuck => []
    case Go(events, next, used) => events + OneShot(next, input[used..])
  }

  /**
   * Taking `c` in state `s`, reporting `events` and going to `t`, is in step
   * with the one-shot parser, whatever comes after.
   */
  ghost predicate Tracks(s: Rx, c: seq<byte>, events: seq<Event>, t: Rx)
    requires s.Valid() && t.Valid()
  {
    forall rest :: OneShot(s, c + rest) == events + OneShot(t, rest)
  }

  lemma TracksCompose(s: Rx, c: seq<byte>, ev: seq<Event>, t: Rx, c': seq<byte>, ev': seq<Event>, u: Rx)
    requires s.Valid() && t.Valid() && u.Valid()
    requires Tracks(s, c, ev, t) && Tracks(t, c', ev', u)
    ensures Tracks(s, c + c', ev + ev', u)
  {
    hide Step, OneShot;
    forall rest
      ensures OneShot(s, c + c' + rest) == ev + ev' + OneShot(u, rest)
    {
      assert c + c' + rest == c + (c' + rest);
      assert OneShot(t, c' + rest) == ev' + OneShot(u, rest);
      assert ev + (ev' + OneShot(u, rest)) == ev + ev' + OneShot(u, rest);
    }
  }

  lemma TracksNothing(s: Rx)
    requires s.Valid()
    ensures Tracks(s, [], [], s)
  {
    hide Step, OneShot;
    forall rest
      ensures OneShot(s, [] + rest) == [] + OneShot(s, rest)
    {
      assert [] + rest == rest;
    }
  }

  lemma NothingFromNothing(s: Rx)
    requires s.Valid()
    ensures OneShot(s, []) == []
  {
  }

  lemma OverYieldsNothing(s: Rx, input: seq<byte>)
    requires s.Valid() && s.Over()
    ensures OneShot(s, input) == []
  {
  }

  /** A move that does not depend on what follows, or ends everything, is in step. */
  lemma MoveTracks(s: Rx, c: seq<byte>, m: Move)
    requires s.Valid() && m.Go? && m.next.Valid()
    requires forall rest :: var k := Step(s, c + rest);
               k.Go? && k.events == m.events && k.next == m.next && (k.used == |c| || k.next.Over())
    ensures Tracks(s, c, m.events, m.next)
  {
    forall rest
      ensures OneShot(s, c + rest) == m.events + OneShot(m.next, rest)
    {
      var k := Step(s, c + rest);
      if k.next.Over() {
        OverYieldsNothing(k.next, (c + rest)[k.used..]);
        OverYieldsNothing(k.next, rest);
      } else {
        assert (c + rest)[k.used..] == rest;
      }
    }
  }

  /** A header is taken whole, or everything pending is when it fails. */
  lemma HeaderTracks(s: Rx, input: seq<byte>)
    requires s.Valid() && !s.Over() && !s.controlOpen && s.remaining == 0
    requires !ParseHeader(input).Incomplete?
    ensures var m := Step(s, input); m.Go? && Tracks(s, input[..m.used], m.events, m.next)
  {
    hide Accepts, Opened, Delivered, DeliveredEvent, HeadOf, HeaderSize, PayloadLen, LengthCode;
    var m := Step(s, input);
    var c := input[..m.used];
    forall rest
      ensures var k := Step(s, c + rest);
              k.Go? && k.events == m.events && k.next == m.next && (k.used == |c| || k.next.Over())
    {
      HeaderStableOn(input, c, rest);
    }
    MoveTracks(s, c, m);
  }

  lemma HeaderStableOn(input: seq<byte>, c: seq<byte>, rest: seq<byte>)
    requires !ParseHeader(input).Incomplete? && c <= input
    requires |c| == |input| || (ParseHeader(input).Complete? && |c| == ParseHeader(input).size)
    ensures ParseHeader(c + rest) == ParseHeader(input)
  {
    if |c| == |input| {
      assert c == input;
      ParseHeaderStable(input, rest);
    } else {
      ParseHeaderExact(input);
      assert c == input[..|c|];
      ParseHeaderStable(c, rest);
    }
  }

  lemma UnmaskedChunks(s: Rx, a: seq<byte>, b: seq<byte>)
    ensures Unmasked(s, a + b) == Unmasked(s, a) + Unmasked(s.(offset := Carried(s, |a|)), b)
  {
    if s.key.Some? {
      MaskedChunks(a, b, s.key.value, s.offset);
    }
  }

  lemma OctetsAppend(a: seq<byte>, b: seq<byte>)
    ensures Octets(a + b) == Octets(a) + Octets(b)
  {
  }

  lemma CarriedTwice(s: Rx, m: nat, n: nat)
    ensures Carried(s.(offset := Carried(s, m)), n) == Carried(s, m + n)
  {
  }

  /** Taking a payload in two bites is taking it in one. */
  lemma TakenTwice(s: Rx, a: seq<byte>, b: seq<byte>)
    requires s.Valid() && !s.controlOpen && |a| < s.remaining && |a + b| <= s.remaining
    ensures Taken(Taken(s, |a|), |b|) == Taken(s, |a + b|)
    ensures TakenEvents(s, a + b) == TakenEvents(s, a) + TakenEvents(Taken(s, |a|), b)
  {
    hide Masked;
    UnmaskedChunks(s, a, b);
    OctetsAppend(Unmasked(s, a), Unmasked(s.(offset := Carried(s, |a|)), b));
    CarriedTwice(s, |a|, |b|);
  }

  lemma TakenValid(s: Rx, n: nat)
    requires s.Valid() && !s.Over() && n <= s.remaining && !s.controlOpen
    ensures Taken(s, n).Valid() && !Taken(s, n).Over() && !Taken(s, n).controlOpen
    ensures Taken(s, n).remaining == s.remaining - n
  {
  }

  lemma PayloadUnfolds(s: Rx, input: seq<byte>, n: nat)
    requires s.Valid() && !s.Over() && !s.controlOpen && s.remaining > 0 && input != []
    requires n == if |input| < s.remaining then |input| else s.remaining
    ensures Taken(s, n).Valid()
    ensures OneShot(s, input) == TakenEvents(s, input[..n]) + OneShot(Taken(s, n), input[n..])
  {
    hide Masked, ParseHeader, Accepts, Opened, Delivered, DeliveredEvent, TakenEvents;
  }

  lemma PayloadThen(s: Rx, c: seq<byte>, rest: seq<byte>)
    requires s.Valid() && !s.Over() && 0 < |c| <= s.remaining && !s.controlOpen && Taken(s, |c|).Valid()
    ensures OneShot(s, c + rest) == TakenEvents(s, c) + OneShot(Taken(s, |c|), rest)
  {
    hide Step, OneShot, Taken, TakenEvents;
    var t := Taken(s, |c|);
    TakenValid(s, |c|);
    var input := c + rest;
    var n := if |input| < s.remaining then |input| else s.remaining;
    PayloadUnfolds(s, input, n);
    var b := rest[..n - |c|];
    assert input[..n] == c + b && input[n..] == rest[n - |c|..];
    if b == [] {
      assert c + b == c && input[n..] == rest;
    } else {
      TakenTwice(s, c, b);
      PayloadUnfolds(t, rest, n - |c|);
      assert TakenEvents(s, c) + (TakenEvents(t, b) + OneShot(Taken(t, |b|), rest[n - |c|..]))
          == TakenEvents(s, c) + TakenEvents(t, b) + OneShot(Taken(t, |b|), rest[n - |c|..]);
    }
  }

  /** PayloadN: any part of what is available of the open data frame. */
  lemma PayloadTracks(s: Rx, c: seq<byte>)
    requires s.Valid() && !s.Over() && 0 < |c| <= s.remaining && !s.controlOpen
    ensures Taken(s, |c|).Valid() && Tracks(s, c, TakenEvents(s, c), Taken(s, |c|))
  {
    hide Step, OneShot, Taken, TakenEvents;
    TakenValid(s, |c|);
    forall rest
      ensures OneShot(s, c + rest) == TakenEvents(s, c) + OneShot(Taken(s, |c|), rest)
    {
      PayloadThen(s, c, rest);
    }
  }

  // ----- Control frames -----

  lemma GatheredTwice(s: Rx, a: seq<byte>, b: seq<byte>)
    requires |a + b| <= s.left
    ensures Gathered(Gathered(s, a), b) == Gathered(s, a + b)
  {
    hide Masked;
    UnmaskedChunks(s, a, b);
    CarriedTwice(s, |a|, |b|);
    assert s.control + Unmasked(s, a) + Unmasked(s.(offset := Carried(s, |a|)), b) == s.control + Unmasked(s, a + b);
  }

  /** A control frame's payload gathered in part: nothing is reported, nothing is lost. */
  lemma GatherTracks(s: Rx, c: seq<byte>)
    requires s.Valid() && s.controlOpen && |c| < s.left
    ensures Gathered(s, c).Valid() && Tracks(s, c, [], Gathered(s, c))
  {
    hide Masked, ParseHeader, Accepts, Opened, Delivered, DeliveredEvent;
    var t := Gathered(s, c);
    forall rest
      ensures OneShot(s, c + rest) == [] + OneShot(t, rest)
    {
      if |c + rest| >= s.left {
        var b := rest[..t.left];
        assert (c + rest)[..s.left] == c + b && (c + rest)[s.left..] == rest[t.left..];
        GatheredTwice(s, c, b);
        assert (c + rest)[|c + rest|..] == rest[|rest|..];
      }
    }
  }

  /** A control frame's payload complete: the frame is reported, or its failure. */
  lemma DeliverTracks(s: Rx, c: seq<byte>)
    requires s.Valid() && s.controlOpen && |c| == s.left
    ensures
      var t := Delivered(Gathered(s, c));
      t.Valid() && Tracks(s, c, [DeliveredEvent(Gathered(s, c))], t)
  {
    hide Masked, ParseHeader, Accepts, Opened, CloseFault, DeliveredEvent;
    var m := Step(s, c);
    assert c[..s.left] == c;
    forall rest
      ensures var k := Step(s, c + rest);
              k.Go? && k.events == m.events && k.next == m.next && (k.used == |c| || k.next.Over())
    {
      assert (c + rest)[..s.left] == c;
    }
    MoveTracks(s, c, m);
  }

  // ----- Next and PayloadN of ws/receiver.go -----

  datatype Kind = NeedInput | DataFrame | ControlFrame

  datatype NextErr = NoErr | PayloadPending | Failed(code: nat)

  datatype NextResult = NextResult(kind: Kind, err: NextErr, next: Rx, used: nat, events: seq<Event>)

  function FailWith(s: Rx, code: nat, used: nat): NextResult {
    NextResult(NeedInput, Failed(code), Failing(s, code), used, [Fail(code)])
  }

  /** finishControl's answer. */
  function Finish(s: Rx, used: nat): NextResult {
    var t := Delivered(s);
    if t.failed.Some? then NextResult(NeedInput, Failed(t.failed.value), t, used, [DeliveredEvent(s)])
    else NextResult(ControlFrame, NoErr, t, used, [DeliveredEvent(s)])
  }

  /** The control branch: gather what there is of the open control frame. `all` is what a reset drops. */
  function Gather(s: Rx, input: seq<byte>): NextResult
    requires s.controlOpen
  {
    var n := if |input| < s.left then |input| else s.left;
    var t := Gathered(s, input[..n]);
    if t.left > 0 then NextResult(NeedInput, NoErr, t, n, [])
    else Finish(t, if Delivered(t).Over() then |input| else n)
  }

  /** Next on the pending input. */
  function Next(s: Rx, input: seq<byte>): NextResult
    requires s.Valid()
  {
    if s.failed.Some? then NextResult(NeedInput, Failed(s.failed.value), s, 0, [])
    else if s.remaining != 0 then NextResult(NeedInput, PayloadPending, s, 0, [])
    else if s.closed then NextResult(NeedInput, NoErr, s, 0, [])
    else if s.controlOpen then Gather(s, input)
    else
      match ParseHeader(input)
      case Incomplete => NextResult(NeedInput, NoErr, s, 0, [])
      case BadLength => FailWith(s.(head := NO_HEAD), 1002, |input|)
      case Complete(h, n) =>
        if !Accepts(s, h) then FailWith(s.(head := h), 1002, |input|)
        else
          var t := Opened(s, h);
          if h.op.IsData() then
            NextResult(DataFrame, NoErr, t, n,
                       [Frame(h.op, h.rsv1, h.length)] + if h.length == 0 then [EndFrame(h.fin)] else [])
          else if h.length == 0 then Finish(t, if Delivered(t).Over() then |input| else n)
          else
            var g := Gather(t, input[n..]);
            g.(used := n + g.used)
  }

  lemma GatherInStep(s: Rx, input: seq<byte>)
    requires s.Valid() && s.controlOpen
    ensures
      var g := Gather(s, input);
      && g.used <= |input| && g.next.Valid()
      && Tracks(s, input[..g.used], g.events, g.next)
      && (g.kind == NeedInput && g.err == NoErr ==> OneShot(g.next, input[g.used..]) == [])
      && (g.next.Over() ==> g.used == |input|)
      && (g.kind != DataFrame)
  {
    hide Masked, CloseFault, Unmasked;
    var n := if |input| < s.left then |input| else s.left;
    var c := input[..n];
    var t := Gathered(s, c);
    if t.left > 0 {
      GatherTracks(s, c);
      assert input[n..] == [];
    } else {
      DeliverTracks(s, c);
      if Delivered(t).Over() {
        TracksAll(s, c, [DeliveredEvent(t)], Delivered(t), input[n..]);
        assert input[..|input|] == c + input[n..];
      }
    }
  }

  /** Once over, dropping what is pending loses nothing. */
  lemma TracksAll(s: Rx, c: seq<byte>, ev: seq<Event>, t: Rx, dropped: seq<byte>)
    requires s.Valid() && t.Valid() && t.Over() && Tracks(s, c, ev, t)
    ensures Tracks(s, c + dropped, ev, t)
  {
    hide Step;
    forall rest
      ensures OneShot(s, c + dropped + rest) == ev + OneShot(t, rest)
    {
      assert c + dropped + rest == c + (dropped + rest);
      OverYieldsNothing(t, rest);
      OverYieldsNothing(t, dropped + rest);
    }
  }

  /**
   * Next never leaves the one-shot parser: what it takes and reports is what
   * the parser would, and when it asks for input there was nothing more to be
   * had. A failure or a close takes everything pending.
   */
  lemma NextInStep(s: Rx, input: seq<byte>)
    requires s.Valid()
    ensures
      var r := Next(s, input);
      && r.used <= |input| && r.next.Valid()
      && Tracks(s, input[..r.used], r.events, r.next)
      && (r.kind == NeedInput && r.err == NoErr ==> OneShot(r.next, input[r.used..]) == [])
      && (!s.Over() && r.next.Over() ==> r.used == |input|)
  {
    hide CloseFault, Accepts, Opened, Delivered, DeliveredEvent, Gather, ParseHeader, Taken, TakenEvents;
    if s.Over() || s.remaining != 0 {
      TracksNothing(s);
    } else if s.controlOpen {
      GatherInStep(s, input);
    } else if ParseHeader(input).Incomplete? {
      TracksNothing(s);
      assert input[0..] == input;
    } else {
      HeaderNextInStep(s, input);
    }
  }

  lemma HeaderNextInStep(s: Rx, input: seq<byte>)
    requires s.Valid() && !s.Over() && s.remaining == 0 && !s.controlOpen && !ParseHeader(input).Incomplete?
    ensures
      var r := Next(s, input);
      && r.used <= |input| && r.next.Valid()
      && Tracks(s, input[..r.used], r.events, r.next)
      && (r.kind == NeedInput && r.err == NoErr ==> OneShot(r.next, input[r.used..]) == [])
      && (r.next.Over() ==> r.used == |input|)
  {
    hide CloseFault, Accepts, Opened, Delivered, DeliveredEvent, Gather, ParseHeader, OneShot, Taken, TakenEvents;
    HeaderTracks(s, input);
    var p := ParseHeader(input);
    if p.Complete? && Accepts(s, p.head) {
      OpenedIsOpen(s, p.head);
      if !p.head.op.IsData() && p.head.length > 0 {
        ThenGather(s, input, p.size, Opened(s, p.head));
      }
    }
  }

  lemma OpenedIsOpen(s: Rx, h: Head)
    ensures Opened(s, h).Over() == s.Over()
    ensures !h.op.IsData() && h.length > 0 ==> Opened(s, h).controlOpen
  {
  }

  lemma ThenGather(s: Rx, input: seq<byte>, n: nat, t: Rx)
    requires s.Valid() && t.Valid() && t.controlOpen && n <= |input| && Tracks(s, input[..n], [], t)
    ensures
      var g := Gather(t, input[n..]);
      && n + g.used <= |input| && g.next.Valid()
      && Tracks(s, input[..n + g.used], g.events, g.next)
      && (g.kind == NeedInput && g.err == NoErr ==> OneShot(g.next, input[n + g.used..]) == [])
      && (g.next.Over() ==> n + g.used == |input|)
  {
    hide Gather, OneShot, Step;
    var rest := input[n..];
    GatherInStep(t, rest);
    var g := Gather(t, rest);
    TracksCompose(s, input[..n], [], t, rest[..g.used], g.events, g.next);
    assert input[..n] + rest[..g.used] == input[..n + g.used];
    assert input[n + g.used..] == rest[g.used..];
    assert [] + g.events == g.events;
  }
}
