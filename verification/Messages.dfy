/** Messages in a parse of the wire: what is left of the current one, and which comes next. */
module Messages {
  import opened Bytes
  import opened Framing
  import opened Reception
  import opened Chunking

  /** The rest of a message: whole, or cut off by the end of the input or a failure. */
  datatype Remainder = Ends(content: seq<byte>) | Cut(content: seq<byte>) {
    function After(p: seq<byte>): Remainder {
      if Ends? then Ends(p + content) else Cut(p + content)
    }
  }

  /** The octets up to the end of the final frame. */
  function Rest(ev: seq<Event>): Remainder {
    if ev == [] then Cut([])
    else
      match ev[0]
      case Octet(b) => Rest(ev[1..]).After([b])
      case EndFrame(fin) => if fin then Ends([]) else Rest(ev[1..])
      case Fail(_) => Cut([])
      case _ => Rest(ev[1..])
  }

  /** A message as it starts: its opcode, whether it is compressed, and its payload. */
  datatype Coming = Coming(op: Opcode, compressed: bool, rest: Remainder)

  /** The messages still to start, once the open one is over. */
  function Scan(open: bool, ev: seq<Event>): seq<Coming>
    decreases |ev|
  {
    if ev == [] then []
    else
      match ev[0]
      case Frame(op, rsv1, _) =>
        if open then Scan(open, ev[1..]) else [Coming(op, rsv1, Rest(ev[1..]))] + Scan(true, ev[1..])
      case EndFrame(fin) => Scan(open && !fin, ev[1..])
      case _ => Scan(open, ev[1..])
  }

  /** A ping, a pong or the close. */
  datatype Signal = Signal(op: Opcode, payload: seq<byte>)

  /** The control frames among the events. */
  function Signals(ev: seq<Event>): seq<Signal>
    decreases |ev|
  {
    if ev == [] then []
    else (if ev[0].Control? then [Signal(ev[0].cop, ev[0].payload)] else []) + Signals(ev[1..])
  }

  /** Those ahead of the next message: within the open one, and behind it. */
  function Before(open: bool, ev: seq<Event>): seq<Signal>
    decreases |ev|
  {
    if ev == [] then []
    else
      match ev[0]
      case Control(op, payload) => [Signal(op, payload)] + Before(open, ev[1..])
      case Frame(_, _, _) => if open then Before(open, ev[1..]) else []
      case EndFrame(fin) => Before(open && !fin, ev[1..])
      case _ => Before(open, ev[1..])
  }

  /** What is left of the receiver's current message, `input` being all it will ever be fed. */
  function Left(s: Rx, input: seq<byte>): Remainder
    requires s.Valid()
  {
    if s.message.None? then Ends([]) else Rest(OneShot(s, input))
  }

  function Upcoming(s: Rx, input: seq<byte>): seq<Coming>
    requires s.Valid()
  {
    Scan(s.message.Some?, OneShot(s, input))
  }

  /** The control frames to come, and those that come before the next message. */
  function AllSignals(s: Rx, input: seq<byte>): seq<Signal>
    requires s.Valid()
  {
    Signals(OneShot(s, input))
  }

  function DueSignals(s: Rx, input: seq<byte>): seq<Signal>
    requires s.Valid()
  {
    Before(s.message.Some?, OneShot(s, input))
  }

  // ----- Events -----

  lemma {:induction false} RestOctets(c: seq<byte>, ev: seq<Event>)
    ensures Rest(Octets(c) + ev) == Rest(ev).After(c)
    decreases |c|
  {
    var all := Octets(c) + ev;
    if c == [] {
      assert all == ev;
      assert [] + Rest(ev).content == Rest(ev).content;
    } else {
      assert all[0] == Octet(c[0]) && all[1..] == Octets(c[1..]) + ev;
      RestOctets(c[1..], ev);
      assert [c[0]] + (c[1..] + Rest(ev).content) == c + Rest(ev).content;
    }
  }

  lemma {:induction false} ScanOctets(open: bool, c: seq<byte>, ev: seq<Event>)
    ensures Scan(open, Octets(c) + ev) == Scan(open, ev)
    decreases |c|
  {
    var all := Octets(c) + ev;
    if c == [] {
      assert all == ev;
    } else {
      assert all[0] == Octet(c[0]) && all[1..] == Octets(c[1..]) + ev;
      ScanOctets(open, c[1..], ev);
    }
  }

  lemma {:induction false} SignalOctets(open: bool, c: seq<byte>, ev: seq<Event>)
    ensures Signals(Octets(c) + ev) == Signals(ev) && Before(open, Octets(c) + ev) == Before(open, ev)
    decreases |c|
  {
    var all := Octets(c) + ev;
    if c == [] {
      assert all == ev;
    } else {
      assert all[0] == Octet(c[0]) && all[1..] == Octets(c[1..]) + ev;
      SignalOctets(open, c[1..], ev);
    }
  }

  lemma Unfold(e: Event, ev: seq<Event>)
    ensures ([e] + ev)[0] == e && ([e] + ev)[1..] == ev
  {
  }

  // ----- PayloadN -----

  /** Taking payload takes it off the front of what is left, and nothing else. */
  lemma PayloadTakes(s: Rx, c: seq<byte>, rest: seq<byte>)
    requires s.Valid() && !s.Over() && !s.controlOpen && 0 < |c| <= s.remaining
    ensures Taken(s, |c|).Valid()
    ensures Left(s, c + rest) == Left(Taken(s, |c|), rest).After(Unmasked(s, c))
    ensures Upcoming(s, c + rest) == Upcoming(Taken(s, |c|), rest)
    ensures AllSignals(s, c + rest) == AllSignals(Taken(s, |c|), rest)
    ensures DueSignals(s, c + rest) == DueSignals(Taken(s, |c|), rest)
  {
    hide OneShot, Step, Octets, Unmasked;
    var t := Taken(s, |c|);
    PayloadTracks(s, c);
    var u, ev := Unmasked(s, c), OneShot(t, rest);
    var end := EndFrame(s.head.fin);
    if |c| < s.remaining {
      assert TakenEvents(s, c) + ev == Octets(u) + ev;
      RestOctets(u, ev);
      ScanOctets(true, u, ev);
      SignalOctets(true, u, ev);
    } else {
      assert TakenEvents(s, c) + ev == Octets(u) + ([end] + ev);
      Unfold(end, ev);
      RestOctets(u, [end] + ev);
      ScanOctets(true, u, [end] + ev);
      SignalOctets(true, u, [end] + ev);
    }
  }

  // ----- Next -----

  /** What Next leaves of the current message and of what follows. */
  ghost predicate Advances(s: Rx, input: seq<byte>, t: Rx, input': seq<byte>)
    requires s.Valid() && t.Valid()
  {
    Left(t, input') == Left(s, input) && Upcoming(t, input') == Upcoming(s, input)
  }

  lemma QuietAdvances(s: Rx, c: seq<byte>, t: Rx, rest: seq<byte>, e: seq<Event>)
    requires s.Valid() && t.Valid() && Tracks(s, c, e, t) && t.message == s.message
    requires e == [] || (|e| == 1 && e[0].Control?)
    ensures Advances(s, c + rest, t, rest)
    ensures
      var signal := if e == [] then [] else [Signal(e[0].cop, e[0].payload)];
      && AllSignals(s, c + rest) == signal + AllSignals(t, rest)
      && DueSignals(s, c + rest) == signal + DueSignals(t, rest)
  {
    hide OneShot, Step;
    var ev := OneShot(t, rest);
    assert OneShot(s, c + rest) == e + ev;
    if e == [] {
      assert e + ev == ev;
    } else {
      assert e == [e[0]];
      Unfold(e[0], ev);
    }
  }

  /** A data frame continues the open message, or starts the next one. */
  lemma FrameAdvances(s: Rx, c: seq<byte>, t: Rx, rest: seq<byte>, h: Head)
    requires s.Valid() && t.Valid()
    requires Tracks(s, c, [Frame(h.op, h.rsv1, h.length)] + (if h.length == 0 then [EndFrame(h.fin)] else []), t)
    requires t.message.Some? == !(h.length == 0 && h.fin)
    ensures s.message.Some? ==> Advances(s, c + rest, t, rest)
    ensures s.message.None? ==> Upcoming(s, c + rest) == [Coming(h.op, h.rsv1, Left(t, rest))] + Upcoming(t, rest)
    ensures AllSignals(s, c + rest) == AllSignals(t, rest)
    ensures DueSignals(s, c + rest) == if s.message.Some? then DueSignals(t, rest) else []
  {
    hide OneShot, Step;
    var ev := OneShot(t, rest);
    var start := Frame(h.op, h.rsv1, h.length);
    if h.length == 0 {
      var end := EndFrame(h.fin);
      assert OneShot(s, c + rest) == [start] + [end] + ev;
      assert [start] + [end] + ev == [start] + ([end] + ev);
      Unfold(start, [end] + ev);
      Unfold(end, ev);
      assert Scan(true, [start] + ([end] + ev)) == Scan(true, [end] + ev) == Scan(!h.fin, ev);
      assert Rest([start] + ([end] + ev)) == Rest([end] + ev) == if h.fin then Ends([]) else Rest(ev);
      assert Signals([start] + ([end] + ev)) == Signals([end] + ev) == Signals(ev);
      assert Before(true, [start] + ([end] + ev)) == Before(true, [end] + ev) == Before(!h.fin, ev);
    } else {
      assert OneShot(s, c + rest) == [start] + [] + ev;
      assert [start] + [] + ev == [start] + ev;
      Unfold(start, ev);
    }
  }

  /** What a control frame leaves alone. */
  ghost predicate Quiet(s: Rx, r: NextResult) {
    && r.kind != DataFrame
    && (!r.err.Failed? ==>
          && r.next.message == s.message && r.next.failed == s.failed && r.next.remaining == s.remaining
          && r.next.compressed == s.compressed
          && (r.next.closed && !s.closed ==> r.kind == ControlFrame && r.next.controlOp.Close?)
          && (r.kind == ControlFrame && r.next.controlOp.Close? ==> r.next.closed))
  }

  lemma FinishQuiet(s: Rx, used: nat)
    requires s.failed.None? && s.remaining == 0
    ensures Quiet(s, Finish(s, used))
  {
    hide CloseFault;
  }

  lemma GatherQuiet(s: Rx, input: seq<byte>)
    requires s.controlOpen && s.failed.None? && s.remaining == 0
    ensures Quiet(s, Gather(s, input))
  {
    hide Finish, Delivered, Unmasked;
    var n := if |input| < s.left then |input| else s.left;
    var t := Gathered(s, input[..n]);
    FinishQuiet(t, if Delivered(t).Over() then |input| else n);
  }

  /** The header of a data frame as Next leaves it. */
  ghost predicate FrameOpened(s: Rx, t: Rx) {
    && t.head.op.IsData() && (s.message.None? <==> !t.head.op.Continuation?)
    && t.message.Some? == !(t.head.length == 0 && t.head.fin)
    && t.remaining == t.head.length && !t.Over() && !t.controlOpen
    && t.compressed == if t.head.op.Continuation? then s.compressed else t.head.rsv1
  }

  lemma NextOpensOrIsQuiet(s: Rx, input: seq<byte>)
    requires s.Valid() && !s.Over() && s.remaining == 0
    ensures
      var r := Next(s, input);
      if r.kind == DataFrame then FrameOpened(s, r.next) else Quiet(s, r)
  {
    hide ParseHeader, CloseFault, Gather, Finish, Delivered;
    if s.controlOpen {
      GatherQuiet(s, input);
    } else if ParseHeader(input).Complete? && Accepts(s, ParseHeader(input).head) {
      var p := ParseHeader(input);
      var t := Opened(s, p.head);
      if !p.head.op.IsData() {
        if p.head.length == 0 {
          FinishQuiet(t, if Delivered(t).Over() then |input| else p.size);
        } else {
          GatherQuiet(t, input[p.size..]);
        }
      }
    }
  }

  /** A message that ends has all of its open frame. */
  lemma OpenFrameIsWhole(s: Rx, input: seq<byte>)
    requires s.Valid() && !s.Over() && s.remaining > 0 && Left(s, input).Ends?
    ensures |Left(s, input).content| >= s.remaining
  {
    hide OneShot, Step, Unmasked;
    if input == [] {
      NothingFromNothing(s);
    } else {
      var n := if |input| < s.remaining then |input| else s.remaining;
      assert input == input[..n] + input[n..];
      PayloadTakes(s, input[..n], input[n..]);
      TakenValid(s, n);
      if n < s.remaining {
        NothingFromNothing(Taken(s, n));
      }
    }
  }

  /** A frame takes input. */
  lemma FrameTakes(s: Rx, input: seq<byte>)
    requires s.Valid() && Next(s, input).kind != NeedInput
    ensures Next(s, input).used > 0
  {
    hide ParseHeader, CloseFault, Unmasked, Delivered, Accepts;
  }
}
