/**
 * The read API at the far end: repeated ReadMessage, however the transport
 * cuts the wire up, returns the messages the other side said, in order.
 */
module ReadEndToEnd {
  import opened Bytes
  import opened Framing
  import opened Reception
  import opened Messages
  import opened Wire
  import opened DeflateWindow
  import C = ConnReads
  import D = Decompressors
  import E = EndToEnd
  import Flate
  import S = Sending
  import T = Takeover
  import Utf8

  // ----- The shape of a parse -----

  /** Frames of one message at a time, octets within them, and nothing after a failure. */
  predicate Orderly(open: bool, ev: seq<Event>)
    decreases |ev|
  {
    ev != [] ==>
      match ev[0]
      case Frame(op, _, _) => op.IsData() && op.Continuation? == open && Orderly(true, ev[1..])
      case Octet(_) => open && Orderly(open, ev[1..])
      case EndFrame(fin) => open && Orderly(!fin, ev[1..])
      case Control(_, _) => Orderly(open, ev[1..])
      case Fail(_) => ev[1..] == []
  }

  lemma {:induction false} OrderlyOctets(c: seq<byte>, ev: seq<Event>)
    requires Orderly(true, ev)
    ensures Orderly(true, Octets(c) + ev)
    decreases |c|
  {
    var all := Octets(c) + ev;
    if c == [] {
      assert all == ev;
    } else {
      assert all[0] == Octet(c[0]) && all[1..] == Octets(c[1..]) + ev;
      OrderlyOctets(c[1..], ev);
    }
  }

  lemma OrderlyFirst(open: bool, e: Event, ev: seq<Event>)
    requires Orderly(open, [e]) && (e.Fail? ==> ev == [])
    requires Orderly(if e.Frame? then true else if e.EndFrame? then !e.fin else open, ev)
    ensures Orderly(open, [e] + ev)
  {
    Unfold(e, ev);
  }

  /** The header of a data frame, and its end when it is empty. */
  lemma OrderlyFrame(s: Rx, h: Head, ev: seq<Event>)
    requires Accepts(s, h) && h.op.IsData() && Orderly(Opened(s, h).message.Some?, ev)
    ensures Orderly(s.message.Some?,
      [Frame(h.op, h.rsv1, h.length)] + (if h.length == 0 then [EndFrame(h.fin)] else []) + ev)
  {
    var start, end := Frame(h.op, h.rsv1, h.length), EndFrame(h.fin);
    assert [start][1..] == [];
    if h.length == 0 {
      OrderlyEnd(h.fin, ev);
      OrderlyFirst(s.message.Some?, start, [end] + ev);
      assert [start] + [end] + ev == [start] + ([end] + ev);
    } else {
      OrderlyFirst(s.message.Some?, start, ev);
      assert [start] + [] + ev == [start] + ev;
    }
  }

  lemma OrderlyPayload(s: Rx, c: seq<byte>, ev: seq<Event>)
    requires s.Valid() && !s.controlOpen && 0 < |c| <= s.remaining && Orderly(Taken(s, |c|).message.Some?, ev)
    ensures Orderly(true, TakenEvents(s, c) + ev)
  {
    hide Octets, Unmasked, Orderly, Taken;
    var u := Unmasked(s, c);
    OpenUntilEnd(s, |c|);
    if |c| == s.remaining {
      var end := EndFrame(s.head.fin);
      OrderlyEnd(s.head.fin, ev);
      OrderlyOctets(u, [end] + ev);
      assert Octets(u) + [end] + ev == Octets(u) + ([end] + ev);
    } else {
      OrderlyOctets(u, ev);
      assert Octets(u) + [] + ev == Octets(u) + ev;
    }
  }

  lemma OpenUntilEnd(s: Rx, n: nat)
    requires s.Valid() && !s.controlOpen && 0 < n <= s.remaining
    ensures Taken(s, n).message.Some? == !(n == s.remaining && s.head.fin)
  {
  }

  lemma OrderlyEnd(fin: bool, ev: seq<Event>)
    requires Orderly(!fin, ev)
    ensures Orderly(true, [EndFrame(fin)] + ev)
  {
    Unfold(EndFrame(fin), ev);
  }

  /** A control frame delivered, or refused. */
  lemma OrderlyControl(s: Rx, t: Rx, ev: seq<Event>)
    requires t.message == s.message && (Delivered(t).failed.Some? ==> ev == [])
      && Orderly(Delivered(t).message.Some?, ev)
    requires t.failed.None?
    ensures Orderly(s.message.Some?, [DeliveredEvent(t)] + ev)
  {
    hide CloseFault;
    assert [DeliveredEvent(t)][1..] == [];
    OrderlyFirst(s.message.Some?, DeliveredEvent(t), ev);
  }

  lemma OrderlyFailure(open: bool, code: nat, ev: seq<Event>)
    requires ev == []
    ensures Orderly(open, [Fail(code)] + ev)
  {
    Unfold(Fail(code), ev);
  }

  /** What one step reports goes before whatever is orderly after it. */
  lemma StepOrderly(s: Rx, input: seq<byte>, ev: seq<Event>)
    requires s.Valid() && Step(s, input).Go?
    requires var t := Step(s, input).next; (t.failed.Some? ==> ev == []) && Orderly(t.message.Some?, ev)
    ensures Orderly(s.message.Some?, Step(s, input).events + ev)
  {
    hide Orderly, Delivered, DeliveredEvent, Accepts, TakenEvents, ParseHeader, Unmasked;
    if s.controlOpen {
      OrderlyControl(s, Gathered(s, input[..s.left]), ev);
    } else if s.remaining > 0 {
      var n := if |input| < s.remaining then |input| else s.remaining;
      OrderlyPayload(s, input[..n], ev);
    } else {
      HeaderOrderly(s, ParseHeader(input), |input|, ev);
    }
  }

  lemma HeaderOrderly(s: Rx, p: Parsed, all: nat, ev: seq<Event>)
    requires s.Valid() && !s.Over() && !s.controlOpen && s.remaining == 0
    requires p.Complete? ==> 2 <= p.size <= all
    requires p.BadLength? ==> 2 <= all
    requires HeaderMove(s, p, all).Go?
    requires var t := HeaderMove(s, p, all).next; (t.failed.Some? ==> ev == []) && Orderly(t.message.Some?, ev)
    ensures Orderly(s.message.Some?, HeaderMove(s, p, all).events + ev)
  {
    hide Orderly, Delivered, DeliveredEvent, Accepts;
    if p.BadLength? || !Accepts(s, p.head) {
      OrderlyFailure(s.message.Some?, 1002, ev);
    } else if p.head.op.IsData() {
      OrderlyFrame(s, p.head, ev);
    } else if p.head.length > 0 {
      assert [] + ev == ev;
    } else {
      OrderlyControl(s, Opened(s, p.head), ev);
    }
  }

  /** Whatever the wire holds, its parse is orderly. */
  lemma {:induction false} ParseIsOrderly(s: Rx, input: seq<byte>)
    requires s.Valid()
    ensures Orderly(s.message.Some?, OneShot(s, input))
    decreases |input|
  {
    hide Step, Orderly;
    var m := Step(s, input);
    if m.Go? {
      var rest := input[m.used..];
      ParseIsOrderly(m.next, rest);
      if m.next.failed.Some? {
        OverYieldsNothing(m.next, rest);
      }
      StepOrderly(s, input, OneShot(m.next, rest));
    } else {
      NothingIsOrderly(s.message.Some?);
    }
  }

  lemma NothingIsOrderly(open: bool)
    ensures Orderly(open, [])
  {
  }

  // ----- Upcoming messages are the items put together -----

  /** The messages that come to their end. */
  function Finished(ahead: seq<Coming>): seq<S.Item> {
    if ahead == [] then []
    else
      (match ahead[0].rest
       case Ends(content) => [S.Message(ahead[0].op, ahead[0].compressed, content)]
       case Cut(_) => [])
      + Finished(ahead[1..])
  }

  /** The messages among the items. */
  function Texts(items: seq<S.Item>): seq<S.Item> {
    if items == [] then [] else (if items[0].Message? then [items[0]] else []) + Texts(items[1..])
  }

  lemma {:induction false} TextsAppend(a: seq<S.Item>, b: seq<S.Item>)
    ensures Texts(a + b) == Texts(a) + Texts(b)
    decreases |a|
  {
    if a == [] {
      assert a + b == b;
    } else {
      var head := if a[0].Message? then [a[0]] else [];
      assert (a + b)[1..] == a[1..] + b && (a + b)[0] == a[0];
      TextsAppend(a[1..], b);
      assert head + (Texts(a[1..]) + Texts(b)) == head + Texts(a[1..]) + Texts(b);
    }
  }

  lemma TextsOne(i: S.Item)
    ensures Texts([i]) == if i.Message? then [i] else []
  {
    assert [i][1..] == [];
  }

  /** The message being put together, if the events to come end it. */
  function Current(b: S.Inbox, ev: seq<Event>): seq<S.Item> {
    if b.open.Some? && Rest(ev).Ends?
    then [S.Message(b.open.value.op, b.open.value.compressed, b.content + Rest(ev).content)]
    else []
  }

  /** What an inbox will hold: what it holds, the message in progress, and those that start and end after it. */
  ghost predicate Collects(b: S.Inbox, ev: seq<Event>) {
    Texts(S.TakeAll(b, ev).items) == Texts(b.items) + Current(b, ev) + Finished(Scan(b.open.Some?, ev))
  }

  lemma FrameCollects(b: S.Inbox, ev: seq<Event>)
    requires ev != [] && ev[0].Frame? && Orderly(b.open.Some?, ev) && Collects(S.Take(b, ev[0]), ev[1..])
    ensures Collects(b, ev)
  {
    hide S.TakeAll, Texts;
    TakeFirst(b, ev);
    if b.open.None? {
      var rest := ev[1..];
      var c := Coming(ev[0].op, ev[0].rsv1, Rest(rest));
      assert [] + Rest(rest).content == Rest(rest).content;
      var ahead := [c] + Scan(true, rest);
      assert ahead[0] == c && ahead[1..] == Scan(true, rest);
      var x, y := Current(S.Take(b, ev[0]), rest), Finished(Scan(true, rest));
      assert Finished(ahead) == x + y;
      assert Texts(b.items) + x + y == Texts(b.items) + [] + (x + y);
    }
  }

  lemma OctetCollects(b: S.Inbox, ev: seq<Event>)
    requires ev != [] && ev[0].Octet? && Orderly(b.open.Some?, ev) && Collects(S.Take(b, ev[0]), ev[1..])
    ensures Collects(b, ev)
  {
    hide S.TakeAll, Texts, Finished;
    TakeFirst(b, ev);
    var x, c := [ev[0].b], Rest(ev[1..]).content;
    assert b.content + x + c == b.content + (x + c);
  }

  lemma EndCollects(b: S.Inbox, ev: seq<Event>)
    requires ev != [] && ev[0].EndFrame? && Orderly(b.open.Some?, ev) && Collects(S.Take(b, ev[0]), ev[1..])
    ensures Collects(b, ev)
  {
    hide S.TakeAll, Texts, Finished;
    TakeFirst(b, ev);
    if ev[0].fin {
      var i := S.Message(b.open.value.op, b.open.value.compressed, b.content);
      TextsAppend(b.items, [i]);
      TextsOne(i);
      assert b.content + [] == b.content;
      assert Texts(b.items) + [i] + [] == Texts(b.items) + [i];
    }
  }

  lemma ControlCollects(b: S.Inbox, ev: seq<Event>)
    requires ev != [] && ev[0].Control? && Orderly(b.open.Some?, ev) && Collects(S.Take(b, ev[0]), ev[1..])
    ensures Collects(b, ev)
  {
    hide S.TakeAll, Texts, Finished;
    TakeFirst(b, ev);
    var i := S.ControlItem(ev[0].cop, ev[0].payload);
    TextsAppend(b.items, [i]);
    TextsOne(i);
    assert Texts(b.items) + [] == Texts(b.items);
  }

  lemma FailureCollects(b: S.Inbox, ev: seq<Event>)
    requires ev != [] && ev[0].Fail? && ev[1..] == []
    ensures Collects(b, ev)
  {
    hide S.TakeAll, Texts;
    TakeFirst(b, ev);
    S.TakeNothing(b);
    assert Scan(b.open.Some?, ev) == Scan(b.open.Some?, []) == [] && S.Take(b, ev[0]) == b;
    assert Current(b, ev) == [] && Finished([]) == [];
    assert Texts(b.items) + [] + [] == Texts(b.items);
  }

  lemma TakeFirst(b: S.Inbox, ev: seq<Event>)
    requires ev != []
    ensures S.TakeAll(b, ev) == S.TakeAll(S.Take(b, ev[0]), ev[1..])
  {
  }

  lemma {:induction false} EventsCollect(b: S.Inbox, ev: seq<Event>)
    requires Orderly(b.open.Some?, ev)
    ensures Collects(b, ev)
    decreases |ev|
  {
    if ev == [] {
      assert Texts(b.items) + [] + [] == Texts(b.items);
    } else {
      hide Collects;
      if ev[0].Fail? {
        FailureCollects(b, ev);
      } else {
        EventsCollect(S.Take(b, ev[0]), ev[1..]);
        match ev[0]
        case Frame(_, _, _) => FrameCollects(b, ev);
        case Octet(_) => OctetCollects(b, ev);
        case EndFrame(_) => EndCollects(b, ev);
        case Control(_, _) => ControlCollects(b, ev);
      }
    }
  }

  /**
   * On any wire at all: the messages ahead of a fresh connection that come to
   * their end are the ones a peer puts together from the parse.
   */
  lemma UpcomingAreTheItems(role: Role, compression: bool, wire: seq<byte>)
    ensures
      var s := Init(role, compression);
      Finished(Upcoming(s, wire)) == Texts(S.TakeAll(S.NOTHING_HEARD, OneShot(s, wire)).items)
  {
    hide OneShot, S.TakeAll, Scan, Orderly, Finished;
    var s := Init(role, compression);
    ParseIsOrderly(s, wire);
    EventsCollect(S.NOTHING_HEARD, OneShot(s, wire));
    var f := Finished(Upcoming(s, wire));
    assert Texts([]) + [] + f == f;
  }

  // ----- Only the last message can be cut off -----

  lemma {:induction false} NothingAfterCut(ev: seq<Event>)
    requires Orderly(true, ev) && Rest(ev).Cut?
    ensures Scan(true, ev) == []
    decreases |ev|
  {
    if ev != [] && !ev[0].Fail? {
      NothingAfterCut(ev[1..]);
    }
  }

  lemma {:induction false} CutIsLast(open: bool, ev: seq<Event>)
    requires Orderly(open, ev) && Scan(open, ev) != [] && Scan(open, ev)[0].rest.Cut?
    ensures |Scan(open, ev)| == 1
    decreases |ev|
  {
    match ev[0]
    case Frame(_, _, _) =>
      if open {
        CutIsLast(true, ev[1..]);
      } else {
        NothingAfterCut(ev[1..]);
      }
    case EndFrame(fin) => CutIsLast(!fin, ev[1..]);
    case Fail(_) =>
    case _ => CutIsLast(open, ev[1..]);
  }

  lemma NoneFinishedAfterCut(s: Rx, input: seq<byte>)
    requires s.Valid() && (Upcoming(s, input) == [] || Upcoming(s, input)[0].rest.Cut?)
    ensures Finished(Upcoming(s, input)) == []
  {
    hide OneShot, Scan, Orderly;
    ParseIsOrderly(s, input);
    var ahead := Upcoming(s, input);
    if ahead != [] {
      CutIsLast(s.message.Some?, OneShot(s, input));
      assert ahead[1..] == [];
    }
  }

  // ----- What is said among what is heard -----

  /** The messages among what is said or heard. */
  function Arrivals(hs: seq<E.Heard>): seq<E.Heard> {
    if hs == [] then [] else (if hs[0].Arrived? then [hs[0]] else []) + Arrivals(hs[1..])
  }

  /** Control frames do not touch the window. */
  lemma {:induction false} ListenTexts(inf: Flate.Inflate, r: T.Receiver, items: seq<S.Item>)
    ensures E.Listen(inf, r, Texts(items)) == Arrivals(E.Listen(inf, r, items))
    decreases |items|
  {
    hide T.Received, T.Receiving, E.FrameOf;
    if items != [] {
      var i := items[0];
      var r' := if i.Message? then T.Receiving(inf, r, E.FrameOf(i)) else r;
      ListenTexts(inf, r', items[1..]);
      if i.Message? {
        assert Texts(items)[0] == i && Texts(items)[1..] == Texts(items[1..]);
      } else {
        assert Texts(items) == Texts(items[1..]);
      }
      var all := E.Listen(inf, r, items);
      assert all[1..] == E.Listen(inf, r', items[1..]);
    }
  }

  /** The far end of a run of any calls of the write API, coded against the history at its point. */
  ghost function WireOf<W>(cfg: S.Config, snd: T.Sender<W>, w: W, calls: seq<S.Call>): seq<byte> {
    EncodedAll(S.Frames(cfg, S.IDLE, E.Run(cfg, S.IDLE, snd, w, calls)))
  }

  /** The messages ahead of its reader are the messages sent, and those said. */
  lemma UpcomingAsSpoken<W(!new)>(inf: Flate.Inflate, cfg: S.Config, snd: T.Sender<W>, w: W, r: T.Receiver,
                                  calls: seq<S.Call>)
    requires Flate.Sound(snd.enc, inf) && T.Synchronous(snd, w, r, []) && S.AllFit(E.Run(cfg, S.IDLE, snd, w, calls))
    ensures
      var run := E.Run(cfg, S.IDLE, snd, w, calls);
      var ahead := Upcoming(Init(cfg.Peer(), cfg.compression), WireOf(cfg, snd, w, calls));
      && Finished(ahead) == Texts(S.RecordAll(cfg, S.IDLE, S.NOTHING_SENT, run).items)
      && E.Listen(inf, r, Finished(ahead)) == Arrivals(E.SayAll(cfg, S.IDLE, E.NOTHING_SAID, run).said)
  {
    hide OneShot, EncodedAll, Upcoming, Finished, Texts, Arrivals, S.Frames, S.TakeAll, S.RecordAll, S.AllFit;
    hide E.Run, E.SayAll, E.Listen, T.Synchronous;
    var run := E.Run(cfg, S.IDLE, snd, w, calls);
    UpcomingAreTheItems(cfg.Peer(), cfg.compression, WireOf(cfg, snd, w, calls));
    S.MessagesDelivered(cfg, run);
    ListenTexts(inf, r, S.RecordAll(cfg, S.IDLE, S.NOTHING_SENT, run).items);
    E.RunListens(inf, cfg, snd, w, r, calls);
  }

  // ----- Repeated ReadMessage -----

  /** The receiver's history is the window's. */
  ghost predicate Holds(r: T.Receiver, w: Option<Window>)
    reads if w.Some? then {w.value} else {}
  {
    if r.None? then w.None?
    else w.Some? && r.value.Valid() && r.value.size == w.value.Size() && r.value.data == w.value.Dict()
  }

  /** ReadMessage understands an item as a listener does, and remembers as much of it. */
  lemma UnderstoodIsReceived(d: D.Decompressor, r: T.Receiver, w: Option<Window>, past: seq<byte>, i: S.Item)
    requires i.Message? && r.Some? == w.Some? && (r.None? ==> past == [])
    requires r.Some? ==> r.value.Valid() && r.value.size == w.value.Size() && r.value.data == past
    ensures T.Received(d.reader.inf, r, E.FrameOf(i)) == C.Understood(d, w, i.compressed, past, i.content)
    ensures
      var x, r' := T.Received(d.reader.inf, r, E.FrameOf(i)), T.Receiving(d.reader.inf, r, E.FrameOf(i));
      && r'.Some? == r.Some?
      && (r'.Some? && x.Some? ==>
            r'.value.Valid() && r'.value.size == r.value.size
              && r'.value.data == C.Kept(w, i.compressed, past, x.value))
  {
    hide D.Message, SizeOf;
    assert past + [] == past;
  }

  lemma FinishedFirst(ahead: seq<Coming>)
    requires ahead != [] && ahead[0].rest.Ends?
    ensures Finished(ahead)
      == [S.Message(ahead[0].op, ahead[0].compressed, ahead[0].rest.content)] + Finished(ahead[1..])
  {
  }

  /** A message the connection's limit and UTF-8 check let through. */
  predicate Admits(limit: nat, validateUtf8: bool, i: S.Item, h: E.Heard) {
    && i.Message? && |i.content| <= limit && h.Arrived? && h.text.Some? && |h.text.value| <= limit
    && (i.op.Text? && validateUtf8 ==> Utf8.WellFormed(h.text.value))
  }

  /** How a listener hears the item after `done`. */
  lemma HeardNext(inf: Flate.Inflate, r: T.Receiver, done: seq<S.Item>, i: S.Item, rest: seq<S.Item>)
    requires i.Message?
    ensures
      var all := E.Listen(inf, r, done + ([i] + rest));
      && |E.Listen(inf, r, done)| == |done| < |all|
      && all[|done|] == Hears(inf, E.Hearing(inf, r, done), i)
  {
    hide T.Received, T.Receiving, E.FrameOf, E.Listen, E.Hearing;
    E.ListenSnoc(inf, r, done, i);
    assert done + ([i] + rest) == done + [i] + rest;
    E.ListenPrefix(inf, r, done + [i], done + [i] + rest);
    ListenLength(inf, r, done);
  }

  lemma {:induction false} ListenLength(inf: Flate.Inflate, r: T.Receiver, items: seq<S.Item>)
    ensures |E.Listen(inf, r, items)| == |items|
    decreases |items|
  {
    hide T.Received, T.Receiving, E.FrameOf;
    if items != [] {
      ListenLength(inf, if items[0].Message? then T.Receiving(inf, r, E.FrameOf(items[0])) else r, items[1..]);
    }
  }

  /** A connection between messages, with its inflater and its history. */
  ghost predicate Ready(c: C.Conn, d: D.Decompressor, w: Option<Window>, r: T.Receiver)
    reads c, d, d.reader, d.scratch, if d.window.Some? then {d.window.value} else {}, if w.Some? then {w.value} else {}
  {
    c.Valid() && c.s.readErr.None? && !c.s.inMessage && d.Idle() && C.Fit(d, w) && Holds(r, w)
  }

  /** What a listener with history `r` makes of an item. */
  function Hears(inf: Flate.Inflate, r: T.Receiver, i: S.Item): E.Heard
    requires i.Message?
  {
    E.Arrived(i.op, T.Received(inf, r, E.FrameOf(i)))
  }

  /** ReadMessage as a listener: it hears the first message that is to end, or it is not admitted. */
  method ReadNext(c: C.Conn, d: D.Decompressor, w: Option<Window>, ghost r: T.Receiver, spare: nat)
    returns (h: E.Heard, err: Option<C.Err>)
    requires Ready(c, d, w, r)
    modifies c, d, d.reader, d.scratch, if w.Some? then {w.value} else {}
    ensures c.Valid() && d.Idle() && C.Fit(d, w)
    ensures
      var all := Finished(old(c.s).Upcoming());
      && (forall i :: i in all ==> i.Message?)
      && (err.None? ==>
            && all != [] && Finished(c.s.Upcoming()) == all[1..] && h == Hears(d.reader.inf, r, all[0])
            && Admits(c.limit, c.validateUtf8, all[0], h)
            && Ready(c, d, w, T.Receiving(d.reader.inf, r, E.FrameOf(all[0]))))
      && (d.reader.steady && old(c.s).Undisturbed() ==>
            && c.s.Undisturbed()
            && (err.Some? && all != [] ==> !Admits(c.limit, c.validateUtf8, all[0], Hears(d.reader.inf, r, all[0]))))
  {
    hide C.Relays, C.Keeps, C.Obeys, C.Reading.Due;
    hide C.Understood, C.Kept, C.Conn.LeftFor, C.Reading.Undisturbed, SizeOf, Messages.Upcoming, Finished;
    hide T.Received, T.Receiving, E.FrameOf;
    ghost var ahead, past := c.s.Upcoming(), C.Past(w);
    FinishedAreMessages(ahead);
    assert ahead == [] || ahead[0].rest.Cut? ==> Finished(ahead) == [] by {
      if ahead == [] || ahead[0].rest.Cut? {
        NoneFinishedAfterCut(c.s.rx, c.s.Input());
      }
    }
    var op, msg;
    op, msg, err := c.ReadMessage(d, w, spare);
    if ahead != [] && ahead[0].rest.Ends? {
      FinishedFirst(ahead);
      assert Finished(ahead)[1..] == Finished(ahead[1..]);
      UnderstoodIsReceived(d, r, w, past, Finished(ahead)[0]);
    }
    h := E.Arrived(op, Some(msg));
  }

  lemma FinishedAreMessages(ahead: seq<Coming>)
    ensures forall i :: i in Finished(ahead) ==> i.Message?
  {
  }

  // ----- Every way of handling a message -----

  type Positive = n: nat | n > 0 witness 1

  /**
   * What a reader does with a message: ReadMessage; Read to its end, with
   * buffers of the given sizes and then of one size; or Read with some
   * buffers, or none, and leave the rest of it to be discarded.
   */
  datatype Choice = Whole | Streamed(sizes: seq<nat>, size: Positive) | Abandoned(sizes: seq<nat>)

  /** What it is told, given what a listener hears: all of it, or the first of an abandoned message. */
  predicate Told(choice: Choice, h: E.Heard, heard: E.Heard) {
    if choice.Abandoned? then
      && h.Arrived? && heard.Arrived? && h.op == heard.op && h.text.Some?
      && (heard.text.Some? ==> h.text.value <= heard.text.value)
    else h == heard
  }

  /** The message can be handled so: it inflates, and read whole it is admitted. */
  predicate Suits(c: C.Conn, choice: Choice, i: S.Item, heard: E.Heard) {
    heard.Arrived? && heard.text.Some? && (choice.Whole? ==> Admits(c.limit, c.validateUtf8, i, heard))
  }

  /** What handling the first message gives: it is behind, in the history too, or it did not suit. */
  twostate predicate Handled(c: C.Conn, d: D.Decompressor, w: Option<Window>, r: T.Receiver, choice: Choice,
                             new h: E.Heard, new err: Option<C.Err>)
    requires old(c.Valid()) && c.Valid()
    reads c, d, d.reader, d.scratch, if d.window.Some? then {d.window.value} else {}, if w.Some? then {w.value} else {}
  {
    var all := Finished(old(c.s.Upcoming()));
    && (forall i :: i in all ==> i.Message?)
    && (err.None? ==>
          && all != [] && Finished(c.s.Upcoming()) == all[1..]
          && Told(choice, h, Hears(d.reader.inf, r, all[0]))
          && (choice.Whole? ==> Admits(c.limit, c.validateUtf8, all[0], h))
          && Ready(c, d, w, T.Receiving(d.reader.inf, r, E.FrameOf(all[0]))))
    && (d.reader.steady && old(c.s.Undisturbed()) ==>
          && c.s.Undisturbed()
          && (err.Some? && all != [] ==> !Suits(c, choice, all[0], Hears(d.reader.inf, r, all[0]))))
  }

  /** The message ahead, once it has been entered. */
  lemma Entered(s: Rx, input: seq<byte>, ahead: seq<Coming>)
    requires s.Valid() && ahead == Upcoming(s, input)
    ensures forall i :: i in Finished(ahead) ==> i.Message?
    ensures ahead == [] || ahead[0].rest.Cut? ==> Finished(ahead) == []
    ensures ahead != [] && ahead[0].rest.Ends? ==>
      && Finished(ahead) == [S.Message(ahead[0].op, ahead[0].compressed, ahead[0].rest.content)] + Finished(ahead[1..])
      && Finished(ahead)[1..] == Finished(ahead[1..])
  {
    hide Upcoming, Finished;
    FinishedAreMessages(ahead);
    if ahead == [] || ahead[0].rest.Cut? {
      NoneFinishedAfterCut(s, input);
    } else {
      FinishedFirst(ahead);
    }
  }

  /** NextMessage, then Read to the end. */
  method Stream(c: C.Conn, d: D.Decompressor, w: Option<Window>, ghost r: T.Receiver, choice: Choice, spare: nat)
    returns (h: E.Heard, err: Option<C.Err>)
    requires Ready(c, d, w, r) && choice.Streamed?
    modifies c, d, d.reader, d.scratch, if w.Some? then {w.value} else {}
    ensures c.Valid() && c.Usable(d, w) && Handled(c, d, w, r, choice, h, err)
  {
    hide C.Reading.Undisturbed, SizeOf, Messages.Upcoming, Messages.Left, Finished, Last;
    hide T.Received, T.Receiving, E.FrameOf, D.Message, C.Relays, C.Keeps, C.Obeys, C.Reading.Due;
    ghost var ahead, past := c.s.Upcoming(), C.Past(w);
    Entered(c.s.rx, c.s.Input(), ahead);
    var op, out;
    op, err := c.NextMessage(d, w, spare);
    h := E.Arrived(op, Some([]));
    if err.Some? {
      return;
    }
    assert ahead[1..] == c.s.Upcoming();
    out, err := c.ReadAll(d, w, choice.sizes, choice.size, spare);
    h := E.Arrived(op, Some(out));
    if ahead[0].rest.Ends? {
      UnderstoodIsReceived(d, r, w, past, Finished(ahead)[0]);
    }
  }

  /** NextMessage, some of the message perhaps, and the discard that the next NextMessage starts with. */
  method Abandon(c: C.Conn, d: D.Decompressor, w: Option<Window>, ghost r: T.Receiver, choice: Choice, spare: nat)
    returns (h: E.Heard, err: Option<C.Err>)
    requires Ready(c, d, w, r) && choice.Abandoned?
    modifies c, d, d.reader, d.scratch, if w.Some? then {w.value} else {}
    ensures c.Valid() && c.Usable(d, w) && Handled(c, d, w, r, choice, h, err)
  {
    hide C.Reading.Undisturbed, SizeOf, Messages.Upcoming, Messages.Left, Finished, Last;
    hide T.Received, T.Receiving, E.FrameOf, D.Message, C.Relays, C.Keeps, C.Obeys, C.Reading.Due;
    ghost var ahead, past := c.s.Upcoming(), C.Past(w);
    Entered(c.s.rx, c.s.Input(), ahead);
    var op, out;
    op, err := c.NextMessage(d, w, spare);
    h := E.Arrived(op, Some([]));
    if err.Some? {
      return;
    }
    assert ahead[1..] == c.s.Upcoming();
    out, err := c.ReadAndDiscard(d, w, choice.sizes, spare);
    h := E.Arrived(op, Some(out));
    if ahead[0].rest.Ends? {
      UnderstoodIsReceived(d, r, w, past, Finished(ahead)[0]);
    }
  }

  /** One message, whichever way. */
  method Handle(c: C.Conn, d: D.Decompressor, w: Option<Window>, ghost r: T.Receiver, choice: Choice, spare: nat)
    returns (h: E.Heard, err: Option<C.Err>)
    requires Ready(c, d, w, r)
    modifies c, d, d.reader, d.scratch, if w.Some? then {w.value} else {}
    ensures c.Valid() && c.Usable(d, w) && Handled(c, d, w, r, choice, h, err)
  {
    hide C.Reading.Undisturbed, C.Reading.Upcoming, Finished, Ready, Admits, Hears, T.Receiving, E.FrameOf;
    match choice
    case Whole => h, err := ReadNext(c, d, w, r, spare);
    case Streamed(_, _) => h, err := Stream(c, d, w, r, choice, spare);
    case Abandoned(_) => h, err := Abandon(c, d, w, r, choice, spare);
  }

  // ----- Whole runs -----

  /** Of all the messages, `done` were handled and told as `got`; the rest is ahead. */
  ghost predicate Progress(inf: Flate.Inflate, c: C.Conn, r: T.Receiver, choices: seq<Choice>, all: seq<S.Item>,
                           done: seq<S.Item>, got: seq<E.Heard>, rest: seq<S.Item>) {
    && all == done + rest && |got| == |done| <= |choices|
    && |E.Listen(inf, r, done)| == |done|
    && (forall i :: 0 <= i < |got| ==> Told(choices[i], got[i], E.Listen(inf, r, done)[i]))
    && (forall i :: 0 <= i < |got| && choices[i].Whole? ==> Admits(c.limit, c.validateUtf8, done[i], got[i]))
  }

  lemma NoProgress(inf: Flate.Inflate, c: C.Conn, r: T.Receiver, choices: seq<Choice>, all: seq<S.Item>)
    ensures Progress(inf, c, r, choices, all, [], [], all) && E.Hearing(inf, r, []) == r
  {
    assert [] + all == all;
  }

  lemma OneMore(inf: Flate.Inflate, c: C.Conn, r: T.Receiver, choices: seq<Choice>, all: seq<S.Item>,
                done: seq<S.Item>, got: seq<E.Heard>, rest: seq<S.Item>, h: E.Heard)
    requires Progress(inf, c, r, choices, all, done, got, rest) && |got| < |choices| && rest != [] && rest[0].Message?
    requires Told(choices[|got|], h, Hears(inf, E.Hearing(inf, r, done), rest[0]))
    requires choices[|got|].Whole? ==> Admits(c.limit, c.validateUtf8, rest[0], h)
    ensures Progress(inf, c, r, choices, all, done + [rest[0]], got + [h], rest[1..])
    ensures E.Hearing(inf, r, done + [rest[0]]) == T.Receiving(inf, E.Hearing(inf, r, done), E.FrameOf(rest[0]))
  {
    hide Admits, Told, E.Listen, E.Hearing, E.FrameOf, T.Received, T.Receiving;
    E.ListenSnoc(inf, r, done, rest[0]);
    assert all == done + [rest[0]] + rest[1..];
  }

  /** Where the reading stands among all that is to be heard. */
  lemma SoFar(inf: Flate.Inflate, c: C.Conn, r: T.Receiver, choices: seq<Choice>, all: seq<S.Item>,
              done: seq<S.Item>, got: seq<E.Heard>, rest: seq<S.Item>)
    requires Progress(inf, c, r, choices, all, done, got, rest) && (rest != [] ==> rest[0].Message?)
    ensures Tells(c, choices, all, E.Listen(inf, r, all), got) && done == all[..|got|]
    ensures |got| < |all| ==>
      && rest != [] && all[|got|] == rest[0]
      && E.Listen(inf, r, all)[|got|] == Hears(inf, E.Hearing(inf, r, done), rest[0])
  {
    hide Admits, Told, Hears, E.Listen, E.Hearing;
    var heard := E.Listen(inf, r, all);
    ListenLength(inf, r, all);
    assert forall i :: 0 <= i < |got| ==> all[i] == done[i];
    E.ListenPrefix(inf, r, done, all);
    if rest != [] {
      assert rest == [rest[0]] + rest[1..];
      HeardNext(inf, r, done, rest[0], rest[1..]);
    }
    forall i | 0 <= i < |got|
      ensures Told(choices[i], got[i], heard[i])
      ensures choices[i].Whole? ==> Admits(c.limit, c.validateUtf8, all[i], heard[i])
    {
      assert Told(choices[i], got[i], E.Listen(inf, r, done)[i]);
      if choices[i].Whole? {
        WholeIsAll(choices[i], got[i], heard[i]);
      }
    }
  }

  lemma WholeIsAll(choice: Choice, h: E.Heard, heard: E.Heard)
    requires Told(choice, h, heard) && choice.Whole?
    ensures h == heard
  {
  }

  /** The first messages, each told as its choice has it, and admitted where it was read whole. */
  ghost predicate Tells(c: C.Conn, choices: seq<Choice>, all: seq<S.Item>, heard: seq<E.Heard>, got: seq<E.Heard>) {
    && |got| <= |choices| && |got| <= |all| == |heard|
    && (forall i :: 0 <= i < |got| ==> Told(choices[i], got[i], heard[i]))
    && (forall i :: 0 <= i < |got| && choices[i].Whole? ==> Admits(c.limit, c.validateUtf8, all[i], heard[i]))
  }

  /**
   * Message after message, each handled in its own way: the reader is told
   * what a listener hears, and its history stays the listener's whatever was
   * left unread. When neither transport nor handler refuses anything, it stops
   * only at a message that does not suit, or behind the last one.
   */
  method ReadVariously(c: C.Conn, d: D.Decompressor, w: Option<Window>, ghost r: T.Receiver, choices: seq<Choice>,
                       spare: nat)
    returns (got: seq<E.Heard>, err: Option<C.Err>)
    requires Ready(c, d, w, r)
    modifies c, d, d.reader, d.scratch, if w.Some? then {w.value} else {}
    ensures c.Valid() && c.Usable(d, w)
    ensures
      var all := Finished(old(c.s).Upcoming());
      var heard := E.Listen(d.reader.inf, r, all);
      && Tells(c, choices, all, heard, got)
      && (err.None? ==> |got| == |choices| && Ready(c, d, w, E.Hearing(d.reader.inf, r, all[..|got|])))
      && (err.Some? ==> |got| < |choices|)
      && (d.reader.steady && old(c.s).Undisturbed() && err.Some? && |got| < |all| ==>
            !Suits(c, choices[|got|], all[|got|], heard[|got|]))
  {
    hide C.Reading.Upcoming, C.Reading.Undisturbed, Finished, Ready, Admits, Told, Suits, Hears, Progress, Tells;
    hide E.Listen, E.Hearing, T.Receiving, E.FrameOf;
    ReadyIs(c, d, w, r);
    ghost var inf, all := d.reader.inf, Finished(c.s.Upcoming());
    ghost var done: seq<S.Item> := [];
    got, err := [], None;
    NoProgress(inf, c, r, choices, all);
    while |got| < |choices|
      invariant Ready(c, d, w, E.Hearing(inf, r, done)) && c.s.rx.Valid() && err.None? && |got| <= |choices|
      invariant Progress(inf, c, r, choices, all, done, got, Finished(c.s.Upcoming()))
      invariant old(c.s).Undisturbed() && d.reader.steady ==> c.s.Undisturbed()
    {
      ghost var rest := Finished(c.s.Upcoming());
      var h;
      ReadyIs(c, d, w, E.Hearing(inf, r, done));
      h, err := Handle(c, d, w, E.Hearing(inf, r, done), choices[|got|], spare);
      if err.Some? {
        SoFar(inf, c, r, choices, all, done, got, rest);
        return;
      }
      OneMore(inf, c, r, choices, all, done, got, rest, h);
      done, got := done + [rest[0]], got + [h];
      ReadyIs(c, d, w, E.Hearing(inf, r, done));
    }
    ReadyIs(c, d, w, E.Hearing(inf, r, done));
    FinishedAreMessages(c.s.Upcoming());
    SoFar(inf, c, r, choices, all, done, got, Finished(c.s.Upcoming()));
  }

  lemma ReadyIs(c: C.Conn, d: D.Decompressor, w: Option<Window>, r: T.Receiver)
    requires Ready(c, d, w, r)
    ensures c.Valid() && d.Idle() && C.Fit(d, w) && c.Usable(d, w)
  {
  }

  /** ReadMessage, up to `n` times: exactly the longest run of admitted messages, as a listener hears them. */
  method ReadMessages(c: C.Conn, d: D.Decompressor, w: Option<Window>, ghost r: T.Receiver, n: nat, spare: nat)
    returns (got: seq<E.Heard>, err: Option<C.Err>)
    requires Ready(c, d, w, r)
    modifies c, d, d.reader, d.scratch, if w.Some? then {w.value} else {}
    ensures c.Valid() && c.Usable(d, w)
    ensures |got| <= n && (err.None? ==> |got| == n)
    ensures
      var all := Finished(old(c.s).Upcoming());
      var heard := E.Listen(d.reader.inf, r, all);
      && got <= heard && |all| == |heard|
      && (forall i :: 0 <= i < |got| ==> Admits(c.limit, c.validateUtf8, all[i], heard[i]))
      && (d.reader.steady && old(c.s).Undisturbed() && err.Some? && |got| < |all| ==>
            !Admits(c.limit, c.validateUtf8, all[|got|], heard[|got|]))
  {
    hide C.Reading.Upcoming, C.Reading.Undisturbed, Finished, Ready, Admits, E.Listen, E.Hearing;
    ReadyIs(c, d, w, r);
    var choices := seq(n, _ => Whole);
    ghost var all := Finished(c.s.Upcoming());
    ghost var heard := E.Listen(d.reader.inf, r, all);
    got, err := ReadVariously(c, d, w, r, choices, spare);
    assert forall i :: 0 <= i < |got| ==> choices[i].Whole? && Told(choices[i], got[i], heard[i]);
    assert got == heard[..|got|];
    if |got| < |all| && Admits(c.limit, c.validateUtf8, all[|got|], heard[|got|]) {
      AdmittedSuits(c, Whole, all[|got|], heard[|got|]);
    }
  }

  lemma AdmittedSuits(c: C.Conn, choice: Choice, i: S.Item, heard: E.Heard)
    requires Admits(c.limit, c.validateUtf8, i, heard)
    ensures Suits(c, choice, i, heard)
  {
  }

  /**
   * From the write API at one end to ReadMessage at the other, for every run
   * of calls and whatever the transport does: the messages returned are the
   * first ones said. When nothing is refused on the way they are all of them,
   * as far as they were asked for, up to one too long for the reader's limit,
   * plain or compressed, or not the UTF-8 it insists on.
   */
  method ReadAsSpoken<W(!new)>(cfg: S.Config, ghost snd: T.Sender<W>, ghost sw: W, ghost calls: seq<S.Call>,
                               c: C.Conn, d: D.Decompressor, w: Option<Window>, ghost r: T.Receiver, n: nat, spare: nat)
    returns (got: seq<E.Heard>, err: Option<C.Err>)
    requires Flate.Sound(snd.enc, d.reader.inf) && T.Synchronous(snd, sw, r, []) && Ready(c, d, w, r)
    requires S.AllFit(E.Run(cfg, S.IDLE, snd, sw, calls))
    requires c.s.rx == Init(cfg.Peer(), cfg.compression) && c.s.Input() == WireOf(cfg, snd, sw, calls)
    modifies c, d, d.reader, d.scratch, if w.Some? then {w.value} else {}
    ensures |got| <= n && (err.None? ==> |got| == n)
    ensures
      var run := E.Run(cfg, S.IDLE, snd, sw, calls);
      var sent := Texts(S.RecordAll(cfg, S.IDLE, S.NOTHING_SENT, run).items);
      var said := Arrivals(E.SayAll(cfg, S.IDLE, E.NOTHING_SAID, run).said);
      && got <= said && |sent| == |said|
      && (forall i :: 0 <= i < |got| ==> Admits(c.limit, c.validateUtf8, sent[i], said[i]))
      && (d.reader.steady && old(c.s).Undisturbed() && err.Some? && |got| < |said| ==>
            !Admits(c.limit, c.validateUtf8, sent[|got|], said[|got|]))
  {
    hide EncodedAll, Messages.Upcoming, C.Reading.Undisturbed, Finished, Texts, Arrivals, Ready, Admits, Init;
    hide S.RecordAll, S.AllFit, S.Frames, E.Run, E.SayAll, E.Listen, T.Synchronous, Flate.Sound;
    UpcomingAsSpoken(d.reader.inf, cfg, snd, sw, r, calls);
    got, err := ReadMessages(c, d, w, r, n, spare);
  }

  /** The same with every message handled in its own way, the two histories in step behind the last of them. */
  method HandledAsSpoken<W(!new)>(cfg: S.Config, ghost snd: T.Sender<W>, ghost sw: W, ghost calls: seq<S.Call>,
                                  c: C.Conn, d: D.Decompressor, w: Option<Window>, ghost r: T.Receiver,
                                  choices: seq<Choice>, spare: nat)
    returns (got: seq<E.Heard>, err: Option<C.Err>)
    requires Flate.Sound(snd.enc, d.reader.inf) && T.Synchronous(snd, sw, r, []) && Ready(c, d, w, r)
    requires S.AllFit(E.Run(cfg, S.IDLE, snd, sw, calls))
    requires c.s.rx == Init(cfg.Peer(), cfg.compression) && c.s.Input() == WireOf(cfg, snd, sw, calls)
    modifies c, d, d.reader, d.scratch, if w.Some? then {w.value} else {}
    ensures
      var run := E.Run(cfg, S.IDLE, snd, sw, calls);
      var sent := Texts(S.RecordAll(cfg, S.IDLE, S.NOTHING_SENT, run).items);
      var said := Arrivals(E.SayAll(cfg, S.IDLE, E.NOTHING_SAID, run).said);
      && Tells(c, choices, sent, said, got)
      && (err.None? ==> |got| == |choices| && Ready(c, d, w, E.Hearing(d.reader.inf, r, sent[..|got|])))
      && (err.Some? ==> |got| < |choices|)
      && (d.reader.steady && old(c.s).Undisturbed() && err.Some? && |got| < |said| ==>
            !Suits(c, choices[|got|], sent[|got|], said[|got|]))
  {
    hide EncodedAll, Messages.Upcoming, C.Reading.Undisturbed, Finished, Texts, Arrivals, Ready, Told, Suits, Init;
    hide S.RecordAll, S.AllFit, S.Frames, E.Run, E.SayAll, E.Listen, E.Hearing, T.Synchronous, Flate.Sound;
    UpcomingAsSpoken(d.reader.inf, cfg, snd, sw, r, calls);
    got, err := ReadVariously(c, d, w, r, choices, spare);
  }
}
