/**
 * End to end with a queue: whatever the interleaving of goroutines, the
 * messages and the close that have reached the wire are the first ones said,
 * and are heard as they were said.
 */
module QueuedEndToEnd {
  import opened Bytes
  import opened Framing
  import opened Reception
  import opened Wire
  import opened QueuedWire
  import Flate
  import E = EndToEnd
  import T = Takeover
  import S = Sending
  import Q = QueueProtocol
  import opened DeflateWindow
  import C = ConnReads
  import D = Decompressors
  import Messages
  import R = ReadEndToEnd

  // ----- Leaving pings and pongs out -----

  predicate Kept(i: S.Item) { i.ControlItem? ==> !Bypasses(i.op) }

  /** The messages and the close. */
  function Weighty(items: seq<S.Item>): seq<S.Item> {
    if items == [] then [] else (if Kept(items[0]) then [items[0]] else []) + Weighty(items[1..])
  }

  lemma {:induction false} WeightyAppend(a: seq<S.Item>, b: seq<S.Item>)
    ensures Weighty(a + b) == Weighty(a) + Weighty(b)
    decreases |a|
  {
    hide Kept;
    if a == [] {
      assert a + b == b;
    } else {
      var head := if Kept(a[0]) then [a[0]] else [];
      assert (a + b)[1..] == a[1..] + b && (a + b)[0] == a[0];
      WeightyAppend(a[1..], b);
      assert head + (Weighty(a[1..]) + Weighty(b)) == head + Weighty(a[1..]) + Weighty(b);
    }
  }

  lemma WeightyOne(i: S.Item)
    ensures Weighty([i]) == if Kept(i) then [i] else []
  {
    assert [i][1..] == [];
  }

  /** The same inbox, but for pings and pongs. */
  ghost predicate Thinned(full: S.Inbox, thin: S.Inbox) {
    thin.open == full.open && thin.content == full.content && thin.items == Weighty(full.items)
  }

  predicate Light(e: Event) { e.Control? && Bypasses(e.cop) }

  lemma ThinnedTake(full: S.Inbox, thin: S.Inbox, e: Event)
    requires Thinned(full, thin)
    ensures Thinned(S.Take(full, e), if Light(e) then thin else S.Take(thin, e))
  {
    hide Weighty;
    match e
    case Control(op, payload) =>
      WeightyAppend(full.items, [S.ControlItem(op, payload)]);
      WeightyOne(S.ControlItem(op, payload));
    case EndFrame(fin) =>
      if fin && full.open.Some? {
        var i := S.Message(full.open.value.op, full.open.value.compressed, full.content);
        WeightyAppend(full.items, [i]);
        WeightyOne(i);
      }
    case _ =>
  }

  lemma {:induction false} ThinnedTakeAll(full: S.Inbox, thin: S.Inbox, ev: seq<Event>)
    requires Thinned(full, thin) && forall i :: 0 <= i < |ev| ==> !Light(ev[i])
    ensures Thinned(S.TakeAll(full, ev), S.TakeAll(thin, ev))
    decreases |ev|
  {
    hide Thinned, Light, S.Take;
    if ev != [] {
      assert !Light(ev[0]);
      ThinnedTake(full, thin, ev[0]);
      ThinnedTakeAll(S.Take(full, ev[0]), S.Take(thin, ev[0]), ev[1..]);
    }
  }

  lemma FrameIsWeighty(f: Out)
    requires !Bypasses(f.op)
    ensures forall i :: 0 <= i < |Meaning(f)| ==> !Light(Meaning(f)[i])
  {
  }

  /** Dropping the frames that bypass the queue drops their items and nothing else. */
  lemma {:induction false} OrderedItems(l: Line, fs: seq<Out>, full: S.Inbox, thin: S.Inbox)
    requires Thinned(full, thin)
    ensures Thinned(S.TakeAll(full, MeaningAll(l, fs)), S.TakeAll(thin, MeaningAll(l, Ordered(fs))))
    decreases |fs|
  {
    hide Thinned, Meaning, S.TakeAll;
    S.TakeNothing(full);
    S.TakeNothing(thin);
    if fs != [] {
      var f, l' := fs[0], After(l, fs[0]);
      var ev := if l.closed then [] else Meaning(f);
      S.TakeAllAppend(full, ev, MeaningAll(l', fs[1..]));
      if Bypasses(f.op) {
        assert Ordered(fs) == Ordered(fs[1..]) && l' == l;
        if l.closed {
        } else {
          BypassingMeans(f);
          var e := Control(f.op, f.payload);
          S.TakeOne(full, e);
          ThinnedTake(full, thin, e);
        }
        OrderedItems(l', fs[1..], S.TakeAll(full, ev), thin);
      } else {
        assert Ordered(fs)[0] == f && Ordered(fs)[1..] == Ordered(fs[1..]);
        S.TakeAllAppend(thin, ev, MeaningAll(l', Ordered(fs[1..])));
        if !l.closed {
          FrameIsWeighty(f);
          ThinnedTakeAll(full, thin, ev);
        }
        OrderedItems(l', fs[1..], S.TakeAll(full, ev), S.TakeAll(thin, ev));
      }
    }
  }

  lemma BypassingMeans(f: Out)
    requires Bypasses(f.op)
    ensures Meaning(f) == [Control(f.op, f.payload)] && Light(Control(f.op, f.payload))
  {
  }

  // ----- Prefixes -----

  lemma {:induction false} ItemsGrow(b: S.Inbox, ev: seq<Event>)
    ensures b.items <= S.TakeAll(b, ev).items
    decreases |ev|
  {
    if ev != [] {
      ItemsGrow(S.Take(b, ev[0]), ev[1..]);
    }
  }

  lemma {:induction false} MeaningAppend(l: Line, a: seq<Out>, b: seq<Out>)
    ensures MeaningAll(l, a + b) == MeaningAll(l, a) + MeaningAll(AfterAll(l, a), b)
    decreases |a|
  {
    hide Meaning;
    if a == [] {
      assert a + b == b;
    } else {
      hide After;
      var ev, l' := if l.closed then [] else Meaning(a[0]), After(l, a[0]);
      var ab := a + b;
      assert ab[1..] == a[1..] + b && ab[0] == a[0];
      MeaningAppend(l', a[1..], b);
      var x, y := MeaningAll(l', a[1..]), MeaningAll(AfterAll(l, a), b);
      assert MeaningAll(l, ab) == ev + MeaningAll(l', ab[1..]) == ev + (x + y);
      assert ev + (x + y) == ev + x + y;
    }
  }

  /** More frames, more items behind the ones there were. */
  lemma ItemsOfPrefix(a: seq<Out>, fs: seq<Out>)
    requires a <= fs
    ensures
      var heard := S.TakeAll(S.NOTHING_HEARD, MeaningAll(START, a)).items;
      heard <= S.TakeAll(S.NOTHING_HEARD, MeaningAll(START, fs)).items
  {
    hide Meaning, MeaningAll, S.TakeAll;
    var b := fs[|a|..];
    assert fs == a + b;
    MeaningAppend(START, a, b);
    S.TakeAllAppend(S.NOTHING_HEARD, MeaningAll(START, a), MeaningAll(AfterAll(START, a), b));
    ItemsGrow(S.TakeAll(S.NOTHING_HEARD, MeaningAll(START, a)), MeaningAll(AfterAll(START, a), b));
  }

  lemma NothingThinned()
    ensures Thinned(S.NOTHING_HEARD, S.NOTHING_HEARD)
  {
  }

  /** What the peer puts together from the wire so far. */
  ghost function Received(cfg: S.Config, line: seq<Out>): seq<S.Item> {
    S.TakeAll(S.NOTHING_HEARD, OneShot(Init(cfg.Peer(), cfg.compression), EncodedAll(line))).items
  }

  /** The messages and the close among the frames. */
  ghost function Carried(fs: seq<Out>): seq<S.Item> {
    S.TakeAll(S.NOTHING_HEARD, MeaningAll(START, fs)).items
  }

  /** The peer puts together what the flushed frames carry; what was enqueued carries what the calls sent. */
  lemma BothEnds(cfg: S.Config, steps: seq<Step>)
    requires Runs(cfg, START_STATE, steps) && !AfterRun(cfg, START_STATE, steps).queue.q.failed
    ensures
      var s := AfterRun(cfg, START_STATE, steps);
      && Weighty(Received(cfg, s.line)) == Carried(s.queue.flushed)
      && Weighty(S.RecordAll(cfg, S.IDLE, S.NOTHING_SENT, s.calls).items) == Carried(s.queue.history)
      && s.queue.flushed <= s.queue.history && Q.Inv(s.queue)
  {
    hide Do, AfterRun, Runs, OneShot, MeaningAll, EncodedAll, Legal, AfterAll, Ordered, Weighty;
    hide S.TakeAll, S.RecordAll, S.Frames, S.TxAfter, S.Agrees;
    var s := AfterRun(cfg, START_STATE, steps);
    StartInv(cfg);
    Reachable(cfg, START_STATE, steps);
    WireIsLegal(cfg, steps);
    var frames := S.Frames(cfg, S.IDLE, s.calls);
    NothingThinned();
    OrderedItems(START, s.line, S.NOTHING_HEARD, S.NOTHING_HEARD);
    OrderedItems(START, frames, S.NOTHING_HEARD, S.NOTHING_HEARD);
    S.RunIsAccepted(cfg, s.calls);
    S.MessagesDelivered(cfg, s.calls);
  }

  /**
   * For every interleaving, while the queue has not failed: the messages and
   * the close the peer puts together are the first of those the calls sent, in
   * the order of their turns, and all of them once everything is flushed.
   */
  lemma FirstOnesArrive(cfg: S.Config, steps: seq<Step>)
    requires Runs(cfg, START_STATE, steps) && !AfterRun(cfg, START_STATE, steps).queue.q.failed
    ensures
      var s := AfterRun(cfg, START_STATE, steps);
      var sent := Weighty(S.RecordAll(cfg, S.IDLE, S.NOTHING_SENT, s.calls).items);
      && Weighty(Received(cfg, s.line)) <= sent
      && (s.queue.flushed == s.queue.history ==> Weighty(Received(cfg, s.line)) == sent)
  {
    hide AfterRun, Runs, Weighty, S.RecordAll, Received, Q.Inv;
    BothEnds(cfg, steps);
    var s := AfterRun(cfg, START_STATE, steps);
    ItemsOfPrefix(s.queue.flushed, s.queue.history);
  }

  /** Whoever's await returned nil: what their frame and all before it carry has arrived. */
  lemma AwaitedOnesArrive(cfg: S.Config, steps: seq<Step>, i: nat)
    requires Runs(cfg, START_STATE, steps) && !AfterRun(cfg, START_STATE, steps).queue.q.failed
    requires var a := AfterRun(cfg, START_STATE, steps).queue.answers; i < |a| && a[i].1
    ensures
      var s := AfterRun(cfg, START_STATE, steps);
      var n := s.queue.answers[i].0;
      n <= |s.queue.history| && Carried(s.queue.history[..n]) <= Weighty(Received(cfg, s.line))
  {
    hide AfterRun, Runs, Weighty, S.RecordAll, Received, Q.Inv;
    BothEnds(cfg, steps);
    var s := AfterRun(cfg, START_STATE, steps);
    Q.NilMeansFlushed(s.queue, i);
    var n := s.queue.answers[i].0;
    ItemsOfPrefix(s.queue.flushed[..n], s.queue.flushed);
  }

  // ----- Hearing them -----

  predicate Loud(h: E.Heard) { h.Signal? ==> !Bypasses(h.op) }

  /** The messages and the close among what is said or heard. */
  function Spoken(hs: seq<E.Heard>): seq<E.Heard> {
    if hs == [] then [] else (if Loud(hs[0]) then [hs[0]] else []) + Spoken(hs[1..])
  }

  /** Pings and pongs do not touch the window. */
  lemma {:induction false} ListenWeighty(inf: Flate.Inflate, r: T.Receiver, items: seq<S.Item>)
    ensures E.Listen(inf, r, Weighty(items)) == Spoken(E.Listen(inf, r, items))
    decreases |items|
  {
    hide T.Received, T.Receiving, E.FrameOf;
    if items != [] {
      var i := items[0];
      var r' := if i.Message? then T.Receiving(inf, r, E.FrameOf(i)) else r;
      ListenWeighty(inf, r', items[1..]);
      if Kept(i) {
        assert Weighty(items)[0] == i && Weighty(items)[1..] == Weighty(items[1..]);
      } else {
        assert Weighty(items) == Weighty(items[1..]);
      }
      var all := E.Listen(inf, r, items);
      assert all[1..] == E.Listen(inf, r', items[1..]);
    }
  }

  /**
   * Every interleaving of callers with the queue's writer, end to end: the
   * calls, coded against the history in the order of their turns with wmu, are
   * heard by the peer's application as they were said, as far as they have
   * reached the wire: all of them once everything is flushed.
   */
  lemma FirstOnesHeard<W(!new)>(inf: Flate.Inflate, cfg: S.Config, snd: T.Sender<W>, w: W, r: T.Receiver,
                                asked: seq<S.Call>, steps: seq<Step>)
    requires Flate.Sound(snd.enc, inf) && T.Synchronous(snd, w, r, [])
    requires Runs(cfg, START_STATE, steps) && !AfterRun(cfg, START_STATE, steps).queue.q.failed
    requires AfterRun(cfg, START_STATE, steps).calls == E.Run(cfg, S.IDLE, snd, w, asked)
    ensures
      var s := AfterRun(cfg, START_STATE, steps);
      var heard := Spoken(E.Listen(inf, r, Received(cfg, s.line)));
      var said := Spoken(E.SayAll(cfg, S.IDLE, E.NOTHING_SAID, s.calls).said);
      heard <= said && (s.queue.flushed == s.queue.history ==> heard == said)
  {
    hide AfterRun, Runs, Weighty, Spoken, Received, S.RecordAll, E.Run, E.SayAll, E.Listen, T.Synchronous;
    var s := AfterRun(cfg, START_STATE, steps);
    var sent := S.RecordAll(cfg, S.IDLE, S.NOTHING_SENT, s.calls).items;
    FirstOnesArrive(cfg, steps);
    E.ListenPrefix(inf, r, Weighty(Received(cfg, s.line)), Weighty(sent));
    ListenWeighty(inf, r, Received(cfg, s.line));
    ListenWeighty(inf, r, sent);
    E.RunListens(inf, cfg, snd, w, r, asked);
  }

  // ----- Reading them -----

  /** The messages among what is said are among its messages and its close. */
  lemma {:induction false} ArrivalsSpoken(hs: seq<E.Heard>)
    ensures R.Arrivals(Spoken(hs)) == R.Arrivals(hs)
    decreases |hs|
  {
    if hs != [] {
      ArrivalsSpoken(hs[1..]);
      if Loud(hs[0]) {
        assert Spoken(hs)[0] == hs[0] && Spoken(hs)[1..] == Spoken(hs[1..]);
      } else {
        assert Spoken(hs) == Spoken(hs[1..]);
      }
    }
  }

  lemma {:induction false} ArrivalsPrefix(a: seq<E.Heard>, hs: seq<E.Heard>)
    requires a <= hs
    ensures R.Arrivals(a) <= R.Arrivals(hs)
    decreases |a|
  {
    if a != [] {
      ArrivalsPrefix(a[1..], hs[1..]);
    }
  }

  /** Ahead of a reader of the wire so far are the first messages said: all of them once everything is flushed. */
  lemma AheadAreTheFirst<W(!new)>(inf: Flate.Inflate, cfg: S.Config, snd: T.Sender<W>, w: W, r: T.Receiver,
                                  asked: seq<S.Call>, steps: seq<Step>)
    requires Flate.Sound(snd.enc, inf) && T.Synchronous(snd, w, r, [])
    requires Runs(cfg, START_STATE, steps) && !AfterRun(cfg, START_STATE, steps).queue.q.failed
    requires AfterRun(cfg, START_STATE, steps).calls == E.Run(cfg, S.IDLE, snd, w, asked)
    ensures
      var s := AfterRun(cfg, START_STATE, steps);
      var ahead := R.Finished(Messages.Upcoming(Init(cfg.Peer(), cfg.compression), EncodedAll(s.line)));
      var said := R.Arrivals(E.SayAll(cfg, S.IDLE, E.NOTHING_SAID, s.calls).said);
      && ahead == R.Texts(Received(cfg, s.line)) && E.Listen(inf, r, ahead) <= said
      && (s.queue.flushed == s.queue.history ==> E.Listen(inf, r, ahead) == said)
  {
    hide AfterRun, Runs, Spoken, OneShot, EncodedAll, Messages.Upcoming, R.Finished, R.Texts, R.Arrivals;
    hide S.TakeAll, E.Run, E.SayAll, E.Listen, T.Synchronous;
    var s := AfterRun(cfg, START_STATE, steps);
    var items := Received(cfg, s.line);
    R.UpcomingAreTheItems(cfg.Peer(), cfg.compression, EncodedAll(s.line));
    R.ListenTexts(inf, r, items);
    FirstOnesHeard(inf, cfg, snd, w, r, asked, steps);
    ArrivalsSpoken(E.Listen(inf, r, items));
    ArrivalsSpoken(E.SayAll(cfg, S.IDLE, E.NOTHING_SAID, s.calls).said);
    ArrivalsPrefix(Spoken(E.Listen(inf, r, items)), Spoken(E.SayAll(cfg, S.IDLE, E.NOTHING_SAID, s.calls).said));
  }

  /**
   * From callers and the queue's writer, interleaved in any way, to the read
   * API: each message is handled as the reader chooses, within its limit and
   * its UTF-8 check where it reads it whole, and told as it was said.
   */
  method ReadThroughQueue<W(!new)>(cfg: S.Config, ghost snd: T.Sender<W>, ghost sw: W, ghost asked: seq<S.Call>,
                                   ghost steps: seq<Step>, c: C.Conn, d: D.Decompressor, w: Option<Window>,
                                   ghost r: T.Receiver, choices: seq<R.Choice>, spare: nat)
    returns (got: seq<E.Heard>, err: Option<C.Err>)
    requires Flate.Sound(snd.enc, d.reader.inf) && T.Synchronous(snd, sw, r, []) && R.Ready(c, d, w, r)
    requires Runs(cfg, START_STATE, steps) && !AfterRun(cfg, START_STATE, steps).queue.q.failed
    requires AfterRun(cfg, START_STATE, steps).calls == E.Run(cfg, S.IDLE, snd, sw, asked)
    requires
      && c.s.rx == Init(cfg.Peer(), cfg.compression)
      && c.s.Input() == EncodedAll(AfterRun(cfg, START_STATE, steps).line)
    modifies c, d, d.reader, d.scratch, if w.Some? then {w.value} else {}
    ensures
      var s := AfterRun(cfg, START_STATE, steps);
      var sent := R.Texts(Received(cfg, s.line));
      var said := R.Arrivals(E.SayAll(cfg, S.IDLE, E.NOTHING_SAID, s.calls).said);
      && |sent| <= |said| && (s.queue.flushed == s.queue.history ==> |sent| == |said|)
      && R.Tells(c, choices, sent, said[..|sent|], got)
      && (err.None? ==> |got| == |choices| && R.Ready(c, d, w, E.Hearing(d.reader.inf, r, sent[..|got|])))
      && (err.Some? ==> |got| < |choices|)
      && (d.reader.steady && old(c.s).Undisturbed() && err.Some? && |got| < |sent| ==>
            !R.Suits(c, choices[|got|], sent[|got|], said[|got|]))
  {
    hide AfterRun, Runs, EncodedAll, Messages.Upcoming, Received, C.Reading.Undisturbed, Init;
    hide R.Finished, R.Texts, R.Arrivals, R.Ready, R.Told, R.Suits, R.Admits;
    hide E.Run, E.SayAll, E.Listen, E.Hearing, T.Synchronous, Flate.Sound;
    AheadAreTheFirst(d.reader.inf, cfg, snd, sw, r, asked, steps);
    R.ListenLength(d.reader.inf, r, R.Texts(Received(cfg, AfterRun(cfg, START_STATE, steps).line)));
    got, err := R.ReadVariously(c, d, w, r, choices, spare);
  }
}
