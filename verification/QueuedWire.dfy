/**
 * A connection with a queue: any number of goroutines call the write API,
 * data and close frames go through the queue, pings and pongs straight to the
 * transport. Whatever the interleaving, the wire is legal.
 */
module QueuedWire {
  import opened Bytes
  import opened Framing
  import Masking
  import opened Reception
  import opened Wire
  import Q = QueueProtocol
  import S = Sending

  /**
   * `held` is a ping or pong encoded and not yet written: whoever encoded it
   * still has wmu. `calls` are the calls so far, in the order of their turns
   * with wmu.
   */
  datatype Conn = Conn(tx: S.Tx, held: Option<Out>, queue: Q.State<Out>, line: seq<Out>, calls: seq<S.Call>)

  datatype Step =
    | Call(c: S.Call)            // Under wmu: encode, and enqueue unless it is a ping or pong.
    | Write                      // Under iomu: the ping or pong goes out and wmu is released.
    | Queue(step: Q.Step<Out>)   // The queue's writer and waiters.

  predicate Bypasses(op: Opcode) { op.Ping? || op.Pong? }

  predicate Enabled(s: Conn, step: Step) {
    match step
    case Call(c) => s.held.None? && S.Fits(c)
    case Write => s.held.Some?
    case Queue(q) => !q.Enqueue? && Q.Enabled(s.queue, q)
  }

  function Called(cfg: S.Config, s: Conn, c: S.Call): Conn {
    var r := S.Act(cfg, s.tx, c);
    var t := s.(tx := r.tx, calls := s.calls + [c]);
    if r.out == [] then t
    else if Bypasses(r.out[0].op) then t.(held := Some(r.out[0]))
    else if s.queue.q.failed then t.(tx := if c.Fragment? then r.tx.(frag := None) else r.tx)
    else t.(queue := Q.Do(s.queue, Q.Enqueue(r.out[0])))
  }

  function Do(cfg: S.Config, s: Conn, step: Step): Conn
    requires Enabled(s, step)
  {
    match step
    case Call(c) => Called(cfg, s, c)
    case Write => s.(held := None, line := s.line + [s.held.value])
    case Queue(q) =>
      s.(queue := Q.Do(s.queue, q), line := if q.Flush? && q.ok then s.line + s.queue.q.inflight else s.line)
  }

  const START_STATE: Conn := Conn(S.IDLE, None, Q.Init(), [], [])

  /** The frames that went through the queue. */
  function Ordered(fs: seq<Out>): seq<Out> {
    if fs == [] then [] else (if Bypasses(fs[0].op) then [] else [fs[0]]) + Ordered(fs[1..])
  }

  /** What the calls made is what was enqueued, and the pings and pongs. */
  ghost predicate Made(cfg: S.Config, s: Conn) {
    && S.AllFit(s.calls) && s.tx == S.TxAfter(cfg, S.IDLE, s.calls)
    && s.queue.history == Ordered(S.Frames(cfg, S.IDLE, s.calls))
  }

  /** Everything enqueued is a legal sequence that the sender's fields agree with. */
  ghost predicate HistoryLegal(cfg: S.Config, s: Conn) {
    && Legal(cfg.compression, START, s.queue.history) && KeyedFor(cfg.Peer(), s.queue.history)
    && S.Agrees(cfg, s.tx, AfterAll(START, s.queue.history))
    && Ordered(s.queue.history) == s.queue.history && Made(cfg, s)
    && (s.held.Some? ==>
          && Bypasses(s.held.value.op) && s.held.value.key.Some? == cfg.Peer().Server?
          && Allowed(cfg.compression, AfterAll(START, s.queue.history), s.held.value))
  }

  /** What is on the wire is legal, and is what was flushed with pings and pongs in between. */
  ghost predicate LineLegal(cfg: S.Config, s: Conn) {
    && Legal(cfg.compression, START, s.line) && KeyedFor(cfg.Peer(), s.line)
    && AfterAll(START, s.line) == AfterAll(START, s.queue.flushed)
    && Ordered(s.line) == s.queue.flushed
  }

  ghost predicate Inv(cfg: S.Config, s: Conn) {
    && Q.Inv(s.queue)
    && (!s.queue.q.failed ==> HistoryLegal(cfg, s) && LineLegal(cfg, s))
  }

  lemma {:induction false} OrderedAppend(a: seq<Out>, b: seq<Out>)
    ensures Ordered(a + b) == Ordered(a) + Ordered(b)
    decreases |a|
  {
    if a == [] {
      assert a + b == b;
    } else {
      hide Bypasses;
      var head := if Bypasses(a[0].op) then [] else [a[0]];
      assert (a + b)[1..] == a[1..] + b && (a + b)[0] == a[0];
      OrderedAppend(a[1..], b);
      assert head + (Ordered(a[1..]) + Ordered(b)) == head + Ordered(a[1..]) + Ordered(b);
    }
  }

  lemma {:induction false} OrderedAtMost(a: seq<Out>)
    ensures |Ordered(a)| <= |a| && (|Ordered(a)| == |a| ==> Ordered(a) == a)
  {
    if a != [] {
      OrderedAtMost(a[1..]);
    }
  }

  lemma OrderedPart(a: seq<Out>, b: seq<Out>)
    requires Ordered(a + b) == a + b
    ensures Ordered(a) == a && Ordered(b) == b
  {
    OrderedAppend(a, b);
    OrderedAtMost(a);
    OrderedAtMost(b);
  }

  lemma {:induction false} ClosedMonotone(l: Line, fs: seq<Out>)
    ensures l.closed ==> AfterAll(l, fs).closed
    decreases |fs|
  {
    if fs != [] {
      ClosedMonotone(After(l, fs[0]), fs[1..]);
    }
  }

  // ----- Calls -----

  lemma AppendOne(compression: bool, l: Line, fs: seq<Out>, f: Out)
    requires Legal(compression, l, fs) && Allowed(compression, AfterAll(l, fs), f)
    ensures Legal(compression, l, fs + [f]) && AfterAll(l, fs + [f]) == After(AfterAll(l, fs), f)
  {
    hide Allowed;
    LegalAppend(compression, l, fs, [f]);
    assert [f][1..] == [];
  }

  /** What a call hands on, as ActIsLegal has it, for at most one frame. */
  lemma CallLegal(cfg: S.Config, tx: S.Tx, l: Line, c: S.Call)
    requires S.Agrees(cfg, tx, l) && S.Fits(c)
    ensures
      var r := S.Act(cfg, tx, c);
      if r.out == [] then S.Agrees(cfg, r.tx, l)
      else
        && |r.out| == 1 && Allowed(cfg.compression, l, r.out[0]) && r.out[0].key.Some? == cfg.Peer().Server?
        && S.Agrees(cfg, r.tx, After(l, r.out[0]))
  {
    hide S.Act, S.Agrees, Allowed;
    S.ActIsLegal(cfg, tx, l, c);
    var out := S.Act(cfg, tx, c).out;
    if out != [] {
      assert out[1..] == [];
    }
  }

  lemma CallKeeps(cfg: S.Config, s: Conn, c: S.Call)
    requires Inv(cfg, s) && Enabled(s, Call(c)) && !s.queue.q.failed
    ensures HistoryLegal(cfg, Called(cfg, s, c)) && LineLegal(cfg, Called(cfg, s, c))
  {
    hide S.Act, S.Agrees, Allowed, Legal, Ordered, Q.Inv, Made;
    MadeByCall(cfg, s, c);
    var l := AfterAll(START, s.queue.history);
    CallLegal(cfg, s.tx, l, c);
    var r := S.Act(cfg, s.tx, c);
    if r.out != [] {
      var f := r.out[0];
      if Bypasses(f.op) {
        assert After(l, f) == l;
      } else {
        AppendOne(cfg.compression, START, s.queue.history, f);
        OrderedAppend(s.queue.history, [f]);
        assert Ordered([f]) == [f] by {
          OrderedSingle(f);
        }
      }
    }
  }

  lemma MadeByCall(cfg: S.Config, s: Conn, c: S.Call)
    requires HistoryLegal(cfg, s) && S.Fits(c) && !s.queue.q.failed
    ensures Made(cfg, Called(cfg, s, c))
  {
    hide S.Act, S.Agrees, Legal, Ordered, S.Frames, S.TxAfter;
    var r := S.Act(cfg, s.tx, c);
    S.FramesSnoc(cfg, S.IDLE, s.calls, c);
    S.ActIsLegal(cfg, s.tx, AfterAll(START, s.queue.history), c);
    OrderedAppend(S.Frames(cfg, S.IDLE, s.calls), r.out);
    if r.out == [] {
      assert Ordered([]) == [] by {
        OrderedAtMost([]);
      }
    } else {
      OrderedSingle(r.out[0]);
      assert r.out == [r.out[0]];
    }
  }

  lemma OrderedSingle(f: Out)
    ensures Ordered([f]) == if Bypasses(f.op) then [] else [f]
  {
    assert [f][1..] == [];
  }

  // ----- The wire -----

  lemma WriteKeeps(cfg: S.Config, s: Conn)
    requires Inv(cfg, s) && s.held.Some? && !s.queue.q.failed
    ensures HistoryLegal(cfg, s.(held := None)) && LineLegal(cfg, s.(held := None, line := s.line + [s.held.value]))
  {
    hide S.Agrees, Legal, Ordered;
    var f := s.held.value;
    var flushed, history := s.queue.flushed, s.queue.history;
    assert history == flushed + history[|flushed|..];
    LegalAppend(cfg.compression, START, flushed, history[|flushed|..]);
    ClosedMonotone(AfterAll(START, flushed), history[|flushed|..]);
    assert Allowed(cfg.compression, AfterAll(START, s.line), f);
    AppendOne(cfg.compression, START, s.line, f);
    OrderedAppend(s.line, [f]);
    OrderedSingle(f);
    assert s.queue.flushed + [] == s.queue.flushed;
  }

  lemma FlushKeeps(cfg: S.Config, s: Conn, w: nat)
    requires Inv(cfg, s) && !s.queue.q.failed && Q.Enabled(s.queue, Q.Flush(w, true))
    ensures LineLegal(cfg, Do(cfg, s, Queue(Q.Flush(w, true))))
  {
    hide S.Agrees, Legal, Ordered, Allowed;
    var flushed, batch, queued := s.queue.flushed, s.queue.q.inflight, s.queue.q.queued;
    assert s.queue.history == flushed + batch + queued by {
      assert !Q.BatchOut(s.queue);
    }
    LegalAppend(cfg.compression, START, flushed + batch, queued);
    LegalAppend(cfg.compression, START, flushed, batch);
    LegalAppend(cfg.compression, START, s.line, batch);
    OrderedPart(flushed + batch, queued);
    OrderedPart(flushed, batch);
    OrderedAppend(s.line, batch);
    assert KeyedFor(cfg.Peer(), batch) by {
      assert forall i :: 0 <= i < |batch| ==> batch[i] == s.queue.history[|flushed| + i];
    }
  }

  lemma StepInv(cfg: S.Config, s: Conn, step: Step)
    requires Inv(cfg, s) && Enabled(s, step)
    ensures Inv(cfg, Do(cfg, s, step))
  {
    hide HistoryLegal, LineLegal, S.Act, Q.Inv;
    var t := Do(cfg, s, step);
    match step
    case Call(c) =>
      if !s.queue.q.failed {
        CallKeeps(cfg, s, c);
      }
      var out := S.Act(cfg, s.tx, c).out;
      if out != [] {
        Q.StepInv(s.queue, Q.Enqueue(out[0]));
      }
    case Write =>
      if !s.queue.q.failed {
        WriteKeeps(cfg, s);
        HistoryAlone(cfg, s.(held := None), t);
      }
    case Queue(q) =>
      Q.StepInv(s.queue, q);
      FailureStays(s.queue, q);
      if !t.queue.q.failed {
        HistoryAlone(cfg, s, t);
        if q.Flush? && q.ok {
          FlushKeeps(cfg, s, q.w);
        } else {
          LineAlone(cfg, s, t);
        }
      }
  }

  lemma HistoryAlone(cfg: S.Config, s: Conn, t: Conn)
    requires HistoryLegal(cfg, s) && t.tx == s.tx && t.held == s.held && t.queue.history == s.queue.history
      && t.calls == s.calls
    ensures HistoryLegal(cfg, t)
  {
  }

  lemma LineAlone(cfg: S.Config, s: Conn, t: Conn)
    requires LineLegal(cfg, s) && t.line == s.line && t.queue.flushed == s.queue.flushed
    ensures LineLegal(cfg, t)
  {
  }

  /** A failure stays, only an enqueue adds to the history, and only a flush to what is flushed. */
  lemma FailureStays(s: Q.State<Out>, step: Q.Step<Out>)
    requires Q.Enabled(s, step) && !step.Enqueue?
    ensures s.q.failed ==> Q.Do(s, step).q.failed
    ensures Q.Do(s, step).history == s.history
    ensures !(step.Flush? && step.ok) ==> Q.Do(s, step).flushed == s.flushed
  {
  }

  // ----- Runs -----

  predicate Runs(cfg: S.Config, s: Conn, steps: seq<Step>)
    decreases |steps|
  {
    steps == [] || (Enabled(s, steps[0]) && Runs(cfg, Do(cfg, s, steps[0]), steps[1..]))
  }

  function AfterRun(cfg: S.Config, s: Conn, steps: seq<Step>): Conn
    requires Runs(cfg, s, steps)
    decreases |steps|
  {
    if steps == [] then s else AfterRun(cfg, Do(cfg, s, steps[0]), steps[1..])
  }

  lemma {:induction false} Reachable(cfg: S.Config, s: Conn, steps: seq<Step>)
    requires Inv(cfg, s) && Runs(cfg, s, steps)
    ensures Inv(cfg, AfterRun(cfg, s, steps))
    decreases |steps|
  {
    hide Inv, Do, Enabled;
    if steps != [] {
      StepInv(cfg, s, steps[0]);
      Reachable(cfg, Do(cfg, s, steps[0]), steps[1..]);
    }
  }

  /** The calls a run makes, in the order of their turns with wmu. */
  function CallsOf(steps: seq<Step>): seq<S.Call> {
    if steps == [] then [] else (if steps[0].Call? then [steps[0].c] else []) + CallsOf(steps[1..])
  }

  /** No call is lost and none made up. */
  lemma {:induction false} CallsAreTheSteps(cfg: S.Config, s: Conn, steps: seq<Step>)
    requires Runs(cfg, s, steps)
    ensures AfterRun(cfg, s, steps).calls == s.calls + CallsOf(steps)
    decreases |steps|
  {
    hide Do, Enabled;
    if steps == [] {
      assert s.calls + [] == s.calls;
    } else {
      var t := Do(cfg, s, steps[0]);
      var x, y := if steps[0].Call? then [steps[0].c] else [], CallsOf(steps[1..]);
      StepCalls(cfg, s, steps[0]);
      CallsAreTheSteps(cfg, t, steps[1..]);
      JoinedCalls(s.calls, x, y);
    }
  }

  lemma JoinedCalls(a: seq<S.Call>, x: seq<S.Call>, y: seq<S.Call>)
    ensures a + x + y == a + (x + y)
  {
  }

  lemma StepCalls(cfg: S.Config, s: Conn, step: Step)
    requires Enabled(s, step)
    ensures Do(cfg, s, step).calls == s.calls + if step.Call? then [step.c] else []
  {
    hide Q.Do, S.Act;
    assert s.calls + [] == s.calls;
  }

  predicate FlushFails(step: Step) { step.Queue? && Q.FlushFails(step.step) }

  lemma StepFails(cfg: S.Config, s: Conn, step: Step)
    requires Inv(cfg, s) && Enabled(s, step) && !s.queue.q.failed && !Q.Doomed(s.queue) && !FlushFails(step)
    ensures var t := Do(cfg, s, step); !t.queue.q.failed && !Q.Doomed(t.queue)
  {
    hide Q.Do, Q.Doomed, S.Act, HistoryLegal, LineLegal, Q.Inv, Q.FlushFails;
    match step
    case Call(c) =>
      var r := S.Act(cfg, s.tx, c);
      if r.out != [] {
        EnqueueWorks(r.out[0]);
        Q.StepFails(s.queue, Q.Enqueue(r.out[0]));
      }
    case Write =>
    case Queue(q) => Q.StepFails(s.queue, q);
  }

  lemma EnqueueWorks(f: Out)
    ensures !Q.FlushFails(Q.Enqueue(f))
  {
  }

  /** A connection's queue fails only by a write to the transport that failed. */
  lemma {:induction false} FailsOnlyByFlush(cfg: S.Config, s: Conn, steps: seq<Step>)
    requires Inv(cfg, s) && Runs(cfg, s, steps) && !s.queue.q.failed && !Q.Doomed(s.queue)
    requires forall i :: 0 <= i < |steps| ==> !FlushFails(steps[i])
    ensures !AfterRun(cfg, s, steps).queue.q.failed
    decreases |steps|
  {
    hide Inv, Do, Enabled, FlushFails, Q.Doomed;
    if steps != [] {
      assert !FlushFails(steps[0]);
      StepInv(cfg, s, steps[0]);
      StepFails(cfg, s, steps[0]);
      FailsOnlyByFlush(cfg, Do(cfg, s, steps[0]), steps[1..]);
    }
  }

  /** Data and the close join the queue, behind everything in it; a ping or a pong is next on the wire. */
  lemma OnlyPingsAndPongsBypass(cfg: S.Config, s: Conn, c: S.Call, f: Out)
    requires S.Act(cfg, s.tx, c).out == [f] && !s.queue.q.failed
    ensures
      var t := Called(cfg, s, c);
      if f.op == Ping || f.op == Pong then
        t.queue == s.queue && t.held == Some(f) && Enabled(t, Write) && Do(cfg, t, Write).line == s.line + [f]
      else t.held == s.held && t.line == s.line && t.queue.history == s.queue.history + [f]
  {
    hide S.Act;
  }

  lemma StartInv(cfg: S.Config)
    ensures Inv(cfg, START_STATE)
  {
    Q.InitInv<Out>();
  }

  /**
   * For every interleaving of callers and the queue's writer: while the queue
   * has not failed, the peer accepts the wire, its frames but pings and pongs
   * are the first ones encoded, in order, and only pongs follow a close.
   */
  lemma WireIsLegal(cfg: S.Config, steps: seq<Step>)
    requires Runs(cfg, START_STATE, steps) && !AfterRun(cfg, START_STATE, steps).queue.q.failed
    ensures
      var s := AfterRun(cfg, START_STATE, steps);
      && Legal(cfg.compression, START, s.line)
      && OneShot(Init(cfg.Peer(), cfg.compression), EncodedAll(s.line)) == MeaningAll(START, s.line)
      && NoFailure(MeaningAll(START, s.line))
      && Ordered(s.line) <= s.queue.history
      && (forall i, j :: 0 <= i < j < |s.line| && s.line[i].op.Close? ==> s.line[j].op.Pong?)
  {
    hide Do, AfterRun, Runs, OneShot, MeaningAll, EncodedAll, Legal, AfterAll, Ordered, HistoryLegal;
    StartInv(cfg);
    Reachable(cfg, START_STATE, steps);
    var s := AfterRun(cfg, START_STATE, steps);
    LegalWireDelivered(cfg.Peer(), cfg.compression, s.line);
    forall i | 0 <= i < |s.line| && s.line[i].op.Close?
      ensures forall j :: i < j < |s.line| ==> s.line[j].op.Pong?
    {
      OnlyPongsFollowClose(cfg.compression, START, s.line, i);
    }
  }

  // ----- The close of a failing connection -----

  /** A frame can be waiting: one Write, and no step of the writer yet. */
  lemma UnsentIsReachable(cfg: S.Config, x: seq<byte>, coded: seq<byte>, key: Masking.Key)
    requires |x| < MAX_LENGTH && |coded| < MAX_LENGTH
    ensures
      var steps := [Call(S.Write(Binary, x, coded, key))];
      && Runs(cfg, START_STATE, steps)
      && var s := AfterRun(cfg, START_STATE, steps);
         Inv(cfg, s) && !s.queue.q.failed && s.held.None? && !s.tx.closeSent
           && s.queue.history[|s.queue.flushed|..] != []
  {
    hide CloseFault, Inv;
    var c := S.Write(Binary, x, coded, key);
    var steps := [Call(c)];
    assert steps[1..] == [];
    assert Runs(cfg, START_STATE, steps);
    StartInv(cfg);
    Reachable(cfg, START_STATE, steps);
    var s := AfterRun(cfg, START_STATE, steps);
    assert s == Called(cfg, START_STATE, c);
    assert |s.queue.history| == 1 && s.queue.flushed == [];
  }

  /**
   * sendClose writes its frame past the queue. What the queue still holds
   * then follows it: the wire stays legal exactly when that is nothing.
   */
  lemma SendCloseOvertakesQueue(cfg: S.Config, s: Conn, f: Out)
    requires Inv(cfg, s) && !s.queue.q.failed && s.held.None? && !s.tx.closeSent
    requires f.op.Close? && f.fin && !f.rsv1 && CloseFault(f.payload).None?
    ensures
      var unsent := s.queue.history[|s.queue.flushed|..];
      Legal(cfg.compression, START, s.line + [f] + unsent) <==> unsent == []
  {
    hide Legal, Ordered, CloseFault;
    var flushed, unsent := s.queue.flushed, s.queue.history[|s.queue.flushed|..];
    assert s.queue.history == flushed + unsent;
    LegalAppend(cfg.compression, START, flushed, unsent);
    ClosedMonotone(AfterAll(START, flushed), unsent);
    CloseIsShort(f.payload);
    AppendOne(cfg.compression, START, s.line, f);
    LegalAppend(cfg.compression, START, s.line + [f], unsent);
    if unsent != [] {
      OrderedPart(flushed, unsent);
      FirstIsOrdered(unsent);
      NotAfterClose(cfg.compression, AfterAll(START, s.line + [f]), unsent);
    } else {
      assert s.line + [f] + unsent == s.line + [f];
    }
  }

  lemma FirstIsOrdered(fs: seq<Out>)
    requires fs != [] && Ordered(fs) == fs
    ensures !Bypasses(fs[0].op)
  {
    OrderedAtMost(fs[1..]);
  }

  lemma NotAfterClose(compression: bool, l: Line, fs: seq<Out>)
    requires l.closed && fs != [] && !Bypasses(fs[0].op)
    ensures !Legal(compression, l, fs)
  {
  }
}
