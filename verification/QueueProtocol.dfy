/**
 * The protocol of ws/queue.go: producers, a writer goroutine that exists only
 * while there is work, and waiters on a condition variable, as atomic steps.
 */
module QueueProtocol {
  import opened Bytes

  /** What mu guards. `inflight` is the batch the writer has taken and not yet accounted for. */
  datatype Shared<T> = Shared(queued: seq<T>, inflight: seq<T>, running: bool, failed: bool, enqueued: nat,
                              written: nat)

  function Enqueued<T>(q: Shared<T>, f: T): Shared<T> {
    if q.failed then q
    else q.(queued := q.queued + [f], enqueued := q.enqueued + 1, running := true)
  }

  /** The top of run's loop: exit, or take what is queued. */
  predicate Idle<T>(q: Shared<T>) { |q.queued| == 0 || q.failed }

  function Turned<T>(q: Shared<T>): Shared<T> {
    if Idle(q) then q.(running := false) else q.(queued := [], inflight := q.queued)
  }

  /** The end of run's loop, after a flush. */
  function Settled<T>(q: Shared<T>, ok: bool): Shared<T> {
    var t := q.(inflight := [], written := q.written + |q.inflight|);
    if ok then t else t.(failed := true, queued := [], running := false)
  }

  // ----- Goroutines -----

  /** Where a writer is: at the top of its loop, with a batch to flush, or with a batch flushed. */
  datatype Pc = Top | Taken | Flushed(ok: bool)

  /** Where a waiter is: about to test its condition, or asleep. */
  datatype Waiter = Testing(seqno: nat) | Asleep(seqno: nat)

  datatype State<T> = State(
    q: Shared<T>, writers: map<nat, Pc>, waiters: map<nat, Waiter>, ids: nat,
    history: seq<T>,           // Frames ever enqueued, in order.
    flushed: seq<T>,           // Frames flushed without error, in order.
    answers: seq<(nat, bool)>) // What await returned: the sequence number, and whether nil.

  datatype Step<T> =
    | Enqueue(f: T)
    | Turn(w: nat)              // A writer at the top of its loop.
    | Flush(w: nat, ok: bool)   // It writes its batch to the transport.
    | Settle(w: nat)            // It accounts for the batch.
    | Await(seqno: nat)         // Someone starts to wait for a frame already enqueued.
    | Test(id: nat)             // A waiter tests its condition: it sleeps, or returns.

  function Init<T>(): State<T> {
    State(Shared([], [], false, false, 0, 0), map[], map[], 0, [], [], [])
  }

  predicate Enabled<T>(s: State<T>, step: Step<T>) {
    match step
    case Enqueue(_) => true
    case Turn(w) => w in s.writers && s.writers[w] == Top
    case Flush(w, _) => w in s.writers && s.writers[w] == Taken
    case Settle(w) => w in s.writers && s.writers[w].Flushed?
    case Await(n) => n <= s.q.enqueued
    case Test(id) => id in s.waiters && s.waiters[id].Testing?
  }

  /** cond.Broadcast. */
  function Woken(waiters: map<nat, Waiter>): map<nat, Waiter> {
    map id | id in waiters :: Testing(waiters[id].seqno)
  }

  function Do<T>(s: State<T>, step: Step<T>): State<T>
    requires Enabled(s, step)
  {
    match step
    case Enqueue(f) =>
      if s.q.failed then s
      else
        var t := s.(q := Enqueued(s.q, f), history := s.history + [f]);
        if s.q.running then t else t.(writers := t.writers[s.ids := Top], ids := s.ids + 1)
    case Turn(w) =>
      var t := s.(q := Turned(s.q));
      if Idle(s.q) then t.(writers := s.writers - {w}, waiters := Woken(s.waiters))
      else t.(writers := s.writers[w := Taken])
    case Flush(w, ok) =>
      var t := s.(writers := s.writers[w := Flushed(ok)]);
      if ok then t.(flushed := s.flushed + s.q.inflight) else t
    case Settle(w) =>
      var ok := s.writers[w].ok;
      s.(q := Settled(s.q, ok), waiters := Woken(s.waiters),
         writers := if ok then s.writers[w := Top] else s.writers - {w})
    case Await(n) => s.(waiters := s.waiters[s.ids := Testing(n)], ids := s.ids + 1)
    case Test(id) =>
      var n := s.waiters[id].seqno;
      if s.q.written < n && !s.q.failed then s.(waiters := s.waiters[id := Asleep(n)])
      else s.(waiters := s.waiters - {id}, answers := s.answers + [(n, !s.q.failed)])
  }

  // ----- Invariants -----

  /** At most one writer, and one exactly while running. */
  ghost predicate OneWriter<T>(s: State<T>) {
    && (forall w, v :: w in s.writers && v in s.writers ==> w == v)
    && (s.q.running <==> exists w :: w in s.writers)
    && (forall w :: w in s.writers ==> w < s.ids)
    && (forall w :: w in s.waiters ==> w < s.ids)
  }

  /** Something is in flight just while the writer has a batch. */
  ghost predicate Flying<T>(s: State<T>) {
    && (forall w :: w in s.writers ==> (s.writers[w] == Top <==> s.q.inflight == []))
    && (!s.q.running ==> s.q.inflight == [])
    && (s.q.failed ==> s.q.queued == [] && !s.q.running)
    && (s.q.queued != [] ==> s.q.running)
  }

  /** The batch is on the wire already. */
  ghost predicate BatchOut<T>(s: State<T>) {
    exists w :: w in s.writers && s.writers[w] == Flushed(true)
  }

  /** FIFO: what is flushed, then what is in flight, then what is queued is everything enqueued. */
  ghost predicate Fifo<T>(s: State<T>) {
    && s.flushed <= s.history
    && (!s.q.failed ==>
          && s.history == s.flushed + (if BatchOut(s) then [] else s.q.inflight) + s.q.queued
          && |s.history| == s.q.enqueued == s.q.written + |s.q.inflight| + |s.q.queued|
          && s.q.written + (if BatchOut(s) then |s.q.inflight| else 0) == |s.flushed|)
  }

  /** A sleeper's condition is false, and it can become true only with a broadcast. */
  ghost predicate NoLostWakeup<T>(s: State<T>) {
    && (forall id :: id in s.waiters && s.waiters[id].Asleep? ==> s.q.written < s.waiters[id].seqno && !s.q.failed)
    && (forall id :: id in s.waiters ==> s.waiters[id].seqno <= s.q.enqueued)
  }

  /** Whoever was told nil had their frame and all before it flushed, and while nothing has failed everyone was. */
  ghost predicate Honest<T>(s: State<T>) {
    && (forall i :: 0 <= i < |s.answers| && s.answers[i].1 ==> s.answers[i].0 <= |s.flushed|)
    && (!s.q.failed ==> forall i :: 0 <= i < |s.answers| ==> s.answers[i].1)
  }

  ghost predicate Inv<T>(s: State<T>) {
    OneWriter(s) && Flying(s) && Fifo(s) && NoLostWakeup(s) && Honest(s)
  }

  lemma InitInv<T>()
    ensures Inv(Init<T>())
  {
  }

  lemma StepOneWriter<T>(s: State<T>, step: Step<T>)
    requires Inv(s) && Enabled(s, step)
    ensures OneWriter(Do(s, step))
  {
    hide Fifo, NoLostWakeup, Honest;
    var t := Do(s, step);
    match step
    case Enqueue(f) =>
      if !s.q.failed && !s.q.running {
        assert s.ids in t.writers;
      }
    case Turn(w) =>
      if !Idle(s.q) {
        assert w in t.writers;
      }
    case Flush(w, ok) => assert w in t.writers;
    case Settle(w) =>
      if s.writers[w].ok {
        assert w in t.writers;
      }
    case Await(n) =>
    case Test(id) =>
  }

  lemma StepFlying<T>(s: State<T>, step: Step<T>)
    requires Inv(s) && Enabled(s, step)
    ensures Flying(Do(s, step))
  {
    hide Fifo, NoLostWakeup, Honest;
  }

  lemma StepFifo<T>(s: State<T>, step: Step<T>)
    requires Inv(s) && Enabled(s, step)
    ensures Fifo(Do(s, step))
  {
    hide NoLostWakeup, Honest;
    var t := Do(s, step);
    match step
    case Enqueue(f) =>
      if !s.q.failed {
        assert BatchOut(t) == BatchOut(s) by {
          if s.q.running {
            assert t.writers == s.writers;
          } else {
            assert s.writers == map[];
          }
        }
      }
    case Turn(w) => assert !BatchOut(s) && !BatchOut(t);
    case Flush(w, ok) =>
      assert !BatchOut(s);
      if ok {
        assert t.writers[w] == Flushed(true);
      }
    case Settle(w) => assert s.writers[w].ok ==> !BatchOut(t);
    case Await(n) =>
    case Test(id) =>
  }

  lemma StepNoLostWakeup<T>(s: State<T>, step: Step<T>)
    requires Inv(s) && Enabled(s, step)
    ensures NoLostWakeup(Do(s, step)) && Honest(Do(s, step))
  {
    hide OneWriter, Flying;
  }

  lemma StepInv<T>(s: State<T>, step: Step<T>)
    requires Inv(s) && Enabled(s, step)
    ensures Inv(Do(s, step))
  {
    hide OneWriter, Flying, Fifo, NoLostWakeup, Honest, Do, Enabled;
    StepOneWriter(s, step);
    StepFlying(s, step);
    StepFifo(s, step);
    StepNoLostWakeup(s, step);
  }

  // ----- Runs -----

  predicate Runs<T>(s: State<T>, steps: seq<Step<T>>)
    decreases |steps|
  {
    steps == [] || (Enabled(s, steps[0]) && Runs(Do(s, steps[0]), steps[1..]))
  }

  function After<T>(s: State<T>, steps: seq<Step<T>>): State<T>
    requires Runs(s, steps)
    decreases |steps|
  {
    if steps == [] then s else After(Do(s, steps[0]), steps[1..])
  }

  /** In every reachable state the queue is a FIFO with one writer, no wakeup is lost and no answer is false. */
  lemma {:induction false} Reachable<T>(s: State<T>, steps: seq<Step<T>>)
    requires Inv(s) && Runs(s, steps)
    ensures Inv(After(s, steps))
    decreases |steps|
  {
    hide Inv, Do, Enabled;
    if steps != [] {
      StepInv(s, steps[0]);
      Reachable(Do(s, steps[0]), steps[1..]);
    }
  }

  /** A step of the writer `w`. */
  predicate Moves<T>(step: Step<T>, w: nat) {
    match step
    case Turn(v) => v == w
    case Flush(v, _) => v == w
    case Settle(v) => v == w
    case _ => false
  }

  /** How far a frame is from being written, in steps of the writer. */
  function Rank<T>(s: State<T>, w: nat, n: nat): int
    requires w in s.writers
  {
    3 * (n - s.q.written) + match s.writers[w] case Top => 2 case Taken => 1 case Flushed(_) => 0
  }

  /** While a frame is unwritten there is a writer, and it can move. */
  lemma UnwrittenHasWriter<T>(s: State<T>, n: nat) returns (w: nat, step: Step<T>)
    requires Inv(s) && n <= s.q.enqueued && s.q.written < n && !s.q.failed
    ensures w in s.writers && Enabled(s, step) && Moves(step, w)
  {
    assert s.q.inflight != [] || s.q.queued != [];
    w :| w in s.writers;
    step := match s.writers[w] case Top => Turn(w) case Taken => Flush(w, true) case Flushed(_) => Settle(w);
  }

  /**
   * Waiting ends: each move of the writer brings an enqueued frame closer to
   * being written, no other step takes it further away, and the writer stays
   * until the frame is written or the queue fails.
   */
  lemma AwaitProgress<T>(s: State<T>, w: nat, n: nat, step: Step<T>)
    requires Inv(s) && Enabled(s, step) && w in s.writers
    requires n <= s.q.enqueued && s.q.written < n && !s.q.failed
    ensures
      var t := Do(s, step);
      || t.q.failed || t.q.written >= n
      || (w in t.writers && if Moves(step, w) then Rank(t, w, n) < Rank(s, w, n) else Rank(t, w, n) == Rank(s, w, n))
  {
    hide NoLostWakeup, Honest;
    assert s.q.inflight != [] || s.q.queued != [];
  }

  function Count<T>(steps: seq<Step<T>>, w: nat): nat {
    if steps == [] then 0 else (if Moves(steps[0], w) then 1 else 0) + Count(steps[1..], w)
  }

  /** Frame `n` is written, or the queue has failed: what a waiter for it waits for. */
  predicate Decided<T>(s: State<T>, n: nat) { s.q.failed || s.q.written >= n }

  lemma DecidedStays<T>(s: State<T>, n: nat, step: Step<T>)
    requires Enabled(s, step)
    ensures Decided(s, n) ==> Decided(Do(s, step), n)
    ensures Do(s, step).q.enqueued >= s.q.enqueued
  {
  }

  lemma {:induction false} DecidedForGood<T>(s: State<T>, n: nat, steps: seq<Step<T>>)
    requires Runs(s, steps) && Decided(s, n)
    ensures Decided(After(s, steps), n)
    decreases |steps|
  {
    hide Do, Enabled, Decided;
    if steps != [] {
      DecidedStays(s, n, steps[0]);
      DecidedForGood(Do(s, steps[0]), n, steps[1..]);
    }
  }

  /**
   * Over runs: however the steps of others interleave, once the writer has
   * moved as often as the frame is far, the frame is written or the queue has
   * failed, so every await for it returns.
   */
  lemma {:induction false} AwaitEnds<T>(s: State<T>, w: nat, n: nat, steps: seq<Step<T>>)
    requires Inv(s) && Runs(s, steps) && n <= s.q.enqueued && w in s.writers
    requires Count(steps, w) >= Rank(s, w, n)
    ensures Decided(After(s, steps), n)
    decreases |steps|
  {
    hide Inv, Do, Enabled, Moves, Decided;
    if Decided(s, n) {
      DecidedForGood(s, n, steps);
    } else {
      UndecidedRank(s, w, n);
      var t := Do(s, steps[0]);
      StepInv(s, steps[0]);
      DecidedStays(s, n, steps[0]);
      UndecidedProgress(s, w, n, steps[0]);
      if Decided(t, n) {
        DecidedForGood(t, n, steps[1..]);
      } else {
        AwaitEnds(t, w, n, steps[1..]);
      }
    }
  }

  lemma UndecidedRank<T>(s: State<T>, w: nat, n: nat)
    requires w in s.writers && !Decided(s, n)
    ensures Rank(s, w, n) > 0
  {
  }

  lemma UndecidedProgress<T>(s: State<T>, w: nat, n: nat, step: Step<T>)
    requires Inv(s) && Enabled(s, step) && w in s.writers && n <= s.q.enqueued && !Decided(s, n)
    ensures
      var t := Do(s, step);
      Decided(t, n) || (w in t.writers && Rank(t, w, n) <= Rank(s, w, n) - if Moves(step, w) then 1 else 0)
  {
    AwaitProgress(s, w, n, step);
  }

  /** The answer of an await: nil only if the frame and all before it are on the wire, in order. */
  lemma NilMeansFlushed<T>(s: State<T>, i: nat)
    requires Inv(s) && i < |s.answers| && s.answers[i].1
    ensures s.answers[i].0 <= |s.flushed| <= |s.history| && s.history[..s.answers[i].0] == s.flushed[..s.answers[i].0]
  {
  }

  /** In every reachable state that has not failed, every await that returned has returned nil. */
  lemma EveryAnswerIsNil<T>(steps: seq<Step<T>>)
    requires Runs(Init<T>(), steps) && !After(Init<T>(), steps).q.failed
    ensures forall i :: 0 <= i < |After(Init<T>(), steps).answers| ==> After(Init<T>(), steps).answers[i].1
  {
    hide OneWriter, Flying, Fifo, NoLostWakeup, Do, Enabled;
    InitInv<T>();
    Reachable(Init<T>(), steps);
  }

  /**
   * Once a frame is written or the queue has failed, nobody who waits for it
   * sleeps, and whoever tests leaves: with nil when there was no error, with
   * the error when there was.
   */
  lemma AwaitAnswers<T>(s: State<T>, id: nat)
    requires Inv(s) && id in s.waiters && Decided(s, s.waiters[id].seqno)
    ensures Enabled(s, Test(id))
    ensures
      var t, n := Do(s, Test(id)), s.waiters[id].seqno;
      && t.waiters == s.waiters - {id} && t.q == s.q
      && (!s.q.failed ==> t.answers == s.answers + [(n, true)])
      && (s.q.failed ==> t.answers == s.answers + [(n, false)])
  {
    hide OneWriter, Flying, Fifo, Honest;
  }

  /** The frames a run asks the queue to take. */
  function Asked<T>(steps: seq<Step<T>>): seq<T> {
    if steps == [] then [] else (if steps[0].Enqueue? then [steps[0].f] else []) + Asked(steps[1..])
  }

  function Awaits<T>(steps: seq<Step<T>>): nat {
    if steps == [] then 0 else (if steps[0].Await? then 1 else 0) + Awaits(steps[1..])
  }

  lemma FailureStays<T>(s: State<T>, step: Step<T>)
    requires Enabled(s, step) && s.q.failed
    ensures Do(s, step).q.failed
  {
  }

  lemma {:induction false} FailedForGood<T>(s: State<T>, steps: seq<Step<T>>)
    requires Runs(s, steps) && s.q.failed
    ensures After(s, steps).q.failed
    decreases |steps|
  {
    hide Do, Enabled;
    if steps != [] {
      FailureStays(s, steps[0]);
      FailedForGood(Do(s, steps[0]), steps[1..]);
    }
  }

  /** While nothing fails, every frame is taken, in order. */
  lemma {:induction false} EverythingIsTaken<T>(s: State<T>, steps: seq<Step<T>>)
    requires Runs(s, steps) && !After(s, steps).q.failed
    ensures After(s, steps).history == s.history + Asked(steps)
    decreases |steps|
  {
    if steps == [] {
      assert s.history + [] == s.history;
    } else {
      hide Do, Enabled;
      if s.q.failed {
        FailedForGood(s, steps);
      }
      StepTakes(s, steps[0]);
      EverythingIsTaken(Do(s, steps[0]), steps[1..]);
      var x, y := if steps[0].Enqueue? then [steps[0].f] else [], Asked(steps[1..]);
      assert s.history + x + y == s.history + (x + y);
    }
  }

  lemma StepTakes<T>(s: State<T>, step: Step<T>)
    requires Enabled(s, step) && !s.q.failed
    ensures Do(s, step).history == s.history + if step.Enqueue? then [step.f] else []
  {
    assert s.history + [] == s.history;
  }

  /** Every await has been answered, or is still waiting. */
  lemma {:induction false} NobodyIsForgotten<T>(s: State<T>, steps: seq<Step<T>>)
    requires Inv(s) && Runs(s, steps)
    ensures |After(s, steps).answers| + |After(s, steps).waiters| == |s.answers| + |s.waiters| + Awaits(steps)
    decreases |steps|
  {
    hide Inv, Do, Enabled;
    if steps != [] {
      StepInv(s, steps[0]);
      StepAnswers(s, steps[0]);
      NobodyIsForgotten(Do(s, steps[0]), steps[1..]);
    }
  }

  lemma StepAnswers<T>(s: State<T>, step: Step<T>)
    requires Inv(s) && Enabled(s, step)
    ensures
      var t := Do(s, step);
      |t.answers| + |t.waiters| == |s.answers| + |s.waiters| + if step.Await? then 1 else 0
  {
    hide Flying, Fifo, NoLostWakeup, Honest, Woken;
    match step
    case Await(n) => SizeWith(s.waiters, s.ids, Testing(n));
    case Test(id) =>
      SizeWith(s.waiters, id, Asleep(s.waiters[id].seqno));
      SizeWithout(s.waiters, id);
    case _ => WokenAll(s.waiters);
  }

  lemma WokenAll(waiters: map<nat, Waiter>)
    ensures |Woken(waiters)| == |waiters|
  {
    assert Woken(waiters).Keys == waiters.Keys;
  }

  lemma SizeWith(waiters: map<nat, Waiter>, id: nat, w: Waiter)
    ensures |waiters[id := w]| == |waiters| + if id in waiters then 0 else 1
  {
    assert waiters[id := w].Keys == waiters.Keys + {id};
  }

  lemma SizeWithout(waiters: map<nat, Waiter>, id: nat)
    requires id in waiters
    ensures |waiters - {id}| == |waiters| - 1
  {
    assert (waiters - {id}).Keys == waiters.Keys - {id};
  }

  /** A flush has failed and is still to be accounted for. */
  ghost predicate Doomed<T>(s: State<T>) {
    exists w :: w in s.writers && s.writers[w] == Flushed(false)
  }

  predicate FlushFails<T>(step: Step<T>) { step.Flush? && !step.ok }

  lemma StepFails<T>(s: State<T>, step: Step<T>)
    requires Inv(s) && Enabled(s, step) && !s.q.failed && !Doomed(s) && !FlushFails(step)
    ensures !Do(s, step).q.failed && !Doomed(Do(s, step))
  {
    hide Flying, Fifo, NoLostWakeup, Honest;
    if step.Settle? {
      assert s.writers[step.w] != Flushed(false);
    }
  }

  /** The queue fails only by a flush that failed. */
  lemma {:induction false} FailsOnlyByFlush<T>(s: State<T>, steps: seq<Step<T>>)
    requires Inv(s) && Runs(s, steps) && !s.q.failed && !Doomed(s)
    requires forall i :: 0 <= i < |steps| ==> !FlushFails(steps[i])
    ensures !After(s, steps).q.failed && !Doomed(After(s, steps))
    decreases |steps|
  {
    hide Inv, Do, Enabled, Doomed, FlushFails;
    if steps != [] {
      assert !FlushFails(steps[0]);
      StepInv(s, steps[0]);
      StepFails(s, steps[0]);
      FailsOnlyByFlush(Do(s, steps[0]), steps[1..]);
    }
  }

  /** And by every such flush: once it is accounted for the queue has failed and its frames are dropped. */
  lemma FlushFailureFails<T>(s: State<T>, w: nat)
    requires Inv(s) && w in s.writers && s.writers[w] == Flushed(false)
    ensures Enabled(s, Settle(w)) && Do(s, Settle(w)).q.failed && Do(s, Settle(w)).q.queued == []
    ensures forall id :: id in s.waiters ==> id in Do(s, Settle(w)).waiters && Enabled(Do(s, Settle(w)), Test(id))
  {
  }
}
