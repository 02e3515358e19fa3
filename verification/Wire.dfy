/**
 * Frames on the wire, which sequences of them are legal, and what the opposite role's receiver
 * makes of a legal one.
 */
module Wire {
  import opened Bytes
  import opened Masking
  import opened Framing
  import opened Reception

  /** A frame as the sender means it, payload unmasked, and the key it is sent under. */
  datatype Out = Out(fin: bool, rsv1: bool, op: Opcode, payload: seq<byte>, key: Option<Key>)

  function Body(f: Out): (r: seq<byte>)
    ensures |r| == |f.payload|
  {
    if f.key.Some? then Masked(f.payload, f.key.value, 0) else f.payload
  }

  /** The octets of a frame: section 5.2 of RFC 6455. */
  function Encoded(f: Out): seq<byte> {
    EncodeHeader(f.fin, f.rsv1, f.op, |f.payload|, f.key) + Body(f)
  }

  function EncodedAll(fs: seq<Out>): seq<byte> {
    if fs == [] then [] else Encoded(fs[0]) + EncodedAll(fs[1..])
  }

  /** Whether a message is open between frames, and whether a close has gone out. */
  datatype Line = Line(open: bool, closed: bool)

  const START := Line(false, false)

  function After(l: Line, f: Out): Line {
    if f.op.Close? then l.(closed := true) else if f.op.IsData() then l.(open := !f.fin) else l
  }

  function AfterAll(l: Line, fs: seq<Out>): Line
    decreases |fs|
  {
    if fs == [] then l else AfterAll(After(l, fs[0]), fs[1..])
  }

  /** What sections 5.4 and 5.5 of RFC 6455 and section 6 of RFC 7692 allow next. */
  predicate Allowed(compression: bool, l: Line, f: Out) {
    && |f.payload| < MAX_LENGTH
    && (l.closed ==> f.op.Pong?)
    && match f.op
       case Text => !l.open && (f.rsv1 ==> compression)
       case Binary => !l.open && (f.rsv1 ==> compression)
       case Continuation => l.open && !f.rsv1
       case Close => f.fin && !f.rsv1 && CloseFault(f.payload).None?
       case Ping => f.fin && !f.rsv1 && |f.payload| <= 125
       case Pong => f.fin && !f.rsv1 && |f.payload| <= 125
       case Reserved(_) => false
  }

  predicate Legal(compression: bool, l: Line, fs: seq<Out>)
    decreases |fs|
  {
    fs == [] || (Allowed(compression, l, fs[0]) && Legal(compression, After(l, fs[0]), fs[1..]))
  }

  /** Frames to a server are masked, frames to a client are not: section 5.1 of RFC 6455. */
  predicate KeyedFor(role: Role, fs: seq<Out>) {
    forall i :: 0 <= i < |fs| ==> fs[i].key.Some? == role.Server?
  }

  /** What a frame means to whoever receives it. */
  function Meaning(f: Out): seq<Event> {
    if f.op.IsData() then [Frame(f.op, f.rsv1, |f.payload|)] + Octets(f.payload) + [EndFrame(f.fin)]
    else [Control(f.op, f.payload)]
  }

  /** Nothing after a close is heard. */
  function MeaningAll(l: Line, fs: seq<Out>): seq<Event>
    decreases |fs|
  {
    if fs == [] then [] else (if l.closed then [] else Meaning(fs[0])) + MeaningAll(After(l, fs[0]), fs[1..])
  }

  /** The receiver is between frames, where the line says. */
  predicate At(s: Rx, l: Line) {
    && s.Valid() && s.failed.None? && s.closed == l.closed
    && (!l.closed ==> s.remaining == 0 && !s.controlOpen && s.message.Some? == l.open)
  }

  // ----- One frame -----

  lemma BodyUnmasks(s: Rx, f: Out)
    requires s.key == f.key && s.offset == 0
    ensures Unmasked(s, Body(f)) == f.payload
  {
    if f.key.Some? {
      MaskedTwice(f.payload, f.key.value, 0);
    }
  }

  function HeadFor(f: Out): Head {
    Head(f.fin, f.rsv1, false, false, f.op, f.key, |f.payload|)
  }

  lemma HeaderArrives(s: Rx, l: Line, f: Out)
    requires At(s, l) && !l.closed && Allowed(s.compression, l, f) && f.key.Some? == s.role.Server?
    ensures
      var raw := EncodeHeader(f.fin, f.rsv1, f.op, |f.payload|, f.key);
      var m := HeaderMove(s, Complete(HeadFor(f), |raw|), |raw|);
      Accepts(s, HeadFor(f)) && m.Go? && m.used == |raw| && Tracks(s, raw, m.events, m.next)
  {
    hide EncodeHeader, ParseHeader, Opened, Delivered, DeliveredEvent, CloseFault, OneShot, Tracks;
    var raw := EncodeHeader(f.fin, f.rsv1, f.op, |f.payload|, f.key);
    HeaderRoundTrip(f.fin, f.rsv1, f.op, |f.payload|, f.key, []);
    assert raw + [] == raw && raw[..|raw|] == raw;
    assert Accepts(s, HeadFor(f)) by {
      CloseIsShort(f.payload);
    }
    HeaderTracks(s, raw);
  }

  lemma CloseIsShort(payload: seq<byte>)
    ensures CloseFault(payload).None? ==> |payload| <= 125
  {
  }

  lemma PayloadArrives(u: Rx, f: Out)
    requires u.Valid() && !u.Over() && !u.controlOpen && u.remaining == |f.payload| > 0
    requires u.key == f.key && u.offset == 0 && u.head.fin == f.fin
    ensures Taken(u, |f.payload|).Valid()
      && Tracks(u, Body(f), Octets(f.payload) + [EndFrame(f.fin)], Taken(u, |f.payload|))
  {
    hide Unmasked, Masked, OneShot, Step, Tracks, Body;
    PayloadTracks(u, Body(f));
    BodyUnmasks(u, f);
  }

  lemma DataArrives(s: Rx, l: Line, f: Out) returns (t: Rx)
    requires At(s, l) && !l.closed && Allowed(s.compression, l, f) && f.key.Some? == s.role.Server? && f.op.IsData()
    ensures At(t, After(l, f)) && t.role == s.role && t.compression == s.compression
    ensures Tracks(s, Encoded(f), Meaning(f), t)
  {
    hide EncodeHeader, Accepts, Body, OneShot, Step, Tracks;
    HeaderArrives(s, l, f);
    var raw := EncodeHeader(f.fin, f.rsv1, f.op, |f.payload|, f.key);
    t := Opened(s, HeadFor(f));
    if f.payload == [] {
      assert Encoded(f) == raw;
      assert [Frame(f.op, f.rsv1, 0)] + Octets(f.payload) + [EndFrame(f.fin)]
        == [Frame(f.op, f.rsv1, 0)] + [EndFrame(f.fin)];
    } else {
      var u := t;
      PayloadArrives(u, f);
      t := Taken(u, |f.payload|);
      var rest := Octets(f.payload) + [EndFrame(f.fin)];
      TracksCompose(s, raw, [Frame(f.op, f.rsv1, |f.payload|)] + [], u, Body(f), rest, t);
      assert [Frame(f.op, f.rsv1, |f.payload|)] + [] + rest == Meaning(f);
    }
  }

  lemma ControlArrives(s: Rx, l: Line, f: Out) returns (t: Rx)
    requires At(s, l) && !l.closed && Allowed(s.compression, l, f) && f.key.Some? == s.role.Server? && !f.op.IsData()
    ensures At(t, After(l, f)) && t.role == s.role && t.compression == s.compression
    ensures Tracks(s, Encoded(f), Meaning(f), t)
  {
    hide EncodeHeader, Accepts, Unmasked, Masked, OneShot, Step, Tracks, CloseFault;
    HeaderArrives(s, l, f);
    var raw := EncodeHeader(f.fin, f.rsv1, f.op, |f.payload|, f.key);
    var u := Opened(s, HeadFor(f));
    if f.payload == [] {
      assert Encoded(f) == raw;
      t := Delivered(u);
    } else {
      DeliverTracks(u, Body(f));
      BodyUnmasks(u, f);
      var g := Gathered(u, Body(f));
      assert g.control == f.payload by {
        assert [] + f.payload == f.payload;
      }
      t := Delivered(g);
      TracksCompose(s, raw, [], u, Body(f), [DeliveredEvent(g)], t);
      assert [] + [DeliveredEvent(g)] == Meaning(f);
    }
  }

  lemma FrameArrives(s: Rx, l: Line, f: Out) returns (t: Rx)
    requires At(s, l) && Allowed(s.compression, l, f) && f.key.Some? == s.role.Server?
    ensures At(t, After(l, f)) && t.role == s.role && t.compression == s.compression
    ensures Tracks(s, Encoded(f), if l.closed then [] else Meaning(f), t)
  {
    hide Encoded, Meaning, OneShot, Step, Tracks;
    if l.closed {
      t := s;
      TracksNothing(s);
      TracksAll(s, [], [], s, Encoded(f));
      assert [] + Encoded(f) == Encoded(f);
    } else if f.op.IsData() {
      t := DataArrives(s, l, f);
    } else {
      t := ControlArrives(s, l, f);
    }
  }

  // ----- Whole wires -----

  lemma {:induction false} FramesArrive(s: Rx, l: Line, fs: seq<Out>) returns (t: Rx)
    requires At(s, l) && Legal(s.compression, l, fs) && KeyedFor(s.role, fs)
    ensures At(t, AfterAll(l, fs))
    ensures Tracks(s, EncodedAll(fs), MeaningAll(l, fs), t)
    decreases |fs|
  {
    hide Encoded, Meaning, OneShot, Step, Tracks, Allowed;
    t := s;
    if fs == [] {
      TracksNothing(s);
    } else {
      var u := FrameArrives(s, l, fs[0]);
      t := FramesArrive(u, After(l, fs[0]), fs[1..]);
      Joined(s, l, fs, u, t);
    }
  }

  lemma Joined(s: Rx, l: Line, fs: seq<Out>, u: Rx, t: Rx)
    requires fs != [] && s.Valid() && u.Valid() && t.Valid()
    requires Tracks(s, Encoded(fs[0]), if l.closed then [] else Meaning(fs[0]), u)
    requires Tracks(u, EncodedAll(fs[1..]), MeaningAll(After(l, fs[0]), fs[1..]), t)
    ensures Tracks(s, EncodedAll(fs), MeaningAll(l, fs), t)
  {
    hide Encoded, Meaning, OneShot, Step, Tracks;
    TracksCompose(s, Encoded(fs[0]), if l.closed then [] else Meaning(fs[0]), u,
                  EncodedAll(fs[1..]), MeaningAll(After(l, fs[0]), fs[1..]), t);
  }

  predicate NoFailure(ev: seq<Event>) {
    forall i :: 0 <= i < |ev| ==> !ev[i].Fail?
  }

  lemma {:induction false} MeaningHasNoFailure(l: Line, fs: seq<Out>)
    ensures NoFailure(MeaningAll(l, fs))
    decreases |fs|
  {
    if fs != [] {
      MeaningHasNoFailure(After(l, fs[0]), fs[1..]);
    }
  }

  /**
   * A legal wire is accepted whole by the opposite role: it reports what the frames mean, in order,
   * and never fails.
   */
  lemma LegalWireDelivered(role: Role, compression: bool, fs: seq<Out>)
    requires Legal(compression, START, fs) && KeyedFor(role, fs)
    ensures OneShot(Init(role, compression), EncodedAll(fs)) == MeaningAll(START, fs)
    ensures NoFailure(MeaningAll(START, fs))
  {
    hide Encoded, Meaning, Step, Allowed;
    var s := Init(role, compression);
    var t := FramesArrive(s, START, fs);
    assert EncodedAll(fs) + [] == EncodedAll(fs);
    assert OneShot(t, []) == [] by {
      NothingFromNothing(t);
    }
    assert MeaningAll(START, fs) + [] == MeaningAll(START, fs);
    MeaningHasNoFailure(START, fs);
  }

  // ----- Sequences of frames -----

  lemma {:induction false} ClosedStays(compression: bool, l: Line, fs: seq<Out>)
    requires l.closed && Legal(compression, l, fs)
    ensures forall j :: 0 <= j < |fs| ==> fs[j].op.Pong?
    decreases |fs|
  {
    if fs != [] {
      ClosedStays(compression, After(l, fs[0]), fs[1..]);
      assert forall j :: 1 <= j < |fs| ==> fs[j] == fs[1..][j - 1];
    }
  }

  /** On a legal wire only pongs follow a close, so there is at most one. */
  lemma {:induction false} OnlyPongsFollowClose(compression: bool, l: Line, fs: seq<Out>, i: nat)
    requires Legal(compression, l, fs) && i < |fs| && fs[i].op.Close?
    ensures forall j :: i < j < |fs| ==> fs[j].op.Pong?
    decreases |fs|
  {
    hide Allowed;
    if i == 0 {
      ClosedStays(compression, After(l, fs[0]), fs[1..]);
    } else {
      OnlyPongsFollowClose(compression, After(l, fs[0]), fs[1..], i - 1);
    }
    assert forall j :: 1 <= j < |fs| ==> fs[j] == fs[1..][j - 1];
  }

  lemma {:induction false} LegalAppend(compression: bool, l: Line, a: seq<Out>, b: seq<Out>)
    ensures Legal(compression, l, a + b) <==> Legal(compression, l, a) && Legal(compression, AfterAll(l, a), b)
    ensures AfterAll(l, a + b) == AfterAll(AfterAll(l, a), b)
    decreases |a|
  {
    hide Allowed;
    if a == [] {
      assert a + b == b;
    } else {
      LegalAppend(compression, After(l, a[0]), a[1..], b);
      assert (a + b)[1..] == a[1..] + b;
    }
  }

  lemma {:induction false} EncodedAllAppend(a: seq<Out>, b: seq<Out>)
    ensures EncodedAll(a + b) == EncodedAll(a) + EncodedAll(b)
    decreases |a|
  {
    hide Encoded;
    if a == [] {
      assert a + b == b;
    } else {
      EncodedAllAppend(a[1..], b);
      assert (a + b)[1..] == a[1..] + b;
      assert Encoded(a[0]) + (EncodedAll(a[1..]) + EncodedAll(b)) == Encoded(a[0]) + EncodedAll(a[1..]) + EncodedAll(b);
    }
  }
}
