/**
 * Context takeover end to end, section 7.2 of RFC 7692: the sender's lazy,
 * cached history and the receiver's window, over whole runs of messages.
 */
module Takeover {
  import opened Bytes
  import opened DeflateWindow
  import opened Flate
  import opened Compressors
  import opened PendingHistory
  import opened Decompressors

  /**
   * The sending connection's compression state (compressorContext): its window
   * and debts when takeover is on, and the compressor it keeps.
   */
  datatype Sender<W(==)> = Sender(enc: Encoder, shared: bool, lazy: Option<Lazy>, comp: Option<Comp<W>>) {
    /** A compressor goes back to the pool after each message. */
    predicate Returns() { shared || lazy.None? }

    /** compressorFor: the one it has, or one from the pool, reset. */
    function Pick(): Comp<W> {
      if comp.Some? then comp.value else Comp(enc.reach, None, 0, false, [], [])
    }

    function Window(): Option<History> {
      if lazy.Some? then Some(lazy.value.window) else None
    }

    /** applyPending. */
    function Settled(): Sender<W> {
      if lazy.Some? then this.(lazy := Some(Flushed(lazy.value))) else this
    }

    /** What the encoder's history is as it starts on the next chunk. */
    function Ready(w: W): Comp<W> {
      Primed(Pick(), if lazy.Some? then Some(w) else None, Window())
    }

    /** One chunk compressed with the connection's history up to date: Write in one, fragment in several. */
    function Sent(w: W, payload: seq<byte>, final: bool): Sender<W> {
      var c := Chunk(Pick(), if lazy.Some? then Some(w) else None, Window(), payload, final);
      this.(lazy := if lazy.Some? then Some(lazy.value.(window := lazy.value.window.Remember(payload))) else None,
            comp := if final && Returns() then None else Some(c))
    }

    function Piece(w: W, payload: seq<byte>): seq<byte> {
      enc.emit(Ready(w).dict, Ready(w).writes, payload)
    }
  }

  /** A message of the connection's own, chunk by chunk, the last one final. */
  function SendChunks<W>(s: Sender<W>, w: W, chunks: seq<seq<byte>>): Sender<W>
    decreases |chunks|
  {
    if chunks == [] then s
    else SendChunks(s.Settled().Sent(w, chunks[0], |chunks| == 1), w, chunks[1..])
  }

  /** The bytes it puts on the wire before the last tail is stripped. */
  function Pieces<W>(s: Sender<W>, w: W, chunks: seq<seq<byte>>): seq<byte>
    decreases |chunks|
  {
    if chunks == [] then []
    else s.Settled().Piece(w, chunks[0]) + Pieces(s.Settled().Sent(w, chunks[0], |chunks| == 1), w, chunks[1..])
  }

  /** What the sender knows: `total` is everything sent compressed so far. */
  ghost predicate InStep<W(!new)>(s: Sender<W>, w: W, total: seq<byte>) {
    && (s.lazy.Some? ==> s.lazy.value.Valid() && s.lazy.value.Meaning() == Last(total, s.lazy.value.window.size))
    && (s.comp.Some? ==> Continues(s, w, s.comp.value, total))
    && (s.Returns() ==> s.comp.None?)
  }

  /** A kept compressor that would not prime has, as far as it reaches, what was sent last. */
  ghost predicate Continues<W(!new)>(s: Sender<W>, w: W, c: Comp<W>, total: seq<byte>) {
    && c.reach == s.enc.reach && !c.mid
    && (s.lazy.Some? && c.attached == Some(w) ==>
          && c.gen <= s.lazy.value.window.gen
          && (c.gen == s.lazy.value.window.gen && Flatten(s.lazy.value.pending) == [] ==>
            Covers(total, c.Seen(), c.reach)))
  }

  lemma {:induction false} QuietAddsNothing(h: History, ps: seq<seq<byte>>)
    ensures AddAll(h, ps).gen >= h.gen
    ensures AddAll(h, ps).gen == h.gen ==> Flatten(ps) == []
    decreases |ps|
  {
    if ps != [] {
      QuietAddsNothing(h.Remember(ps[0]), ps[1..]);
    }
  }

  /** Settling the debts: the window itself now means what was sent. */
  lemma SettledInStep<W(!new)>(s: Sender<W>, w: W, total: seq<byte>)
    requires InStep(s, w, total)
    ensures InStep(s.Settled(), w, total)
    ensures s.lazy.Some? ==>
              && s.Settled().lazy.value.pending == []
              && s.Settled().lazy.value.window.size == s.lazy.value.window.size
              && s.Settled().lazy.value.window.data == Last(total, s.lazy.value.window.size)
  {
    if s.lazy.Some? {
      var l := s.lazy.value;
      hide Last, IsSuffix;
      FlushKeepsMeaning(l);
      QuietAddsNothing(l.window, l.pending);
    }
  }

  /** What the encoder starts from is covered by everything sent. */
  lemma ReadyIsCovered<W(!new)>(s: Sender<W>, w: W, total: seq<byte>)
    requires InStep(s, w, total)
    requires s.lazy.Some? ==>
      s.lazy.value.pending == [] && s.lazy.value.window.data == Last(total, s.lazy.value.window.size)
    ensures Covers(total, s.Ready(w).Seen(), s.enc.reach)
    ensures s.Ready(w).reach == s.enc.reach
  {
    var c := s.Ready(w);
    if MustPrime(s.Pick(), if s.lazy.Some? then Some(w) else None, s.Window()) {
      assert c.Seen() == c.dict;
      if s.lazy.Some? {
        var data := s.lazy.value.window.data;
        LastIsSuffix(total, s.lazy.value.window.size);
        LastIsSuffix(data, s.enc.reach);
        SuffixTrans(Last(data, s.enc.reach), data, total);
        LastOfLast(data, s.enc.reach, s.enc.reach);
      }
    }
  }

  /** Ready for a chunk: no debts, and an encoder whose history everything sent covers. */
  ghost predicate Open<W(!new)>(s: Sender<W>, w: W, total: seq<byte>) {
    && (s.lazy.Some? ==>
          && s.lazy.value.Valid() && s.lazy.value.pending == []
          && s.lazy.value.window.data == Last(total, s.lazy.value.window.size))
    && s.Ready(w).reach == s.enc.reach
    && Covers(total, s.Ready(w).Seen(), s.enc.reach)
  }

  /** The same connection, further on. */
  ghost predicate SameSetup<W>(s: Sender<W>, t: Sender<W>) {
    && t.enc == s.enc && t.shared == s.shared && t.lazy.Some? == s.lazy.Some?
    && (s.lazy.Some? ==> t.lazy.value.window.size == s.lazy.value.window.size)
  }

  lemma SettledIsStill<W>(s: Sender<W>)
    requires s.lazy.Some? ==> s.lazy.value.pending == []
    ensures s.Settled() == s
  {
  }

  lemma WindowFollows<W>(s: Sender<W>, w: W, payload: seq<byte>, final: bool, total: seq<byte>)
    requires s.lazy.Some? && s.lazy.value.Valid() && s.lazy.value.pending == []
    requires s.lazy.value.window.data == Last(total, s.lazy.value.window.size)
    ensures
      var l := s.Sent(w, payload, final).lazy.value;
      && l.Valid() && l.pending == [] && l.window.size == s.lazy.value.window.size
      && l.window.data == Last(total + payload, l.window.size) == l.Meaning()
  {
    var size := s.lazy.value.window.size;
    LastAppend(total, payload, size);
    if payload == [] {
      assert total + payload == total;
    }
    var l := s.Sent(w, payload, final).lazy.value;
    assert l.window.data + Flatten([]) == l.window.data;
    LastOfLast(total + payload, size, size);
  }

  /** After a chunk the kept encoder's history is that of everything sent, one chunk further. */
  lemma EncoderFollows<W(!new)>(s: Sender<W>, w: W, payload: seq<byte>, final: bool, total: seq<byte>)
    requires Open(s, w, total)
    ensures
      var c := Chunk(s.Pick(), if s.lazy.Some? then Some(w) else None, s.Window(), payload, final);
      && c.reach == s.enc.reach && c.mid == !final && c.dict == s.Ready(w).dict
      && c.writes == s.Ready(w).writes + [payload]
      && Covers(total + payload, c.Seen(), s.enc.reach)
      && (s.lazy.Some? ==> c.attached == Some(w) && c.gen == s.lazy.value.window.Remember(payload).gen)
  {
    hide Last, IsSuffix;
    SeenAfter(s.Ready(w), payload);
    CoversExtends(total, s.Ready(w).Seen(), payload, s.enc.reach);
    var c := Chunk(s.Pick(), if s.lazy.Some? then Some(w) else None, s.Window(), payload, final);
    assert c.Seen() == s.Ready(w).Seen() + payload;
  }

  /** A middle chunk leaves the sender ready for the next; the last one leaves it in step. */
  lemma ChunkInStep<W(!new)>(s: Sender<W>, w: W, payload: seq<byte>, final: bool, total: seq<byte>)
    requires Open(s, w, total)
    ensures
      var t := s.Sent(w, payload, final);
      && SameSetup(s, t) && t.Settled() == t
      && (!final ==> Open(t, w, total + payload) && t.Ready(w).dict == s.Ready(w).dict
                     && t.Ready(w).writes == s.Ready(w).writes + [payload])
      && (final ==> InStep(t, w, total + payload))
  {
    hide Last, IsSuffix, Covers;
    var t := s.Sent(w, payload, final);
    EncoderFollows(s, w, payload, final, total);
    if s.lazy.Some? {
      WindowFollows(s, w, payload, final, total);
    }
    SettledIsStill(t);
  }

  /** A whole message of the connection's own: one stream on the wire, and the sender in step behind it. */
  lemma {:induction false} ChunksInStep<W(!new)>(s: Sender<W>, w: W, chunks: seq<seq<byte>>, total: seq<byte>)
    requires Open(s, w, total) && s.Settled() == s && chunks != []
    ensures Pieces(s, w, chunks) == Stream(s.enc, s.Ready(w).dict, s.Ready(w).writes, chunks)
    ensures InStep(SendChunks(s, w, chunks), w, total + Flatten(chunks))
    ensures SameSetup(s, SendChunks(s, w, chunks))
    decreases |chunks|
  {
    hide Last, IsSuffix, Covers, Open, InStep;
    var more := chunks[1..];
    var t := s.Sent(w, chunks[0], more == []);
    ChunkInStep(s, w, chunks[0], more == [], total);
    assert total + chunks[0] + Flatten(more) == total + Flatten(chunks);
    if more == [] {
      assert total + chunks[0] == total + Flatten(chunks);
    } else {
      ChunksInStep(t, w, more, total + chunks[0]);
    }
  }

  // ----- Prepared messages -----

  lemma {:induction false} DropLeavesSome(ps: seq<seq<byte>>, size: nat)
    requires 0 < size && Flatten(DropCovered(ps, 0, size)) == []
    ensures Flatten(ps) == []
    decreases |ps|
  {
    if ps != [] && |Flatten(ps[1..])| >= size {
      DropLeavesSome(ps[1..], size);
    }
  }

  /** A noted payload that leaves no trace was empty, and nothing was owed before it. */
  lemma NotedQuietly(l: Lazy, p: seq<byte>)
    requires l.Valid()
    ensures Noted(l, p).window.gen >= l.window.gen
    ensures Noted(l, p).window.gen == l.window.gen && Flatten(Noted(l, p).pending) == [] ==>
      p == [] && Flatten(l.pending) == []
  {
    var size := l.window.size;
    FlattenOne(p);
    if |p| < size {
      var kept := DropCovered(l.pending, |p|, size);
      QuietAddsNothing(l.window, kept);
      FlattenAppend(kept, [p]);
      FlattenAppend([], [p]);
      if p == [] && Flatten(kept) == [] {
        DropLeavesSome(l.pending, size);
      }
    }
  }

  /** WritePrepared on a takeover connection keeps the sender in step. */
  lemma NotedInStep<W(!new)>(s: Sender<W>, w: W, x: seq<byte>, total: seq<byte>)
    requires InStep(s, w, total) && s.lazy.Some?
    ensures InStep(s.(lazy := Some(Noted(s.lazy.value, x))), w, total + x)
  {
    hide Last, IsSuffix, Covers;
    var l := s.lazy.value;
    NotedIsAdded(l, x);
    NotedQuietly(l, x);
    LastAppend(total, x, l.window.size);
    if x == [] {
      assert total + x == total;
    }
  }

  // ----- Whole runs -----

  /** The role, negotiated compression, and the size below which messages go plain. */
  datatype Config = Config(client: bool, compression: bool, minSize: nat)

  /** A data message, by the call that sends it. A fragmented one ends in its last chunk. */
  datatype Op =
    | Write(x: seq<byte>)
    | WritePrepared(x: seq<byte>)
    | Fragmented(chunks: seq<seq<byte>>, last: seq<byte>)
  {
    function Content(): seq<byte> {
      match this case Write(x) => x case WritePrepared(x) => x case Fragmented(chunks, last) => Flatten(chunks + [last])
    }

    /** A client must mask, so its WritePrepared is Write. */
    function For(cfg: Config): Op {
      if cfg.client && WritePrepared? then Write(x) else this
    }

    predicate Compressed(cfg: Config) {
      cfg.compression && (Fragmented? || |x| >= cfg.minSize)
    }

    /** The chunks the connection's own compressor sees. */
    function Chunks(): seq<seq<byte>>
      requires !WritePrepared?
    {
      match this case Write(x) => [x] case Fragmented(chunks, last) => chunks + [last]
    }
  }

  datatype Frame = Plain(x: seq<byte>) | Packed(payload: seq<byte>) {
    /** The bytes on the wire. */
    function Carried(): seq<byte> { match this case Plain(x) => x case Packed(p) => p }
  }

  /** encodeData, fragment and preparedFrame: the sender behind a message. */
  function Behind<W>(cfg: Config, s: Sender<W>, w: W, op: Op): Sender<W> {
    if !op.Compressed(cfg) then s
    else if op.For(cfg).WritePrepared? then
      if s.lazy.Some? then s.(lazy := Some(Noted(s.lazy.value, op.x))) else s
    else SendChunks(s.Settled(), w, op.For(cfg).Chunks())
  }

  /** The message's payload on the wire. A prepared one is compressed on its own. */
  function OnWire<W>(cfg: Config, s: Sender<W>, w: W, op: Op): Frame {
    if !op.Compressed(cfg) then Plain(op.Content())
    else if op.For(cfg).WritePrepared? then Packed(Payload(s.enc, [], [], [op.x]))
    else
      var p := Pieces(s.Settled(), w, op.For(cfg).Chunks());
      Packed(if |p| >= 4 then p[..|p| - 4] else p)
  }

  /** Compressed are exactly the messages from the threshold on, and all that are fragmented, once it is negotiated. */
  lemma PackedExactly<W>(cfg: Config, s: Sender<W>, w: W, op: Op)
    ensures OnWire(cfg, s, w, op).Packed? <==>
      cfg.compression && (op.Fragmented? || |op.Content()| >= cfg.minSize)
    ensures OnWire(cfg, s, w, op).Plain? ==> OnWire(cfg, s, w, op).Carried() == op.Content()
  {
    hide Flatten, Payload, Pieces;
  }

  /** The receiver's window, or None without takeover. */
  type Receiver = Option<History>

  /** What the peer makes of a frame, whole or streamed, read or discarded, and its window after. */
  function Received(inf: Inflate, r: Receiver, f: Frame): Option<seq<byte>> {
    match f
    case Plain(x) => Some(x)
    case Packed(p) =>
      if r.Some? then Message(inf, r.value.size, r.value.data, p + INFLATE_TAIL)
      else Message(inf, WINDOW_SIZE, [], p + INFLATE_TAIL)
  }

  function Receiving(inf: Inflate, r: Receiver, f: Frame): Receiver {
    if f.Plain? || r.None? then r
    else match Received(inf, r, f)
         case Some(x) => Some(r.value.Remember(x))
         case None => Some(r.value.Reset())
  }

  /** A plain message leaves the window alone, a compressed one enters it, and one that does not inflate clears it. */
  lemma ReceivingExactly(inf: Inflate, r: History, f: Frame)
    requires r.Valid()
    ensures
      var after := Receiving(inf, Some(r), f);
      && after.Some? && after.value.size == r.size
      && after.value.data == match Received(inf, Some(r), f)
                             case None => []
                             case Some(x) => if f.Plain? then r.data else Last(r.data + x, r.size)
    ensures Receiving(inf, None, f) == None
  {
    hide Message;
    assert r.data + [] == r.data;
  }

  /** Sender and receiver hold the same history: the last bytes of everything sent. */
  ghost predicate Synchronous<W(!new)>(s: Sender<W>, w: W, r: Receiver, total: seq<byte>) {
    && InStep(s, w, total)
    && (r.None? ==> s.lazy.None?)
    && (r.Some? ==> r.value.Valid() && s.enc.reach <= r.value.size && r.value.data == Last(total, r.value.size))
  }

  lemma SuffixOfLast<T>(s: seq<T>, total: seq<T>, n: nat)
    requires IsSuffix(s, total) && |s| <= n
    ensures IsSuffix(s, Last(total, n))
  {
  }

  /** A single stream that uses all its input is the whole message. */
  lemma OneStream(inf: Inflate, size: nat, hist: seq<byte>, input: seq<byte>, x: seq<byte>)
    requires inf[(Last(hist, size), input)] == Done(x, |input|) && input != []
    ensures Message(inf, size, hist, input) == Some(x)
  {
  }

  /** Whatever the receiver holds covers what a payload was compressed against. */
  lemma PayloadReceived(e: Encoder, inf: Inflate, r: Receiver, dict: seq<byte>, ws: seq<seq<byte>>,
                        chunks: seq<seq<byte>>)
    requires Sound(e, inf) && chunks != [] && (r.Some? ==> r.value.Valid())
    requires Covers(if r.Some? then r.value.data else [], dict + Flatten(ws), e.reach)
    ensures Received(inf, r, Packed(Payload(e, dict, ws, chunks))) == Some(Flatten(chunks))
  {
    hide Message, IsSuffix, Covers;
    var D := if r.Some? then r.value.data else [];
    var size := if r.Some? then r.value.size else WINDOW_SIZE;
    PayloadInflates(e, inf, dict, ws, chunks, D);
    OneStream(inf, size, D, Payload(e, dict, ws, chunks) + INFLATE_TAIL, Flatten(chunks));
  }

  /** The connection's own messages reach the peer and leave both in step. */
  lemma OwnMessage<W(!new)>(inf: Inflate, s: Sender<W>, w: W, chunks: seq<seq<byte>>, r: Receiver, total: seq<byte>)
    requires Sound(s.enc, inf) && Synchronous(s, w, r, total) && chunks != []
    ensures
      var p := Pieces(s.Settled(), w, chunks);
      Received(inf, r, Packed(if |p| >= 4 then p[..|p| - 4] else p)) == Some(Flatten(chunks))
    ensures
      var t := SendChunks(s.Settled(), w, chunks);
      InStep(t, w, total + Flatten(chunks)) && SameSetup(s, t)
  {
    hide Last, IsSuffix, Message, InStep;
    var t := s.Settled();
    SettledInStep(s, w, total);
    SettledIsStill(t);
    OpenWhenSettled(s, w, total);
    ChunksInStep(t, w, chunks, total);
    CoveredByReceiver(s, w, r, total);
    PayloadReceived(s.enc, inf, r, t.Ready(w).dict, t.Ready(w).writes, chunks);
  }

  lemma OpenWhenSettled<W(!new)>(s: Sender<W>, w: W, total: seq<byte>)
    requires InStep(s, w, total)
    ensures Open(s.Settled(), w, total) && SameSetup(s, s.Settled())
  {
    hide Last, IsSuffix, Covers;
    SettledInStep(s, w, total);
    ReadyIsCovered(s.Settled(), w, total);
    if s.lazy.Some? {
      FlushKeepsMeaning(s.lazy.value);
    }
  }

  lemma CoveredByReceiver<W(!new)>(s: Sender<W>, w: W, r: Receiver, total: seq<byte>)
    requires Synchronous(s, w, r, total)
    ensures Covers(if r.Some? then r.value.data else [], s.Settled().Ready(w).Seen(), s.enc.reach)
  {
    var seen := s.Settled().Ready(w).Seen();
    if r.Some? {
      OpenWhenSettled(s, w, total);
      SuffixOfLast(Last(seen, s.enc.reach), total, r.value.size);
    } else {
      assert seen == [];
    }
  }

  /** One message, however sent: the peer gets its content, and both stay in step. */
  lemma MessageDelivered<W(!new)>(inf: Inflate, cfg: Config, s: Sender<W>, w: W, op: Op, r: Receiver, total: seq<byte>)
    requires Sound(s.enc, inf) && Synchronous(s, w, r, total)
    ensures
      var f := OnWire(cfg, s, w, op);
      var t := total + if op.Compressed(cfg) then op.Content() else [];
      && Received(inf, r, f) == Some(op.Content())
      && Synchronous(Behind(cfg, s, w, op), w, Receiving(inf, r, f), t)
      && Behind(cfg, s, w, op).enc == s.enc
  {
    hide Last, IsSuffix, Message, InStep, SendChunks, Pieces;
    if !op.Compressed(cfg) {
      assert total + [] == total;
    } else {
      var x := op.Content();
      if op.For(cfg).WritePrepared? {
        FlattenOne(x);
        NothingCovers(if r.Some? then r.value.data else [], s.enc.reach);
        PayloadReceived(s.enc, inf, r, [], [], [x]);
        if s.lazy.Some? {
          NotedInStep(s, w, x, total);
        } else {
          InStepWithoutTakeover(s, w, total, total + x);
        }
      } else {
        FlattenOne(x);
        OwnMessage(inf, s, w, op.For(cfg).Chunks(), r, total);
      }
      if r.Some? {
        LastAppend(total, x, r.value.size);
        if x == [] {
          assert total + x == total;
        }
      }
    }
  }

  lemma NothingCovers(D: seq<byte>, reach: nat)
    ensures Covers(D, [] + Flatten([]), reach)
  {
  }

  lemma InStepWithoutTakeover<W(!new)>(s: Sender<W>, w: W, total: seq<byte>, total': seq<byte>)
    requires InStep(s, w, total) && s.lazy.None?
    ensures InStep(s, w, total')
  {
  }

  /** What the peer reads from a run of messages. */
  function Deliveries<W>(inf: Inflate, cfg: Config, s: Sender<W>, w: W, ops: seq<Op>,
                         r: Receiver): seq<Option<seq<byte>>>
    decreases |ops|
  {
    if ops == [] then []
    else
      var f := OnWire(cfg, s, w, ops[0]);
      [Received(inf, r, f)] + Deliveries(inf, cfg, Behind(cfg, s, w, ops[0]), w, ops[1..], Receiving(inf, r, f))
  }

  function Contents(ops: seq<Op>): seq<Option<seq<byte>>> {
    seq(|ops|, i requires 0 <= i < |ops| => Some(ops[i].Content()))
  }

  /** Sender and receiver behind a run. */
  function Ends<W>(inf: Inflate, cfg: Config, s: Sender<W>, w: W, ops: seq<Op>, r: Receiver): (Sender<W>, Receiver)
    decreases |ops|
  {
    if ops == [] then (s, r)
    else Ends(inf, cfg, Behind(cfg, s, w, ops[0]), w, ops[1..], Receiving(inf, r, OnWire(cfg, s, w, ops[0])))
  }

  /** Everything a run sends compressed. */
  function Volume(cfg: Config, ops: seq<Op>): seq<byte> {
    if ops == [] then [] else (if ops[0].Compressed(cfg) then ops[0].Content() else []) + Volume(cfg, ops[1..])
  }

  /**
   * Takeover synchrony: in every run of Write, WritePrepared and fragmented
   * sends, with an attached or shared compressor, every message inflates at
   * the peer to exactly what was sent.
   */
  lemma {:induction false} TakeoverSynchrony<W(!new)>(inf: Inflate, cfg: Config, s: Sender<W>, w: W, ops: seq<Op>,
                                                      r: Receiver, total: seq<byte>)
    requires Sound(s.enc, inf) && Synchronous(s, w, r, total)
    ensures Deliveries(inf, cfg, s, w, ops, r) == Contents(ops)
    decreases |ops|
  {
    if ops != [] {
      hide Synchronous, Received, Receiving, OnWire, Behind;
      var op := ops[0];
      MessageDelivered(inf, cfg, s, w, op, r, total);
      var f := OnWire(cfg, s, w, op);
      TakeoverSynchrony(inf, cfg, Behind(cfg, s, w, op), w, ops[1..], Receiving(inf, r, f),
                        total + if op.Compressed(cfg) then op.Content() else []);
      assert Contents(ops) == [Some(op.Content())] + Contents(ops[1..]);
    }
  }

  /** And both ends of the run hold the last bytes of everything sent. */
  lemma {:induction false} RunStaysSynchronous<W(!new)>(inf: Inflate, cfg: Config, s: Sender<W>, w: W, ops: seq<Op>,
                                                        r: Receiver, total: seq<byte>)
    requires Sound(s.enc, inf) && Synchronous(s, w, r, total)
    ensures Synchronous(Ends(inf, cfg, s, w, ops, r).0, w, Ends(inf, cfg, s, w, ops, r).1, total + Volume(cfg, ops))
    decreases |ops|
  {
    hide Synchronous, Received, Receiving, OnWire, Behind, Sound, Op.Content, Op.Compressed;
    if ops == [] {
      assert total + Volume(cfg, ops) == total;
    } else {
      var op := ops[0];
      var sent := if op.Compressed(cfg) then op.Content() else [];
      var s', r' := Behind(cfg, s, w, op), Receiving(inf, r, OnWire(cfg, s, w, op));
      MessageDelivered(inf, cfg, s, w, op, r, total);
      RunStaysSynchronous(inf, cfg, s', w, ops[1..], r', total + sent);
      assert Volume(cfg, ops) == sent + Volume(cfg, ops[1..]);
      assert total + sent + Volume(cfg, ops[1..]) == total + (sent + Volume(cfg, ops[1..]));
      assert Ends(inf, cfg, s, w, ops, r) == Ends(inf, cfg, s', w, ops[1..], r');
    }
  }

  /** The two windows of synchronous endpoints agree on as much as both keep. */
  lemma WindowsAgree<W(!new)>(s: Sender<W>, w: W, r: Receiver, total: seq<byte>)
    requires Synchronous(s, w, r, total) && s.lazy.Some?
    requires s.lazy.value.window.size == r.value.size
    ensures s.lazy.value.Meaning() == r.value.data
  {
  }

  /** Two fresh endpoints are synchronous, whatever they agreed on. */
  lemma FreshIsSynchronous<W(!new)>(enc: Encoder, shared: bool, w: W, sendBits: Option<int>, receiveBits: Option<int>)
    requires receiveBits.None? ==> sendBits.None?
    requires receiveBits.Some? ==> enc.reach <= SizeOf(receiveBits.value)
    ensures
      var lazy := if sendBits.Some? then Some(Lazy(History(SizeOf(sendBits.value), [], 0), [])) else None;
      var r := if receiveBits.Some? then Some(History(SizeOf(receiveBits.value), [], 0)) else None;
      Synchronous(Sender(enc, shared, lazy, None), w, r, [])
  {
  }

  // ----- A message given up half way -----

  /**
   * The receiver behind a message that ReadMessage gave up on for a transport
   * error with `k` bytes of its payload taken, and the retry discarded: the
   * inflater starts on what is left.
   */
  function Retried(inf: Inflate, r: Receiver, p: seq<byte>, k: nat): Receiver
    requires k <= |p|
  {
    Receiving(inf, r, Packed(p[k..]))
  }

  /**
   * A retry after `k` bytes keeps the histories in step, whatever the codec,
   * the connection and the message, as long as its payload is that long.
   */
  ghost predicate RetryKeepsStep(k: nat) {
    forall inf: Inflate, cfg: Config, s: Sender<nat>, w: nat, op: Op, r: Receiver, total: seq<byte> ::
      Sound(s.enc, inf) && Synchronous(s, w, r, total) && op.Compressed(cfg)
        && k <= |OnWire(cfg, s, w, op).Carried()| ==>
        Synchronous(Behind(cfg, s, w, op), w, Retried(inf, r, OnWire(cfg, s, w, op).Carried(), k), total + op.Content())
  }

  /** With nothing taken it does. */
  lemma RetryFromStart<W(!new)>(inf: Inflate, cfg: Config, s: Sender<W>, w: W, op: Op, r: Receiver, total: seq<byte>)
    requires Sound(s.enc, inf) && Synchronous(s, w, r, total) && op.Compressed(cfg)
    ensures Synchronous(Behind(cfg, s, w, op), w, Retried(inf, r, OnWire(cfg, s, w, op).Carried(), 0),
      total + op.Content())
  {
    hide Synchronous, Behind, Receiving;
    MessageDelivered(inf, cfg, s, w, op, r, total);
    var p := OnWire(cfg, s, w, op).Carried();
    assert p[0..] == p && OnWire(cfg, s, w, op) == Packed(p);
  }

  /** Two fresh ends of a connection with takeover and 256 bytes of history. */
  function FreshSender(e: Encoder): Sender<nat> {
    Sender(e, false, Some(Lazy(History(256, [], 0), [])), None)
  }

  const FRESH_RECEIVER: Receiver := Some(History(256, [], 0))

  /** The payload of `k` bytes in short form, and what is left of it behind them. */
  lemma ShortPayload(e: Encoder, k: nat)
    requires forall dict, ws, x :: e.emit(dict, ws, x) == Tokens(0, Known(0, dict + Flatten(ws)), x)
    ensures
      var p := OnWire(Config(false, true, 0), FreshSender(e), 0, Write(Repeated(0x41, k))).Carried();
      k <= |p| && p[k..] == [0x03]
  {
    var s, x := FreshSender(e), Repeated(0x41, k);
    var p := Pieces(s.Settled(), 0, [x]);
    var q := s.Settled().Settled().Piece(0, x);
    assert q == Tokens(0, None, x);
    var u := s.Settled().Settled().Sent(0, x, true);
    assert [x][1..] == [];
    assert p == q + Pieces(u, 0, []);
    assert p == q;
    ShortTokens(k);
    assert p == Repeated(0x05, k) + [0x03] + SYNC_TAIL;
    assert p[..|p| - 4] == Repeated(0x05, k) + [0x03];
  }

  /** What is left inflates without complaint, to nothing. */
  lemma LeftoverIsEmpty(inf: Inflate, r: History)
    requires forall D, input :: inf[(D, input)] == ReadTokens(LastOf(D), input)
    ensures Received(inf, Some(r), Packed([0x03])) == Some([])
  {
    var input := [0x03] + INFLATE_TAIL;
    assert input == [0x03] + SYNC_TAIL + FINAL_BLOCK;
    FlushRead(LastOf(Last(r.data, r.size)), FINAL_BLOCK);
    assert inf[(Last(r.data, r.size), input)] == Done([], |input|);
    OneStream(inf, r.size, r.data, input, []);
  }

  /**
   * However few bytes were taken, there are a codec and a message for which the history loses them
   * all, without any error.
   */
  lemma RetryLosesHistory(k: nat) returns (inf: Inflate, s: Sender<nat>, op: Op)
    requires k > 0
    ensures Sound(s.enc, inf) && Synchronous(s, 0, FRESH_RECEIVER, []) && op.Compressed(Config(false, true, 0))
    ensures
      var p := OnWire(Config(false, true, 0), s, 0, op).Carried();
      && k <= |p| && Received(inf, FRESH_RECEIVER, Packed(p[k..])) == Some([])
      && !Synchronous(Behind(Config(false, true, 0), s, 0, op), 0, Retried(inf, FRESH_RECEIVER, p, k),
        [] + op.Content())
  {
    hide Behind, Message;
    var e;
    e, inf := BackReferenceCodec(0);
    s, op := FreshSender(e), Write(Repeated(0x41, k));
    FreshIsSynchronous(e, false, 0, Some(8), Some(8));
    ShortPayload(e, k);
    LeftoverIsEmpty(inf, FRESH_RECEIVER.value);
  }

  /** Exactly when a retry is safe: when nothing of the message had been taken. */
  lemma RetryIsSafeExactly(k: nat)
    ensures RetryKeepsStep(k) <==> k == 0
  {
    if k == 0 {
      forall inf: Inflate, cfg: Config, s: Sender<nat>, w: nat, op: Op, r: Receiver, total: seq<byte>
        | Sound(s.enc, inf) && Synchronous(s, w, r, total) && op.Compressed(cfg)
        ensures Synchronous(Behind(cfg, s, w, op), w, Retried(inf, r, OnWire(cfg, s, w, op).Carried(), 0),
          total + op.Content())
      {
        RetryFromStart(inf, cfg, s, w, op, r, total);
      }
    } else {
      hide Synchronous, Behind, OnWire, Retried;
      var inf, s, op := RetryLosesHistory(k);
    }
  }
}
