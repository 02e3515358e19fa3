/**
 * The two halves joined: messages are compressed against the connection's
 * history, framed, masked, cut up by the transport, parsed, unmasked and
 * inflated, and arrive as they were sent.
 */
module EndToEnd {
  import opened Bytes
  import opened Masking
  import opened Framing
  import opened Reception
  import opened Wire
  import Flate
  import PendingHistory
  import T = Takeover
  import S = Sending

  // ----- The write API with its compressor -----

  function Strip(p: seq<byte>): seq<byte> { if |p| >= 4 then p[..|p| - 4] else p }

  /** encodeData and fragment: the call puts its payload through the connection's compressor. */
  predicate Packs(cfg: S.Config, tx: S.Tx, c: S.Call) {
    match c
    case Write(op, x, _, _) => S.Starts(op) && tx.frag.None? && cfg.Compresses(x)
    case WritePrepared(op, x, _, _) => cfg.role.Client? && S.Starts(op) && tx.frag.None? && cfg.Compresses(x)
    case Fragment(_, _, _, _) => tx.frag.Some? && tx.frag.value.compressed
    case _ => false
  }

  /** preparedFrame: the call sends a variant compressed on its own. */
  predicate SendsVariant(cfg: S.Config, tx: S.Tx, c: S.Call) {
    c.WritePrepared? && cfg.role.Server? && S.Starts(c.op) && tx.frag.None? && !tx.closeSent
      && cfg.Compresses(c.payload)
  }

  predicate Ends(c: S.Call) { c.Fragment? ==> c.final }

  function WithCode(c: S.Call, coded: seq<byte>): S.Call {
    match c
    case Write(op, x, _, key) => S.Write(op, x, coded, key)
    case WritePrepared(op, x, _, key) => S.WritePrepared(op, x, coded, key)
    case Fragment(x, _, final, key) => S.Fragment(x, coded, final, key)
    case _ => c
  }

  /** The call with what the compressor makes of its payload; only a message's last chunk loses the tail. */
  function Coded<W>(cfg: S.Config, tx: S.Tx, s: T.Sender<W>, w: W, c: S.Call): S.Call {
    if Packs(cfg, tx, c) then
      var p := s.Settled().Piece(w, c.payload);
      WithCode(c, if Ends(c) then Strip(p) else p)
    else if SendsVariant(cfg, tx, c) then WithCode(c, Flate.Payload(s.enc, [], [], [c.payload]))
    else c
  }

  /** The compression state behind it. The compressor runs before a closed connection refuses the frame. */
  function Behind<W>(cfg: S.Config, tx: S.Tx, s: T.Sender<W>, w: W, c: S.Call): T.Sender<W> {
    if Packs(cfg, tx, c) then
      var t := s.Settled().Sent(w, c.payload, Ends(c));
      if tx.closeSent && t.Returns() then t.(comp := None) else t
    else if SendsVariant(cfg, tx, c) && s.lazy.Some? then
      s.(lazy := Some(PendingHistory.Noted(s.lazy.value, c.payload)))
    else s
  }

  /** A run of any calls, each coded against the history at its point. */
  function Run<W>(cfg: S.Config, tx: S.Tx, s: T.Sender<W>, w: W, calls: seq<S.Call>): seq<S.Call>
    decreases |calls|
  {
    if calls == [] then []
    else
      var c := Coded(cfg, tx, s, w, calls[0]);
      [c] + Run(cfg, S.Act(cfg, tx, c).tx, Behind(cfg, tx, s, w, calls[0]), w, calls[1..])
  }

  // ----- What is said and what is heard -----

  /** A message's text, or nothing when it does not inflate; a ping, a pong or the close. */
  datatype Heard = Arrived(op: Opcode, text: Option<seq<byte>>) | Signal(op: Opcode, payload: seq<byte>)

  /** What an application has said: messages when they end, control frames, nothing after the close. */
  datatype Diary = Diary(open: Option<Opcode>, content: seq<byte>, said: seq<Heard>, closed: bool) {
    function Add(h: Heard): Diary { if closed then this else this.(said := said + [h]) }
  }

  const NOTHING_SAID := Diary(None, [], [], false)

  /** An answered call, in the application's own terms. */
  function Say(d: Diary, c: S.Call, ok: bool): Diary {
    match c
    case Write(op, x, _, _) => if ok then d.Add(Arrived(op, Some(x))) else d
    case WritePrepared(op, x, _, _) => if ok then d.Add(Arrived(op, Some(x))) else d
    case BeginMessage(op) => if ok then d.(open := Some(op), content := []) else d
    case Fragment(x, _, final, _) =>
      if d.open.None? then d
      else if !ok then d.(open := None)
      else if final then d.(open := None, content := []).Add(Arrived(d.open.value, Some(d.content + x)))
      else d.(content := d.content + x)
    case SendPing(x, _) => if ok then d.Add(Signal(Ping, x)) else d
    case SendPong(x, _) => if ok then d.Add(Signal(Pong, x)) else d
    case SendClose(code, reason, _) =>
      if ok then d.Add(Signal(Close, if code == 0 then [] else PutBigEndian(code, 2) + reason)).(closed := true) else d
  }

  function SayAll(cfg: S.Config, tx: S.Tx, d: Diary, calls: seq<S.Call>): Diary
    decreases |calls|
  {
    if calls == [] then d
    else
      var r := S.Act(cfg, tx, calls[0]);
      SayAll(cfg, r.tx, Say(d, calls[0], r.err.None?), calls[1..])
  }

  function FrameOf(i: S.Item): T.Frame
    requires i.Message?
  {
    if i.compressed then T.Packed(i.content) else T.Plain(i.content)
  }

  /** The receiving application: compressed messages inflated against its window, in order. */
  function Listen(inf: Flate.Inflate, r: T.Receiver, items: seq<S.Item>): seq<Heard>
    decreases |items|
  {
    if items == [] then []
    else
      match items[0]
      case Message(op, _, _) =>
        var f := FrameOf(items[0]);
        [Arrived(op, T.Received(inf, r, f))] + Listen(inf, T.Receiving(inf, r, f), items[1..])
      case ControlItem(op, payload) => [Signal(op, payload)] + Listen(inf, r, items[1..])
  }

  /** Its window behind them. */
  function Hearing(inf: Flate.Inflate, r: T.Receiver, items: seq<S.Item>): T.Receiver
    decreases |items|
  {
    if items == [] then r
    else Hearing(inf, if items[0].Message? then T.Receiving(inf, r, FrameOf(items[0])) else r, items[1..])
  }

  lemma {:induction false} ListenSnoc(inf: Flate.Inflate, r: T.Receiver, items: seq<S.Item>, i: S.Item)
    ensures
      var q := Hearing(inf, r, items);
      && Listen(inf, r, items + [i]) ==
         Listen(inf, r, items)
         + [if i.Message? then Arrived(i.op, T.Received(inf, q, FrameOf(i))) else Signal(i.op, i.payload)]
      && Hearing(inf, r, items + [i]) == if i.Message? then T.Receiving(inf, q, FrameOf(i)) else q
    decreases |items|
  {
    hide T.Received, T.Receiving, FrameOf;
    if items == [] {
      assert items + [i] == [i] && [i][1..] == [];
    } else {
      assert (items + [i])[1..] == items[1..] + [i];
      ListenSnoc(inf, if items[0].Message? then T.Receiving(inf, r, FrameOf(items[0])) else r, items[1..], i);
    }
  }

  lemma {:induction false} ListenPrefix(inf: Flate.Inflate, r: T.Receiver, a: seq<S.Item>, items: seq<S.Item>)
    requires a <= items
    ensures Listen(inf, r, a) <= Listen(inf, r, items)
    decreases |a|
  {
    hide T.Received, T.Receiving, FrameOf;
    if a != [] {
      var r' := if a[0].Message? then T.Receiving(inf, r, FrameOf(a[0])) else r;
      ListenPrefix(inf, r', a[1..], items[1..]);
    }
  }

  // ----- A compressed message, chunk by chunk -----

  /** The message in progress: what the encoder started from, and the chunks so far. */
  datatype Partial = Partial(dict: seq<byte>, ws: seq<seq<byte>>, chunks: seq<seq<byte>>)

  const NO_CHUNKS := Partial([], [], [])

  /** The receiver holds the last bytes of everything it was sent. */
  ghost predicate Caught<W>(s: T.Sender<W>, r: T.Receiver, total: seq<byte>) {
    && (r.None? ==> s.lazy.None?)
    && (r.Some? ==> r.value.Valid() && s.enc.reach <= r.value.size && r.value.data == Last(total, r.value.size))
  }

  /** Somewhere in a message: `packed` is on the wire for `plain`, and the receiver will be able to inflate it. */
  ghost predicate Amid<W(!new)>(s: T.Sender<W>, w: W, r: T.Receiver, total: seq<byte>, m: Partial, packed: seq<byte>,
                                plain: seq<byte>) {
    && Caught(s, r, total)
    && packed == Flate.Stream(s.enc, m.dict, m.ws, m.chunks) && plain == Flatten(m.chunks)
    && if m.chunks == [] then T.InStep(s, w, total)
       else
         && T.Open(s, w, total + plain) && s.Settled() == s
         && s.Ready(w).dict == m.dict && s.Ready(w).writes == m.ws + m.chunks
         && Flate.Covers(if r.Some? then r.value.data else [], m.dict + Flatten(m.ws), s.enc.reach)
  }

  /** Before a message's first chunk, and between messages. */
  lemma AmidNothing<W(!new)>(s: T.Sender<W>, w: W, r: T.Receiver, total: seq<byte>)
    requires T.Synchronous(s, w, r, total)
    ensures Amid(s, w, r, total, NO_CHUNKS, [], [])
  {
  }

  /** Debts settled, the encoder is ready for the next chunk of the message. */
  lemma ReadyForChunk<W(!new)>(s: T.Sender<W>, w: W, r: T.Receiver, total: seq<byte>, m: Partial, packed: seq<byte>,
                               plain: seq<byte>)
    returns (n: Partial)
    requires Amid(s, w, r, total, m, packed, plain)
    ensures n.chunks == m.chunks && packed == Flate.Stream(s.enc, n.dict, n.ws, n.chunks)
    ensures
      var t := s.Settled();
      && T.Open(t, w, total + plain) && T.SameSetup(s, t)
      && t.Ready(w).dict == n.dict && t.Ready(w).writes == n.ws + n.chunks
      && Flate.Covers(if r.Some? then r.value.data else [], n.dict + Flatten(n.ws), s.enc.reach)
  {
    hide Last, IsSuffix, Flate.Covers, T.Open;
    if m.chunks == [] {
      var t := s.Settled();
      n := Partial(t.Ready(w).dict, t.Ready(w).writes, []);
      assert T.Synchronous(s, w, r, total);
      T.OpenWhenSettled(s, w, total);
      T.CoveredByReceiver(s, w, r, total);
      assert total + plain == total && n.ws + [] == n.ws;
    } else {
      n := m;
      SameAsItself(s);
    }
  }

  lemma SameAsItself<W>(s: T.Sender<W>)
    ensures T.SameSetup(s, s)
  {
  }

  /** A chunk that does not end the message leaves it in progress, one chunk further. */
  lemma MiddleChunk<W(!new)>(s: T.Sender<W>, w: W, r: T.Receiver, total: seq<byte>, m: Partial, packed: seq<byte>,
                             plain: seq<byte>, x: seq<byte>)
    returns (n: Partial)
    requires Amid(s, w, r, total, m, packed, plain)
    ensures Amid(s.Settled().Sent(w, x, false), w, r, total, n, packed + s.Settled().Piece(w, x), plain + x)
  {
    hide Last, IsSuffix, Flate.Covers, T.Open, T.InStep;
    n := ReadyForChunk(s, w, r, total, m, packed, plain);
    var t := s.Settled();
    T.ChunkInStep(t, w, x, false, total + plain);
    Flate.StreamSnoc(s.enc, n.dict, n.ws, n.chunks, x);
    FlattenAppend(n.chunks, [x]);
    FlattenOne(x);
    assert total + plain + x == total + (plain + x);
    assert n.ws + n.chunks + [x] == n.ws + (n.chunks + [x]);
    n := n.(chunks := n.chunks + [x]);
  }

  /** The chunk that ends it: the peer inflates the whole message and both ends are in step. */
  lemma LastChunk<W(!new)>(inf: Flate.Inflate, s: T.Sender<W>, w: W, r: T.Receiver, total: seq<byte>, m: Partial,
                           packed: seq<byte>, plain: seq<byte>, x: seq<byte>)
    requires Flate.Sound(s.enc, inf) && Amid(s, w, r, total, m, packed, plain)
    ensures
      var f := T.Packed(packed + Strip(s.Settled().Piece(w, x)));
      && T.Received(inf, r, f) == Some(plain + x)
      && T.Synchronous(s.Settled().Sent(w, x, true), w, T.Receiving(inf, r, f), total + (plain + x))
  {
    hide Last, IsSuffix, Flate.Covers, T.Open, T.InStep, T.Received;
    var n := ReadyForChunk(s, w, r, total, m, packed, plain);
    var t := s.Settled();
    T.ChunkInStep(t, w, x, true, total + plain);
    assert total + plain + x == total + (plain + x);
    var chunks := n.chunks + [x];
    Flate.StreamSnoc(s.enc, n.dict, n.ws, n.chunks, x);
    FlattenAppend(n.chunks, [x]);
    FlattenOne(x);
    var p := t.Piece(w, x);
    assert |p| >= 4 by {
      TailIsThere(inf, t, w, x);
    }
    assert packed + Strip(p) == Flate.Payload(s.enc, n.dict, n.ws, chunks);
    T.PayloadReceived(s.enc, inf, r, n.dict, n.ws, chunks);
    if r.Some? {
      LastAppend(total, plain + x, r.value.size);
      if plain + x == [] {
        assert total + (plain + x) == total;
      }
    }
  }

  lemma TailIsThere<W>(inf: Flate.Inflate, s: T.Sender<W>, w: W, x: seq<byte>)
    requires Flate.Sound(s.enc, inf)
    ensures |s.Piece(w, x)| >= 4
  {
    assert IsSuffix(Flate.SYNC_TAIL, s.Piece(w, x));
  }

  // ----- One call -----

  /** Account and diary agree, and so do sender and receiver, until the close. */
  ghost predicate Kept<W(!new)>(inf: Flate.Inflate, cfg: S.Config, r0: T.Receiver, tx: S.Tx, s: T.Sender<W>, w: W,
                                b: S.Outbox, d: Diary, total: seq<byte>, m: Partial) {
    && Flate.Sound(s.enc, inf)
    && Listen(inf, r0, b.items) == d.said && b.closed == d.closed == tx.closeSent
    && b.open == (if tx.frag.Some? then Some(S.Opening(tx.frag.value.op, cfg.compression)) else None)
    && d.open == (if tx.frag.Some? then Some(tx.frag.value.op) else None)
    && (tx.frag.Some? ==> S.Starts(tx.frag.value.op) && tx.frag.value.compressed == cfg.compression)
    && (!tx.closeSent ==>
      InProgress(cfg, tx.frag.Some?, s, w, Hearing(inf, r0, b.items), total, m, b.content, d.content))
  }

  /** Within a message of the connection's own compressor, or plainly in step. */
  ghost predicate InProgress<W(!new)>(cfg: S.Config, open: bool, s: T.Sender<W>, w: W, r: T.Receiver, total: seq<byte>,
                                      m: Partial, packed: seq<byte>, plain: seq<byte>) {
    if open && cfg.compression then Amid(s, w, r, total, m, packed, plain)
    else T.Synchronous(s, w, r, total) && (open ==> packed == plain)
  }

  /** What a call has to keep. */
  ghost predicate KeptBy<W(!new)>(inf: Flate.Inflate, cfg: S.Config, r0: T.Receiver, tx: S.Tx, s: T.Sender<W>, w: W,
                                  b: S.Outbox, d: Diary, c: S.Call, total: seq<byte>, m: Partial) {
    var k := Coded(cfg, tx, s, w, c);
    var r := S.Act(cfg, tx, k);
    Kept(inf, cfg, r0, r.tx, Behind(cfg, tx, s, w, c), w, S.Record(cfg, b, k, r.err.None?), Say(d, c, r.err.None?),
      total, m)
  }

  lemma BehindEncodes<W>(cfg: S.Config, tx: S.Tx, s: T.Sender<W>, w: W, c: S.Call)
    ensures Behind(cfg, tx, s, w, c).enc == s.enc
  {
  }

  /** After the close nothing more is heard, and nothing more counts as said. */
  lemma ClosedKeeps<W(!new)>(inf: Flate.Inflate, cfg: S.Config, r0: T.Receiver, tx: S.Tx, s: T.Sender<W>, w: W,
                             b: S.Outbox, d: Diary, c: S.Call, total: seq<byte>, m: Partial)
    requires Kept(inf, cfg, r0, tx, s, w, b, d, total, m) && tx.closeSent
    ensures KeptBy(inf, cfg, r0, tx, s, w, b, d, c, total, m)
  {
    hide CloseFault, Listen, Hearing, InProgress, Flate.Sound;
    BehindEncodes(cfg, tx, s, w, c);
  }

  /** A whole message through the connection's compressor. */
  lemma WholeKeeps<W(!new)>(inf: Flate.Inflate, cfg: S.Config, r0: T.Receiver, tx: S.Tx, s: T.Sender<W>, w: W,
                            b: S.Outbox, d: Diary, c: S.Call, total: seq<byte>, m: Partial)
    requires Kept(inf, cfg, r0, tx, s, w, b, d, total, m) && !tx.closeSent && Packs(cfg, tx, c) && !c.Fragment?
    ensures KeptBy(inf, cfg, r0, tx, s, w, b, d, c, total + c.payload, m)
  {
    hide Listen, Hearing, T.Synchronous, T.Received, T.Receiving, Flate.Sound, Strip;
    var r := Hearing(inf, r0, b.items);
    AmidNothing(s, w, r, total);
    LastChunk(inf, s, w, r, total, NO_CHUNKS, [], [], c.payload);
    var p := Strip(s.Settled().Piece(w, c.payload));
    assert [] + p == p && [] + c.payload == c.payload;
    ListenSnoc(inf, r0, b.items, S.Message(c.op, true, p));
  }

  /** A prepared message's own variant. */
  lemma VariantKeeps<W(!new)>(inf: Flate.Inflate, cfg: S.Config, r0: T.Receiver, tx: S.Tx, s: T.Sender<W>, w: W,
                              b: S.Outbox, d: Diary, c: S.Call, total: seq<byte>, m: Partial)
    requires Kept(inf, cfg, r0, tx, s, w, b, d, total, m) && SendsVariant(cfg, tx, c)
    ensures KeptBy(inf, cfg, r0, tx, s, w, b, d, c, total + c.payload, m)
  {
    hide Listen, Hearing, T.Synchronous, T.Received, T.Receiving, Flate.Sound, Flate.Payload;
    var r := Hearing(inf, r0, b.items);
    var p := Flate.Payload(s.enc, [], [], [c.payload]);
    var tc, top := T.Config(false, true, 0), T.WritePrepared(c.payload);
    T.MessageDelivered(inf, tc, s, w, top, r, total);
    assert T.OnWire(tc, s, w, top) == T.Packed(p);
    ListenSnoc(inf, r0, b.items, S.Message(c.op, true, p));
  }

  /** A fragment of a message that is not compressed, or of none. */
  lemma PlainFragmentKeeps<W(!new)>(inf: Flate.Inflate, cfg: S.Config, r0: T.Receiver, tx: S.Tx, s: T.Sender<W>, w: W,
                                    b: S.Outbox, d: Diary, c: S.Call, total: seq<byte>, m: Partial)
    requires Kept(inf, cfg, r0, tx, s, w, b, d, total, m) && !tx.closeSent && c.Fragment? && !Packs(cfg, tx, c)
    ensures KeptBy(inf, cfg, r0, tx, s, w, b, d, c, total, m)
  {
    hide Listen, Hearing, T.Synchronous, Flate.Sound;
    if tx.frag.Some? && c.final {
      ListenSnoc(inf, r0, b.items, S.Message(tx.frag.value.op, false, b.content + c.payload));
    }
  }

  /** A fragment of a compressed one. */
  lemma PackedFragmentKeeps<W(!new)>(inf: Flate.Inflate, cfg: S.Config, r0: T.Receiver, tx: S.Tx, s: T.Sender<W>, w: W,
                                     b: S.Outbox, d: Diary, c: S.Call, total: seq<byte>, m: Partial)
    returns (total': seq<byte>, m': Partial)
    requires Kept(inf, cfg, r0, tx, s, w, b, d, total, m) && !tx.closeSent && c.Fragment? && Packs(cfg, tx, c)
    ensures KeptBy(inf, cfg, r0, tx, s, w, b, d, c, total', m')
  {
    hide Listen, Hearing, T.Synchronous, T.Received, T.Receiving, Amid, Flate.Sound, Strip;
    var r := Hearing(inf, r0, b.items);
    if c.final {
      LastChunk(inf, s, w, r, total, m, b.content, d.content, c.payload);
      ListenSnoc(inf, r0, b.items,
        S.Message(tx.frag.value.op, true, b.content + Strip(s.Settled().Piece(w, c.payload))));
      total', m' := total + (d.content + c.payload), m;
    } else {
      total' := total;
      m' := MiddleChunk(s, w, r, total, m, b.content, d.content, c.payload);
    }
  }

  /** A whole message that goes plain, or is refused. */
  lemma PlainWholeKeeps<W(!new)>(inf: Flate.Inflate, cfg: S.Config, r0: T.Receiver, tx: S.Tx, s: T.Sender<W>, w: W,
                                 b: S.Outbox, d: Diary, c: S.Call, total: seq<byte>, m: Partial)
    requires Kept(inf, cfg, r0, tx, s, w, b, d, total, m) && !tx.closeSent && (c.Write? || c.WritePrepared?)
    requires !Packs(cfg, tx, c) && !SendsVariant(cfg, tx, c)
    ensures KeptBy(inf, cfg, r0, tx, s, w, b, d, c, total, m)
  {
    hide CloseFault, Listen, Hearing, T.Synchronous, Amid, Flate.Sound;
    if S.Starts(c.op) && tx.frag.None? {
      ListenSnoc(inf, r0, b.items, S.Message(c.op, false, c.payload));
    }
  }

  lemma BeginKeeps<W(!new)>(inf: Flate.Inflate, cfg: S.Config, r0: T.Receiver, tx: S.Tx, s: T.Sender<W>, w: W,
                            b: S.Outbox, d: Diary, c: S.Call, total: seq<byte>, m: Partial)
    returns (m': Partial)
    requires Kept(inf, cfg, r0, tx, s, w, b, d, total, m) && !tx.closeSent && c.BeginMessage?
    ensures KeptBy(inf, cfg, r0, tx, s, w, b, d, c, total, m')
  {
    hide Listen, Hearing, T.Synchronous, Amid, Flate.Sound;
    m' := m;
    if tx.frag.None? {
      m' := NO_CHUNKS;
      AmidNothing(s, w, Hearing(inf, r0, b.items), total);
    }
  }

  /** Control frames, between fragments too, and the close. */
  lemma SignalKeeps<W(!new)>(inf: Flate.Inflate, cfg: S.Config, r0: T.Receiver, tx: S.Tx, s: T.Sender<W>, w: W,
                             b: S.Outbox, d: Diary, c: S.Call, total: seq<byte>, m: Partial)
    requires Kept(inf, cfg, r0, tx, s, w, b, d, total, m) && !tx.closeSent
      && (c.SendPing? || c.SendPong? || c.SendClose?)
    ensures KeptBy(inf, cfg, r0, tx, s, w, b, d, c, total, m)
  {
    hide CloseFault, Listen, Hearing, InProgress, Flate.Sound;
    var out := S.Act(cfg, tx, c).out;
    if out != [] {
      ListenSnoc(inf, r0, b.items, S.ControlItem(out[0].op, out[0].payload));
    }
  }

  /** Every call keeps diary and account, sender and receiver in agreement. */
  lemma CallKeeps<W(!new)>(inf: Flate.Inflate, cfg: S.Config, r0: T.Receiver, tx: S.Tx, s: T.Sender<W>, w: W,
                           b: S.Outbox, d: Diary, c: S.Call, total: seq<byte>, m: Partial)
    returns (total': seq<byte>, m': Partial)
    requires Kept(inf, cfg, r0, tx, s, w, b, d, total, m)
    ensures KeptBy(inf, cfg, r0, tx, s, w, b, d, c, total', m')
  {
    hide Kept, KeptBy, Packs, SendsVariant;
    total', m' := total, m;
    if tx.closeSent {
      ClosedKeeps(inf, cfg, r0, tx, s, w, b, d, c, total, m);
    } else if c.Fragment? {
      if Packs(cfg, tx, c) {
        total', m' := PackedFragmentKeeps(inf, cfg, r0, tx, s, w, b, d, c, total, m);
      } else {
        PlainFragmentKeeps(inf, cfg, r0, tx, s, w, b, d, c, total, m);
      }
    } else if Packs(cfg, tx, c) {
      PacksPayload(cfg, tx, c);
      WholeKeeps(inf, cfg, r0, tx, s, w, b, d, c, total, m);
      total' := total + c.payload;
    } else if SendsVariant(cfg, tx, c) {
      VariantIsPrepared(cfg, tx, c);
      VariantKeeps(inf, cfg, r0, tx, s, w, b, d, c, total, m);
      total' := total + c.payload;
    } else if c.Write? || c.WritePrepared? {
      PlainWholeKeeps(inf, cfg, r0, tx, s, w, b, d, c, total, m);
    } else if c.BeginMessage? {
      m' := BeginKeeps(inf, cfg, r0, tx, s, w, b, d, c, total, m);
    } else {
      SignalKeeps(inf, cfg, r0, tx, s, w, b, d, c, total, m);
    }
  }

  lemma PacksPayload(cfg: S.Config, tx: S.Tx, c: S.Call)
    requires Packs(cfg, tx, c)
    ensures c.Write? || c.WritePrepared? || c.Fragment?
  {
  }

  lemma VariantIsPrepared(cfg: S.Config, tx: S.Tx, c: S.Call)
    requires SendsVariant(cfg, tx, c)
    ensures c.WritePrepared?
  {
  }

  // ----- Whole runs -----

  lemma {:induction false} RunKeeps<W(!new)>(inf: Flate.Inflate, cfg: S.Config, r0: T.Receiver, tx: S.Tx,
                                             s: T.Sender<W>, w: W, b: S.Outbox, d: Diary, calls: seq<S.Call>,
                                             total: seq<byte>, m: Partial)
    requires Kept(inf, cfg, r0, tx, s, w, b, d, total, m)
    ensures Listen(inf, r0, S.RecordAll(cfg, tx, b, Run(cfg, tx, s, w, calls)).items)
      == SayAll(cfg, tx, d, Run(cfg, tx, s, w, calls)).said
    decreases |calls|
  {
    hide S.Act, S.Record, Say, Coded, Behind, Listen, Kept;
    if calls == [] {
      KeptListens(inf, cfg, r0, tx, s, w, b, d, total, m);
    } else {
      var c, k := calls[0], Coded(cfg, tx, s, w, calls[0]);
      var r := S.Act(cfg, tx, k);
      var total', m' := CallKeeps(inf, cfg, r0, tx, s, w, b, d, c, total, m);
      SaysTheSame(cfg, tx, s, w, d, c, r.err.None?);
      var run := Run(cfg, tx, s, w, calls);
      assert run[0] == k && run[1..] == Run(cfg, r.tx, Behind(cfg, tx, s, w, c), w, calls[1..]);
      RunKeeps(inf, cfg, r0, r.tx, Behind(cfg, tx, s, w, c), w, S.Record(cfg, b, k, r.err.None?),
        Say(d, c, r.err.None?), calls[1..], total', m');
    }
  }

  lemma KeptListens<W(!new)>(inf: Flate.Inflate, cfg: S.Config, r0: T.Receiver, tx: S.Tx, s: T.Sender<W>, w: W,
                             b: S.Outbox, d: Diary, total: seq<byte>, m: Partial)
    requires Kept(inf, cfg, r0, tx, s, w, b, d, total, m)
    ensures Listen(inf, r0, b.items) == d.said
  {
  }

  /** The diary does not depend on the compressor. */
  lemma SaysTheSame<W>(cfg: S.Config, tx: S.Tx, s: T.Sender<W>, w: W, d: Diary, c: S.Call, ok: bool)
    ensures Say(d, Coded(cfg, tx, s, w, c), ok) == Say(d, c, ok)
  {
  }

  /** Listening to what a run recorded is hearing what it said. */
  lemma RunListens<W(!new)>(inf: Flate.Inflate, cfg: S.Config, s: T.Sender<W>, w: W, r: T.Receiver, calls: seq<S.Call>)
    requires Flate.Sound(s.enc, inf) && T.Synchronous(s, w, r, [])
    ensures
      var run := Run(cfg, S.IDLE, s, w, calls);
      Listen(inf, r, S.RecordAll(cfg, S.IDLE, S.NOTHING_SENT, run).items) == SayAll(cfg, S.IDLE, NOTHING_SAID, run).said
  {
    hide S.RecordAll, Run, SayAll, T.Synchronous;
    RunKeeps(inf, cfg, r, S.IDLE, s, w, S.NOTHING_SENT, NOTHING_SAID, calls, [], NO_CHUNKS);
  }

  /**
   * End to end: for any sequence of calls of the write API, refused ones and
   * the close included, with control frames between fragments, plain or
   * compressed, with or without context takeover, masked or not, what the
   * peer's application hears is what the successful calls said.
   */
  lemma HeardAsSpoken<W(!new)>(inf: Flate.Inflate, cfg: S.Config, s: T.Sender<W>, w: W, r: T.Receiver,
                               calls: seq<S.Call>)
    requires Flate.Sound(s.enc, inf) && T.Synchronous(s, w, r, [])
    requires S.AllFit(Run(cfg, S.IDLE, s, w, calls))
    ensures
      var run := Run(cfg, S.IDLE, s, w, calls);
      var wire := EncodedAll(S.Frames(cfg, S.IDLE, run));
      var items := S.TakeAll(S.NOTHING_HEARD, OneShot(Init(cfg.Peer(), cfg.compression), wire)).items;
      Listen(inf, r, items) == SayAll(cfg, S.IDLE, NOTHING_SAID, run).said
  {
    hide OneShot, EncodedAll, S.Frames, S.TakeAll, S.RecordAll, Run, SayAll, T.Synchronous;
    S.MessagesDelivered(cfg, Run(cfg, S.IDLE, s, w, calls));
    RunListens(inf, cfg, s, w, r, calls);
  }
}
