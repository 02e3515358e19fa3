/** The write API of ws/conn_write.go over ws/sender.go, call by call, and its duality with the receiver. */
module Sending {
  import opened Bytes
  import opened Masking
  import opened Framing
  import opened Reception
  import opened Wire

  datatype WriteErr =
    | Protocol | MessageOpen | Closing | NoMessage
    | InvalidUtf8 | InvalidOpcode | InvalidControlFrame | InvalidCompressedFrame

  /** Whether compression is negotiated, and from what size on Write uses it. */
  datatype Config = Config(role: Role, compression: bool, minSize: nat) {
    predicate Compresses(payload: seq<byte>) { compression && |payload| >= minSize }

    function Keyed(key: Key): Option<Key> { if role.Client? then Some(key) else None }

    function Peer(): Role { if role.Client? then Server else Client }
  }

  // ----- ws/sender.go and the checks of codec/encoder.go -----

  datatype Encoding = Refused(err: WriteErr) | Ready(frame: Out, closeSent: bool)

  /** The errors of the codec's Encode and EncodeCompressed. */
  function EncoderFault(final: bool, op: Opcode, n: nat, compressed: bool): Option<WriteErr> {
    if compressed && !op.IsData() then Some(InvalidCompressedFrame)
    else if op.Reserved? then Some(InvalidOpcode)
    else if op.IsControl() && (!final || n > 125 || (op.Close? && n == 1)) then Some(InvalidControlFrame)
    else None
  }

  function EncodeFrame(closeSent: bool, op: Opcode, final: bool, payload: seq<byte>, compressed: bool,
                       key: Option<Key>): Encoding {
    if closeSent && !op.Pong? then Refused(Closing)
    else
      match EncoderFault(final, op, |payload|, compressed)
      case Some(e) => Refused(e)
      case None => Ready(Out(final, compressed && !op.Continuation?, op, payload, key), closeSent || op.Close?)
  }

  /** A complete frame: the opcode's own checks, then the frame. */
  function EncodeWhole(closeSent: bool, op: Opcode, payload: seq<byte>, compressed: bool, key: Option<Key>): Encoding {
    if closeSent && !op.Pong? then Refused(Closing)
    else
      match WholeFault(op, payload)
      case Some(e) => Refused(e)
      case None => EncodeFrame(closeSent, op, true, payload, compressed, key)
  }

  function WholeFault(op: Opcode, payload: seq<byte>): Option<WriteErr> {
    match op
    case Text => None
    case Binary => None
    case Ping => if |payload| > 125 then Some(Protocol) else None
    case Pong => if |payload| > 125 then Some(Protocol) else None
    case Close => (
      match CloseFault(payload)
      case None => None
      case Some(code) => Some(if code == 1007 then InvalidUtf8 else Protocol))
    case Continuation => Some(Protocol)
    case Reserved(_) => Some(Protocol)
  }

  type Uint16 = n: nat | n < 65536

  function EncodeClose(closeSent: bool, code: Uint16, reason: seq<byte>, key: Option<Key>): Encoding {
    if code == 0 then
      if reason != [] then Refused(Protocol) else EncodeWhole(closeSent, Close, [], false, key)
    else if |reason| > 123 then Refused(Protocol)
    else EncodeWhole(closeSent, Close, PutBigEndian(code, 2) + reason, false, key)
  }

  // ----- ws/conn_write.go -----

  datatype Frag = Frag(op: Opcode, first: bool, compressed: bool)

  datatype Tx = Tx(closeSent: bool, frag: Option<Frag>)

  const IDLE := Tx(false, None)

  /**
   * A call of the write API. `coded` is what the compressor made of the payload, when it is used;
   * `key` the key drawn.
   */
  datatype Call =
    | Write(op: Opcode, payload: seq<byte>, coded: seq<byte>, key: Key)
    | WritePrepared(op: Opcode, payload: seq<byte>, coded: seq<byte>, key: Key)
    | BeginMessage(op: Opcode)
    | Fragment(payload: seq<byte>, coded: seq<byte>, final: bool, key: Key)
    | SendPing(payload: seq<byte>, key: Key)
    | SendPong(payload: seq<byte>, key: Key)
    | SendClose(code: Uint16, reason: seq<byte>, key: Key)

  datatype Result = Result(tx: Tx, out: seq<Out>, err: Option<WriteErr>)

  function Refuse(tx: Tx, err: WriteErr): Result { Result(tx, [], Some(err)) }

  function Sent(tx: Tx, e: Encoding): Result {
    match e
    case Refused(err) => Refuse(tx, err)
    case Ready(frame, closeSent) => Result(tx.(closeSent := closeSent), [frame], None)
  }

  predicate Starts(op: Opcode) { op.Text? || op.Binary? }

  function WriteWhole(cfg: Config, tx: Tx, op: Opcode, payload: seq<byte>, coded: seq<byte>, key: Key): Result {
    if !Starts(op) then Refuse(tx, Protocol)
    else if tx.frag.Some? then Refuse(tx, MessageOpen)
    else if cfg.Compresses(payload) then Sent(tx, EncodeWhole(tx.closeSent, op, coded, true, cfg.Keyed(key)))
    else Sent(tx, EncodeWhole(tx.closeSent, op, payload, false, cfg.Keyed(key)))
  }

  /** fragment and endFragmented: a frame of the open message; a refusal abandons the message. */
  function WriteFragment(cfg: Config, tx: Tx, payload: seq<byte>, coded: seq<byte>, final: bool, key: Key): Result {
    match tx.frag
    case None => Refuse(tx, NoMessage)
    case Some(f) =>
      var op := if f.first then f.op else Continuation;
      match EncodeFrame(tx.closeSent, op, final, if f.compressed then coded else payload, f.compressed, cfg.Keyed(key))
      case Refused(e) => Result(tx.(frag := None), [], Some(e))
      case Ready(frame, closeSent) =>
        Result(Tx(closeSent, if final then None else Some(f.(first := false))), [frame], None)
  }

  function Act(cfg: Config, tx: Tx, c: Call): Result {
    match c
    case Write(op, payload, coded, key) => WriteWhole(cfg, tx, op, payload, coded, key)
    case WritePrepared(op, payload, coded, key) =>
      if cfg.role.Client? then WriteWhole(cfg, tx, op, payload, coded, key)
      else if !Starts(op) then Refuse(tx, Protocol)
      else if tx.frag.Some? then Refuse(tx, MessageOpen)
      else if tx.closeSent then Refuse(tx, Closing)
      else
        var body := if cfg.Compresses(payload) then coded else payload;
        Result(tx, [Out(true, cfg.Compresses(payload), op, body, None)], None)
    case BeginMessage(op) =>
      if !Starts(op) then Refuse(tx, Protocol)
      else if tx.frag.Some? then Refuse(tx, MessageOpen)
      else if tx.closeSent then Refuse(tx, Closing)
      else Result(tx.(frag := Some(Frag(op, true, cfg.compression))), [], None)
    case Fragment(payload, coded, final, key) => WriteFragment(cfg, tx, payload, coded, final, key)
    case SendPing(payload, key) => Sent(tx, EncodeWhole(tx.closeSent, Ping, payload, false, cfg.Keyed(key)))
    case SendPong(payload, key) => Sent(tx, EncodeWhole(tx.closeSent, Pong, payload, false, cfg.Keyed(key)))
    case SendClose(code, reason, key) => Sent(tx, EncodeClose(tx.closeSent, code, reason, cfg.Keyed(key)))
  }

  /** Slices are shorter than 2^63 octets. */
  predicate Fits(c: Call) {
    match c
    case Write(_, payload, coded, _) => |payload| < MAX_LENGTH && |coded| < MAX_LENGTH
    case WritePrepared(_, payload, coded, _) => |payload| < MAX_LENGTH && |coded| < MAX_LENGTH
    case Fragment(payload, coded, _, _) => |payload| < MAX_LENGTH && |coded| < MAX_LENGTH
    case _ => true
  }

  predicate AllFit(calls: seq<Call>) {
    forall i :: 0 <= i < |calls| ==> Fits(calls[i])
  }

  /** The frames of a run, in the order they are encoded. */
  function Frames(cfg: Config, tx: Tx, calls: seq<Call>): seq<Out>
    decreases |calls|
  {
    if calls == [] then [] else
    var r := Act(cfg, tx, calls[0]);
    r.out + Frames(cfg, r.tx, calls[1..])
  }

  /** The sender's fields after a run. */
  function TxAfter(cfg: Config, tx: Tx, calls: seq<Call>): Tx
    decreases |calls|
  {
    if calls == [] then tx else TxAfter(cfg, Act(cfg, tx, calls[0]).tx, calls[1..])
  }

  lemma {:induction false} FramesSnoc(cfg: Config, tx: Tx, calls: seq<Call>, c: Call)
    ensures
      var r := Act(cfg, TxAfter(cfg, tx, calls), c);
      && Frames(cfg, tx, calls + [c]) == Frames(cfg, tx, calls) + r.out
      && TxAfter(cfg, tx, calls + [c]) == r.tx
    decreases |calls|
  {
    hide Act;
    if calls == [] {
      assert calls + [c] == [c] && [c][1..] == [];
    } else {
      FramesSnoc(cfg, Act(cfg, tx, calls[0]).tx, calls[1..], c);
      assert (calls + [c])[1..] == calls[1..] + [c];
    }
  }

  // ----- Legality -----

  /** The sender's fields agree with the frames already out. */
  predicate Agrees(cfg: Config, tx: Tx, l: Line) {
    && tx.closeSent == l.closed
    && (!l.closed ==> l.open == (tx.frag.Some? && !tx.frag.value.first))
    && (tx.frag.Some? ==> Starts(tx.frag.value.op) && tx.frag.value.compressed == cfg.compression)
  }

  lemma ActIsLegal(cfg: Config, tx: Tx, l: Line, c: Call)
    requires Agrees(cfg, tx, l) && Fits(c)
    ensures
      var r := Act(cfg, tx, c);
      && Legal(cfg.compression, l, r.out) && Agrees(cfg, r.tx, AfterAll(l, r.out)) && KeyedFor(cfg.Peer(), r.out)
      && |r.out| <= 1 && (r.err.Some? ==> r.out == [])
  {
    hide CloseFault;
    var r := Act(cfg, tx, c);
    if r.out != [] {
      assert r.out[1..] == [];
      CloseIsShort(r.out[0].payload);
    }
  }

  lemma {:induction false} FramesAreLegal(cfg: Config, tx: Tx, l: Line, calls: seq<Call>)
    requires Agrees(cfg, tx, l) && AllFit(calls)
    ensures Legal(cfg.compression, l, Frames(cfg, tx, calls)) && KeyedFor(cfg.Peer(), Frames(cfg, tx, calls))
    decreases |calls|
  {
    hide Act, Agrees, Fits;
    if calls != [] {
      assert Fits(calls[0]);
      ActIsLegal(cfg, tx, l, calls[0]);
      var r := Act(cfg, tx, calls[0]);
      FramesAreLegal(cfg, r.tx, AfterAll(l, r.out), calls[1..]);
      LegalAppend(cfg.compression, l, r.out, Frames(cfg, r.tx, calls[1..]));
    }
  }

  /**
   * Send/receive duality, frame by frame: every run of the write API puts a
   * wire out that the opposite role's receiver accepts without failing.
   */
  lemma RunIsAccepted(cfg: Config, calls: seq<Call>)
    requires AllFit(calls)
    ensures
      var fs := Frames(cfg, IDLE, calls);
      && Legal(cfg.compression, START, fs)
      && OneShot(Init(cfg.Peer(), cfg.compression), EncodedAll(fs)) == MeaningAll(START, fs)
      && NoFailure(MeaningAll(START, fs))
  {
    hide Act, OneShot, MeaningAll, Frames, EncodedAll, Legal;
    FramesAreLegal(cfg, IDLE, START, calls);
    LegalWireDelivered(cfg.Peer(), cfg.compression, Frames(cfg, IDLE, calls));
  }

  /** Close discipline: in every run at most one close is encoded, and only pongs after it. */
  lemma OnlyPongsAfterClose(cfg: Config, calls: seq<Call>, i: nat)
    requires AllFit(calls) && i < |Frames(cfg, IDLE, calls)| && Frames(cfg, IDLE, calls)[i].op.Close?
    ensures forall j :: i < j < |Frames(cfg, IDLE, calls)| ==> Frames(cfg, IDLE, calls)[j].op.Pong?
  {
    hide Act, Frames;
    FramesAreLegal(cfg, IDLE, START, calls);
    OnlyPongsFollowClose(cfg.compression, START, Frames(cfg, IDLE, calls), i);
  }

  // ----- Messages -----

  datatype Item =
    | Message(op: Opcode, compressed: bool, content: seq<byte>)
    | ControlItem(op: Opcode, payload: seq<byte>)

  datatype Opening = Opening(op: Opcode, compressed: bool)

  /** Messages put together from what a receiver reports. */
  datatype Inbox = Inbox(open: Option<Opening>, content: seq<byte>, items: seq<Item>)

  function Take(b: Inbox, e: Event): Inbox {
    match e
    case Frame(op, rsv1, _) => if op.Continuation? then b else b.(open := Some(Opening(op, rsv1)), content := [])
    case Octet(x) => b.(content := b.content + [x])
    case EndFrame(fin) =>
      if fin && b.open.Some? then
        Inbox(None, [], b.items + [Message(b.open.value.op, b.open.value.compressed, b.content)])
      else b
    case Control(op, payload) => b.(items := b.items + [ControlItem(op, payload)])
    case Fail(_) => b
  }

  function TakeAll(b: Inbox, ev: seq<Event>): Inbox
    decreases |ev|
  {
    if ev == [] then b else TakeAll(Take(b, ev[0]), ev[1..])
  }

  /** What the caller has sent: messages when they end, control frames, nothing after the close. */
  datatype Outbox = Outbox(open: Option<Opening>, content: seq<byte>, items: seq<Item>, closed: bool) {
    function Add(i: Item): Outbox { if closed then this else this.(items := items + [i]) }
  }

  function Record(cfg: Config, b: Outbox, c: Call, ok: bool): Outbox {
    match c
    case Write(op, payload, coded, _) => if ok then b.Add(Whole(cfg, op, payload, coded)) else b
    case WritePrepared(op, payload, coded, _) => if ok then b.Add(Whole(cfg, op, payload, coded)) else b
    case BeginMessage(op) => if ok then b.(open := Some(Opening(op, cfg.compression)), content := []) else b
    case Fragment(payload, coded, final, _) =>
      if b.open.None? then b
      else if !ok then b.(open := None)
      else
        var t := b.(content := b.content + if cfg.compression then coded else payload);
        if final then
          t.(open := None, content := []).Add(Message(t.open.value.op, t.open.value.compressed, t.content))
        else t
    case SendPing(payload, _) => if ok then b.Add(ControlItem(Ping, payload)) else b
    case SendPong(payload, _) => if ok then b.Add(ControlItem(Pong, payload)) else b
    case SendClose(code, reason, _) =>
      if ok then
        b.Add(ControlItem(Close, if code == 0 then [] else PutBigEndian(code, 2) + reason)).(closed := true)
      else b
  }

  function Whole(cfg: Config, op: Opcode, payload: seq<byte>, coded: seq<byte>): Item {
    Message(op, cfg.Compresses(payload), if cfg.Compresses(payload) then coded else payload)
  }

  function RecordAll(cfg: Config, tx: Tx, b: Outbox, calls: seq<Call>): Outbox
    decreases |calls|
  {
    if calls == [] then b
    else
      var r := Act(cfg, tx, calls[0]);
      RecordAll(cfg, r.tx, Record(cfg, b, calls[0], r.err.None?), calls[1..])
  }

  lemma {:induction false} TakeAllAppend(b: Inbox, x: seq<Event>, y: seq<Event>)
    ensures TakeAll(b, x + y) == TakeAll(TakeAll(b, x), y)
    decreases |x|
  {
    if x == [] {
      assert x + y == y;
    } else {
      TakeAllAppend(Take(b, x[0]), x[1..], y);
      assert (x + y)[1..] == x[1..] + y;
    }
  }

  lemma {:induction false} TakeOctets(b: Inbox, p: seq<byte>)
    ensures TakeAll(b, Octets(p)) == b.(content := b.content + p)
    decreases |p|
  {
    if p == [] {
      assert b.content + p == b.content;
    } else {
      assert Octets(p)[0] == Octet(p[0]) && Octets(p)[1..] == Octets(p[1..]);
      TakeOctets(Take(b, Octet(p[0])), p[1..]);
      assert b.content + [p[0]] + p[1..] == b.content + p;
    }
  }

  lemma TakeOne(b: Inbox, e: Event)
    ensures TakeAll(b, [e]) == Take(b, e)
  {
    assert [e][1..] == [];
  }

  /** A data frame adds its payload, and its message when it is the last. */
  lemma TakeData(b: Inbox, f: Out)
    requires f.op.IsData()
    ensures
      var begun := Take(b, Frame(f.op, f.rsv1, |f.payload|));
      TakeAll(b, Meaning(f)) == Take(begun.(content := begun.content + f.payload), EndFrame(f.fin))
  {
    hide Octets;
    var start := Frame(f.op, f.rsv1, |f.payload|);
    var begun := Take(b, start);
    TakeAllAppend(b, [start] + Octets(f.payload), [EndFrame(f.fin)]);
    TakeAllAppend(b, [start], Octets(f.payload));
    TakeOne(b, start);
    TakeOctets(begun, f.payload);
    TakeOne(begun.(content := begun.content + f.payload), EndFrame(f.fin));
  }

  /** Inbox and outbox agree, given the sender's fields. */
  predicate Matches(cfg: Config, tx: Tx, out: Outbox, inb: Inbox) {
    && inb.items == out.items && out.closed == tx.closeSent
    && out.open == (if tx.frag.Some? then Some(Opening(tx.frag.value.op, tx.frag.value.compressed)) else None)
    && (tx.frag.Some? ==> Starts(tx.frag.value.op) && tx.frag.value.compressed == cfg.compression)
    && (!out.closed && out.open.Some? ==>
          if tx.frag.value.first then out.content == [] else inb.open == out.open && inb.content == out.content)
  }

  /** What a call keeps: the two still agree after it. */
  ghost predicate Kept(cfg: Config, tx: Tx, out: Outbox, inb: Inbox, c: Call) {
    var r := Act(cfg, tx, c);
    var ev := if r.out == [] || tx.closeSent then [] else Meaning(r.out[0]);
    Matches(cfg, r.tx, Record(cfg, out, c, r.err.None?), TakeAll(inb, ev))
  }

  lemma WholeKept(cfg: Config, tx: Tx, out: Outbox, inb: Inbox, c: Call)
    requires Matches(cfg, tx, out, inb) && (c.Write? || c.WritePrepared?)
    ensures Kept(cfg, tx, out, inb, c)
  {
    hide CloseFault, TakeAll, Meaning;
    TakeNothing(inb);
    var r := Act(cfg, tx, c);
    if r.out != [] && !tx.closeSent {
      TakeData(inb, r.out[0]);
      assert [] + r.out[0].payload == r.out[0].payload;
    }
  }

  lemma FragmentKept(cfg: Config, tx: Tx, out: Outbox, inb: Inbox, c: Call)
    requires Matches(cfg, tx, out, inb) && c.Fragment?
    ensures Kept(cfg, tx, out, inb, c)
  {
    hide CloseFault, TakeAll, Meaning;
    TakeNothing(inb);
    var r := Act(cfg, tx, c);
    if r.out != [] && !tx.closeSent {
      TakeData(inb, r.out[0]);
      assert [] + r.out[0].payload == r.out[0].payload;
    }
  }

  lemma ControlKept(cfg: Config, tx: Tx, out: Outbox, inb: Inbox, c: Call)
    requires Matches(cfg, tx, out, inb) && (c.SendPing? || c.SendPong? || c.SendClose? || c.BeginMessage?)
    ensures Kept(cfg, tx, out, inb, c)
  {
    hide CloseFault, TakeAll;
    TakeNothing(inb);
    var r := Act(cfg, tx, c);
    if r.out != [] && !tx.closeSent {
      TakeOne(inb, Control(r.out[0].op, r.out[0].payload));
    }
  }

  lemma CallMatches(cfg: Config, tx: Tx, out: Outbox, inb: Inbox, c: Call)
    requires Matches(cfg, tx, out, inb)
    ensures Kept(cfg, tx, out, inb, c)
  {
    hide *;
    if c.Write? || c.WritePrepared? {
      WholeKept(cfg, tx, out, inb, c);
    } else if c.Fragment? {
      FragmentKept(cfg, tx, out, inb, c);
    } else {
      ControlKept(cfg, tx, out, inb, c);
    }
  }

  lemma TakeNothing(b: Inbox)
    ensures TakeAll(b, []) == b
  {
  }

  lemma {:induction false} RunMatches(cfg: Config, tx: Tx, l: Line, out: Outbox, inb: Inbox, calls: seq<Call>)
    requires Agrees(cfg, tx, l) && Matches(cfg, tx, out, inb) && AllFit(calls)
    ensures TakeAll(inb, MeaningAll(l, Frames(cfg, tx, calls))).items == RecordAll(cfg, tx, out, calls).items
    decreases |calls|
  {
    hide Act, Record, Agrees, Matches, Meaning, Fits, TakeAll;
    assert TakeAll(inb, []) == inb by {
      TakeNothing(inb);
    }
    if calls == [] {
      assert inb.items == out.items by {
        MatchesItems(cfg, tx, out, inb);
      }
    } else {
      var r := Act(cfg, tx, calls[0]);
      var rest := Frames(cfg, r.tx, calls[1..]);
      assert Fits(calls[0]);
      ActIsLegal(cfg, tx, l, calls[0]);
      CallMatches(cfg, tx, out, inb, calls[0]);
      var ev := if r.out == [] || tx.closeSent then [] else Meaning(r.out[0]);
      assert MeaningAll(l, r.out + rest) == ev + MeaningAll(AfterAll(l, r.out), rest) by {
        FirstMeaning(cfg, tx, l, r.out, rest);
      }
      TakeAllAppend(inb, ev, MeaningAll(AfterAll(l, r.out), rest));
      RunMatches(cfg, r.tx, AfterAll(l, r.out), Record(cfg, out, calls[0], r.err.None?), TakeAll(inb, ev), calls[1..]);
    }
  }

  lemma MatchesItems(cfg: Config, tx: Tx, out: Outbox, inb: Inbox)
    requires Matches(cfg, tx, out, inb)
    ensures inb.items == out.items
  {
  }

  lemma FirstMeaning(cfg: Config, tx: Tx, l: Line, a: seq<Out>, rest: seq<Out>)
    requires Agrees(cfg, tx, l) && |a| <= 1
    ensures MeaningAll(l, a + rest)
      == (if a == [] || tx.closeSent then [] else Meaning(a[0])) + MeaningAll(AfterAll(l, a), rest)
  {
    hide Meaning;
    if a == [] {
      assert a + rest == rest;
    } else {
      assert (a + rest)[1..] == rest && a[1..] == [];
    }
  }

  const NOTHING_SENT := Outbox(None, [], [], false)

  const NOTHING_HEARD := Inbox(None, [], [])

  /**
   * Send/receive duality: the messages and control frames the opposite role
   * puts together from the wire are those sent, in order, up to the close.
   */
  lemma MessagesDelivered(cfg: Config, calls: seq<Call>)
    requires AllFit(calls)
    ensures
      var wire := EncodedAll(Frames(cfg, IDLE, calls));
      TakeAll(NOTHING_HEARD, OneShot(Init(cfg.Peer(), cfg.compression), wire)).items
        == RecordAll(cfg, IDLE, NOTHING_SENT, calls).items
  {
    hide Act, OneShot, MeaningAll, Frames, EncodedAll, Legal, TakeAll, RecordAll;
    RunIsAccepted(cfg, calls);
    RunMatches(cfg, IDLE, START, NOTHING_SENT, NOTHING_HEARD, calls);
  }
}
