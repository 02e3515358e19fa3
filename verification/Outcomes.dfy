/**
 * When a call of the write API succeeds, which error it gives otherwise, and
 * what goes out: from the calls made and the frames out so far.
 */
module Outcomes {
  import opened Bytes
  import opened Masking
  import opened Framing
  import opened Reception
  import opened Wire
  import opened Sending
  import HeaderOctets
  import Utf8

  // ----- Where a connection stands -----

  /** A close is among the frames out. */
  predicate CloseIsOut(fs: seq<Out>) { exists i :: 0 <= i < |fs| && fs[i].op == Close }

  /** How the call at `k` was answered. */
  function Answer(cfg: Config, calls: seq<Call>, k: nat): Option<WriteErr>
    requires k < |calls|
  {
    Act(cfg, TxAfter(cfg, IDLE, calls[..k]), calls[k]).err
  }

  /** A fragment that leaves its message open. */
  predicate GoesOn(cfg: Config, calls: seq<Call>, k: nat)
    requires k < |calls|
  {
    calls[k].Fragment? ==> !calls[k].final && Answer(cfg, calls, k) == None
  }

  /** The message begun by the call at `j` is open: no fragment has ended it or failed. */
  ghost predicate OpenSince(cfg: Config, calls: seq<Call>, j: nat) {
    && j < |calls| && calls[j].BeginMessage? && Answer(cfg, calls, j) == None
    && forall k :: j < k < |calls| ==> GoesOn(cfg, calls, k)
  }

  ghost predicate MessageIsOpen(cfg: Config, calls: seq<Call>) { exists j: nat :: OpenSince(cfg, calls, j) }

  /** Nothing of it is out yet. */
  predicate Unsent(calls: seq<Call>, j: nat) { forall k :: j < k < |calls| ==> !calls[k].Fragment? }

  /** The sender's fields say so. */
  ghost predicate Stands(cfg: Config, calls: seq<Call>, tx: Tx) {
    && (tx.closeSent <==> CloseIsOut(Frames(cfg, IDLE, calls)))
    && (tx.frag.Some? ==> MessageIsOpen(cfg, calls))
    && (forall j: nat :: OpenSince(cfg, calls, j) ==>
          tx.frag == Some(Frag(calls[j].op, Unsent(calls, j), cfg.compression)) && Starts(calls[j].op))
  }

  lemma AnswerStays(cfg: Config, calls: seq<Call>, c: Call, k: nat)
    requires k < |calls|
    ensures Answer(cfg, calls + [c], k) == Answer(cfg, calls, k)
    ensures GoesOn(cfg, calls + [c], k) == GoesOn(cfg, calls, k)
  {
    hide Act, TxAfter;
    assert (calls + [c])[..k] == calls[..k];
  }

  lemma LastAnswer(cfg: Config, calls: seq<Call>, c: Call)
    ensures Answer(cfg, calls + [c], |calls|) == Act(cfg, TxAfter(cfg, IDLE, calls), c).err
  {
    hide Act, TxAfter;
    assert (calls + [c])[..|calls|] == calls;
  }

  /** One call more: the message that was open still is, or the one just begun. */
  lemma OpenSinceSnoc(cfg: Config, calls: seq<Call>, c: Call, j: nat)
    ensures
      var err := Act(cfg, TxAfter(cfg, IDLE, calls), c).err;
      OpenSince(cfg, calls + [c], j) <==>
        || (j == |calls| && c.BeginMessage? && err == None)
        || (OpenSince(cfg, calls, j) && (c.Fragment? ==> !c.final && err == None))
  {
    hide Act, TxAfter, Answer;
    LastAnswer(cfg, calls, c);
    forall k | 0 <= k < |calls|
      ensures Answer(cfg, calls + [c], k) == Answer(cfg, calls, k)
      ensures GoesOn(cfg, calls + [c], k) == GoesOn(cfg, calls, k)
    {
      AnswerStays(cfg, calls, c, k);
    }
    if j < |calls| {
      assert GoesOn(cfg, calls + [c], |calls|) <==>
        (c.Fragment? ==> !c.final && Answer(cfg, calls + [c], |calls|) == None);
    }
  }

  lemma UnsentSnoc(calls: seq<Call>, c: Call, j: nat)
    requires j < |calls|
    ensures Unsent(calls + [c], j) == (Unsent(calls, j) && !c.Fragment?)
  {
    if Unsent(calls + [c], j) {
      assert (calls + [c])[|calls|] == c;
      forall k | j < k < |calls|
        ensures !calls[k].Fragment?
      {
        assert (calls + [c])[k] == calls[k];
      }
    }
  }

  lemma CloseSnoc(fs: seq<Out>, out: seq<Out>)
    requires |out| <= 1
    ensures CloseIsOut(fs + out) <==> CloseIsOut(fs) || (out != [] && out[0].op == Close)
  {
    var all := fs + out;
    if CloseIsOut(fs) {
      var i :| 0 <= i < |fs| && fs[i].op == Close;
      assert all[i].op == Close;
    }
    if out != [] && out[0].op == Close {
      assert all[|fs|].op == Close;
    }
  }

  /** What a call does to the sender's fields. */
  lemma CallMoves(cfg: Config, tx: Tx, c: Call)
    requires tx.frag.Some? ==> Starts(tx.frag.value.op) && tx.frag.value.compressed == cfg.compression
    ensures
      var r := Act(cfg, tx, c);
      && |r.out| <= 1
      && r.tx.closeSent == (tx.closeSent || (r.out != [] && r.out[0].op == Close))
      && (c.BeginMessage? && r.err == None ==> tx.frag == None && Starts(c.op))
      && r.tx.frag ==
         if c.BeginMessage? && r.err == None then Some(Frag(c.op, true, cfg.compression))
         else if c.Fragment? && tx.frag.Some? then
           if r.err == None && !c.final then Some(tx.frag.value.(first := false)) else None
         else tx.frag
  {
    hide CloseFault;
  }

  lemma StandsSnoc(cfg: Config, calls: seq<Call>, c: Call)
    requires Stands(cfg, calls, TxAfter(cfg, IDLE, calls))
    ensures Stands(cfg, calls + [c], TxAfter(cfg, IDLE, calls + [c]))
  {
    hide Act, TxAfter, Frames, Answer, GoesOn, Unsent, CloseIsOut, Starts;
    var tx := TxAfter(cfg, IDLE, calls);
    var r, all := Act(cfg, tx, c), calls + [c];
    FramesSnoc(cfg, IDLE, calls, c);
    if tx.frag.Some? {
      var j: nat :| OpenSince(cfg, calls, j);
      assert Starts(calls[j].op) && tx.frag.value.op == calls[j].op;
    }
    CallMoves(cfg, tx, c);
    CloseSnoc(Frames(cfg, IDLE, calls), r.out);
    forall j: nat | OpenSince(cfg, all, j)
      ensures r.tx.frag == Some(Frag(all[j].op, Unsent(all, j), cfg.compression)) && Starts(all[j].op)
    {
      OpenSinceSnoc(cfg, calls, c, j);
      if OpenSince(cfg, calls, j) {
        UnsentSnoc(calls, c, j);
      } else {
        NothingAfter(all, j);
      }
    }
    if r.tx.frag.Some? {
      if tx.frag.Some? {
        var j: nat :| OpenSince(cfg, calls, j);
        OpenSinceSnoc(cfg, calls, c, j);
      } else {
        OpenSinceSnoc(cfg, calls, c, |calls|);
      }
    }
  }

  lemma NothingAfter(calls: seq<Call>, j: nat)
    requires j + 1 == |calls|
    ensures Unsent(calls, j)
  {
  }

  /** After any run the sender's fields say which frames are out and whether a message is open. */
  lemma {:induction false} RunStands(cfg: Config, calls: seq<Call>)
    ensures Stands(cfg, calls, TxAfter(cfg, IDLE, calls))
    decreases |calls|
  {
    if calls != [] {
      var most := calls[..|calls| - 1];
      assert calls == most + [calls[|calls| - 1]];
      RunStands(cfg, most);
      StandsSnoc(cfg, most, calls[|calls| - 1]);
    }
  }

  // ----- Every call's answer -----

  /** The error of a call, or None, given whether a message is open and whether a close is out. */
  function Verdict(c: Call, open: bool, closed: bool): Option<WriteErr> {
    match c
    case Write(op, _, _, _) => StartVerdict(op, open, closed)
    case WritePrepared(op, _, _, _) => StartVerdict(op, open, closed)
    case BeginMessage(op) => StartVerdict(op, open, closed)
    case Fragment(_, _, _, _) => if !open then Some(NoMessage) else if closed then Some(Closing) else None
    case SendPing(x, _) => if closed then Some(Closing) else if |x| > 125 then Some(Protocol) else None
    case SendPong(x, _) => if |x| > 125 then Some(Protocol) else None
    case SendClose(code, reason, _) => CloseVerdict(code, reason, closed)
  }

  function StartVerdict(op: Opcode, open: bool, closed: bool): Option<WriteErr> {
    if op != Text && op != Binary then Some(Protocol)
    else if open then Some(MessageOpen)
    else if closed then Some(Closing)
    else None
  }

  /** Neither code nor reason, or a code that may be sent and at most 123 octets of UTF-8. */
  function CloseVerdict(code: Uint16, reason: seq<byte>, closed: bool): Option<WriteErr> {
    if (code == 0 && reason != []) || |reason| > 123 then Some(Protocol)
    else if closed then Some(Closing)
    else if code == 0 then None
    else if code < 1000 || 1004 <= code <= 1006 || 1015 <= code <= 2999 || 5000 <= code then Some(Protocol)
    else if !Utf8.WellFormed(reason) then Some(InvalidUtf8)
    else None
  }

  /** The close payload the write API puts together. */
  lemma ClosePayload(code: Uint16, reason: seq<byte>)
    ensures
      var p := PutBigEndian(code, 2) + reason;
      |p| == 2 + |reason| && HeaderOctets.Two(p, 0) == code && p[2..] == reason
  {
    hide BigEndian, PutBigEndian, HeaderOctets.Two;
    var p := PutBigEndian(code, 2) + reason;
    assert p[0..2] == PutBigEndian(code, 2);
    HeaderOctets.TwoIs(p, 0);
    assert Pow256(2) == 65536;
    BigEndianRoundTrip(code, 2);
  }

  lemma CloseAnswered(cfg: Config, tx: Tx, c: Call)
    requires c.SendClose?
    ensures Act(cfg, tx, c).err == CloseVerdict(c.code, c.reason, tx.closeSent)
    ensures Act(cfg, tx, c).err == None ==> IsClose(c, Act(cfg, tx, c).out)
  {
    hide Utf8.WellFormed, CloseFault, PutBigEndian, HeaderOctets.Two;
    ClosePayload(c.code, c.reason);
    if |c.reason| <= 123 {
      HeaderOctets.CloseFaultExactly(PutBigEndian(c.code, 2) + c.reason);
    }
    HeaderOctets.CloseFaultExactly([]);
  }

  predicate IsClose(c: Call, out: seq<Out>)
    requires c.SendClose?
  {
    && |out| == 1 && out[0].op == Close && out[0].fin && !out[0].rsv1
    && if c.code == 0 then out[0].payload == []
       else |out[0].payload| == 2 + |c.reason| && HeaderOctets.Two(out[0].payload, 0) == c.code
            && out[0].payload[2..] == c.reason
  }

  lemma Answered(cfg: Config, tx: Tx, c: Call)
    requires !c.SendClose? && (tx.frag.Some? ==> tx.frag.value.op == Text || tx.frag.value.op == Binary)
    ensures Act(cfg, tx, c).err == Verdict(c, tx.frag.Some?, tx.closeSent)
  {
    hide CloseFault;
  }

  /**
   * After any run of calls, the answer to the next one follows from the frames
   * out and the message begun, and is the error the caller is to see.
   */
  lemma AnswerExactly(cfg: Config, calls: seq<Call>, c: Call)
    ensures Act(cfg, TxAfter(cfg, IDLE, calls), c).err ==
      Verdict(c, MessageIsOpen(cfg, calls), CloseIsOut(Frames(cfg, IDLE, calls)))
  {
    hide Act, TxAfter, Frames, Answer, GoesOn, Unsent, CloseIsOut, CloseVerdict;
    var tx := TxAfter(cfg, IDLE, calls);
    RunStands(cfg, calls);
    if tx.frag.Some? {
      var j: nat :| OpenSince(cfg, calls, j);
    }
    if c.SendClose? {
      CloseAnswered(cfg, tx, c);
    } else {
      Answered(cfg, tx, c);
    }
  }

  // ----- What goes out -----

  /** The connection compresses this payload. */
  predicate Packs(cfg: Config, x: seq<byte>) { cfg.compression && |x| >= cfg.minSize }

  /** A whole message in one frame, masked for a server, compressed from the threshold on. */
  predicate IsWhole(cfg: Config, f: Out, op: Opcode, x: seq<byte>, coded: seq<byte>, key: Key) {
    && f.fin && f.op == op && f.rsv1 == Packs(cfg, x) && f.payload == (if Packs(cfg, x) then coded else x)
    && f.key == if cfg.role == Client then Some(key) else None
  }

  predicate IsSignal(cfg: Config, f: Out, op: Opcode, x: seq<byte>, key: Key) {
    f.fin && f.op == op && !f.rsv1 && f.payload == x && f.key == if cfg.role == Client then Some(key) else None
  }

  /** The next piece of the message begun as `op`: its opcode and RSV1 on the first frame only. */
  predicate IsPiece(cfg: Config, f: Out, op: Opcode, first: bool, c: Call)
    requires c.Fragment?
  {
    && f.fin == c.final && f.op == (if first then op else Continuation) && f.rsv1 == (first && cfg.compression)
    && f.payload == (if cfg.compression then c.coded else c.payload)
    && f.key == if cfg.role == Client then Some(c.key) else None
  }

  /** What a call that succeeds puts on the wire; `j` is the call that began the open message. */
  predicate Emits(cfg: Config, calls: seq<Call>, c: Call, out: seq<Out>, j: nat) {
    match c
    case Write(op, x, coded, key) => |out| == 1 && IsWhole(cfg, out[0], op, x, coded, key)
    case WritePrepared(op, x, coded, key) => |out| == 1 && IsWhole(cfg, out[0], op, x, coded, key)
    case BeginMessage(_) => out == []
    case Fragment(_, _, _, _) =>
      && |out| == 1 && j < |calls| && calls[j].BeginMessage?
      && IsPiece(cfg, out[0], calls[j].op, Unsent(calls, j), c)
    case SendPing(x, key) => |out| == 1 && IsSignal(cfg, out[0], Ping, x, key)
    case SendPong(x, key) => |out| == 1 && IsSignal(cfg, out[0], Pong, x, key)
    case SendClose(_, _, key) =>
      IsClose(c, out) && out[0].key == if cfg.role == Client then Some(key) else None
  }

  lemma CallEmits(cfg: Config, tx: Tx, calls: seq<Call>, c: Call, j: nat)
    requires Act(cfg, tx, c).err == None
    requires c.Fragment? ==>
      && j < |calls| && calls[j].BeginMessage? && (calls[j].op == Text || calls[j].op == Binary)
      && tx.frag == Some(Frag(calls[j].op, Unsent(calls, j), cfg.compression))
    ensures Emits(cfg, calls, c, Act(cfg, tx, c).out, j)
  {
    hide CloseFault, Unsent, CloseVerdict, IsClose, HeaderOctets.Two;
    if c.SendClose? {
      CloseAnswered(cfg, tx, c);
    }
  }

  /** After any run of calls, one more that is refused puts nothing out, and one that succeeds exactly its frame. */
  lemma EmitsExactly(cfg: Config, calls: seq<Call>, c: Call) returns (j: nat)
    ensures
      var r := Act(cfg, TxAfter(cfg, IDLE, calls), c);
      && (r.err.Some? ==> r.out == [])
      && (r.err == None ==> Emits(cfg, calls, c, r.out, j) && (c.Fragment? ==> OpenSince(cfg, calls, j)))
  {
    hide Act, TxAfter, Frames, Answer, GoesOn, Unsent, CloseIsOut, Emits;
    var tx := TxAfter(cfg, IDLE, calls);
    RunStands(cfg, calls);
    AnswerExactly(cfg, calls, c);
    RefusedIsSilent(cfg, tx, c);
    j := 0;
    if Act(cfg, tx, c).err == None {
      if c.Fragment? {
        var i: nat :| OpenSince(cfg, calls, i);
        j := i;
      }
      CallEmits(cfg, tx, calls, c, j);
    }
  }

  lemma RefusedIsSilent(cfg: Config, tx: Tx, c: Call)
    ensures Act(cfg, tx, c).err.Some? ==> Act(cfg, tx, c).out == []
  {
    hide CloseFault;
  }

  // ----- The codec's own checks -----

  /** What the encoder refuses, opcode by opcode. */
  lemma EncoderFaultExactly(final: bool, op: Opcode, n: nat, compressed: bool)
    ensures EncoderFault(final, op, n, compressed) == None <==>
      || op == Continuation || op == Text || op == Binary
      || (!compressed && final && n <= 125 && (op == Ping || op == Pong || (op == Close && n != 1)))
    ensures EncoderFault(final, op, n, compressed) == Some(InvalidCompressedFrame) <==>
      compressed && op != Continuation && op != Text && op != Binary
    ensures EncoderFault(final, op, n, compressed) == Some(InvalidOpcode) <==>
      !compressed && op !in {Continuation, Text, Binary, Close, Ping, Pong}
  {
  }
}
