/** ws/sender.go and the write side of ws/conn_write.go, on a connection without a queue. */
module Writers {
  import opened Bytes
  import opened Masking
  import opened Framing
  import opened Reception
  import opened Wire
  import opened Encoders
  import S = Sending

  class Sender {
    const role: Role
    const enc: Encoder
    const closeBuf: array<byte>
    var key: Key
    var closeSent: bool

    ghost predicate Valid()
      reads this, enc
    {
      enc.Valid() && closeBuf.Length == 125
    }

    ghost function Keyed(key: Key): Option<Key> {
      if role.Client? then Some(key) else None
    }

    /** The sender answered as `e` says; a frame made is in the encoder. */
    ghost predicate Did(e: S.Encoding, sent: bool, err: Option<S.WriteErr>)
      requires Valid()
      reads this, enc, enc.body
    {
      match e
      case Refused(x) => err == Some(x) && closeSent == sent
      case Ready(frame, now) => err == None && closeSent == now && enc.Frame() == Encoded(frame)
    }

    constructor (role: Role, scratchKeep: nat, key: Key)
      ensures Valid() && this.role == role && !closeSent && fresh(enc) && fresh(enc.scratch) && fresh(closeBuf)
    {
      this.role, this.key, closeSent := role, key, false;
      enc := new Encoder(scratchKeep);
      closeBuf := new byte[125];
    }

    /** encodeFrame; `drawn` is the key a client draws. */
    method EncodeFrame(op: Opcode, final: bool, payload: array<byte>, n: nat, compressed: bool, drawn: Key, spare: nat)
      returns (err: Option<S.WriteErr>)
      requires Valid() && n <= payload.Length && n < MAX_LENGTH
      modifies this, enc, enc.scratch
      ensures Valid() && (enc.scratch == old(enc.scratch) || fresh(enc.scratch))
      ensures Did(S.EncodeFrame(old(closeSent), op, final, old(payload[..n]), compressed, Keyed(drawn)), old(closeSent),
        err)
    {
      hide Body, EncodeHeader;
      if closeSent && !op.Pong? {
        return Some(S.Closing);
      }
      var key: Option<Key> := None;
      if role.Client? {
        this.key := drawn;
        key := Some(this.key);
      }
      if compressed {
        err := enc.EncodeCompressed(final, op, payload, n, key, spare);
      } else {
        err := enc.Encode(final, op, payload, n, key, spare);
      }
      if err.Some? {
        return;
      }
      if op.Close? {
        closeSent := true;
      }
    }

    /** encode. */
    method Encode(op: Opcode, payload: array<byte>, n: nat, compressed: bool, drawn: Key, spare: nat)
      returns (err: Option<S.WriteErr>)
      requires Valid() && n <= payload.Length && n < MAX_LENGTH
      modifies this, enc, enc.scratch
      ensures Valid() && (enc.scratch == old(enc.scratch) || fresh(enc.scratch))
      ensures Did(S.EncodeWhole(old(closeSent), op, old(payload[..n]), compressed, Keyed(drawn)), old(closeSent), err)
    {
      hide CloseFault, S.EncodeFrame;
      if closeSent && !op.Pong? {
        return Some(S.Closing);
      }
      var fault := S.WholeFault(op, payload[..n]);
      if fault.Some? {
        return fault;
      }
      err := EncodeFrame(op, true, payload, n, compressed, drawn, spare);
    }

    method EncodeClose(code: S.Uint16, reason: seq<byte>, drawn: Key, spare: nat) returns (err: Option<S.WriteErr>)
      requires Valid()
      modifies this, enc, enc.scratch, closeBuf
      ensures Valid() && (enc.scratch == old(enc.scratch) || fresh(enc.scratch))
      ensures Did(S.EncodeClose(old(closeSent), code, reason, Keyed(drawn)), old(closeSent), err)
    {
      hide S.EncodeWhole, PutBigEndian;
      if code == 0 {
        if reason != [] {
          return Some(S.Protocol);
        }
        assert closeBuf[..0] == [];
        err := Encode(Close, closeBuf, 0, false, drawn, spare);
        return;
      }
      if |reason| > 123 {
        return Some(S.Protocol);
      }
      var head := PutBigEndian(code, 2);
      closeBuf[0], closeBuf[1] := head[0], head[1];
      forall i | 0 <= i < |reason| {
        closeBuf[2 + i] := reason[i];
      }
      assert closeBuf[..2 + |reason|] == head + reason;
      err := Encode(Close, closeBuf, 2 + |reason|, false, drawn, spare);
    }
  }

  /** The calls made so far account for the sender's fields and for everything on the wire. */
  ghost predicate Accounts(cfg: S.Config, log: seq<S.Call>, tx: S.Tx, wire: seq<byte>) {
    && S.AllFit(log)
    && tx == S.TxAfter(cfg, S.IDLE, log)
    && wire == EncodedAll(S.Frames(cfg, S.IDLE, log))
  }

  lemma AtMostOne(cfg: S.Config, tx: S.Tx, c: S.Call)
    ensures |S.Act(cfg, tx, c).out| <= 1
  {
    hide S.EncodeWhole, S.EncodeFrame, S.EncodeClose;
  }

  /** One more call, with or without a frame. */
  lemma AccountsFor(cfg: S.Config, log: seq<S.Call>, tx: S.Tx, wire: seq<byte>, c: S.Call)
    requires Accounts(cfg, log, tx, wire) && S.Fits(c)
    ensures tx == S.TxAfter(cfg, S.IDLE, log)
    ensures
      var r := S.Act(cfg, tx, c);
      && |r.out| <= 1
      && Accounts(cfg, log + [c], r.tx, if r.out == [] then wire else wire + Encoded(r.out[0]))
  {
    hide Encoded, S.Act;
    var r := S.Act(cfg, tx, c);
    AtMostOne(cfg, tx, c);
    S.FramesSnoc(cfg, S.IDLE, log, c);
    EncodedAllAppend(S.Frames(cfg, S.IDLE, log), r.out);
    if r.out == [] {
      assert wire + [] == wire;
    } else {
      assert r.out[1..] == [];
    }
  }

  class Writer {
    const cfg: S.Config
    const fragmentSize: nat
    const tx: Sender
    var frag: Option<S.Frag>
    var wire: seq<byte>
    ghost var log: seq<S.Call>

    ghost predicate Valid()
      reads this, tx, tx.enc
    {
      && tx.Valid() && tx.role == cfg.role && 0 < fragmentSize < MAX_LENGTH
      && Accounts(cfg, log, Tx(), wire)
    }

    ghost function Tx(): S.Tx
      reads this, tx
    {
      S.Tx(tx.closeSent, frag)
    }

    /** The last call was `c`, and answered as it should be. */
    ghost predicate Answered(c: S.Call, before: seq<S.Call>, err: Option<S.WriteErr>)
      reads this
    {
      log == before + [c] && err == S.Act(cfg, S.TxAfter(cfg, S.IDLE, before), c).err
    }

    constructor (cfg: S.Config, fragmentSize: nat, scratchKeep: nat, key: Key)
      requires 0 < fragmentSize < MAX_LENGTH
      ensures Valid() && this.cfg == cfg && this.fragmentSize == fragmentSize && log == [] && wire == []
      ensures fresh(tx) && fresh(tx.enc) && fresh(tx.enc.scratch) && fresh(tx.closeBuf)
    {
      this.cfg, this.fragmentSize := cfg, fragmentSize;
      tx := new Sender(cfg.role, scratchKeep, key);
      frag, wire, log := None, [], [];
    }

    /** What the sender made goes out, if it made anything. */
    method Transmit(err: Option<S.WriteErr>)
      requires tx.Valid()
      modifies `wire
      ensures wire == if err.None? then old(wire) + tx.enc.Frame() else old(wire)
    {
      if err.None? {
        wire := wire + (tx.enc.raw[..tx.enc.len] + tx.enc.body[..tx.enc.n]);
      }
    }

    /** Write; coded[..m] is what the compressor makes of the payload. */
    method Write(op: Opcode, payload: array<byte>, n: nat, coded: array<byte>, m: nat, drawn: Key, spare: nat)
      returns (err: Option<S.WriteErr>)
      requires Valid() && n <= payload.Length && n < MAX_LENGTH && m <= coded.Length && m < MAX_LENGTH
      modifies this, tx, tx.enc, tx.enc.scratch
      ensures Valid() && (tx.enc.scratch == old(tx.enc.scratch) || fresh(tx.enc.scratch))
      ensures Answered(S.Write(op, old(payload[..n]), old(coded[..m]), drawn), old(log), err)
    {
      hide Encoded, S.EncodeWhole, Accounts, S.TxAfter;
      ghost var c := S.Write(op, payload[..n], coded[..m], drawn);
      AccountsFor(cfg, log, Tx(), wire, c);
      log := log + [c];
      if !S.Starts(op) {
        return Some(S.Protocol);
      }
      if frag.Some? {
        return Some(S.MessageOpen);
      }
      if cfg.compression && n >= cfg.minSize {
        err := tx.Encode(op, coded, m, true, drawn, spare);
      } else {
        err := tx.Encode(op, payload, n, false, drawn, spare);
      }
      Transmit(err);
    }

    method BeginMessage(op: Opcode) returns (err: Option<S.WriteErr>)
      requires Valid()
      modifies this
      ensures Valid() && Answered(S.BeginMessage(op), old(log), err)
    {
      hide Accounts, S.TxAfter;
      ghost var c := S.BeginMessage(op);
      AccountsFor(cfg, log, Tx(), wire, c);
      log := log + [c];
      if !S.Starts(op) {
        return Some(S.Protocol);
      }
      if frag.Some? {
        return Some(S.MessageOpen);
      }
      if tx.closeSent {
        return Some(S.Closing);
      }
      frag := Some(S.Frag(op, true, cfg.compression));
      return None;
    }

    /** fragment and endFragmented: one frame of the open message; an error abandons it. */
    method Fragment(payload: array<byte>, n: nat, coded: array<byte>, m: nat, final: bool, drawn: Key, spare: nat)
      returns (err: Option<S.WriteErr>)
      requires Valid() && n <= payload.Length && n < MAX_LENGTH && m <= coded.Length && m < MAX_LENGTH
      modifies this, tx, tx.enc, tx.enc.scratch
      ensures Valid() && (tx.enc.scratch == old(tx.enc.scratch) || fresh(tx.enc.scratch))
      ensures Answered(S.Fragment(old(payload[..n]), old(coded[..m]), final, drawn), old(log), err)
    {
      hide Encoded, S.EncodeFrame, S.EncodeWhole, S.EncodeClose, S.WriteWhole, Accounts, S.TxAfter, Encoder.Frame,
        Encoder.Valid;
      ghost var c := S.Fragment(payload[..n], coded[..m], final, drawn);
      AccountsFor(cfg, log, Tx(), wire, c);
      log := log + [c];
      if frag.None? {
        return Some(S.NoMessage);
      }
      var op := if frag.value.first then frag.value.op else Continuation;
      if frag.value.compressed {
        err := tx.EncodeFrame(op, final, coded, m, true, drawn, spare);
      } else {
        err := tx.EncodeFrame(op, final, payload, n, false, drawn, spare);
      }
      Transmit(err);
      frag := if err.Some? || final then None else Some(frag.value.(first := false));
    }

    /** Ping and Pong. */
    method Signal(pong: bool, payload: array<byte>, n: nat, drawn: Key, spare: nat) returns (err: Option<S.WriteErr>)
      requires Valid() && n <= payload.Length && n < MAX_LENGTH
      modifies this, tx, tx.enc, tx.enc.scratch
      ensures Valid() && (tx.enc.scratch == old(tx.enc.scratch) || fresh(tx.enc.scratch))
      ensures Answered(if pong then S.SendPong(old(payload[..n]), drawn)
        else S.SendPing(old(payload[..n]), drawn), old(log), err)
    {
      hide Encoded, S.EncodeWhole, Accounts, S.TxAfter;
      ghost var c := if pong then S.SendPong(payload[..n], drawn) else S.SendPing(payload[..n], drawn);
      AccountsFor(cfg, log, Tx(), wire, c);
      log := log + [c];
      err := tx.Encode(if pong then Pong else Ping, payload, n, false, drawn, spare);
      Transmit(err);
    }

    method Close(code: S.Uint16, reason: seq<byte>, drawn: Key, spare: nat) returns (err: Option<S.WriteErr>)
      requires Valid()
      modifies this, tx, tx.enc, tx.enc.scratch, tx.closeBuf
      ensures Valid() && (tx.enc.scratch == old(tx.enc.scratch) || fresh(tx.enc.scratch))
      ensures Answered(S.SendClose(code, reason, drawn), old(log), err)
    {
      hide Encoded, S.EncodeClose, Accounts, S.TxAfter;
      ghost var c := S.SendClose(code, reason, drawn);
      AccountsFor(cfg, log, Tx(), wire, c);
      log := log + [c];
      err := tx.EncodeClose(code, reason, drawn, spare);
      Transmit(err);
    }
  }

  /** The opposite role puts together from the connection's wire exactly what its calls sent. */
  lemma PeerUnderstands(w: Writer)
    requires w.Valid()
    ensures
      S.TakeAll(S.NOTHING_HEARD, OneShot(Init(w.cfg.Peer(), w.cfg.compression), w.wire)).items
      == S.RecordAll(w.cfg, S.IDLE, S.NOTHING_SENT, w.log).items
  {
    hide S.TakeAll, S.RecordAll, OneShot, S.TxAfter, S.Frames, EncodedAll;
    S.MessagesDelivered(w.cfg, w.log);
  }
}
