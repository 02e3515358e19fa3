/** codec/encoder.go and ws/sender.go: frames built in reusable storage. */
module Encoders {
  import opened Bytes
  import opened Masking
  import opened Framing
  import opened Reception
  import opened Wire
  import Sending

  function Or(b: byte, m: byte): byte { b | m }

  lemma OrIsFirstByte(op: Opcode)
    ensures FirstByte(false, false, op) == Nibble(op)
    ensures FirstByte(true, false, op) == Or(Nibble(op), 0x80)
    ensures forall fin :: FirstByte(fin, true, op) == Or(FirstByte(fin, false, op), 0x40)
  {
    assert FirstByte(true, true, op) == Or(FirstByte(true, false, op), 0x40);
    assert FirstByte(false, true, op) == Or(FirstByte(false, false, op), 0x40);
  }

  function CodeByte(code: nat): byte
    requires code <= 127
  {
    code as byte
  }

  lemma OrIsSecondByte(code: nat)
    requires code <= 127
    ensures SecondByte(code, false) == CodeByte(code) && SecondByte(code, true) == Or(CodeByte(code), 0x80)
  {
  }

  const HEADER_SIZE := 14

  /** The opcode, the FIN bit and the length. */
  method FirstFields(final: bool, op: Opcode, n: nat) returns (raw: seq<byte>, len: nat)
    ensures |raw| == HEADER_SIZE && 2 <= len <= 10
    ensures raw[..len] == [FirstByte(final, false, op), CodeByte(CodeFor(n))] + LengthField(n)
  {
    hide FirstByte, Or, CodeByte, PutBigEndian, Nibble;
    OrIsFirstByte(op);
    raw := seq(HEADER_SIZE, _ => 0);
    raw := raw[0 := Nibble(op)];
    if final {
      raw := raw[0 := Or(raw[0], 0x80)];
    }
    raw := raw[1 := CodeByte(CodeFor(n))];
    len := 2;
    if n > 65535 {
      raw := raw[..2] + PutBigEndian(n, 8) + raw[10..];
      len := 10;
    } else if n > 125 {
      raw := raw[..2] + PutBigEndian(n, 2) + raw[4..];
      len := 4;
    }
  }

  /** The header's fields filled in one after the other. */
  method BuildHeader(final: bool, op: Opcode, n: nat, key: Option<Key>) returns (raw: seq<byte>, len: nat)
    ensures |raw| == HEADER_SIZE && len <= HEADER_SIZE
    ensures raw[..len] == EncodeHeader(final, false, op, n, key)
  {
    hide FirstByte, SecondByte, Or, CodeByte, LengthField;
    OrIsSecondByte(CodeFor(n));
    raw, len := FirstFields(final, op, n);
    ghost var fields := raw[..len];
    if key.Some? {
      raw := raw[..len] + key.value + raw[len + 4..];
      raw := raw[1 := Or(raw[1], 0x80)];
      len := len + 4;
      assert raw[..len] == fields[1 := Or(fields[1], 0x80)] + key.value;
    }
  }

  lemma WithRsv1(raw: seq<byte>, final: bool, op: Opcode, n: nat, key: Option<Key>)
    requires raw == EncodeHeader(final, false, op, n, key)
    ensures raw[0 := Or(raw[0], 0x40)] == EncodeHeader(final, true, op, n, key)
  {
    hide FirstByte, SecondByte, Or, LengthField;
    OrIsFirstByte(op);
    assert raw[0] == FirstByte(final, false, op);
  }

  class Encoder {
    const scratchKeep: nat
    var raw: seq<byte>
    var len: nat
    // The payload to send: body[..n], the caller's when unmasked, else scratch.
    var body: array<byte>
    var n: nat
    var scratch: array<byte>

    ghost predicate Valid()
      reads this
    {
      |raw| == HEADER_SIZE && len <= HEADER_SIZE && n <= body.Length
    }

    ghost function Frame(): seq<byte>
      requires Valid()
      reads this, body
    {
      raw[..len] + body[..n]
    }

    constructor (scratchKeep: nat)
      ensures Valid() && fresh(scratch) && this.scratchKeep == scratchKeep && Frame() == []
    {
      this.scratchKeep := scratchKeep;
      raw, len, n := seq(HEADER_SIZE, _ => 0), 0, 0;
      var none := new byte[0];
      body, scratch := none, none;
    }

    /** A masked copy of payload[..n] in scratch. */
    method MaskCopy(payload: array<byte>, n: nat, key: Key, spare: nat)
      requires n <= payload.Length
      modifies `scratch, scratch
      ensures scratch == old(scratch) || fresh(scratch)
      ensures n <= scratch.Length && scratch[..n] == Masked(old(payload[..n]), key, 0)
    {
      hide Masked;
      if scratchKeep != 0 && scratch.Length > scratchKeep && n <= scratchKeep {
        scratch := new byte[0];
      }
      if scratch.Length < n {
        scratch := new byte[n + spare];
      }
      assert payload[..n] == payload[0..0 + n];
      MaskInto(scratch, 0, payload, 0, n, key, 0);
      assert scratch[..n] == scratch[0..0 + n];
    }

    /** An error leaves the frame as it was. */
    method Encode(final: bool, op: Opcode, payload: array<byte>, n: nat, key: Option<Key>, spare: nat)
      returns (err: Option<Sending.WriteErr>)
      requires Valid() && n <= payload.Length && n < MAX_LENGTH
      modifies this, scratch
      ensures Valid() && err == Sending.EncoderFault(final, op, n, false)
      ensures err.Some? ==> unchanged(this) && unchanged(scratch)
      ensures err.None? ==>
        && raw[..len] == EncodeHeader(final, false, op, n, key)
        && body[..this.n] == Body(Out(final, false, op, old(payload[..n]), key))
      ensures scratch == old(scratch) || fresh(scratch)
    {
      hide Masked, EncodeHeader;
      if op.Reserved? {
        return Some(Sending.InvalidOpcode);
      }
      if op.IsControl() && (!final || n > 125 || (op.Close? && n == 1)) {
        return Some(Sending.InvalidControlFrame);
      }
      var h, k := BuildHeader(final, op, n, key);
      if key.None? {
        body := payload;
      } else {
        MaskCopy(payload, n, key.value, spare);
        body := scratch;
      }
      this.n := n;
      raw, len := h, k;
      return None;
    }

    /** Precompressed data: RSV1 on a message's first frame, control frames refused. */
    method EncodeCompressed(final: bool, op: Opcode, payload: array<byte>, n: nat, key: Option<Key>, spare: nat)
      returns (err: Option<Sending.WriteErr>)
      requires Valid() && n <= payload.Length && n < MAX_LENGTH
      modifies this, scratch
      ensures Valid() && err == Sending.EncoderFault(final, op, n, true)
      ensures err.Some? ==> unchanged(this) && unchanged(scratch)
      ensures err.None? ==>
        && raw[..len] == EncodeHeader(final, !op.Continuation?, op, n, key)
        && body[..this.n] == Body(Out(final, !op.Continuation?, op, old(payload[..n]), key))
      ensures scratch == old(scratch) || fresh(scratch)
    {
      hide Body, EncodeHeader, Or;
      if !op.IsData() {
        return Some(Sending.InvalidCompressedFrame);
      }
      err := Encode(final, op, payload, n, key, spare);
      if !op.Continuation? {
        WithRsv1(raw[..len], final, op, n, key);
        assert raw[0 := Or(raw[0], 0x40)][..len] == raw[..len][0 := Or(raw[0], 0x40)];
        raw := raw[0 := Or(raw[0], 0x40)];
        assert Body(Out(final, true, op, old(payload[..n]), key))
          == Body(Out(final, false, op, old(payload[..n]), key)) by {
          SameBody(final, op, old(payload[..n]), key);
        }
      }
    }
  }

  lemma SameBody(final: bool, op: Opcode, payload: seq<byte>, key: Option<Key>)
    ensures Body(Out(final, true, op, payload, key)) == Body(Out(final, false, op, payload, key))
  {
  }
}
