/** codec/header.go, codec/opcode.go and the header side of codec/encoder.go: section 5.2 of RFC 6455. */
module Framing {
  import opened Bytes
  import opened Masking

  datatype Opcode = Continuation | Text | Binary | Close | Ping | Pong | Reserved(n: byte) {
    predicate IsData() { Continuation? || Text? || Binary? }
    predicate IsControl() { Close? || Ping? || Pong? }
  }

  function Nibble(op: Opcode): byte {
    match op
    case Continuation => 0x0
    case Text => 0x1
    case Binary => 0x2
    case Close => 0x8
    case Ping => 0x9
    case Pong => 0xa
    case Reserved(n) => n
  }

  function OpcodeOf(n: byte): Opcode {
    if n == 0x0 then Continuation
    else if n == 0x1 then Text
    else if n == 0x2 then Binary
    else if n == 0x8 then Close
    else if n == 0x9 then Ping
    else if n == 0xa then Pong
    else Reserved(n)
  }

  /** What a frame header says. */
  datatype Head = Head(fin: bool, rsv1: bool, rsv2: bool, rsv3: bool, op: Opcode, key: Option<Key>, length: nat) {
    predicate Masked() { key.Some? }
  }

  // ----- Bits -----

  predicate Bit(b: byte, mask: byte) { b & mask != 0 }

  function LengthCode(b1: byte): nat { (b1 & 0x7f) as nat }

  function FirstByte(fin: bool, rsv1: bool, op: Opcode): byte {
    Nibble(op) | (if fin then 0x80 else 0) | (if rsv1 then 0x40 else 0)
  }

  function SecondByte(code: nat, masked: bool): byte
    requires code <= 127
  {
    (code as byte) | (if masked then 0x80 else 0)
  }

  lemma FirstByteBits(fin: bool, rsv1: bool, op: Opcode)
    requires !op.Reserved?
    ensures var b := FirstByte(fin, rsv1, op);
            Bit(b, 0x80) == fin && Bit(b, 0x40) == rsv1 && !Bit(b, 0x20) && !Bit(b, 0x10) && OpcodeOf(b & 0x0f) == op
  {
  }

  lemma SecondByteBits(code: nat, masked: bool)
    requires code <= 127
    ensures Bit(SecondByte(code, masked), 0x80) == masked && LengthCode(SecondByte(code, masked)) == code
  {
    CodeBits(code);
  }

  lemma CodeBits(code: nat)
    requires code <= 127
    ensures code as byte <= 127 && (code as byte) as nat == code
    ensures (code as byte) & 0x7f == code as byte && ((code as byte) | 0x80) & 0x7f == code as byte
    ensures (code as byte) & 0x80 == 0 && ((code as byte) | 0x80) & 0x80 != 0
  {
  }

  // ----- Big-endian numbers -----

  function Low(n: nat): byte { (n % 256) as byte }

  function Value(b: byte): nat { b as nat }

  lemma ByteValue(m: nat)
    requires m < 256
    ensures (m as byte) as nat == m
  {
    assert m % 256 == m;
  }

  lemma LowValue(n: nat)
    ensures Value(Low(n)) == n % 256
  {
    ByteValue(n % 256);
  }

  function BigEndian(s: seq<byte>): nat {
    if s == [] then 0 else BigEndian(s[..|s| - 1]) * 256 + Value(s[|s| - 1])
  }

  function PutBigEndian(n: nat, k: nat): (s: seq<byte>)
    ensures |s| == k
  {
    if k == 0 then [] else PutBigEndian(n / 256, k - 1) + [Low(n)]
  }

  function Pow256(k: nat): nat { if k == 0 then 1 else 256 * Pow256(k - 1) }

  lemma {:induction false} BigEndianRoundTrip(n: nat, k: nat)
    requires n < Pow256(k)
    ensures BigEndian(PutBigEndian(n, k)) == n
  {
    if k > 0 {
      hide Low, Value;
      BigEndianRoundTrip(n / 256, k - 1);
      LowValue(n);
      var s := PutBigEndian(n, k);
      assert s[..|s| - 1] == PutBigEndian(n / 256, k - 1) && s[|s| - 1] == Low(n);
    }
  }

  // ----- Parsing -----

  const MAX_LENGTH: nat := 0x8000_0000_0000_0000 // Payload lengths have their top bit clear.

  datatype Parsed = Incomplete | BadLength | Complete(head: Head, size: nat)

  /** The header's size, from its second octet. */
  function HeaderSize(b1: byte): (n: nat)
    ensures 2 <= n <= 14
  {
    2 + (if LengthCode(b1) == 126 then 2 else if LengthCode(b1) == 127 then 8 else 0) + (if Bit(b1, 0x80) then 4 else 0)
  }

  /** PayloadLen, of the bytes of a complete header. */
  function PayloadLen(raw: seq<byte>): nat
    requires |raw| >= 2 && |raw| == HeaderSize(raw[1])
  {
    var code := LengthCode(raw[1]);
    if code == 126 then BigEndian(raw[2..4]) else if code == 127 then BigEndian(raw[2..10]) else code
  }

  function HeadOf(raw: seq<byte>): Head
    requires |raw| >= 2 && |raw| == HeaderSize(raw[1])
  {
    Head(Bit(raw[0], 0x80), Bit(raw[0], 0x40), Bit(raw[0], 0x20), Bit(raw[0], 0x10), OpcodeOf(raw[0] & 0x0f),
         if Bit(raw[1], 0x80) then Some(raw[|raw| - 4..]) else None, PayloadLen(raw))
  }

  /** Lengths are minimal and in range. */
  predicate GoodLength(code: nat, n: nat) {
    && (code == 126 ==> n >= 126)
    && (code == 127 ==> 65536 <= n < MAX_LENGTH)
  }

  /** NextHeader on the pending input. */
  function ParseHeader(input: seq<byte>): (p: Parsed)
    ensures p.Complete? ==> 2 <= p.size <= |input| && p.size <= 14
    ensures p.BadLength? ==> 2 <= |input|
  {
    if |input| < 2 then Incomplete
    else
      var n := HeaderSize(input[1]);
      if |input| < n then Incomplete
      else if GoodLength(LengthCode(input[1]), PayloadLen(input[..n])) then Complete(HeadOf(input[..n]), n)
      else BadLength
  }

  /** A header once complete, or bad, does not depend on what follows. */
  lemma ParseHeaderStable(a: seq<byte>, b: seq<byte>)
    requires !ParseHeader(a).Incomplete?
    ensures ParseHeader(a + b) == ParseHeader(a)
  {
    var n := HeaderSize(a[1]);
    assert (a + b)[1] == a[1];
    assert (a + b)[..n] == a[..n];
  }

  lemma ParseHeaderExact(a: seq<byte>)
    requires ParseHeader(a).Complete?
    ensures ParseHeader(a[..ParseHeader(a).size]) == ParseHeader(a)
  {
    var n := HeaderSize(a[1]);
    assert a[..n][1] == a[1] && a[..n][..n] == a[..n];
  }

  // ----- Encoding -----

  function LengthField(n: nat): seq<byte> {
    if n <= 125 then [] else if n <= 65535 then PutBigEndian(n, 2) else PutBigEndian(n, 8)
  }

  function CodeFor(n: nat): nat {
    if n <= 125 then n else if n <= 65535 then 126 else 127
  }

  function KeyBytes(key: Option<Key>): seq<byte> {
    if key.Some? then key.value else []
  }

  /** The header Encode fills in; EncodeCompressed adds RSV1. */
  function EncodeHeader(fin: bool, rsv1: bool, op: Opcode, n: nat, key: Option<Key>): (raw: seq<byte>)
    ensures 2 <= |raw| <= 14
  {
    [FirstByte(fin, rsv1, op), SecondByte(CodeFor(n), key.Some?)] + LengthField(n) + KeyBytes(key)
  }

  lemma EncodedSize(fin: bool, rsv1: bool, op: Opcode, n: nat, key: Option<Key>)
    ensures |EncodeHeader(fin, rsv1, op, n, key)| == HeaderSize(EncodeHeader(fin, rsv1, op, n, key)[1])
  {
    SecondByteBits(CodeFor(n), key.Some?);
  }

  lemma EncodedLength(fin: bool, rsv1: bool, op: Opcode, n: nat, key: Option<Key>)
    requires n < MAX_LENGTH
    ensures
      var raw := EncodeHeader(fin, rsv1, op, n, key);
      && |raw| == HeaderSize(raw[1]) && PayloadLen(raw) == n && LengthCode(raw[1]) == CodeFor(n)
  {
    hide SecondByte, LengthCode, Bit, FirstByte;
    var raw := EncodeHeader(fin, rsv1, op, n, key);
    SecondByteBits(CodeFor(n), key.Some?);
    EncodedSize(fin, rsv1, op, n, key);
    if 125 < n <= 65535 {
      assert raw[2..4] == PutBigEndian(n, 2);
      assert Pow256(2) == 65536;
      BigEndianRoundTrip(n, 2);
    } else if n > 65535 {
      assert raw[2..10] == PutBigEndian(n, 8);
      Pow256Eight();
      BigEndianRoundTrip(n, 8);
    }
  }

  lemma Pow256Eight()
    ensures Pow256(8) == 2 * MAX_LENGTH
  {
    assert Pow256(2) == 65536;
    assert Pow256(4) == 256 * Pow256(3);
    assert Pow256(6) == 256 * Pow256(5);
    assert Pow256(8) == 256 * Pow256(7);
  }

  /** Round trip: an encoded header parses back, with a minimal length, whatever follows it. */
  lemma HeaderRoundTrip(fin: bool, rsv1: bool, op: Opcode, n: nat, key: Option<Key>, rest: seq<byte>)
    requires !op.Reserved? && n < MAX_LENGTH
    ensures
      var raw := EncodeHeader(fin, rsv1, op, n, key);
      ParseHeader(raw + rest) == Complete(Head(fin, rsv1, false, false, op, key, n), |raw|)
  {
    hide SecondByte, LengthCode, Bit, FirstByte, OpcodeOf, PayloadLen, LengthField;
    var raw := EncodeHeader(fin, rsv1, op, n, key);
    EncodedLength(fin, rsv1, op, n, key);
    FirstByteBits(fin, rsv1, op);
    SecondByteBits(CodeFor(n), key.Some?);
    assert raw[0] == FirstByte(fin, rsv1, op) && raw[1] == SecondByte(CodeFor(n), key.Some?);
    assert key.Some? ==> raw[|raw| - 4..] == key.value;
    assert raw[..|raw|] == raw;
    assert ParseHeader(raw).Complete?;
    ParseHeaderStable(raw, rest);
  }
}
