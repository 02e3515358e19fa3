/**
 * Headers octet by octet, as section 5.2 of RFC 6455 draws them and not in
 * the terms of parser or encoder: what the one refuses and the other writes.
 */
module HeaderOctets {
  import opened Bytes
  import opened Masking
  import opened Framing
  import opened Reception
  import Utf8

  // ----- A header's octets -----

  predicate Set(b: byte, mask: byte) { b & mask != 0 }

  /** How many octets the header has. */
  function HeaderLen(input: seq<byte>): nat
    requires |input| >= 2
  {
    var code := input[1] & 0x7f;
    2 + (if code == 126 then 2 else if code == 127 then 8 else 0) + if Set(input[1], 0x80) then 4 else 0
  }

  predicate HasHeader(input: seq<byte>) { |input| >= 2 && |input| >= HeaderLen(input) }

  /** Two and four octets as a number. */
  function Two(s: seq<byte>, i: nat): nat
    requires i + 2 <= |s|
  {
    256 * (s[i] as nat) + s[i + 1] as nat
  }

  function Four(s: seq<byte>, i: nat): nat
    requires i + 4 <= |s|
  {
    65536 * Two(s, i) + Two(s, i + 2)
  }

  /** The payload's length. */
  function LengthOf(input: seq<byte>): nat
    requires HasHeader(input)
  {
    var code := input[1] & 0x7f;
    if code == 126 then Two(input, 2)
    else if code == 127 then 0x1_0000_0000 * Four(input, 2) + Four(input, 6)
    else code as nat
  }

  /** A length that a shorter form could hold, or that has its top bit set. */
  predicate BadLengthField(input: seq<byte>)
    requires HasHeader(input)
  {
    var code := input[1] & 0x7f;
    || (code == 126 && LengthOf(input) < 126)
    || (code == 127 && (LengthOf(input) < 65536 || Set(input[2], 0x80)))
  }

  /** What no header may be, for this role and in this place. */
  predicate Refused(s: Rx, input: seq<byte>)
    requires HasHeader(input)
  {
    var nibble := input[0] & 0x0f;
    || Set(input[1], 0x80) != (s.role == Server)
    || Set(input[0], 0x20) || Set(input[0], 0x10)
    || 3 <= nibble <= 7 || 11 <= nibble <= 15
    || (8 <= nibble <= 10 && (!Set(input[0], 0x80) || Set(input[0], 0x40) || LengthOf(input) > 125))
    || (nibble == 0 && (Set(input[0], 0x40) || s.message.None?))
    || ((nibble == 1 || nibble == 2) && (s.message.Some? || (Set(input[0], 0x40) && !s.compression)))
    || BadLengthField(input)
  }

  // ----- The parser reads them so -----

  lemma CodeIs(b: byte)
    ensures LengthCode(b) == (b & 0x7f) as nat
    ensures LengthCode(b) == 126 <==> b & 0x7f == 126
    ensures LengthCode(b) == 127 <==> b & 0x7f == 127
  {
    var c := b & 0x7f;
    assert c <= 127;
  }

  lemma TwoIs(s: seq<byte>, i: nat)
    requires i + 2 <= |s|
    ensures BigEndian(s[i..i + 2]) == Two(s, i)
  {
    var t := s[i..i + 2];
    assert t[..1] == [s[i]] && [s[i]][..0] == [];
    assert BigEndian([s[i]]) == Value(s[i]);
  }

  lemma {:induction false} BigEndianJoins(a: seq<byte>, b: seq<byte>)
    ensures BigEndian(a + b) == BigEndian(a) * Pow256(|b|) + BigEndian(b)
    decreases |b|
  {
    hide Value;
    if b == [] {
      assert a + b == a;
    } else {
      var c, last := b[..|b| - 1], b[|b| - 1];
      BigEndianJoins(a, c);
      assert (a + b)[..|a + b| - 1] == a + c;
      Distribute(BigEndian(a), Pow256(|c|), BigEndian(c));
    }
  }

  lemma Distribute(x: nat, p: nat, y: nat)
    ensures (x * p + y) * 256 == x * (256 * p) + y * 256
  {
  }

  lemma FourIs(s: seq<byte>, i: nat)
    requires i + 4 <= |s|
    ensures BigEndian(s[i..i + 4]) == Four(s, i)
  {
    hide BigEndian, Two;
    assert s[i..i + 4] == s[i..i + 2] + s[i + 2..i + 4];
    BigEndianJoins(s[i..i + 2], s[i + 2..i + 4]);
    assert Pow256(2) == 65536;
    TwoIs(s, i);
    TwoIs(s, i + 2);
  }

  lemma EightIs(s: seq<byte>)
    requires |s| >= 10
    ensures BigEndian(s[2..10]) == 0x1_0000_0000 * Four(s, 2) + Four(s, 6)
  {
    hide BigEndian, Four;
    assert s[2..10] == s[2..6] + s[6..10];
    BigEndianJoins(s[2..6], s[6..10]);
    assert Pow256(2) == 65536 && Pow256(4) == 65536 * Pow256(2);
    FourIs(s, 2);
    FourIs(s, 6);
  }

  /** A number of eight octets is below 2^63 exactly when its top bit is clear. */
  lemma TopBit(s: seq<byte>)
    requires |s| >= 10
    ensures 0x1_0000_0000 * Four(s, 2) + Four(s, 6) < MAX_LENGTH <==> !Set(s[2], 0x80)
  {
    TopBitOf(s[2]);
    Bounds(s, 2);
    Bounds(s, 4);
    Bounds(s, 6);
    Bounds(s, 8);
  }

  lemma TopBitOf(b: byte)
    ensures Set(b, 0x80) <==> b as nat >= 128
  {
    assert Set(b, 0x80) <==> b >= 128;
  }

  lemma Bounds(s: seq<byte>, i: nat)
    requires i + 2 <= |s|
    ensures 256 * (s[i] as nat) <= Two(s, i) < 256 * (s[i] as nat) + 256 && Two(s, i) < 65536
  {
  }

  lemma LengthIs(input: seq<byte>)
    requires HasHeader(input)
    ensures HeaderSize(input[1]) == HeaderLen(input)
    ensures PayloadLen(input[..HeaderLen(input)]) == LengthOf(input)
    ensures GoodLength(LengthCode(input[1]), LengthOf(input)) <==> !BadLengthField(input)
  {
    hide BigEndian, Two, Four, LengthCode;
    CodeIs(input[1]);
    var raw := input[..HeaderLen(input)];
    assert raw[1] == input[1];
    if input[1] & 0x7f == 126 {
      assert raw[2..4] == input[2..4];
      TwoIs(input, 2);
    } else if input[1] & 0x7f == 127 {
      assert raw[2..10] == input[2..10];
      EightIs(input);
      TopBit(input);
    }
  }

  /** The parser takes a header apart as its octets say. */
  lemma HeaderIs(input: seq<byte>)
    requires HasHeader(input)
    ensures BadLengthField(input) ==> ParseHeader(input) == BadLength
    ensures
      var n := HeaderLen(input);
      !BadLengthField(input) ==>
        ParseHeader(input) ==
        Complete(Head(Set(input[0], 0x80), Set(input[0], 0x40), Set(input[0], 0x20), Set(input[0], 0x10),
                      OpcodeOf(input[0] & 0x0f), if Set(input[1], 0x80) then Some(input[n - 4..n]) else None,
                      LengthOf(input)), n)
  {
    hide PayloadLen, LengthOf, BadLengthField, LengthCode, OpcodeOf;
    LengthIs(input);
    var n := HeaderLen(input);
    var raw := input[..n];
    assert raw[0] == input[0] && raw[1] == input[1];
    if Set(input[1], 0x80) {
      assert raw[|raw| - 4..] == input[n - 4..n];
    }
  }

  // ----- Next -----

  /** Between frames. */
  predicate Between(s: Rx) { s.Valid() && !s.Over() && s.remaining == 0 && !s.controlOpen }

  lemma AcceptsIs(s: Rx, h: Head, b0: byte)
    requires h.op == OpcodeOf(b0 & 0x0f)
    ensures
      var nibble := b0 & 0x0f;
      Accepts(s, h) <==>
        !(|| h.Masked() != (s.role == Server) || h.rsv2 || h.rsv3
          || 3 <= nibble <= 7 || 11 <= nibble <= 15
          || (8 <= nibble <= 10 && (!h.fin || h.rsv1 || h.length > 125))
          || (nibble == 0 && (h.rsv1 || s.message.None?))
          || ((nibble == 1 || nibble == 2) && (s.message.Some? || (h.rsv1 && !s.compression))))
  {
    var nibble := b0 & 0x0f;
    assert nibble <= 15;
  }

  /** Every header that is refused, and no other, ends the connection with 1002. */
  lemma RefusedExactly(s: Rx, input: seq<byte>)
    requires Between(s) && HasHeader(input)
    ensures Refused(s, input) ==>
      Next(s, input).kind == NeedInput && Next(s, input).err == Failed(1002) && Next(s, input).next.failed == Some(1002)
    ensures !Refused(s, input) ==>
      ParseHeader(input).Complete? && Accepts(s, ParseHeader(input).head) && ParseHeader(input).size == HeaderLen(input)
  {
    hide LengthOf, BadLengthField, OpcodeOf, ParseHeader, Accepts, Gather, Finish, Opened, Delivered;
    HeaderIs(input);
    if !BadLengthField(input) {
      AcceptsIs(s, ParseHeader(input).head, input[0]);
    }
  }

  /** The frame is all there. */
  predicate HasFrame(input: seq<byte>) { HasHeader(input) && |input| >= HeaderLen(input) + LengthOf(input) }

  /** Its payload, unmasked. */
  function PayloadOf(input: seq<byte>): seq<byte>
    requires HasFrame(input)
  {
    var n := HeaderLen(input);
    var body := input[n..n + LengthOf(input)];
    if Set(input[1], 0x80) then Masked(body, input[n - 4..n], 0) else body
  }

  /** The opcode of a nibble that is not refused. */
  lemma OpcodeIs(nibble: byte)
    ensures nibble == 0 <==> OpcodeOf(nibble) == Continuation
    ensures nibble == 1 <==> OpcodeOf(nibble) == Text
    ensures nibble == 2 <==> OpcodeOf(nibble) == Binary
    ensures nibble == 8 <==> OpcodeOf(nibble) == Close
    ensures nibble == 9 <==> OpcodeOf(nibble) == Ping
    ensures nibble == 10 <==> OpcodeOf(nibble) == Pong
  {
  }

  /** A data frame that is not refused is open, as its octets say. */
  lemma DataOpens(s: Rx, input: seq<byte>)
    requires Between(s) && HasHeader(input) && !Refused(s, input) && input[0] & 0x0f <= 2
    ensures
      var r, nibble, n := Next(s, input), input[0] & 0x0f, HeaderLen(input);
      var ended := Set(input[0], 0x80) && LengthOf(input) == 0;
      && r.kind == DataFrame && r.err == NoErr && r.used == n
      && r.next.remaining == LengthOf(input) && r.next.head.fin == Set(input[0], 0x80) && r.next.offset == 0
      && r.next.key == (if Set(input[1], 0x80) then Some(input[n - 4..n]) else None)
      && r.next.message == (if ended then None else if nibble == 0 then s.message
                            else if nibble == 1 then Some(Text) else Some(Binary))
      && r.next.compressed == (if nibble == 0 then s.compressed else Set(input[0], 0x40))
  {
    hide LengthOf, BadLengthField, OpcodeOf, ParseHeader, Accepts, Gather, Finish, Delivered;
    RefusedExactly(s, input);
    HeaderIs(input);
    OpcodeIs(input[0] & 0x0f);
  }

  // ----- Close payloads -----

  /** One octet, or a code that may not be sent: section 7.4 of RFC 6455 and what the registry has added. */
  predicate BadCode(payload: seq<byte>) {
    || |payload| == 1
    || (|payload| >= 2 &&
        var code := Two(payload, 0);
        code < 1000 || 1004 <= code <= 1006 || 1015 <= code <= 2999 || 5000 <= code)
  }

  predicate BadReason(payload: seq<byte>) { |payload| >= 2 && !Utf8.WellFormed(payload[2..]) }

  /** validateClose, exactly. */
  lemma CloseFaultExactly(payload: seq<byte>)
    requires |payload| <= 125
    ensures CloseFault(payload) == Some(1002) <==> BadCode(payload)
    ensures CloseFault(payload) == Some(1007) <==> !BadCode(payload) && BadReason(payload)
    ensures CloseFault(payload) == None <==> !BadCode(payload) && !BadReason(payload)
  {
    hide Utf8.WellFormed, BigEndian, Two;
    if |payload| >= 2 {
      TwoIs(payload, 0);
      assert payload[..2] == payload[0..2];
    }
  }

  // ----- Control frames -----

  /** How a control frame with payload `p` ends. */
  ghost predicate Delivers(r: NextResult, op: Opcode, p: seq<byte>) {
    && (op == Close && BadCode(p) ==> r.err == Failed(1002))
    && (op == Close && !BadCode(p) && BadReason(p) ==> r.err == Failed(1007))
    && (!(op == Close && (BadCode(p) || BadReason(p))) ==>
          r.kind == ControlFrame && r.err == NoErr && r.next.control == p && r.next.controlOp == op
          && r.next.closed == (op == Close))
  }

  lemma FinishDelivers(t: Rx, used: nat)
    requires t.failed.None? && !t.closed && |t.control| <= 125
    ensures Delivers(Finish(t, used), t.controlOp, t.control)
  {
    hide CloseFault, BadCode, BadReason;
    CloseFaultExactly(t.control);
  }

  lemma GatherDelivers(t: Rx, rest: seq<byte>)
    requires t.controlOpen && !t.Over() && t.control == [] && t.left <= |rest| && t.left <= 125
    ensures Delivers(Gather(t, rest), t.controlOp, Unmasked(t, rest[..t.left]))
  {
    hide Finish, Delivered, Delivers, Unmasked;
    var u := Gathered(t, rest[..t.left]);
    assert [] + Unmasked(t, rest[..t.left]) == Unmasked(t, rest[..t.left]);
    FinishDelivers(u, if Delivered(u).Over() then |rest| else t.left);
  }

  /** Opened, for a control frame. */
  lemma ControlOpened(s: Rx, h: Head)
    requires Between(s) && Accepts(s, h) && !h.op.IsData()
    ensures
      var t := Opened(s, h);
      && t.control == [] && t.controlOp == h.op && t.left == h.length <= 125 && t.controlOpen == (h.length > 0)
      && t.key == h.key && t.offset == 0 && !t.Over()
  {
  }

  /** A control frame that is not refused and all there is delivered whole, or is a close that fails. */
  lemma ControlDelivers(s: Rx, input: seq<byte>)
    requires Between(s) && HasFrame(input) && !Refused(s, input) && 8 <= input[0] & 0x0f
    ensures Delivers(Next(s, input), OpcodeOf(input[0] & 0x0f), PayloadOf(input))
    ensures |PayloadOf(input)| <= 125
  {
    hide LengthOf, BadLengthField, ParseHeader, Accepts, Delivers, Refused, Gather, Finish, Opened, Delivered, Masked;
    RefusedExactly(s, input);
    HeaderIs(input);
    OpcodeIs(input[0] & 0x0f);
    NibbleIs(s, input);
    var n, len := HeaderLen(input), LengthOf(input);
    var h := ParseHeader(input).head;
    ControlOpened(s, h);
    var t := Opened(s, h);
    assert input[n..][..len] == input[n..n + len];
    if len == 0 {
      EmptyPayload(input);
      FinishDelivers(t, if Delivered(t).Over() then |input| else n);
    } else {
      GatherDelivers(t, input[n..]);
      DeliversAnyway(Gather(t, input[n..]), n, h.op, PayloadOf(input));
    }
  }

  lemma EmptyPayload(input: seq<byte>)
    requires HasFrame(input) && LengthOf(input) == 0
    ensures PayloadOf(input) == []
  {
    hide LengthOf;
  }

  lemma DeliversAnyway(g: NextResult, n: nat, op: Opcode, p: seq<byte>)
    requires Delivers(g, op, p)
    ensures Delivers(g.(used := n + g.used), op, p)
  {
  }

  /** A control frame that is not all there is waited for. */
  lemma ControlWaits(s: Rx, input: seq<byte>)
    requires Between(s) && HasHeader(input) && !HasFrame(input) && !Refused(s, input) && 8 <= input[0] & 0x0f
    ensures Next(s, input).kind == NeedInput && Next(s, input).err == NoErr
  {
    hide LengthOf, BadLengthField, ParseHeader, Accepts, CloseFault;
    RefusedExactly(s, input);
    HeaderIs(input);
    OpcodeIs(input[0] & 0x0f);
  }

  /**
   * Next between frames, with a whole header: it fails with 1002 exactly for a
   * header that is refused and for a close with a bad code, with 1007 exactly
   * for a close whose reason is not UTF-8, and otherwise not at all.
   */
  lemma FailsExactly(s: Rx, input: seq<byte>)
    requires Between(s) && HasHeader(input)
    ensures
      var r, close := Next(s, input), !Refused(s, input) && input[0] & 0x0f == 8 && HasFrame(input);
      && (r.err == Failed(1002) <==> Refused(s, input) || (close && BadCode(PayloadOf(input))))
      && (r.err == Failed(1007) <==> close && !BadCode(PayloadOf(input)) && BadReason(PayloadOf(input)))
      && (r.err.Failed? ==> r.err.code == 1002 || r.err.code == 1007)
  {
    hide Next, Refused, LengthOf, BadCode, BadReason, PayloadOf, HeaderLen;
    RefusedExactly(s, input);
    if !Refused(s, input) {
      NibbleIs(s, input);
      if input[0] & 0x0f <= 2 {
        DataOpens(s, input);
      } else if HasFrame(input) {
        ControlDelivers(s, input);
        OpcodeIs(input[0] & 0x0f);
      } else {
        ControlWaits(s, input);
      }
    }
  }

  lemma NibbleIs(s: Rx, input: seq<byte>)
    requires HasHeader(input) && !Refused(s, input)
    ensures input[0] & 0x0f <= 2 || 8 <= input[0] & 0x0f <= 10
  {
    hide LengthOf, BadLengthField;
    var nibble := input[0] & 0x0f;
    assert nibble <= 15;
  }

  /** A header that is not all there is waited for. */
  lemma HeaderWaits(s: Rx, input: seq<byte>)
    requires Between(s) && !HasHeader(input)
    ensures Next(s, input).kind == NeedInput && Next(s, input).err == NoErr && Next(s, input).next == s
  {
    hide LengthCode;
    if |input| >= 2 {
      CodeIs(input[1]);
    }
  }

  // ----- Encoding -----

  lemma EncodedHasHeader(fin: bool, rsv1: bool, op: Opcode, n: nat, key: Option<Key>)
    ensures var raw := EncodeHeader(fin, rsv1, op, n, key); HasHeader(raw) && HeaderLen(raw) == |raw|
  {
    hide EncodeHeader, LengthCode;
    EncodedSize(fin, rsv1, op, n, key);
    CodeIs(EncodeHeader(fin, rsv1, op, n, key)[1]);
  }

  lemma KeyedIsLonger(fin: bool, rsv1: bool, op: Opcode, n: nat, key: Option<Key>)
    requires key.Some?
    ensures |EncodeHeader(fin, rsv1, op, n, key)| >= 6
  {
    hide FirstByte, SecondByte, LengthField;
  }

  /** What a header says, read off its octets. */
  predicate Says(raw: seq<byte>, h: Head)
    requires HasHeader(raw)
  {
    && LengthOf(raw) == h.length && !BadLengthField(raw) && OpcodeOf(raw[0] & 0x0f) == h.op
    && Set(raw[0], 0x80) == h.fin && Set(raw[0], 0x40) == h.rsv1
    && Set(raw[0], 0x20) == h.rsv2 && Set(raw[0], 0x10) == h.rsv3
    && h.key == if Set(raw[1], 0x80) then Some(raw[HeaderLen(raw) - 4..HeaderLen(raw)]) else None
  }

  lemma ParsedSays(raw: seq<byte>, h: Head, n: nat)
    requires HasHeader(raw) && ParseHeader(raw) == Complete(h, n)
    ensures Says(raw, h)
  {
    hide LengthOf, BadLengthField, ParseHeader, OpcodeOf, Set, HeaderLen;
    HeaderIs(raw);
  }

  /** The octets of an encoded header. */
  lemma EncodedOctets(fin: bool, rsv1: bool, op: Opcode, n: nat, key: Option<Key>)
    requires !op.Reserved? && n < MAX_LENGTH
    ensures
      var raw := EncodeHeader(fin, rsv1, op, n, key);
      && HasHeader(raw) && HeaderLen(raw) == |raw| && LengthOf(raw) == n && !BadLengthField(raw)
      && raw[0] & 0x0f == (match op case Continuation => 0 case Text => 1 case Binary => 2
                           case Close => 8 case Ping => 9 case Pong => 10 case Reserved(_) => 15)
      && Set(raw[0], 0x80) == fin && Set(raw[0], 0x40) == rsv1 && !Set(raw[0], 0x20) && !Set(raw[0], 0x10)
      && Set(raw[1], 0x80) == key.Some? && (key.Some? ==> raw[|raw| - 4..] == key.value)
  {
    hide EncodeHeader, LengthOf, BadLengthField, ParseHeader, OpcodeOf, Set, HeaderLen;
    var raw := EncodeHeader(fin, rsv1, op, n, key);
    EncodedHasHeader(fin, rsv1, op, n, key);
    HeaderRoundTrip(fin, rsv1, op, n, key, []);
    assert raw + [] == raw;
    ParsedSays(raw, Head(fin, rsv1, false, false, op, key, n), |raw|);
    OpcodeIs(raw[0] & 0x0f);
    if key.Some? {
      KeyedIsLonger(fin, rsv1, op, n, key);
      assert raw[|raw| - 4..|raw|] == raw[|raw| - 4..];
    }
  }
}
