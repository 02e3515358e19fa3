/**
 * What the compression layer relies on from the DEFLATE codec. The codec is
 * foreign code, so it appears as two function values and the laws they obey.
 */
module Flate {
  import opened Bytes

  const SYNC_TAIL: seq<byte> := [0x00, 0x00, 0xff, 0xff]
  const FINAL_BLOCK: seq<byte> := [0x01, 0x00, 0x00, 0xff, 0xff]

  /** inflateTail: the stripped sync-flush tail, then an empty final block. */
  const INFLATE_TAIL: seq<byte> := SYNC_TAIL + FINAL_BLOCK

  /** Decoding one DEFLATE stream: its output and how much input it took, or what came out before the input went bad. */
  datatype Outcome = Done(out: seq<byte>, used: nat) | Bad(out: seq<byte>)

  /** `o` after `used` input bytes that gave `x`. */
  function After(x: seq<byte>, used: nat, o: Outcome): Outcome {
    match o
    case Done(out, n) => Done(x + out, used + n)
    case Bad(out) => Bad(x + out)
  }

  lemma AfterAfter(a: seq<byte>, m: nat, b: seq<byte>, n: nat, o: Outcome)
    ensures After(a, m, After(b, n, o)) == After(a + b, m + n, o)
  {
    assert a + (b + o.out) == (a + b) + o.out;
  }

  /** The decoder, as a total table from dictionary and input to outcome. */
  type Inflate = m: imap<(seq<byte>, seq<byte>), Outcome> | forall k :: k in m
    ghost witness imap k: (seq<byte>, seq<byte>) :: Bad([])

  /**
   * An encoder: how far back its matches reach, and the bytes it emits for
   * writing and flushing `x` after it was primed with a dictionary and wrote
   * and flushed some earlier pieces.
   */
  datatype Encoder = Encoder(reach: nat, emit: (seq<byte>, seq<seq<byte>>, seq<byte>) -> seq<byte>)

  /** `D` offers everything an encoder with history `h` can refer to. */
  predicate Covers(D: seq<byte>, h: seq<byte>, reach: nat) {
    IsSuffix(Last(h, reach), D)
  }

  ghost predicate DecodesAt(e: Encoder, inf: Inflate, dict: seq<byte>, ws: seq<seq<byte>>, x: seq<byte>, D: seq<byte>,
                            rest: seq<byte>) {
    Covers(D, dict + Flatten(ws), e.reach) ==>
      inf[(D, e.emit(dict, ws, x) + rest)] == After(x, |e.emit(dict, ws, x)|, inf[(D + x, rest)])
  }

  /**
   * The codec's laws: a piece decodes under every dictionary that covers the
   * encoder's history, and decoding goes on behind it; every piece ends in the
   * sync-flush tail; the final block ends a stream; a stream takes input.
   */
  ghost predicate Sound(e: Encoder, inf: Inflate) {
    && (forall dict, ws, x, D, rest :: DecodesAt(e, inf, dict, ws, x, D, rest))
    && (forall dict, ws, x :: IsSuffix(SYNC_TAIL, e.emit(dict, ws, x)))
    && Ends(inf)
  }

  ghost predicate Ends(inf: Inflate) {
    && (forall D :: inf[(D, FINAL_BLOCK)] == Done([], |FINAL_BLOCK|))
    && (forall D, input :: inf[(D, input)].Done? ==> 0 < inf[(D, input)].used <= |input|)
  }

  /** The pieces of one message, one after the other. */
  function Stream(e: Encoder, dict: seq<byte>, ws: seq<seq<byte>>, chunks: seq<seq<byte>>): seq<byte>
    decreases |chunks|
  {
    if chunks == [] then []
    else e.emit(dict, ws, chunks[0]) + Stream(e, dict, ws + [chunks[0]], chunks[1..])
  }

  lemma CoversExtends(D: seq<byte>, h: seq<byte>, x: seq<byte>, reach: nat)
    requires Covers(D, h, reach)
    ensures Covers(D + x, h + x, reach)
  {
    hide Last, IsSuffix;
    SuffixAppend(Last(h, reach), D, x);
    LastAppend(h, x, reach);
    LastIsSuffix(Last(h, reach) + x, reach);
    SuffixTrans(Last(h + x, reach), Last(h, reach) + x, D + x);
  }

  /** The pieces of one message decode as one stream. */
  lemma {:induction false} StreamDecodes(e: Encoder, inf: Inflate, dict: seq<byte>, ws: seq<seq<byte>>,
                                         chunks: seq<seq<byte>>, D: seq<byte>, rest: seq<byte>)
    requires Sound(e, inf) && Covers(D, dict + Flatten(ws), e.reach)
    ensures
      var s := Stream(e, dict, ws, chunks);
      inf[(D, s + rest)] == After(Flatten(chunks), |s|, inf[(D + Flatten(chunks), rest)])
    decreases |chunks|
  {
    hide Last, IsSuffix;
    var s := Stream(e, dict, ws, chunks);
    if chunks == [] {
      assert s + rest == rest && D + [] == D;
    } else {
      var x, ws', more := chunks[0], ws + [chunks[0]], chunks[1..];
      var tail := Stream(e, dict, ws', more);
      FlattenAppend(ws, [x]);
      FlattenOne(x);
      assert dict + Flatten(ws') == (dict + Flatten(ws)) + x;
      CoversExtends(D, dict + Flatten(ws), x, e.reach);
      StreamDecodes(e, inf, dict, ws', more, D + x, rest);
      assert DecodesAt(e, inf, dict, ws, x, D, tail + rest);
      assert s + rest == e.emit(dict, ws, x) + (tail + rest);
      AfterAfter(x, |e.emit(dict, ws, x)|, Flatten(more), |tail|, inf[((D + x) + Flatten(more), rest)]);
      assert (D + x) + Flatten(more) == D + Flatten(chunks);
    }
  }

  /** One piece more. */
  lemma {:induction false} StreamSnoc(e: Encoder, dict: seq<byte>, ws: seq<seq<byte>>, chunks: seq<seq<byte>>,
                                      x: seq<byte>)
    ensures Stream(e, dict, ws, chunks + [x]) == Stream(e, dict, ws, chunks) + e.emit(dict, ws + chunks, x)
    decreases |chunks|
  {
    if chunks == [] {
      assert chunks + [x] == [x] && [x][1..] == [] && ws + chunks == ws;
    } else {
      var ws' := ws + [chunks[0]];
      StreamSnoc(e, dict, ws', chunks[1..], x);
      assert (chunks + [x])[1..] == chunks[1..] + [x];
      assert ws' + chunks[1..] == ws + chunks;
      assert e.emit(dict, ws, chunks[0]) + (Stream(e, dict, ws', chunks[1..]) + e.emit(dict, ws + chunks, x))
          == Stream(e, dict, ws, chunks) + e.emit(dict, ws + chunks, x);
    }
  }

  lemma {:induction false} StreamEndsInSync(e: Encoder, inf: Inflate, dict: seq<byte>, ws: seq<seq<byte>>,
                                            chunks: seq<seq<byte>>)
    requires Sound(e, inf) && chunks != []
    ensures IsSuffix(SYNC_TAIL, Stream(e, dict, ws, chunks))
    decreases |chunks|
  {
    var x, more := chunks[0], chunks[1..];
    if more != [] {
      StreamEndsInSync(e, inf, dict, ws + [x], more);
    } else {
      assert Stream(e, dict, ws, chunks) == e.emit(dict, ws, x);
    }
  }

  /** A message's payload: its pieces with the last sync-flush tail dropped. */
  function Payload(e: Encoder, dict: seq<byte>, ws: seq<seq<byte>>, chunks: seq<seq<byte>>): seq<byte> {
    var s := Stream(e, dict, ws, chunks);
    if |s| >= 4 then s[..|s| - 4] else s
  }

  /** With the tail restored, a message inflates to exactly what was written, all input used. */
  lemma PayloadInflates(e: Encoder, inf: Inflate, dict: seq<byte>, ws: seq<seq<byte>>, chunks: seq<seq<byte>>,
                        D: seq<byte>)
    requires Sound(e, inf) && Covers(D, dict + Flatten(ws), e.reach) && chunks != []
    ensures
      var input := Payload(e, dict, ws, chunks) + INFLATE_TAIL;
      inf[(D, input)] == Done(Flatten(chunks), |input|)
  {
    var s := Stream(e, dict, ws, chunks);
    StreamEndsInSync(e, inf, dict, ws, chunks);
    assert s == s[..|s| - 4] + SYNC_TAIL;
    assert Payload(e, dict, ws, chunks) + INFLATE_TAIL == s + FINAL_BLOCK;
    StreamDecodes(e, inf, dict, ws, chunks, D, FINAL_BLOCK);
  }

  // ----- The laws can be met -----

  /** A byte as a literal; one of them has a shorter form. */
  function Literal(b: byte): seq<byte> { if b == 0x41 then [0x05] else [0x02, b] }

  /** A byte as a reference to the one before it, where it repeats that, or as a literal. */
  function Token(prev: Option<byte>, b: byte): seq<byte> { if prev == Some(b) then [0x06] else Literal(b) }

  function LastOf(h: seq<byte>): Option<byte> { if h == [] then None else Some(h[|h| - 1]) }

  /** What can be referred to behind `b`. */
  function Seen(reach: nat, b: byte): Option<byte> { if reach > 0 then Some(b) else None }

  /** Every byte as a token, then the flush mark. */
  function Tokens(reach: nat, prev: Option<byte>, x: seq<byte>): seq<byte>
    decreases |x|
  {
    if x == [] then [0x03] + SYNC_TAIL else Token(prev, x[0]) + Tokens(reach, Seen(reach, x[0]), x[1..])
  }

  function ReadTokens(prev: Option<byte>, input: seq<byte>): Outcome
    decreases |input|
  {
    if |input| >= 1 && input[0] == 0x05 then After([0x41], 1, ReadTokens(Some(0x41), input[1..]))
    else if |input| >= 1 && input[0] == 0x06 && prev.Some? then After([prev.value], 1, ReadTokens(prev, input[1..]))
    else if |input| >= 2 && input[0] == 0x02 then After([input[1]], 2, ReadTokens(Some(input[1]), input[2..]))
    else if [0x03] + SYNC_TAIL <= input then After([], 5, ReadTokens(prev, input[5..]))
    else if FINAL_BLOCK <= input then Done([], 5)
    else Bad([])
  }

  /** The decoder may know a byte to refer to where the encoder has none, but not another one. */
  lemma {:induction false} TokensRead(reach: nat, known: Option<byte>, prev: Option<byte>, x: seq<byte>,
                                      rest: seq<byte>)
    requires known.Some? ==> prev == known
    ensures
      var t := Tokens(reach, known, x);
      ReadTokens(prev, t + rest) == After(x, |t|, ReadTokens(if x == [] then prev else LastOf(x), rest))
    decreases |x|
  {
    hide Token, ReadTokens;
    if x == [] {
      FlushRead(prev, rest);
    } else {
      var b, more := x[0], x[1..];
      var t := Tokens(reach, Seen(reach, b), more);
      TokensRead(reach, Seen(reach, b), Some(b), more, rest);
      TokenRead(known, prev, b, t + rest);
      AfterAfter([b], |Token(known, b)|, more, |t|, ReadTokens(LastOf(x), rest));
      assert [b] + more == x;
      assert Tokens(reach, known, x) + rest == Token(known, b) + (t + rest);
    }
  }

  lemma TokenRead(known: Option<byte>, prev: Option<byte>, b: byte, rest: seq<byte>)
    requires known.Some? ==> prev == known
    ensures ReadTokens(prev, Token(known, b) + rest) == After([b], |Token(known, b)|, ReadTokens(Some(b), rest))
  {
    var input := Token(known, b) + rest;
    if known == Some(b) {
      assert input[0] == 0x06 && input[1..] == rest;
    } else if b == 0x41 {
      assert input[0] == 0x05 && input[1..] == rest;
    } else {
      assert input[0] == 0x02 && input[2..] == rest;
    }
  }

  lemma FlushRead(prev: Option<byte>, rest: seq<byte>)
    ensures ReadTokens(prev, [0x03] + SYNC_TAIL + rest) == After([], 5, ReadTokens(prev, rest))
  {
    var input := [0x03] + SYNC_TAIL + rest;
    assert input[0] == 0x03;
    assert input[..5] == [0x03] + SYNC_TAIL && input[5..] == rest;
  }

  lemma {:induction false} ReadTokensProgress(prev: Option<byte>, input: seq<byte>)
    ensures ReadTokens(prev, input).Done? ==> 0 < ReadTokens(prev, input).used <= |input|
    decreases |input|
  {
    if |input| >= 1 && input[0] == 0x05 {
      ReadTokensProgress(Some(0x41), input[1..]);
    } else if |input| >= 1 && input[0] == 0x06 && prev.Some? {
      ReadTokensProgress(prev, input[1..]);
    } else if |input| >= 2 && input[0] == 0x02 {
      ReadTokensProgress(Some(input[1]), input[2..]);
    } else if [0x03] + SYNC_TAIL <= input {
      ReadTokensProgress(prev, input[5..]);
    }
  }

  lemma {:induction false} TokensEndInSync(reach: nat, prev: Option<byte>, x: seq<byte>)
    ensures IsSuffix(SYNC_TAIL, Tokens(reach, prev, x))
    decreases |x|
  {
    if x != [] {
      TokensEndInSync(reach, Seen(reach, x[0]), x[1..]);
    }
  }

  /** What the encoder refers to at the start: the last byte of its history, if it reaches that far. */
  function Known(reach: nat, h: seq<byte>): Option<byte> { if reach > 0 then LastOf(h) else None }

  lemma CoveringKnows(D: seq<byte>, h: seq<byte>, reach: nat)
    requires Covers(D, h, reach)
    ensures Known(reach, h).Some? ==> LastOf(D) == Known(reach, h)
  {
    if reach > 0 && h != [] {
      var l := Last(h, reach);
      assert l[|l| - 1] == h[|h| - 1];
      assert D[|D| - |l|..][|l| - 1] == D[|D| - 1];
    }
  }

  /** A codec whose output depends on its history obeys the laws, so nothing rests on an empty assumption. */
  lemma BackReferenceCodec(reach: nat) returns (e: Encoder, inf: Inflate)
    ensures e.reach == reach && Sound(e, inf)
    ensures forall dict, ws, x :: e.emit(dict, ws, x) == Tokens(reach, Known(reach, dict + Flatten(ws)), x)
    ensures forall D, input :: inf[(D, input)] == ReadTokens(LastOf(D), input)
  {
    e := Encoder(reach, (dict, ws, x) => Tokens(reach, Known(reach, dict + Flatten(ws)), x));
    inf := imap k: (seq<byte>, seq<byte>) :: ReadTokens(LastOf(k.0), k.1);
    forall dict, ws, x, D, rest
      ensures DecodesAt(e, inf, dict, ws, x, D, rest)
    {
      var h := dict + Flatten(ws);
      if Covers(D, h, reach) {
        CoveringKnows(D, h, reach);
        TokensRead(reach, Known(reach, h), LastOf(D), x, rest);
        assert LastOf(D + x) == if x == [] then LastOf(D) else LastOf(x) by {
          if x == [] {
            assert D + x == D;
          }
        }
      }
    }
    forall dict, ws, x
      ensures IsSuffix(SYNC_TAIL, e.emit(dict, ws, x))
    {
      TokensEndInSync(reach, Known(reach, dict + Flatten(ws)), x);
    }
    forall D, input
      ensures inf[(D, input)].Done? ==> 0 < inf[(D, input)].used <= |input|
    {
      ReadTokensProgress(LastOf(D), input);
    }
  }

  /** The same byte written behind itself and written first come out differently. */
  lemma HistoryShows(reach: nat, b: byte)
    requires reach > 0
    ensures Tokens(reach, Known(reach, [b]), [b]) != Tokens(reach, Known(reach, []), [b])
  {
    assert Tokens(reach, Known(reach, [b]), [b])[0] == 0x06;
  }

  function Repeated(b: byte, k: nat): (s: seq<byte>)
    ensures |s| == k
  {
    if k == 0 then [] else [b] + Repeated(b, k - 1)
  }

  /** In the short form one byte of input is one byte of output, so a cut can fall behind any of them. */
  lemma {:induction false} ShortTokens(k: nat)
    ensures Tokens(0, None, Repeated(0x41, k)) == Repeated(0x05, k) + [0x03] + SYNC_TAIL
  {
    if k > 0 {
      ShortTokens(k - 1);
      assert Repeated(0x41, k)[1..] == Repeated(0x41, k - 1);
      assert [0x05] + (Repeated(0x05, k - 1) + [0x03] + SYNC_TAIL) == Repeated(0x05, k) + [0x03] + SYNC_TAIL;
    }
  }
}
