/** WriteFrom of ws/conn_write.go: a reader's content sent as one message, in frames of bounded size. */
module WriteFrom {
  import opened Bytes
  import opened Masking
  import opened Framing
  import opened Wire
  import opened Writers
  import S = Sending

  // ----- The reader -----

  /** How a reader ends: io.EOF, an io.ErrUnexpectedEOF of its own, or another error. */
  datatype Ending = Eof | UnexpectedEof | OtherError

  /** An io.Reader: `script` says how it splits its data and whether it reports the end with the last of it. */
  class Source {
    var rest: seq<byte>
    var script: seq<(nat, bool)>
    const ending: Ending

    constructor (content: seq<byte>, script: seq<(nat, bool)>, ending: Ending)
      ensures rest == content && this.ending == ending
    {
      rest, this.script, this.ending := content, script, ending;
    }

    /** The content stops short without saying so to ReadFull's callers. */
    predicate Truncated() { ending == UnexpectedEof }

    method Read(buf: array<byte>, lo: nat) returns (n: nat, end: Option<Ending>)
      requires lo < buf.Length
      modifies this, buf
      ensures lo + n <= buf.Length && n <= |old(rest)| && rest == old(rest)[n..]
      ensures buf[..lo] == old(buf[..lo]) && buf[lo..lo + n] == old(rest)[..n]
      ensures end.Some? ==> rest == [] && end.value == ending
      ensures end.None? ==> n > 0 || |script| < |old(script)|
      ensures |script| <= |old(script)|
    {
      n := buf.Length - lo;
      var early := true;
      if script != [] {
        early := script[0].1;
        if script[0].0 < n {
          n := script[0].0;
        }
        script := script[1..];
      }
      if |rest| < n {
        n := |rest|;
      }
      forall i | lo <= i < lo + n {
        buf[i] := rest[i - lo];
      }
      assert buf[lo..lo + n] == rest[..n];
      end := None;
      if n == |rest| && early {
        end := Some(ending);
      }
      rest := rest[n..];
    }
  }

  /** ReadFull's error: none, io.ErrUnexpectedEOF, io.EOF, or another one of the reader's. */
  datatype Filled = Full | Short | Empty | Failed

  /** io.ReadFull: only an EOF after some data becomes io.ErrUnexpectedEOF, every other error passes through. */
  method ReadFull(r: Source, buf: array<byte>) returns (n: nat, how: Filled)
    requires buf.Length > 0
    modifies r, buf
    ensures n == (if |old(r.rest)| < buf.Length then |old(r.rest)| else buf.Length)
    ensures buf[..n] == old(r.rest)[..n] && r.rest == old(r.rest)[n..]
    ensures how == if n == buf.Length then Full
                   else match r.ending
                        case Eof => if n == 0 then Empty else Short
                        case UnexpectedEof => Short
                        case OtherError => Failed
  {
    n := 0;
    var end: Option<Ending> := None;
    while n < buf.Length && end.None?
      invariant n <= buf.Length && n <= |old(r.rest)|
      invariant buf[..n] == old(r.rest)[..n] && r.rest == old(r.rest)[n..]
      invariant end.Some? ==> r.rest == [] && end.value == r.ending
      decreases end.None?, buf.Length - n, |r.script|
    {
      var k;
      k, end := r.Read(buf, n);
      assert buf[..n + k] == buf[..n] + buf[n..n + k];
      n := n + k;
    }
    if n == buf.Length {
      return n, Full;
    }
    match end.value
    case Eof => how := if n == 0 then Empty else Short;
    case UnexpectedEof => how := Short;
    case OtherError => how := Failed;
  }

  // ----- The plan -----

  datatype Planned =
    | PlanWrite(op: Opcode, payload: seq<byte>)
    | PlanBegin(op: Opcode)
    | PlanFragment(payload: seq<byte>, final: bool)

  /**
   * A truncated reader is noticed only by reading on, so content that fills its last chunk ends in
   * an empty fragment.
   */
  function Fragments(c: seq<byte>, size: nat, truncated: bool): (r: seq<Planned>)
    requires size > 0
    ensures |r| > 0
    decreases |c|
  {
    if |c| < size || (|c| == size && !truncated) then [PlanFragment(c, true)]
    else [PlanFragment(c[..size], false)] + Fragments(c[size..], size, truncated)
  }

  function Plan(op: Opcode, c: seq<byte>, size: nat, truncated: bool): seq<Planned>
    requires size > 0
  {
    if |c| < size then [PlanWrite(op, c)] else [PlanBegin(op)] + Fragments(c, size, truncated)
  }

  /** Every chunk but the last is full, only the last is final, and it is empty only behind a truncated reader. */
  lemma {:induction false} FragmentsExactly(c: seq<byte>, size: nat, truncated: bool)
    requires size > 0
    ensures
      var r := Fragments(c, size, truncated);
      && (forall i :: 0 <= i < |r| - 1 ==> r[i].PlanFragment? && |r[i].payload| == size && !r[i].final)
      && r[|r| - 1].PlanFragment? && r[|r| - 1].final && |r[|r| - 1].payload| <= size
      && (r[|r| - 1].payload == [] ==> c == [] || truncated)
    decreases |c|
  {
    if !(|c| < size || (|c| == size && !truncated)) {
      FragmentsExactly(c[size..], size, truncated);
    }
  }

  /** Content shorter than a chunk is one Write; anything else is a message of fragments. */
  lemma PlanExactly(op: Opcode, c: seq<byte>, size: nat, truncated: bool)
    requires size > 0
    ensures
      var r := Plan(op, c, size, truncated);
      if |c| < size then r == [PlanWrite(op, c)]
      else |r| > 1 && r[0] == PlanBegin(op) && forall i :: 1 <= i < |r| ==>
        r[i].PlanFragment? && r[i].final == (i == |r| - 1) && (i < |r| - 1 ==> |r[i].payload| == size)
  {
    FragmentsExactly(c, size, truncated);
  }

  predicate Fulfils(c: S.Call, p: Planned) {
    match p
    case PlanWrite(op, payload) => c.Write? && c.op == op && c.payload == payload
    case PlanBegin(op) => c == S.BeginMessage(op)
    case PlanFragment(payload, final) => c.Fragment? && c.payload == payload && c.final == final
  }

  /** The calls follow the plan as far as they go. */
  predicate Follows(calls: seq<S.Call>, plan: seq<Planned>) {
    |calls| <= |plan| && forall i :: 0 <= i < |calls| ==> Fulfils(calls[i], plan[i])
  }

  // ----- The method -----

  datatype FromErr = WriteFailed(e: S.WriteErr) | ReadFailed

  /** The keys drawn and the compressor's output: whatever they are. */
  class Surroundings {
    var keys: seq<Key>
    var codes: seq<seq<byte>>

    constructor (keys: seq<Key>, codes: seq<seq<byte>>)
      ensures this.keys == keys && this.codes == codes
    {
      this.keys, this.codes := keys, codes;
    }

    method Draw() returns (key: Key, coded: array<byte>)
      modifies this
      ensures fresh(coded) && coded.Length < MAX_LENGTH
    {
      key := if keys == [] then [0, 0, 0, 0] else keys[0];
      keys := if keys == [] then [] else keys[1..];
      var code := if codes == [] || |codes[0]| >= MAX_LENGTH then [] else codes[0];
      coded := new byte[|code|](i requires 0 <= i < |code| => code[i]);
      codes := if codes == [] then [] else codes[1..];
    }
  }

  /** writeFragment. */
  method Piece(w: Writer, buf: array<byte>, n: nat, final: bool, env: Surroundings)
    returns (err: Option<S.WriteErr>, ghost c: S.Call)
    requires w.Valid() && n <= buf.Length && n < MAX_LENGTH && buf != w.tx.enc.scratch
    modifies w, w.tx, w.tx.enc, w.tx.enc.scratch, env
    ensures w.Valid() && (w.tx.enc.scratch == old(w.tx.enc.scratch) || fresh(w.tx.enc.scratch))
    ensures w.log == old(w.log) + [c] && Fulfils(c, PlanFragment(old(buf[..n]), final))
    ensures err == S.Act(w.cfg, old(w.Tx()), c).err && w.Tx() == S.Act(w.cfg, old(w.Tx()), c).tx
  {
    var key, coded := env.Draw();
    c := S.Fragment(buf[..n], coded[..coded.Length], final, key);
    ghost var before := w.log;
    err := w.Fragment(buf, n, coded, coded.Length, final, key, 0);
    S.FramesSnoc(w.cfg, S.IDLE, before, c);
  }

  lemma FollowsOne(calls: seq<S.Call>, plan: seq<Planned>, c: S.Call, p: Planned)
    requires Follows(calls, plan) && |calls| == |plan| && Fulfils(c, p)
    ensures Follows(calls + [c], plan + [p]) && |calls + [c]| == |plan + [p]|
  {
  }

  lemma FollowsMore(calls: seq<S.Call>, plan: seq<Planned>, more: seq<Planned>)
    requires Follows(calls, plan)
    ensures Follows(calls, plan + more)
  {
  }

  /** A connection on which a message can start. */
  ghost predicate Ready(tx: S.Tx) { !tx.closeSent && tx.frag.None? }

  /** A connection in the middle of a message. */
  ghost predicate Midway(tx: S.Tx) { !tx.closeSent && tx.frag.Some? && S.Starts(tx.frag.value.op) }

  lemma FragmentSucceeds(cfg: S.Config, tx: S.Tx, c: S.Call)
    requires Midway(tx) && c.Fragment?
    ensures S.Act(cfg, tx, c).err.None?
    ensures if c.final then Ready(S.Act(cfg, tx, c).tx) else Midway(S.Act(cfg, tx, c).tx)
  {
  }

  lemma FragmentsUnfold(c: seq<byte>, rest: seq<byte>, size: nat, truncated: bool)
    requires size > 0 && |c| == size
    ensures Fragments(c + rest, size, truncated) ==
      if rest == [] && !truncated then [PlanFragment(c, true)]
      else [PlanFragment(c, false)] + Fragments(rest, size, truncated)
  {
    assert (c + rest)[..size] == c && (c + rest)[size..] == rest;
    if rest == [] {
      assert c + rest == c;
    }
  }

  /** What one round of the loop leaves: the rest of the plan, or nothing. */
  ghost predicate Rounded(c: seq<byte>, left: seq<byte>, size: nat, truncated: bool, calls: seq<S.Call>, over: bool)
    requires size > 0
  {
    if over then Follows(calls, Fragments(c, size, truncated)) && |calls| == |Fragments(c, size, truncated)|
    else |calls| == 1 && |c| > size && Fulfils(calls[0], PlanFragment(c[..size], false)) && left == c[size..]
  }

  lemma LastPieces(c: seq<byte>, rest: seq<byte>, size: nat, truncated: bool, calls: seq<S.Call>)
    requires size > 0 && |c| == size && |rest| < size && |calls| == if rest == [] && !truncated then 1 else 2
    requires Fulfils(calls[0], PlanFragment(c, rest == [] && !truncated))
    requires rest != [] || truncated ==> Fulfils(calls[1], PlanFragment(rest, true))
    ensures Rounded(c + rest, [], size, truncated, calls, true)
  {
    FragmentsUnfold(c, rest, size, truncated);
  }

  /** One round: look a chunk ahead, send the one in hand, and the short last one. */
  method Round(w: Writer, r: Source, cur: array<byte>, next: array<byte>, env: Surroundings)
    returns (sent: nat, over: bool, err: Option<FromErr>, ghost calls: seq<S.Call>)
    requires w.Valid() && cur != next && cur.Length == next.Length == w.fragmentSize
    requires cur != w.tx.enc.scratch && next != w.tx.enc.scratch && Midway(w.Tx())
    modifies w, w.tx, w.tx.enc, w.tx.enc.scratch, env, r, next
    ensures w.Valid() && w.log == old(w.log) + calls
    ensures w.tx.enc.scratch == old(w.tx.enc.scratch) || fresh(w.tx.enc.scratch)
    ensures err.Some? ==>
      err == Some(ReadFailed) && r.ending == OtherError && calls == [] && sent == 0 && Midway(w.Tx())
    ensures err.None? ==> Rounded(old(cur[..] + r.rest), next[..] + r.rest, w.fragmentSize, r.Truncated(), calls, over)
    ensures err.None? && over ==> r.ending != OtherError && sent == |old(cur[..] + r.rest)| && r.rest == []
    ensures err.None? && !over ==> sent == w.fragmentSize && Midway(w.Tx()) && |r.rest| < |old(r.rest)|
  {
    hide Accounts, S.Act, Follows, Fragments;
    var size := w.fragmentSize;
    ghost var rest := r.rest;
    var m, how := ReadFull(r, next);
    if how == Failed {
      return 0, true, Some(ReadFailed), [];
    }
    assert cur[..size] == cur[..];
    var e;
    ghost var c, d;
    e, c := Piece(w, cur, size, how == Empty, env);
    FragmentSucceeds(w.cfg, old(w.Tx()), c);
    calls := [c];
    if how == Empty {
      LastPieces(cur[..], rest, size, false, calls);
      return size, true, None, calls;
    }
    if how == Short {
      assert next[..m] == rest;
      e, d := Piece(w, next, m, true, env);
      LastPieces(cur[..], rest, size, r.Truncated(), [c, d]);
      return size + m, true, None, [c, d];
    }
    assert next[..size] == next[..];
    return size, false, None, calls;
  }

  /** How far the calls have come: `plan` is fulfilled and `left` is still to send. */
  ghost predicate Progress(calls: seq<S.Call>, plan: seq<Planned>, left: seq<byte>, content: seq<byte>, size: nat,
                           truncated: bool)
    requires size > 0
  {
    && |calls| == |plan| && Follows(calls, plan)
    && plan + Fragments(left, size, truncated) == Fragments(content, size, truncated)
  }

  lemma ProgressRound(calls: seq<S.Call>, plan: seq<Planned>, left: seq<byte>, content: seq<byte>, size: nat,
                      truncated: bool, more: seq<S.Call>, left': seq<byte>)
    requires size > 0 && Progress(calls, plan, left, content, size, truncated)
      && Rounded(left, left', size, truncated, more, false)
    ensures Progress(calls + more, plan + [PlanFragment(left[..size], false)], left', content, size, truncated)
    ensures |left'| == |left| - size
  {
    var p := PlanFragment(left[..size], false);
    FollowsOne(calls, plan, more[0], p);
    assert more == [more[0]];
    FragmentsUnfold(left[..size], left', size, truncated);
    assert left == left[..size] + left';
    assert plan + [p] + Fragments(left', size, truncated) == plan + ([p] + Fragments(left', size, truncated));
  }

  lemma ProgressEnds(calls: seq<S.Call>, plan: seq<Planned>, left: seq<byte>, content: seq<byte>, size: nat,
                     truncated: bool, more: seq<S.Call>)
    requires size > 0 && Progress(calls, plan, left, content, size, truncated)
      && Rounded(left, [], size, truncated, more, true)
    ensures Follows(calls + more, Fragments(content, size, truncated))
      && |calls + more| == |Fragments(content, size, truncated)|
  {
  }

  lemma ProgressFollows(calls: seq<S.Call>, plan: seq<Planned>, left: seq<byte>, content: seq<byte>, size: nat,
                        truncated: bool)
    requires size > 0 && Progress(calls, plan, left, content, size, truncated)
    ensures Follows(calls, Fragments(content, size, truncated))
  {
    FollowsMore(calls, plan, Fragments(left, size, truncated));
  }

  /** The loop, with a full chunk in hand. */
  method SendPieces(w: Writer, r: Source, first: array<byte>, second: array<byte>, env: Surroundings)
    returns (total: nat, err: Option<FromErr>, ghost calls: seq<S.Call>)
    requires w.Valid() && first != second && first.Length == second.Length == w.fragmentSize
    requires first != w.tx.enc.scratch && second != w.tx.enc.scratch && Midway(w.Tx())
    modifies w, w.tx, w.tx.enc, w.tx.enc.scratch, env, r, first, second
    ensures w.Valid() && w.log == old(w.log) + calls
    ensures Follows(calls, Fragments(old(first[..] + r.rest), w.fragmentSize, r.Truncated()))
    ensures err.None? <==> r.ending != OtherError
    ensures err.Some? ==> err == Some(ReadFailed) && Midway(w.Tx())
    ensures err.None? ==>
      && total == |old(first[..] + r.rest)| && r.rest == []
      && |calls| == |Fragments(old(first[..] + r.rest), w.fragmentSize, r.Truncated())|
  {
    hide Accounts, S.Act, Follows, Fragments, Rounded, Progress;
    var size := w.fragmentSize;
    ghost var truncated := r.Truncated();
    ghost var content := first[..] + r.rest;
    assert size > 0;
    hide Writer.Valid;
    var cur, next := first, second;
    total, calls := 0, [];
    ghost var plan: seq<Planned> := [];
    assert Progress(calls, plan, cur[..] + r.rest, content, size, truncated) by {
      ProgressStarts(content, size, truncated);
    }
    while true
      invariant w.Valid() && w.log == old(w.log) + calls
      invariant w.tx.enc.scratch == old(w.tx.enc.scratch) || fresh(w.tx.enc.scratch)
      invariant (cur, next) == (first, second) || (cur, next) == (second, first)
      invariant cur != w.tx.enc.scratch && next != w.tx.enc.scratch && Midway(w.Tx())
      invariant Progress(calls, plan, cur[..] + r.rest, content, size, truncated)
      invariant total + |cur[..] + r.rest| == |content|
      decreases |r.rest|
    {
      ghost var left := cur[..] + r.rest;
      var sent, over;
      ghost var more;
      sent, over, err, more := Round(w, r, cur, next, env);
      if err.Some? {
        ProgressFollows(calls, plan, left, content, size, truncated);
        assert calls + more == calls;
        return;
      }
      if over {
        assert Rounded(left, [], size, truncated, more, true) by {
          RoundedOver(left, next[..] + r.rest, size, truncated, more);
        }
        ProgressEnds(calls, plan, left, content, size, truncated, more);
        total, calls := total + sent, calls + more;
        return;
      }
      ProgressRound(calls, plan, left, content, size, truncated, more, next[..] + r.rest);
      plan := plan + [PlanFragment(left[..size], false)];
      total, calls := total + sent, calls + more;
      cur, next := next, cur;
    }
  }

  lemma ProgressStarts(content: seq<byte>, size: nat, truncated: bool)
    requires size > 0
    ensures Progress([], [], content, content, size, truncated)
  {
    assert [] + Fragments(content, size, truncated) == Fragments(content, size, truncated);
  }

  lemma RoundedOver(c: seq<byte>, left: seq<byte>, size: nat, truncated: bool, calls: seq<S.Call>)
    requires size > 0 && Rounded(c, left, size, truncated, calls, true)
    ensures Rounded(c, [], size, truncated, calls, true)
  {
  }

  lemma WriteSucceeds(cfg: S.Config, tx: S.Tx, c: S.Call)
    requires Ready(tx) && (c.Write? || c.BeginMessage?) && S.Starts(c.op)
    ensures S.Act(cfg, tx, c).err.None?
    ensures c.BeginMessage? ==> Midway(S.Act(cfg, tx, c).tx)
  {
  }

  lemma BeginMidway(cfg: S.Config, tx: S.Tx, c: S.Call)
    requires c.BeginMessage? && S.Act(cfg, tx, c).err.None?
    ensures Midway(S.Act(cfg, tx, c).tx)
  {
  }

  /**
   * The calls follow the plan for the reader's content, whole when there is
   * no error. On a ready connection a reader that ends in EOF meets none, and
   * neither does one that ends in an io.ErrUnexpectedEOF of its own: what it
   * gave goes out as a complete message. After any other error nothing was
   * sent, or the message is still open.
   */
  method Send(w: Writer, op: Opcode, r: Source, env: Surroundings)
    returns (total: nat, err: Option<FromErr>, ghost calls: seq<S.Call>)
    requires w.Valid()
    modifies w, w.tx, w.tx.enc, w.tx.enc.scratch, env, r
    ensures w.Valid() && w.log == old(w.log) + calls
    ensures !S.Starts(op) ==> err == Some(WriteFailed(S.Protocol)) && calls == []
    ensures S.Starts(op) ==> Follows(calls, Plan(op, old(r.rest), w.fragmentSize, r.Truncated()))
    ensures S.Starts(op) && Ready(old(w.Tx())) ==> (err.None? <==> r.ending != OtherError)
    ensures err == Some(ReadFailed) ==>
      r.ending == OtherError && if |old(r.rest)| < w.fragmentSize then calls == [] else Midway(w.Tx())
    ensures err.None? ==> total == |old(r.rest)| && |calls| == |Plan(op, old(r.rest), w.fragmentSize, r.Truncated())|
  {
    hide Accounts, S.Act, Fragments;
    if !S.Starts(op) {
      return 0, Some(WriteFailed(S.Protocol)), [];
    }
    ghost var content := r.rest;
    var cur := new byte[w.fragmentSize];
    var n, how := ReadFull(r, cur);
    if how == Failed {
      return 0, Some(ReadFailed), [];
    }
    if how != Full {
      assert cur[..n] == content;
      var e;
      ghost var c;
      e, c := Whole(w, op, cur, n, env);
      return n, if e.Some? then Some(WriteFailed(e.value)) else None, [c];
    }
    assert cur[..] == cur[..n] && cur[..] + r.rest == content;
    total, err, calls := Pieces(w, op, cur, r, env);
  }

  /** The content in one frame. */
  method Whole(w: Writer, op: Opcode, cur: array<byte>, n: nat, env: Surroundings)
    returns (e: Option<S.WriteErr>, ghost c: S.Call)
    requires w.Valid() && n <= cur.Length && n < MAX_LENGTH && S.Starts(op) && cur != w.tx.enc.scratch
    modifies w, w.tx, w.tx.enc, w.tx.enc.scratch, env
    ensures w.Valid() && w.log == old(w.log) + [c] && Fulfils(c, PlanWrite(op, old(cur[..n])))
    ensures Ready(old(w.Tx())) ==> e.None?
  {
    hide Accounts, S.Act;
    var key, coded := env.Draw();
    c := S.Write(op, cur[..n], coded[..coded.Length], key);
    Current(w);
    if Ready(w.Tx()) {
      WriteSucceeds(w.cfg, w.Tx(), c);
    }
    e := w.Write(op, cur, n, coded, coded.Length, key, 0);
  }

  /** The content in several. */
  method Pieces(w: Writer, op: Opcode, cur: array<byte>, r: Source, env: Surroundings)
    returns (total: nat, err: Option<FromErr>, ghost calls: seq<S.Call>)
    requires w.Valid() && cur.Length == w.fragmentSize && S.Starts(op) && cur != w.tx.enc.scratch
    modifies w, w.tx, w.tx.enc, w.tx.enc.scratch, env, r, cur
    ensures w.Valid() && w.log == old(w.log) + calls
    ensures Follows(calls, [PlanBegin(op)] + Fragments(old(cur[..] + r.rest), w.fragmentSize, r.Truncated()))
    ensures Ready(old(w.Tx())) ==> (err.None? <==> r.ending != OtherError)
    ensures err == Some(ReadFailed) ==> r.ending == OtherError && Midway(w.Tx())
    ensures err.None? ==>
      total == |old(cur[..] + r.rest)|
        && |calls| == 1 + |Fragments(old(cur[..] + r.rest), w.fragmentSize, r.Truncated())|
  {
    hide Accounts, S.Act, Fragments;
    var next := new byte[w.fragmentSize];
    ghost var c := S.BeginMessage(op);
    ghost var before, tx := w.log, w.Tx();
    Current(w);
    var e := w.BeginMessage(op);
    if Ready(tx) {
      WriteSucceeds(w.cfg, tx, c);
    }
    if e.Some? {
      return 0, Some(WriteFailed(e.value)), [c];
    }
    BeginMidway(w.cfg, tx, c);
    S.FramesSnoc(w.cfg, S.IDLE, before, c);
    Current(w);
    ghost var more;
    total, err, more := SendPieces(w, r, cur, next, env);
    calls := [c] + more;
  }

  lemma Current(w: Writer)
    requires w.Valid()
    ensures S.TxAfter(w.cfg, S.IDLE, w.log) == w.Tx()
  {
  }

  // ----- What the plan amounts to -----

  function Payloads(plan: seq<Planned>): seq<seq<byte>> {
    if plan == [] then []
    else (if plan[0].PlanBegin? then [] else [plan[0].payload]) + Payloads(plan[1..])
  }

  /** The plan's frames partition the content: in order, none over size, exactly the last final. */
  lemma {:induction false} FragmentsPartition(c: seq<byte>, size: nat, truncated: bool)
    requires size > 0
    ensures
      var fs := Fragments(c, size, truncated);
      && Flatten(Payloads(fs)) == c
      && forall i :: 0 <= i < |fs| ==> fs[i].PlanFragment? && |fs[i].payload| <= size && fs[i].final == (i == |fs| - 1)
    decreases |c|
  {
    var fs := Fragments(c, size, truncated);
    if |c| < size || (|c| == size && !truncated) {
      assert fs[1..] == [];
      FlattenOne(c);
    } else {
      FragmentsPartition(c[size..], size, truncated);
      assert fs[1..] == Fragments(c[size..], size, truncated);
      assert Payloads(fs) == [c[..size]] + Payloads(fs[1..]);
      assert Payloads(fs)[1..] == Payloads(fs[1..]);
      assert c == c[..size] + c[size..];
    }
  }

  /** The frame a fragment call makes of a message in progress. */
  ghost predicate IsPiece(cfg: S.Config, f: Out, c: S.Call, op: Opcode, first: bool, last: bool)
    requires c.Fragment?
  {
    && f.op == (if first then op else Continuation) && f.fin == last
    && f.rsv1 == (first && cfg.compression)
    && f.payload == if cfg.compression then c.coded else c.payload
  }

  /** Frame by frame: the first carries the opcode, the others Continuation, and only the last FIN. */
  lemma {:induction false} FragmentFrames(cfg: S.Config, tx: S.Tx, calls: seq<S.Call>, plan: seq<Planned>)
    requires Midway(tx) && tx.frag.value.compressed == cfg.compression && calls != []
    requires |calls| == |plan| && Follows(calls, plan)
    requires forall i :: 0 <= i < |plan| ==> plan[i].PlanFragment? && plan[i].final == (i == |plan| - 1)
    ensures
      var fs := S.Frames(cfg, tx, calls);
      && |fs| == |calls|
      && forall i :: 0 <= i < |fs| ==>
           calls[i].Fragment?
             && IsPiece(cfg, fs[i], calls[i], tx.frag.value.op, i == 0 && tx.frag.value.first, i == |fs| - 1)
    decreases |calls|
  {
    hide IsPiece;
    var c := calls[0];
    assert Fulfils(c, plan[0]);
    PieceMade(cfg, tx, c);
    var r := S.Act(cfg, tx, c);
    if |calls| == 1 {
      assert calls[1..] == [];
    } else {
      FragmentFrames(cfg, r.tx, calls[1..], plan[1..]);
    }
  }

  lemma PieceMade(cfg: S.Config, tx: S.Tx, c: S.Call)
    requires Midway(tx) && tx.frag.value.compressed == cfg.compression && c.Fragment?
    ensures
      var r := S.Act(cfg, tx, c);
      && |r.out| == 1 && IsPiece(cfg, r.out[0], c, tx.frag.value.op, tx.frag.value.first, c.final)
      && (!c.final ==> Midway(r.tx) && r.tx.frag == Some(tx.frag.value.(first := false)))
  {
  }

  /** The input of each call that sends a frame. */
  function Inputs(calls: seq<S.Call>): seq<seq<byte>> {
    if calls == [] then []
    else (if calls[0].Write? || calls[0].Fragment? then [calls[0].payload] else []) + Inputs(calls[1..])
  }

  lemma {:induction false} InputsArePayloads(calls: seq<S.Call>, plan: seq<Planned>)
    requires |calls| == |plan| && Follows(calls, plan)
    ensures Inputs(calls) == Payloads(plan)
    decreases |calls|
  {
    if calls != [] {
      assert Fulfils(calls[0], plan[0]);
      InputsArePayloads(calls[1..], plan[1..]);
    }
  }

  /**
   * The first frame carries the opcode, later ones Continuation; only the last has FIN, only the
   * first may have RSV1.
   */
  ghost predicate OneMessage(op: Opcode, fs: seq<Out>) {
    fs != [] && forall i :: 0 <= i < |fs| ==>
      && fs[i].op == (if i == 0 then op else Continuation)
      && fs[i].fin == (i == |fs| - 1) && (fs[i].rsv1 ==> i == 0)
  }

  /** What WriteFrom sends: one message, whose frames' inputs partition the content. */
  lemma ContentIsPartitioned(cfg: S.Config, tx: S.Tx, op: Opcode, c: seq<byte>, size: nat, truncated: bool,
                             calls: seq<S.Call>)
    requires Ready(tx) && S.Starts(op) && size > 0
    requires Follows(calls, Plan(op, c, size, truncated)) && |calls| == |Plan(op, c, size, truncated)|
    ensures OneMessage(op, S.Frames(cfg, tx, calls))
    ensures |Inputs(calls)| == |S.Frames(cfg, tx, calls)|
    ensures Flatten(Inputs(calls)) == c && forall i :: 0 <= i < |Inputs(calls)| ==> |Inputs(calls)[i]| <= size
  {
    hide S.Frames, Follows, Fulfils, OneMessage;
    if |c| < size {
      ShortContent(cfg, tx, op, c, calls);
    } else {
      LongContent(cfg, tx, op, c, size, truncated, calls);
    }
  }

  lemma ShortContent(cfg: S.Config, tx: S.Tx, op: Opcode, c: seq<byte>, calls: seq<S.Call>)
    requires Ready(tx) && S.Starts(op) && |calls| == 1 && Follows(calls, [PlanWrite(op, c)])
    ensures OneMessage(op, S.Frames(cfg, tx, calls)) && |S.Frames(cfg, tx, calls)| == 1
    ensures Inputs(calls) == [c] && Flatten(Inputs(calls)) == c
  {
    assert Fulfils(calls[0], [PlanWrite(op, c)][0]);
    assert calls[1..] == [];
    FlattenOne(c);
  }

  lemma BeginMade(cfg: S.Config, tx: S.Tx, op: Opcode)
    requires Ready(tx) && S.Starts(op)
    ensures S.Act(cfg, tx, S.BeginMessage(op))
      == S.Result(tx.(frag := Some(S.Frag(op, true, cfg.compression))), [], None)
  {
  }

  lemma LongContent(cfg: S.Config, tx: S.Tx, op: Opcode, c: seq<byte>, size: nat, truncated: bool, calls: seq<S.Call>)
    requires Ready(tx) && S.Starts(op) && size > 0
    requires Follows(calls, [PlanBegin(op)] + Fragments(c, size, truncated))
      && |calls| == 1 + |Fragments(c, size, truncated)|
    ensures OneMessage(op, S.Frames(cfg, tx, calls))
    ensures |Inputs(calls)| == |S.Frames(cfg, tx, calls)|
    ensures Flatten(Inputs(calls)) == c && forall i :: 0 <= i < |Inputs(calls)| ==> |Inputs(calls)[i]| <= size
  {
    hide S.Act, S.Frames, Fragments, Follows, Fulfils, OneMessage, Flatten, Inputs;
    var fs := Fragments(c, size, truncated);
    FragmentsPartition(c, size, truncated);
    PayloadsAre(fs);
    assert Inputs(calls) == Payloads(fs) by {
      LongInputs(calls, op, fs);
    }
    LongFrames(cfg, tx, op, fs, calls);
  }

  lemma LongInputs(calls: seq<S.Call>, op: Opcode, fs: seq<Planned>)
    requires Follows(calls, [PlanBegin(op)] + fs) && |calls| == 1 + |fs|
    ensures Inputs(calls) == Payloads(fs)
  {
    assert Fulfils(calls[0], ([PlanBegin(op)] + fs)[0]);
    TailFollows(calls, PlanBegin(op), fs);
    InputsArePayloads(calls[1..], fs);
  }

  lemma LongFrames(cfg: S.Config, tx: S.Tx, op: Opcode, fs: seq<Planned>, calls: seq<S.Call>)
    requires Ready(tx) && S.Starts(op) && fs != []
    requires forall i :: 0 <= i < |fs| ==> fs[i].PlanFragment? && fs[i].final == (i == |fs| - 1)
    requires Follows(calls, [PlanBegin(op)] + fs) && |calls| == 1 + |fs|
    ensures OneMessage(op, S.Frames(cfg, tx, calls)) && |S.Frames(cfg, tx, calls)| == |fs|
  {
    hide S.Act, Fulfils, Follows, Fragments;
    TailFollows(calls, PlanBegin(op), fs);
    assert calls[0] == S.BeginMessage(op) by {
      BeginFulfilled(calls[0], op);
    }
    BeginMade(cfg, tx, op);
    var t := S.Act(cfg, tx, calls[0]).tx;
    FragmentFrames(cfg, t, calls[1..], fs);
    assert S.Frames(cfg, tx, calls) == S.Frames(cfg, t, calls[1..]);
  }

  lemma BeginFulfilled(c: S.Call, op: Opcode)
    requires Fulfils(c, PlanBegin(op))
    ensures c == S.BeginMessage(op)
  {
  }

  lemma TailFollows(calls: seq<S.Call>, p: Planned, fs: seq<Planned>)
    requires Follows(calls, [p] + fs) && calls != []
    ensures Fulfils(calls[0], p) && Follows(calls[1..], fs)
  {
    assert Fulfils(calls[0], ([p] + fs)[0]);
    forall i | 0 <= i < |calls| - 1
      ensures Fulfils(calls[1..][i], fs[i])
    {
      assert Fulfils(calls[i + 1], ([p] + fs)[i + 1]);
    }
  }

  lemma {:induction false} PayloadsAre(fs: seq<Planned>)
    requires forall i :: 0 <= i < |fs| ==> fs[i].PlanFragment?
    ensures |Payloads(fs)| == |fs| && forall i :: 0 <= i < |fs| ==> Payloads(fs)[i] == fs[i].payload
  {
    if fs != [] {
      PayloadsAre(fs[1..]);
    }
  }

  // ----- A truncated reader -----

  /**
   * Where a truncated reader's plan differs at all: the last chunk goes out non-final, with an
   * empty final fragment behind it.
   */
  function Trailed(plan: seq<Planned>): seq<Planned>
    requires plan != [] && plan[|plan| - 1].PlanFragment?
  {
    plan[..|plan| - 1] + [PlanFragment(plan[|plan| - 1].payload, false), PlanFragment([], true)]
  }

  /**
   * A reader cut off after content that fills its chunks gives one frame more; cut off anywhere
   * else, nothing shows.
   */
  lemma {:induction false} TruncationShows(c: seq<byte>, size: nat)
    requires 0 < size <= |c|
    ensures var fs := Fragments(c, size, false); fs[|fs| - 1].PlanFragment?
    ensures Fragments(c, size, true) == if |c| % size == 0 then Trailed(Fragments(c, size, false))
      else Fragments(c, size, false)
    decreases |c|
  {
    var fs, ts, rest := Fragments(c, size, false), Fragments(c, size, true), c[size..];
    assert |c| % size == |rest| % size by {
      ModuloSize(|rest|, size);
    }
    assert c == c[..size] + rest;
    FragmentsUnfold(c[..size], rest, size, true);
    FragmentsUnfold(c[..size], rest, size, false);
    if rest == [] {
      assert c[..size] == c;
    } else if |rest| < size {
    } else {
      TruncationShows(rest, size);
      var more := Fragments(rest, size, false);
      assert fs == [PlanFragment(c[..size], false)] + more;
      if |c| % size == 0 {
        assert fs[..|fs| - 1] == [PlanFragment(c[..size], false)] + more[..|more| - 1];
      }
    }
  }

  lemma AtLeastOnce(k: int, d: int)
    requires k >= 1 && d > 0
    ensures k * d >= d
  {
  }

  lemma RemainderIsUnique(d: nat, q: int, r: nat, q': int, r': nat)
    requires r < d && r' < d && q * d + r == q' * d + r'
    ensures r == r'
  {
    assert (q - q') * d == q * d - q' * d;
    assert (q' - q) * d == q' * d - q * d;
    if q > q' {
      AtLeastOnce(q - q', d);
    } else if q < q' {
      AtLeastOnce(q' - q, d);
    }
  }

  lemma ModuloSize(n: nat, size: nat)
    requires size > 0
    ensures (n + size) % size == n % size
  {
    var q, q' := n / size, (n + size) / size;
    assert (q + 1) * size == q * size + size;
    RemainderIsUnique(size, q + 1, n % size, q', (n + size) % size);
  }

  /**
   * The documented promise, that a read error is returned with the message
   * still open, fails for every reader that ends in an io.ErrUnexpectedEOF of
   * its own: the peer gets one complete message, and unless the content fills
   * its chunks it is frame for frame the message of a reader that ended there.
   */
  lemma TruncatedGoesOutComplete(cfg: S.Config, tx: S.Tx, op: Opcode, c: seq<byte>, size: nat, calls: seq<S.Call>)
    requires Ready(tx) && S.Starts(op) && size > 0
    requires Follows(calls, Plan(op, c, size, true)) && |calls| == |Plan(op, c, size, true)|
    ensures OneMessage(op, S.Frames(cfg, tx, calls)) && Flatten(Inputs(calls)) == c
    ensures Plan(op, c, size, true) == Plan(op, c, size, false) <==> |c| == 0 || |c| % size != 0
  {
    hide S.Frames, Follows, OneMessage, Flatten, Inputs;
    ContentIsPartitioned(cfg, tx, op, c, size, true, calls);
    if |c| >= size {
      TruncationShows(c, size);
      var fs, ts := Fragments(c, size, false), Fragments(c, size, true);
      assert Plan(op, c, size, true)[1..] == ts && Plan(op, c, size, false)[1..] == fs;
      if |c| % size == 0 {
        assert |ts| == |fs| + 1;
      }
    }
  }

  /** A relay of four octets in chunks of four, cut off there: two frames, the second empty and final. */
  lemma TruncatedRelay(a: byte)
    ensures Plan(Text, [a, a, a, a], 4, true)
      == [PlanBegin(Text), PlanFragment([a, a, a, a], false), PlanFragment([], true)]
    ensures Plan(Text, [a, a, a], 4, true) == [PlanWrite(Text, [a, a, a])] == Plan(Text, [a, a, a], 4, false)
  {
    FragmentsUnfold([a, a, a, a], [], 4, true);
    assert [a, a, a, a] + [] == [a, a, a, a];
  }
}
