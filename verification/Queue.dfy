/** The storage of ws/queue.go: arenas and segment lists that producers and the writer swap. */
module Queues {
  import opened Bytes
  import opened QueueProtocol

  /** One queued frame: a range of the arena, or the bytes of a Prepared, which never change. */
  datatype Segment = Range(start: nat, end: nat) | Ext(bytes: seq<byte>)

  predicate Within(s: Segment, len: nat) { s.Range? ==> s.start <= s.end <= len }

  function BytesOf(s: Segment, arena: seq<byte>): seq<byte>
    requires Within(s, |arena|)
  {
    if s.Ext? then s.bytes else arena[s.start..s.end]
  }

  predicate AllWithin(segs: seq<Segment>, len: nat) {
    forall i :: 0 <= i < |segs| ==> Within(segs[i], len)
  }

  function FramesOf(segs: seq<Segment>, arena: seq<byte>): (r: seq<seq<byte>>)
    requires AllWithin(segs, |arena|)
    ensures |r| == |segs|
  {
    seq(|segs|, i requires 0 <= i < |segs| => BytesOf(segs[i], arena))
  }

  /** Growing the arena behind its contents changes no frame already in it. */
  lemma FramesKept(segs: seq<Segment>, arena: seq<byte>, more: seq<byte>)
    requires AllWithin(segs, |arena|)
    ensures AllWithin(segs, |arena + more|) && FramesOf(segs, arena + more) == FramesOf(segs, arena)
  {
    forall i | 0 <= i < |segs|
      ensures Within(segs[i], |arena + more|) && BytesOf(segs[i], arena + more) == BytesOf(segs[i], arena)
    {
      assert Within(segs[i], |arena|);
    }
  }

  lemma FramesPlus(segs: seq<Segment>, arena: seq<byte>, s: Segment)
    requires AllWithin(segs, |arena|) && Within(s, |arena|)
    ensures AllWithin(segs + [s], |arena|) && FramesOf(segs + [s], arena) == FramesOf(segs, arena) + [BytesOf(s, arena)]
  {
  }

  class Arena {
    var b: array<byte>
    var len: nat

    ghost predicate Valid()
      reads this
    {
      len <= b.Length
    }

    ghost function Contents(): seq<byte>
      requires Valid()
      reads this, b
    {
      b[..len]
    }

    constructor ()
      ensures Valid() && fresh(b) && Contents() == []
    {
      b, len := new byte[4096], 0;
    }

    /** Go's append: in place while it fits, else moved. */
    method Append(p: seq<byte>, spare: nat)
      requires Valid()
      modifies this, b
      ensures Valid() && Contents() == old(Contents()) + p
      ensures b == old(b) || fresh(b)
    {
      if len + |p| > b.Length {
        var grown := new byte[len + |p| + spare];
        forall i | 0 <= i < len {
          grown[i] := b[i];
        }
        b := grown;
      }
      forall i | len <= i < len + |p| {
        b[i] := p[i - len];
      }
      len := len + |p|;
    }
  }

  class Segments {
    var a: array<Segment>
    var n: nat

    ghost predicate Valid()
      reads this
    {
      n <= a.Length
    }

    ghost function Contents(): seq<Segment>
      requires Valid()
      reads this, a
    {
      a[..n]
    }

    constructor ()
      ensures Valid() && fresh(a) && Contents() == []
    {
      a, n := new Segment[0], 0;
    }

    method Append(s: Segment, spare: nat)
      requires Valid()
      modifies this, a
      ensures Valid() && Contents() == old(Contents()) + [s]
      ensures a == old(a) || fresh(a)
    {
      if n == a.Length {
        var grown := new Segment[n + 1 + spare];
        forall i | 0 <= i < n {
          grown[i] := a[i];
        }
        a := grown;
      }
      a[n] := s;
      n := n + 1;
    }
  }

  datatype Counters = Counters(running: bool, failed: bool, enqueued: nat, written: nat, size: nat)

  ghost function Held(a: Arena?): seq<byte>
    requires a != null ==> a.Valid()
    reads a, if a == null then {} else {a.b}
  {
    if a == null then [] else a.Contents()
  }

  class Queue {
    const limit: nat
    var cur: Arena?
    var segments: Segments
    var flushing: Arena?
    var flushSegments: Segments
    var c: Counters
    ghost var busy: bool // The writer has a batch.

    ghost function Storage(): set<object>
      reads this, segments, flushSegments, cur, flushing
    {
      {segments, segments.a} + (if cur == null then {} else var x: Arena := cur; {x, x.b})
    }

    ghost function WriterStorage(): set<object>
      reads this, segments, flushSegments, cur, flushing
    {
      {flushSegments, flushSegments.a} + (if flushing == null then {} else var x: Arena := flushing; {x, x.b})
    }

    /** The producer's storage and the writer's never overlap. */
    ghost predicate Wired()
      reads this, segments, flushSegments, cur, flushing
    {
      && this !in Storage() && this !in WriterStorage()
      && Storage() !! WriterStorage()
      && segments.Valid() && flushSegments.Valid()
      && (cur != null ==> cur.Valid() && (cur.b as object) != segments.a)
      && (flushing != null ==> flushing.Valid() && (flushing.b as object) != flushSegments.a)
    }

    ghost predicate Valid()
      reads this, Storage(), WriterStorage()
    {
      && Wired()
      && AllWithin(segments.Contents(), |Held(cur)|)
      && (busy ==> flushSegments.n > 0)
      && (busy ==> AllWithin(flushSegments.Contents(), |Held(flushing)|))
    }

    ghost function View(): Shared<seq<byte>>
      requires Valid()
      reads this, Storage(), WriterStorage()
    {
      Shared(FramesOf(segments.Contents(), Held(cur)),
             if busy then FramesOf(flushSegments.Contents(), Held(flushing)) else [],
             c.running, c.failed, c.enqueued, c.written)
    }

    /** The writer's side is as it was. */
    twostate predicate Untouched()
      requires old(Wired()) && Wired()
      reads this, segments, flushSegments, cur, flushing, Storage(), WriterStorage()
    {
      && busy == old(busy) && flushing == old(flushing) && flushSegments == old(flushSegments)
      && flushSegments.Contents() == old(flushSegments.Contents())
      && Held(flushing) == old(Held(flushing))
    }

    constructor (limit: nat)
      ensures Valid() && this.limit == limit && View() == QueueProtocol.Init<seq<byte>>().q
        && fresh(Storage() + WriterStorage())
    {
      this.limit := limit;
      cur, flushing, busy := null, null, false;
      segments := new Segments();
      flushSegments := new Segments();
      c := Counters(false, false, 0, 0, 0);
    }

    /** An arena is taken only when there is something to copy. */
    method Provide()
      requires Valid()
      modifies `cur
      ensures Valid() && View() == old(View()) && cur != null && fresh(Storage() - old(Storage()))
      ensures Held(cur) == old(Held(cur)) && segments.Contents() == old(segments.Contents())
    {
      if cur == null {
        cur := new Arena();
      }
    }

    /** A frame copied behind the arena's contents. */
    method Copy(frame: seq<byte>, spare: nat)
      requires Valid() && cur != null
      modifies Storage()
      ensures Valid() && fresh(Storage() - old(Storage()))
      ensures View() == old(View()).(queued := old(View()).queued + [frame])
    {
      hide FramesOf;
      ghost var segs, held := segments.Contents(), Held(cur);
      var start := cur.len;
      cur.Append(frame, spare);
      var s := Range(start, cur.len);
      FramesKept(segs, held, frame);
      segments.Append(s, spare);
      FramesPlus(segs, held + frame, s);
      assert BytesOf(s, held + frame) == frame;
      assert Untouched();
    }

    /** A prepared frame, referred to. */
    method Refer(frame: seq<byte>, spare: nat)
      requires Valid()
      modifies Storage()
      ensures Valid() && fresh(Storage() - old(Storage()))
      ensures View() == old(View()).(queued := old(View()).queued + [frame])
    {
      hide FramesOf;
      FramesPlus(segments.Contents(), Held(cur), Ext(frame));
      ghost var held := Held(cur);
      segments.Append(Ext(frame), spare);
      assert Held(cur) == held && Untouched();
    }

    /** The bytes counted against the limit are the bytes queued. */
    ghost predicate Counted()
      requires Valid()
      reads this, Storage(), WriterStorage()
    {
      c.size == |Flatten(View().queued)|
    }

    /** reserve: an empty queue takes anything, a nonempty one up to the limit. */
    method Reserve(n: nat) returns (ok: bool)
      requires Valid() && Counted()
      ensures ok <==> !View().failed && (Flatten(View().queued) == [] || |Flatten(View().queued)| + n <= limit)
    {
      ok := !c.failed && (c.size == 0 || c.size + n <= limit);
    }

    /** One more frame stored, copied or referred to. */
    method Store(frame: seq<byte>, ext: bool, spare: nat)
      requires Valid()
      modifies `cur, Storage()
      ensures Valid() && fresh(Storage() - old(Storage()))
      ensures View() == old(View()).(queued := old(View()).queued + [frame])
    {
      hide FramesOf, AllWithin;
      if ext {
        Refer(frame, spare);
      } else {
        Provide();
        Copy(frame, spare);
      }
    }

    /** The counters after a frame of `n` bytes. */
    method Count(n: nat) returns (spawn: bool)
      requires Valid()
      modifies `c
      ensures Valid() && Storage() == old(Storage())
      ensures View() == old(View()).(enqueued := old(c).enqueued + 1, running := true)
      ensures c.size == old(c).size + n && spawn == !old(c).running
    {
      hide FramesOf, AllWithin;
      spawn := !c.running;
      c := c.(size := c.size + n, enqueued := c.enqueued + 1, running := true);
    }

    /** enqueue; `spawn` says a writer is started. */
    method Enqueue(header: seq<byte>, body: seq<byte>, ext: Option<seq<byte>>, spare: nat)
      returns (seqno: nat, ok: bool, spawn: bool)
      requires Valid() && Counted()
      modifies this, Storage()
      ensures Valid() && Counted() && fresh(Storage() - old(Storage()))
      ensures View() == Enqueued(old(View()), if ext.Some? then ext.value else header + body)
      ensures ok == !old(View()).failed && spawn == (ok && !old(View()).running) && (ok ==> seqno == View().enqueued)
    {
      hide FramesOf, AllWithin, Flatten;
      if c.failed {
        return 0, false, false;
      }
      ghost var queued := View().queued;
      var frame := if ext.Some? then ext.value else header + body;
      Store(frame, ext.Some?, spare);
      FlattenAppend(queued, [frame]);
      FlattenOne(frame);
      spawn := Count(|frame|);
      return c.enqueued, true, spawn;
    }

    /** The top of run's loop: the producer's storage becomes the writer's, and the writer's is reused. */
    method Turn() returns (more: bool)
      requires Valid() && Counted() && !busy
      modifies this, flushSegments
      ensures Valid() && Counted() && busy == more && more == !Idle(old(View()))
      ensures View() == Turned(old(View()))
      ensures Storage() + WriterStorage() <= old(Storage() + WriterStorage())
    {
      if segments.n == 0 || c.failed {
        c := c.(running := false);
        return false;
      }
      Swap();
      return true;
    }

    method Swap()
      requires Valid() && !busy && segments.n > 0
      modifies this, flushSegments
      ensures Valid() && Counted() && busy && View() == old(View()).(queued := [], inflight := old(View()).queued)
      ensures Storage() + WriterStorage() <= old(Storage() + WriterStorage())
    {
      cur, flushing := null, cur;
      segments, flushSegments := flushSegments, segments;
      segments.n := 0;
      c := c.(size := 0);
      busy := true;
    }

    /** The writer lets go of its batch, and of the frames it referred to. */
    method Release()
      requires Valid() && busy
      modifies `flushing, `busy, WriterStorage()
      ensures Valid() && !busy && View() == old(View()).(inflight := [])
      ensures Storage() == old(Storage()) && WriterStorage() <= old(WriterStorage())
    {
      hide FramesOf, AllWithin;
      forall i | 0 <= i < flushSegments.n {
        flushSegments.a[i] := Range(0, 0);
      }
      flushing := null;
      busy := false;
      assert Held(cur) == old(Held(cur)) && segments.Contents() == old(segments.Contents());
    }

    /** The first error: what is queued is dropped. */
    method Fail()
      requires Valid() && !busy
      modifies `c, segments
      ensures Valid() && Counted() && !busy && View() == old(View()).(failed := true, queued := [], running := false)
      ensures Storage() == old(Storage()) && WriterStorage() == old(WriterStorage())
    {
      segments.n := 0;
      c := c.(failed := true, size := 0, running := false);
    }

    /** The end of run's loop. */
    method Settle(ok: bool)
      requires Valid() && Counted() && busy
      modifies this, WriterStorage(), segments
      ensures Valid() && Counted() && !busy && View() == Settled(old(View()), ok)
      ensures Storage() + WriterStorage() <= old(Storage() + WriterStorage())
    {
      hide FramesOf, AllWithin, Flatten;
      var n := flushSegments.n;
      Release();
      c := c.(written := c.written + n);
      if !ok {
        Fail();
      }
    }

    function Frame(i: nat): (r: seq<byte>)
      requires Valid() && busy && i < flushSegments.n
      reads this, Storage(), WriterStorage()
      ensures r == View().inflight[i]
    {
      assert Within(flushSegments.Contents()[i], |Held(flushing)|);
      var s := flushSegments.a[i];
      if s.Ext? then s.bytes else if flushing == null then [] else flushing.b[s.start..s.end]
    }

    /** flush: a single frame, a vector of frames or a coalesced copy, the same bytes go out in the same order. */
    method Flush(vectored: bool) returns (out: seq<byte>)
      requires Valid() && busy
      ensures out == Flatten(View().inflight)
    {
      hide FramesOf;
      var n := flushSegments.n;
      ghost var frames := View().inflight;
      assert |frames| == n;
      if n == 1 {
        out := Frame(0);
        assert frames == [out];
        FlattenOne(out);
        return;
      }
      if vectored {
        var bufs: seq<seq<byte>> := [];
        for i := 0 to n
          invariant bufs == frames[..i]
        {
          bufs := bufs + [Frame(i)];
        }
        assert frames[..n] == frames;
        return Flatten(bufs);
      }
      out := [];
      for i := 0 to n
        invariant out == Flatten(frames[..i])
      {
        FlattenAppend(frames[..i], [frames[i]]);
        FlattenOne(frames[i]);
        assert frames[..i + 1] == frames[..i] + [frames[i]];
        out := out + Frame(i);
      }
      assert frames[..n] == frames;
    }
  }
}
