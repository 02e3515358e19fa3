/** messageReader of deflate/decompressor.go: a message's chunks, then the restored tail. */
module MessageReaders {
  import opened Bytes
  import opened Flate

  /**
   * Its fields, and the source behind them: `chunks` are still to be handed over, some of them
   * empty; then it ends, or fails.
   */
  datatype Source = Source(chunks: seq<seq<byte>>, payload: seq<byte>, tail: seq<byte>, eof: bool, fails: bool) {
    /** The tail is touched only once the source has ended. */
    ghost predicate Valid() {
      && (eof ==> chunks == [] && !fails)
      && (tail != INFLATE_TAIL ==> eof && payload == [])
    }

    /** Everything the inflater has yet to see, unless the source fails it. */
    function Rest(): seq<byte> {
      payload + Flatten(chunks) + tail
    }

    /** fill: on to the next nonempty chunk, or to the end of the source. */
    function Filled(): Source
      decreases |chunks|
    {
      if payload != [] || eof then this
      else if chunks == [] then (if fails then this else this.(eof := true))
      else this.(payload := chunks[0], chunks := chunks[1..]).Filled()
    }

    /** NextChunk returned an error. */
    predicate Failed() { Filled().payload == [] && !Filled().eof }

    /** One byte taken. */
    function Next(): Source
      requires !Failed() && (Filled().payload != [] || Filled().tail != [])
    {
      var f := Filled();
      if f.payload != [] then f.(payload := f.payload[1..]) else f.(tail := f.tail[1..])
    }

    lemma {:induction false} FilledKeeps()
      requires Valid()
      ensures Filled().Valid() && Filled().Rest() == Rest() && Filled().tail == tail && Filled().fails == fails
      ensures Failed() ==> fails && payload + Flatten(chunks) == []
      ensures !Failed() && Filled().payload == [] ==> Filled().eof && Rest() == tail
      decreases |chunks|
    {
      if payload == [] && !eof && chunks != [] {
        var t := this.(payload := chunks[0], chunks := chunks[1..]);
        assert [] + Flatten(chunks) + tail == chunks[0] + Flatten(chunks[1..]) + tail;
        t.FilledKeeps();
      }
    }

    lemma NextTakes()
      requires Valid() && Rest() != [] && !Failed()
      ensures Filled().payload != [] || Filled().tail != []
      ensures Next().Valid() && Next().Rest() == Rest()[1..] && Next().fails == fails
    {
      hide Flatten, INFLATE_TAIL;
      FilledKeeps();
      var f := Filled();
      if f.payload != [] {
        assert f.Rest()[1..] == f.payload[1..] + Flatten(f.chunks) + f.tail;
      } else {
        NothingLeftBut(f);
        NothingLeftBut(f.(tail := f.tail[1..]));
      }
    }
  }

  lemma NothingLeftBut(s: Source)
    requires s.payload == [] && s.chunks == []
    ensures s.Rest() == s.tail
  {
  }

  /** `k` bytes on, in whatever pieces they are read; None where the source fails first. */
  function Further(s: Source, k: nat): (r: Option<Source>)
    requires s.Valid() && k <= |s.Rest()|
    ensures r.Some? ==> r.value.Valid() && r.value.Rest() == s.Rest()[k..] && r.value.fails == s.fails
    ensures !s.fails ==> r.Some?
    decreases k
  {
    if k == 0 then Some(s)
    else if s.Failed() then s.FilledKeeps(); None
    else s.NextTakes(); Further(s.Next(), k - 1)
  }

  lemma {:induction false} FurtherInPayload(s: Source, k: nat)
    requires s.Valid() && 0 < k <= |s.Filled().payload| && k <= |s.Rest()|
    ensures Further(s, k) == Some(s.Filled().(payload := s.Filled().payload[k..]))
    decreases k
  {
    hide INFLATE_TAIL, Flatten;
    s.FilledKeeps();
    s.NextTakes();
    var f := s.Filled();
    if k > 1 {
      FurtherInPayload(s.Next(), k - 1);
      assert f.payload[1..][k - 1..] == f.payload[k..];
    }
  }

  lemma {:induction false} FurtherInTail(s: Source, k: nat)
    requires s.Valid() && !s.Failed() && s.Filled().payload == [] && 0 < k <= |s.tail| && k <= |s.Rest()|
    ensures Further(s, k) == Some(s.Filled().(tail := s.tail[k..]))
    decreases k
  {
    hide INFLATE_TAIL, Flatten;
    s.FilledKeeps();
    s.NextTakes();
    if k > 1 {
      FurtherInTail(s.Next(), k - 1);
      assert s.tail[1..][k - 1..] == s.tail[k..];
    }
  }

  lemma Front(s: Source, k: nat)
    requires k <= |s.payload|
    ensures s.payload[..k] + s.(payload := s.payload[k..]).Rest() == s.Rest()
  {
    assert s.payload == s.payload[..k] + s.payload[k..];
  }

  class MessageReader {
    var s: Source

    ghost predicate Valid()
      reads this
    {
      s.Valid()
    }

    constructor (chunks: seq<seq<byte>>, fails: bool)
      ensures Valid() && s.Rest() == Flatten(chunks) + INFLATE_TAIL && s.fails == fails
    {
      s := Source(chunks, [], INFLATE_TAIL, false, fails);
      new;
      assert [] + Flatten(chunks) == Flatten(chunks);
    }

    /** exhausted: nothing is left, however the chunks were cut. */
    method Exhausted() returns (r: bool)
      requires Valid()
      ensures r <==> s.Rest() == []
    {
      r := s.eof && s.payload == [] && s.tail == [];
    }

    /** fill: nothing is lost over empty chunks; an error is the source's own, with nothing of it left. */
    method Fill() returns (ok: bool, err: bool)
      requires Valid()
      modifies this
      ensures Valid() && s == old(s).Filled() && s.Rest() == old(s).Rest()
      ensures err == old(s).Failed() && ok == (s.payload != [])
      ensures err ==> s.fails && s.payload + Flatten(s.chunks) == []
    {
      old(s).FilledKeeps();
      while s.payload == [] && !s.eof
        invariant Valid() && s.Filled() == old(s).Filled()
        decreases |s.chunks|, !s.eof
      {
        if s.chunks == [] {
          if s.fails {
            return false, true;
          }
          s := s.(eof := true);
        } else {
          s := s.(payload := s.chunks[0], chunks := s.chunks[1..]);
        }
      }
      return s.payload != [], false;
    }

    /** ReadByte: the bytes in order, EOF exactly at the end, or the source's error. */
    method ReadByte() returns (b: Option<byte>, err: bool)
      requires Valid()
      modifies this
      ensures Valid() && err == old(s).Failed()
      ensures err ==> b == None && s.Rest() == old(s).Rest()
      ensures !err && old(s).Rest() == [] ==> b == None && s.Rest() == []
      ensures !err && old(s).Rest() != [] ==>
        && b == Some(old(s).Rest()[0]) && s.Rest() == old(s).Rest()[1..]
        && Further(old(s), 1) == Some(s)
    {
      hide INFLATE_TAIL, Flatten;
      ghost var was := s;
      was.FilledKeeps();
      var ok;
      ok, err := Fill();
      if err {
        return None, true;
      }
      if was.Rest() != [] {
        was.NextTakes();
        assert Further(was, 1) == Further(was.Next(), 0);
      }
      if ok {
        b, s := Some(s.payload[0]), s.(payload := s.payload[1..]);
      } else if s.tail != [] {
        b, s := Some(s.tail[0]), s.(tail := s.tail[1..]);
      } else {
        b := None;
      }
    }

    /** Read: at most `n` of them. */
    method Read(n: nat) returns (data: seq<byte>, err: bool)
      requires Valid()
      modifies this
      ensures Valid() && |data| <= n && data + s.Rest() == old(s).Rest()
      ensures err == (n > 0 && old(s).Failed())
      ensures err ==> data == []
      ensures n > 0 && !err && old(s).Rest() != [] ==> data != [] && Further(old(s), |data|) == Some(s)
    {
      data, err := [], false;
      if n == 0 {
        return;
      }
      hide INFLATE_TAIL, Flatten, Further, Source.Filled, Source.Failed, Source.Rest;
      ghost var was := s;
      was.FilledKeeps();
      var ok;
      ok, err := Fill();
      if err {
        return;
      }
      if ok {
        var k := if n < |s.payload| then n else |s.payload|;
        Front(s, k);
        FurtherInPayload(was, k);
        data, s := s.payload[..k], s.(payload := s.payload[k..]);
      } else {
        var k := if n < |s.tail| then n else |s.tail|;
        NothingLeftBut(s);
        if k > 0 {
          FurtherInTail(was, k);
        }
        assert s.tail == s.tail[..k] + s.tail[k..];
        data, s := s.tail[..k], s.(tail := s.tail[k..]);
        NothingLeftBut(s);
      }
    }
  }
}
