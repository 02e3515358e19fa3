/** deflate/decompressor.go: whole-message and streaming decompression. */
module Decompressors {
  import opened Bytes
  import opened DeflateWindow
  import opened Flate
  import opened MessageReaders

  function Prepend(x: seq<byte>, r: Option<seq<byte>>): Option<seq<byte>> {
    match r case None => None case Some(y) => Some(x + y)
  }

  lemma PrependNothing(r: Option<seq<byte>>)
    ensures Prepend([], r) == r
  {
    if r.Some? {
      assert [] + r.value == r.value;
    }
  }

  lemma PrependTwice(x: seq<byte>, y: seq<byte>, r: Option<seq<byte>>)
    ensures Prepend(x, Prepend(y, r)) == Prepend(x + y, r)
  {
    if r.Some? {
      assert x + (y + r.value) == x + y + r.value;
    }
  }

  /**
   * What a message inflates to, or None. Section 7.2.3.4 of RFC 7692 allows
   * final blocks inside a message: each further stream has the history so far
   * as its dictionary.
   */
  function Message(inf: Inflate, size: nat, hist: seq<byte>, input: seq<byte>): Option<seq<byte>>
    decreases |input|
  {
    match inf[(Last(hist, size), input)]
    case Bad(_) => None
    case Done(out, used) =>
      if 0 < used == |input| then Some(out)
      else if 0 < used < |input| then Prepend(out, Message(inf, size, hist + out, input[used..]))
      else None
  }

  /**
   * The input cut into streams: each of them, at the front of what is left,
   * inflates under the last bytes of the history and of the output before it,
   * and takes exactly its own bytes.
   */
  ghost predicate Streams(inf: Inflate, size: nat, hist: seq<byte>, parts: seq<seq<byte>>, outs: seq<seq<byte>>) {
    && |parts| == |outs| > 0
    && forall i :: 0 <= i < |parts| ==> parts[i] != [] && TakesPart(inf, size, hist, parts, outs, i)
  }

  ghost predicate TakesPart(inf: Inflate, size: nat, hist: seq<byte>, parts: seq<seq<byte>>, outs: seq<seq<byte>>,
                            i: nat)
    requires i < |parts| == |outs|
  {
    inf[(Last(hist + Flatten(outs[..i]), size), Flatten(parts[i..]))] == Done(outs[i], |parts[i]|)
  }

  /** There is such a cut, and its outputs join to `out`. */
  ghost predicate InflatesTo(inf: Inflate, size: nat, hist: seq<byte>, input: seq<byte>, out: seq<byte>) {
    exists parts, outs :: Streams(inf, size, hist, parts, outs) && Flatten(parts) == input && Flatten(outs) == out
  }

  /** A cut behind its first stream. */
  lemma StreamsTail(inf: Inflate, size: nat, hist: seq<byte>, parts: seq<seq<byte>>, outs: seq<seq<byte>>)
    requires |parts| == |outs| > 1
    requires forall i :: 1 <= i < |parts| ==> parts[i] != []
    ensures (forall i :: 1 <= i < |parts| ==> TakesPart(inf, size, hist, parts, outs, i))
      <==> Streams(inf, size, hist + outs[0], parts[1..], outs[1..])
  {
    hide Flatten, Last;
    forall i | 1 <= i < |parts|
      ensures TakesPart(inf, size, hist, parts, outs, i)
        == TakesPart(inf, size, hist + outs[0], parts[1..], outs[1..], i - 1)
    {
      PartShifts(inf, size, hist, parts, outs, i);
    }
    forall i | 0 <= i < |parts| - 1
      ensures parts[1..][i] != []
      ensures TakesPart(inf, size, hist + outs[0], parts[1..], outs[1..], i)
        == TakesPart(inf, size, hist, parts, outs, i + 1)
    {
      PartShifts(inf, size, hist, parts, outs, i + 1);
    }
  }

  lemma PartShifts(inf: Inflate, size: nat, hist: seq<byte>, parts: seq<seq<byte>>, outs: seq<seq<byte>>, i: nat)
    requires 1 <= i < |parts| == |outs|
    ensures TakesPart(inf, size, hist, parts, outs, i)
      == TakesPart(inf, size, hist + outs[0], parts[1..], outs[1..], i - 1)
  {
    hide Last;
    assert parts[1..][i - 1..] == parts[i..];
    assert outs[..i][1..] == outs[1..][..i - 1];
    assert hist + outs[0] + Flatten(outs[1..][..i - 1]) == hist + Flatten(outs[..i]);
  }

  /** Its first stream. */
  lemma FirstPart(inf: Inflate, size: nat, hist: seq<byte>, parts: seq<seq<byte>>, outs: seq<seq<byte>>)
    requires |parts| == |outs| > 0
    ensures TakesPart(inf, size, hist, parts, outs, 0)
      <==> inf[(Last(hist, size), Flatten(parts))] == Done(outs[0], |parts[0]|)
    ensures parts[0] + Flatten(parts[1..]) == Flatten(parts)
  {
    hide Last;
    assert parts[0..] == parts && outs[..0] == [] && hist + [] == hist;
  }

  lemma {:induction false} FlattenGrows(parts: seq<seq<byte>>)
    requires parts != [] && parts[0] != []
    ensures Flatten(parts) != []
  {
    assert Flatten(parts)[0] == parts[0][0];
  }

  lemma {:induction false} CutInflates(inf: Inflate, size: nat, hist: seq<byte>, parts: seq<seq<byte>>,
                                       outs: seq<seq<byte>>)
    requires Streams(inf, size, hist, parts, outs)
    ensures Message(inf, size, hist, Flatten(parts)) == Some(Flatten(outs))
    decreases |parts|
  {
    hide Last, TakesPart;
    assert TakesPart(inf, size, hist, parts, outs, 0) && parts[0] != [];
    FirstPart(inf, size, hist, parts, outs);
    if |parts| == 1 {
      assert parts == [parts[0]] && outs == [outs[0]];
      FlattenOne(parts[0]);
      FlattenOne(outs[0]);
    } else {
      StreamsTail(inf, size, hist, parts, outs);
      CutInflates(inf, size, hist + outs[0], parts[1..], outs[1..]);
      assert parts[1] != [];
      FlattenGrows(parts[1..]);
      assert Flatten(parts)[|parts[0]|..] == Flatten(parts[1..]);
    }
  }

  lemma {:induction false} InflatesByCut(inf: Inflate, size: nat, hist: seq<byte>, input: seq<byte>)
    returns (parts: seq<seq<byte>>, outs: seq<seq<byte>>)
    requires Message(inf, size, hist, input).Some?
    ensures Streams(inf, size, hist, parts, outs)
    ensures Flatten(parts) == input && Flatten(outs) == Message(inf, size, hist, input).value
    decreases |input|
  {
    hide Last, TakesPart;
    var o := inf[(Last(hist, size), input)];
    if o.used == |input| {
      parts, outs := [input], [o.out];
      FlattenOne(input);
      FlattenOne(o.out);
      FirstPart(inf, size, hist, parts, outs);
    } else {
      var ps, os := InflatesByCut(inf, size, hist + o.out, input[o.used..]);
      parts, outs := [input[..o.used]] + ps, [o.out] + os;
      assert parts[1..] == ps && outs[1..] == os;
      assert input[..o.used] + input[o.used..] == input;
      FirstPart(inf, size, hist, parts, outs);
      assert forall i :: 0 <= i < |ps| ==> ps[i] != [] && parts[i + 1] == ps[i];
      assert forall i :: 1 <= i < |parts| ==> parts[i] == ps[i - 1];
      StreamsTail(inf, size, hist, parts, outs);
    }
  }

  /** What a message inflates to is what the streams it can be cut into give, and there is at most one such text. */
  lemma MessageIsCut(inf: Inflate, size: nat, hist: seq<byte>, input: seq<byte>, out: seq<byte>)
    ensures Message(inf, size, hist, input) == Some(out) <==> InflatesTo(inf, size, hist, input, out)
  {
    hide Last, Message, Streams;
    if Message(inf, size, hist, input) == Some(out) {
      var parts, outs := InflatesByCut(inf, size, hist, input);
    }
    if InflatesTo(inf, size, hist, input, out) {
      var parts, outs :| Streams(inf, size, hist, parts, outs) && Flatten(parts) == input && Flatten(outs) == out;
      CutInflates(inf, size, hist, parts, outs);
    }
  }

  /** The same for every text at once. */
  lemma MessageIsCuts(inf: Inflate, size: nat, hist: seq<byte>, input: seq<byte>)
    ensures forall out :: InflatesTo(inf, size, hist, input, out) <==> Message(inf, size, hist, input) == Some(out)
  {
    hide Message, InflatesTo;
    forall out
      ensures InflatesTo(inf, size, hist, input, out) <==> Message(inf, size, hist, input) == Some(out)
    {
      MessageIsCut(inf, size, hist, input, out);
    }
  }

  /** The rest of the current stream, then the rest of the message behind it. */
  function ToCome(inf: Inflate, size: nat, hist: seq<byte>, todo: seq<byte>, input: seq<byte>,
                  used: nat): Option<seq<byte>> {
    if used == |input| then Some(todo)
    else if used < |input| then Prepend(todo, Message(inf, size, hist + todo, input[used..]))
    else None
  }

  /** Delivering some of it leaves the rest. */
  lemma ToComeDelivered(inf: Inflate, size: nat, hist: seq<byte>, data: seq<byte>, todo: seq<byte>, input: seq<byte>,
                        used: nat)
    ensures ToCome(inf, size, hist, data + todo, input, used)
      == Prepend(data, ToCome(inf, size, hist + data, todo, input, used))
  {
    hide Message, Last;
    assert hist + (data + todo) == hist + data + todo;
    if used < |input| {
      PrependTwice(data, todo, Message(inf, size, hist + data + todo, input[used..]));
    }
  }

  datatype Err = Ok | Eof | NoMessage | InvalidLimit | TooLarge | Broken

  /** What the inflater draws from: a slice holding payload and tail, or a messageReader. */
  datatype Feed = Slice(left: seq<byte>) | Chunked(src: Source) {
    ghost predicate Valid() { Chunked? ==> src.Valid() }

    function Rest(): seq<byte> { if Slice? then left else src.Rest() }

    predicate Fails() { Chunked? && src.fails }

    predicate Exhausted() { if Slice? then left == [] else src.eof && src.payload == [] && src.tail == [] }

    /** `k` bytes on, or None where the source fails first. */
    function Onward(k: nat): (r: Option<Feed>)
      requires Valid() && k <= |Rest()|
      ensures r.Some? ==>
        r.value.Valid() && r.value.Rest() == Rest()[k..] && r.value.Fails() == Fails() && r.value.Chunked? == Chunked?
      ensures !Fails() ==> r.Some?
    {
      if Slice? then Some(Slice(left[k..]))
      else match Further(src, k) case None => None case Some(t) => Some(Chunked(t))
    }

    /** exhausted: exactly when nothing is left. */
    lemma ExhaustedIsEmpty()
      requires Valid()
      ensures Exhausted() <==> Rest() == []
      ensures Exhausted() ==> !Fails()
    {
    }
  }

  /** The inflater on its source: the stream it is in and what is left to deliver of it. */
  class Reader {
    const inf: Inflate
    ghost const steady: bool   // A read never stalls.
    var feed: Feed
    var input: seq<byte>       // What the feed held when the stream began.
    var pos: nat               // How much of it is taken.
    var todo: seq<byte>        // Output not yet delivered.
    var good: bool             // The stream ends, after `used` bytes of input.
    var used: nat
    ghost var fails: bool      // Its source fails before the end.
    ghost var reliable: bool   // It is steady, and its source does not fail.

    /** The feed holds the input not yet taken, however it is cut into chunks. */
    ghost predicate Valid()
      reads this
    {
      && pos <= |input| && feed.Valid() && feed.Rest() == input[pos..]
      && (good ==> 0 < used && pos <= used <= |input|)
      && fails == feed.Fails() && reliable == (steady && !fails)
    }

    /** At the start of a stream with this outcome. */
    ghost predicate About(o: Outcome)
      reads this
    {
      match o
      case Done(out, n) => todo == out && good == (0 < n <= |input|) && (good ==> used == n)
      case Bad(out) => todo == out && !good
    }

    constructor (inf: Inflate, ghost steady: bool)
      ensures this.inf == inf && this.steady == steady && Valid()
    {
      this.inf, this.steady, fails, reliable := inf, steady, false, steady;
      feed := Slice([]);
      input, pos, todo, good, used := [], 0, [], false, 0;
    }

    /** Reset on a feed, with a dictionary. */
    method Start(feed: Feed, dict: seq<byte>)
      requires feed.Valid()
      modifies this
      ensures Valid() && input == feed.Rest() && pos == 0 && fails == feed.Fails()
      ensures About(inf[(dict, feed.Rest())])
    {
      this.feed, input, pos, fails := feed, feed.Rest(), 0, feed.Fails();
      reliable := steady && !fails;
      match inf[(dict, input)] {
        case Done(out, n) => todo, used, good := out, n, 0 < n <= |input|;
        case Bad(out) => todo, used, good := out, 0, false;
      }
    }

    /** The next at most `n` bytes, in whatever pieces the inflater likes; the end may come with the last of them. */
    method Read(n: nat) returns (data: seq<byte>, err: Err)
      requires Valid()
      modifies this`pos, this`todo, this`feed
      ensures Valid() && |data| <= n && data + todo == old(todo)
      ensures err == Ok || err == Eof || err == Broken
      ensures err == Eof ==> good && todo == [] && pos == used
      ensures reliable && n > 0 && err == Ok ==> data != []
      ensures reliable && err == Broken ==> !good
      ensures n == 0 && err == Ok ==> todo != []
    {
      var k := if n < |todo| then n else |todo|;
      data, todo := todo[..k], todo[k..];
      if todo != [] {
        err := Ok;
      } else if good {
        var onward := feed.Onward(used - pos);
        if onward.None? {
          err := Broken; // What the last of the stream needed, the source did not give.
        } else {
          feed, pos, err := onward.value, used, Eof;
        }
      } else {
        err := if k > 0 then Ok else Broken;
      }
    }
  }

  /** The message in progress: the history when it began, its input, its output so far. */
  datatype Progress = Progress(hist: seq<byte>, whole: seq<byte>, total: seq<byte>)

  class Decompressor {
    const reader: Reader
    const scratch: Window
    var output: seq<byte>
    var cap: nat
    var window: Option<Window>
    var kept: nat
    var inLen: nat
    var streaming: bool
    var active: bool
    var done: bool

    ghost var msg: Progress

    constructor (reader: Reader)
      requires reader.Valid()
      ensures this.reader == reader && fresh(scratch) && Idle()
    {
      this.reader := reader;
      scratch := new Window(0);
      output, cap, window, kept, inLen := [], 0, None, 0, 0;
      streaming, active, done := false, false, false;
    }

    /** The history a dictionary comes from holds this much. */
    function Size(): nat
      reads this
    {
      if window.Some? then window.value.Size() else WINDOW_SIZE
    }

    /** What is still to come, given what the reader is about to deliver. */
    ghost function Rest(): Option<seq<byte>>
      reads this, reader
    {
      if !reader.good then None
      else ToCome(reader.inf, Size(), msg.hist + msg.total, reader.todo, reader.input, reader.used)
    }

    ghost predicate Base()
      reads this, scratch, reader, if window.Some? then {window.value} else {}
    {
      && reader.Valid() && scratch.Valid() && scratch.bits == 0
      && (window.Some? ==> window.value != scratch && window.value.Valid())
    }

    ghost predicate Idle()
      reads this, scratch, reader, if window.Some? then {window.value} else {}
    {
      Base() && !active && !done && window == None && |output| <= cap
    }

    /** A message is in progress, in step with what it must inflate to. */
    ghost predicate Live()
      reads this, scratch, reader, if window.Some? then {window.value} else {}
    {
      && Base() && active && |output| <= cap
      && Message(reader.inf, Size(), msg.hist, msg.whole) == Prepend(msg.total, Rest())
      && (done ==> Rest() == Some([]) && !reader.fails)
      && kept <= |msg.total| && (streaming ==> kept == 0)
      && (window == None ==> msg.hist == [])
      && (if streaming then
            if window.Some? then window.value.Dict() == Last(msg.hist + msg.total, Size())
            else scratch.Dict() == Last(msg.total, Size())
          else
            window.Some? ==> window.value.Dict() == Last(msg.hist + msg.total[..kept], Size()))
    }

    /** The windows a call may change. */
    function Windows(): set<Window>
      reads this
    {
      {scratch} + if window.Some? then {window.value} else {}
    }

    /** finish: success leaves the whole output in the window, failure clears it. */
    method Finish(ok: bool, spare: nat)
      requires Base() && |output| <= cap && kept <= |output|
      requires active && window.Some? && ok ==>
                 window.value.Dict() == Last(msg.hist + if streaming then msg.total else output[..kept], Size())
      modifies this`window, this`active, this`done, this`streaming, Windows()
      ensures Idle()
      ensures old(window).Some? ==> old(window).value.Valid()
      ensures old(window).Some? && !ok ==> old(window).value.View() == old(window.value.View()).Reset()
      ensures old(active) && old(window).Some? && ok ==>
                old(window).value.Dict() == Last(msg.hist + if old(streaming) then msg.total else output, old(Size()))
    {
      if window.Some? {
        hide SizeOf, Last, IsSuffix;
        if !ok {
          window.value.Reset();
        } else if !streaming {
          KeepSlice(output, spare);
        }
      }
      window := None;
      active, done, streaming := false, false, false;
    }

    /** The end of a message: everything it was to give has been given. */
    method Succeed(spare: nat)
      requires Live() && Rest() == Some([]) && (!streaming ==> msg.total == output)
      modifies this`window, this`active, this`done, this`streaming, Windows()
      ensures Idle() && old(Expected()) == Some(msg.total)
      ensures old(window).Some? ==>
                old(window).value.Valid() && old(window).value.Dict() == Last(msg.hist + msg.total, old(Size()))
    {
      hide SizeOf, Last, Message;
      assert msg.total + [] == msg.total;
      Finish(true, spare);
    }

    method Fail(spare: nat)
      requires Live()
      modifies this`window, this`active, this`done, this`streaming, this`kept, Windows()
      ensures Idle()
      ensures old(window).Some? ==> old(window).value.Valid() && old(window).value.Dict() == []
    {
      hide SizeOf, Last, Message;
      kept := 0;
      Finish(false, spare);
    }

    /** begin; a message still in progress is abandoned. */
    method Begin(feed: Feed, w: Option<Window>, spare: nat)
      requires feed.Valid() && Base() && |output| <= cap && (window.Some? ==> active)
      requires w.Some? ==> w.value != scratch && w.value.Valid()
      modifies this, reader, Windows()
      ensures Live() && Begun(feed.Rest(), w, feed.Chunked?) && msg.hist == old(HistoryFor(w))
      ensures reader.fails == feed.Fails()
      ensures output == old(output) && cap == old(cap)
    {
      if active {
        kept := 0;
        Finish(false, spare);
      }
      done := false;
      window := None;
      Open(feed, w);
    }

    /** The history a message for `w` begins with: none if it abandons one on the same window. */
    ghost function HistoryFor(w: Option<Window>): seq<byte>
      reads this, if w.Some? then {w.value} else {}
    {
      if w.None? || (active && window == w) then [] else w.value.Dict()
    }

    ghost predicate Begun(input: seq<byte>, w: Option<Window>, stream: bool)
      reads this, if w.Some? then {w.value} else {}
    {
      && window == w && streaming == stream && !done && msg.total == [] && kept == 0
      && msg.whole == input && inLen == |msg.whole|
      && msg.hist == if w.Some? then w.value.Dict() else []
    }

    method Open(feed: Feed, w: Option<Window>)
      requires Idle() && feed.Valid()
      requires w.Some? ==> w.value != scratch && w.value.Valid()
      modifies this, reader, scratch
      ensures Live() && Begun(feed.Rest(), w, feed.Chunked?) && reader.fails == feed.Fails()
      ensures output == old(output) && cap == old(cap)
    {
      scratch.Reset();
      assert scratch.Size() == WINDOW_SIZE && scratch.Dict() == [];
      hide SizeOf, Last, Message;
      var dict := if w.Some? then w.value.Dict() else [];
      SetFields(w, feed.Chunked?, feed.Rest(), dict);
      reader.Start(feed, dict);
      assert msg.hist + msg.total == msg.hist && msg.hist + msg.total[..kept] == msg.hist;
      LastOfNone<byte>(Size());
      if w.Some? {
        LastOfLast(w.value.buf, Size(), Size());
      }
      StartMatches(dict, msg.whole);
      PrependNothing(Rest());
    }

    method SetFields(w: Option<Window>, stream: bool, input: seq<byte>, ghost dict: seq<byte>)
      modifies this
      ensures window == w && streaming == stream && kept == 0 && inLen == |input| && active && !done
      ensures msg == Progress(dict, input, [])
      ensures output == old(output) && cap == old(cap)
    {
      window, streaming, kept, inLen := w, stream, 0, |input|;
      active, done := true, false;
      msg := Progress(dict, input, []);
    }

    /** A stream just started delivers what the specification says the rest of the message is. */
    lemma StartMatches(dict: seq<byte>, rest: seq<byte>)
      requires reader.input == rest && dict == Last(msg.hist + msg.total, Size())
      requires reader.About(reader.inf[(dict, rest)])
      ensures Rest() == Message(reader.inf, Size(), msg.hist + msg.total, rest)
    {
    }

    /** Nothing but the output and the history moved on. */
    twostate predicate SameMessage()
      reads this
    {
      && window == old(window) && streaming == old(streaming) && active == old(active) && done == old(done)
      && kept == old(kept) && inLen == old(inLen) && output == old(output) && cap == old(cap)
      && msg.hist == old(msg.hist) && msg.whole == old(msg.whole)
    }

    /** One read of the inflater; streamed output enters its history as it is produced. */
    method Pull(n: nat, spare: nat) returns (data: seq<byte>, err: Err)
      requires Live() && !done
      modifies this`msg, reader`pos, reader`todo, reader`feed, Windows()
      ensures Live() && SameMessage() && msg.total == old(msg.total) + data
      ensures |data| <= n && (err == Ok || err == Eof || err == Broken)
      ensures |reader.todo| + |data| == old(|reader.todo|)
      ensures err == Eof ==> reader.good && reader.todo == [] && reader.pos == reader.used
      ensures reader.reliable && n > 0 && err == Ok ==> data != []
      ensures reader.reliable && err == Broken ==> !reader.good
      ensures n == 0 && err == Ok ==> reader.todo != []
    {
      hide SizeOf, Last, Message, Feed.Rest, Feed.Valid, Feed.Exhausted, Feed.Fails, Feed.Onward, Source.Rest,
        Source.Valid;
      ghost var before := msg.total;
      data, err := reader.Read(n);
      ghost var size := Size();
      ToComeDelivered(reader.inf, size, msg.hist + before, data, reader.todo, reader.input, reader.used);
      PrependTwice(before, data,
        ToCome(reader.inf, size, msg.hist + before + data, reader.todo, reader.input, reader.used));
      msg := msg.(total := before + data);
      assert msg.hist + msg.total == msg.hist + before + data;
      if data != [] && streaming {
        Keep(data, before, spare);
      }
      assert data == [] ==> msg.total == before;
      assert msg.total[..kept] == before[..kept];
    }

    method Keep(data: seq<byte>, ghost before: seq<byte>, spare: nat)
      requires Base() && data != [] && streaming
      requires if window.Some? then window.value.Dict() == Last(msg.hist + before, Size())
        else scratch.Dict() == Last(before, Size())
      modifies Windows()
      ensures Base()
      ensures if window.Some? then window.value.Dict() == Last(msg.hist + before + data, Size())
        else scratch.Dict() == Last(before + data, Size())
    {
      assert scratch.Size() == WINDOW_SIZE;
      hide SizeOf, Last, Message;
      if window.Some? {
        LastAppend(msg.hist + before, data, Size());
        window.value.Remember(data, spare);
      } else {
        LastAppend(before, data, Size());
        scratch.Remember(data, spare);
      }
    }

    /** dict: the dictionary for a reset inside the message, with the `data` just produced in it. */
    method Dictionary(data: seq<byte>, spare: nat) returns (dict: seq<byte>)
      requires Live() && (!streaming ==> msg.total == output + data)
      modifies this`kept, Windows()
      ensures Live() && window == old(window) && (!streaming ==> msg.total == output + data)
      ensures dict == Last(msg.hist + msg.total, Size())
    {
      assert scratch.Size() == WINDOW_SIZE;
      hide SizeOf, Last, Message;
      if streaming {
        dict := if window.Some? then window.value.Dict() else scratch.Dict();
        assert window.None? ==> msg.hist + msg.total == msg.total;
      } else {
        var out := output + data;
        if window.Some? {
          KeepSlice(out, spare);
          kept := |out|;
          assert msg.total[..kept] == out;
          dict := window.value.Dict();
        } else {
          dict := Last(out, WINDOW_SIZE);
          assert msg.hist + msg.total == msg.total;
        }
      }
    }

    /** The output so far enters the window from where it was last kept. */
    method KeepSlice(out: seq<byte>, spare: nat)
      requires window.Some? && window.value.Valid() && kept <= |out|
      modifies window.value
      ensures window.value.Valid()
      ensures old(window.value.Dict()) == Last(msg.hist + out[..kept], Size()) ==>
                window.value.Dict() == Last(msg.hist + out, Size())
    {
      hide SizeOf, Last;
      LastAppend(msg.hist + out[..kept], out[kept..], Size());
      assert msg.hist + out[..kept] + out[kept..] == msg.hist + out;
      if out[kept..] == [] {
        assert out[..kept] == out;
      }
      window.value.Remember(out[kept..], spare);
    }

    /** A final block inside the message: go on with the message so far as the dictionary. */
    method Restart(data: seq<byte>, spare: nat)
      requires Live() && !done && (!streaming ==> msg.total == output + data)
      requires reader.good && reader.todo == [] && reader.pos == reader.used < |reader.input|
      modifies this`kept, reader, Windows()
      ensures Live() && window == old(window) && msg == old(msg) && (!streaming ==> msg.total == output + data)
      ensures |reader.input| < old(|reader.input|) && reader.fails == old(reader.fails)
        && reader.reliable == old(reader.reliable)
    {
      hide SizeOf, Last, Message;
      assert msg.hist + msg.total + [] == msg.hist + msg.total;
      PrependNothing(Message(reader.inf, Size(), msg.hist + msg.total, reader.input[reader.used..]));
      var dict := Dictionary(data, spare);
      ghost var rest := reader.input[reader.pos..];
      reader.Start(reader.feed, dict);
      StartMatches(dict, rest);
    }

    /** What the message must inflate to. */
    ghost function Expected(): Option<seq<byte>>
      reads this, reader
    {
      Message(reader.inf, Size(), msg.hist, msg.whole)
    }

    /** Less is left: of this stream, or of the input behind it. */
    twostate predicate Progressed()
      reads this, reader
    {
      || |reader.input| < old(|reader.input|)
      || (|reader.input| == old(|reader.input|) && |reader.todo| < old(|reader.todo|))
    }

    /**
     * Read: the next output, then end of file with no data. A failure clears
     * the window; the end leaves all of the output in it.
     */
    method Read(n: nat, spare: nat) returns (data: seq<byte>, err: Err)
      requires if active then Live() && (!streaming ==> msg.total == output) else Idle()
      modifies this`window, this`kept, this`streaming, this`active, this`done, this`msg, reader, Windows()
      ensures err == NoMessage <==> !old(active)
      ensures reader.fails == old(reader.fails) && reader.reliable == old(reader.reliable)
      ensures err == NoMessage ==> data == [] && Idle()
      ensures err == Ok || err == Eof || err == Broken || err == NoMessage
      ensures err == Ok ==>
                && Live() && window == old(window) && streaming == old(streaming)
                && msg == old(msg).(total := old(msg).total + data) && data != []
                && |data| <= n && Progressed()
      ensures err == Eof ==>
                && Idle() && data == [] && msg == old(msg) && old(Expected()) == Some(msg.total) && !reader.fails
                && (old(window).Some? ==>
                      old(window).value.Valid() && old(window).value.Dict() == Last(msg.hist + msg.total, old(Size())))
      ensures err == Broken ==>
                && Idle() && data == []
                && (old(window).Some? ==> old(window).value.Valid() && old(window).value.Dict() == [])
                && (reader.reliable && n > 0 ==> old(Expected()) == None)
      ensures reader.reliable && old(active) && old(Expected()).Some? ==>
                (err == Broken <==> n == 0 && old(Rest()) != Some([]))
    {
      hide SizeOf, Last, Message, Feed.Rest, Feed.Valid, Feed.Exhausted, Feed.Fails, Feed.Onward, Source.Rest,
        Source.Valid;
      if !active {
        return [], NoMessage;
      }
      if done {
        Succeed(spare);
        return [], Eof;
      }
      NothingToCome();
      ghost var w0, msg0 := window, msg;
      data, err := [], Ok;
      var again := true;
      while again
        invariant reader.fails == old(reader.fails) && reader.reliable == old(reader.reliable)
        invariant again ==> Live() && !done && window == w0 && msg == msg0 && streaming == old(streaming)
        invariant again && !streaming ==> msg.total == output
        invariant again ==>
          |reader.input| < old(|reader.input|)
          || (|reader.input| == old(|reader.input|) && |reader.todo| <= old(|reader.todo|))
        invariant !again ==> Answered(n, data, err, w0)
        decreases again, |reader.input|
      {
        data, err, again := Turn(n, spare);
      }
    }

    /** How a read answers. */
    twostate predicate Answered(n: nat, data: seq<byte>, err: Err, w: Option<Window>)
      reads this, reader, scratch, if window.Some? then {window.value} else {}, if w.Some? then {w.value} else {}
    {
      match err
      case Ok =>
        && Live() && window == w && streaming == old(streaming)
        && msg == old(msg).(total := old(msg).total + data) && data != []
        && |data| <= n && Progressed()
      case Eof =>
        && Idle() && data == [] && msg == old(msg) && old(Expected()) == Some(msg.total) && !reader.fails
        && (w.Some? ==>
              w.value.Valid() && w.value.Dict() == Last(msg.hist + msg.total, old(Size())))
      case Broken =>
        && Idle() && data == []
        && (w.Some? ==> w.value.Valid() && w.value.Dict() == [])
        && (reader.reliable ==> old(Expected()) == None || (n == 0 && old(Expected()) != Some(old(msg.total))))
      case _ => false
    }

    /** One turn of Read's loop; `again` when a stream ended with nothing to show and the next one has been started. */
    method Turn(n: nat, spare: nat) returns (data: seq<byte>, err: Err, again: bool)
      requires Live() && !done && (!streaming ==> msg.total == output)
      modifies this`window, this`kept, this`streaming, this`active, this`done, this`msg, reader, Windows()
      ensures reader.fails == old(reader.fails) && reader.reliable == old(reader.reliable)
      ensures again ==> Live() && !done && window == old(window) && msg == old(msg) && streaming == old(streaming)
      ensures again ==> |reader.input| < old(|reader.input|)
      ensures !again ==> Answered(n, data, err, old(window))
    {
      hide SizeOf, Last, Message, Feed.Rest, Feed.Valid, Feed.Exhausted, Feed.Fails, Feed.Onward, Source.Rest,
        Source.Valid;
      data, err := Pull(n, spare);
      again := false;
      if err == Eof {
        reader.feed.ExhaustedIsEmpty();
        if reader.feed.Exhausted() {
          if data == [] {
            Succeed(spare);
            return [], Eof, false;
          }
          done := true;
          return data, Ok, false;
        }
        Restart(data, spare);
        return data, Ok, data == [];
      }
      if err == Broken || data == [] {
        if n == 0 && err == Ok {
          MoreToCome();
        }
        Fail(spare);
        return [], Broken, false;
      }
    }

    /** Output not delivered yet is output still to come. */
    lemma MoreToCome()
      requires Live() && reader.todo != []
      ensures Expected() != Some(msg.total)
    {
      hide Last, Message;
    }

    /** What is still to come, in terms of what the message inflates to. */
    lemma NothingToCome()
      requires Live()
      ensures Rest() == Some([]) <==> Expected() == Some(msg.total)
    {
      hide Last, Message;
      if Rest() == Some([]) {
        assert msg.total + [] == msg.total;
      }
    }

    /** projected: the output still to come, if it keeps the ratio it has had. */
    function Projected(): nat
      reads this, reader
    {
      if streaming || reader.pos > |reader.input| then 0
      else
        var remaining := |reader.input| - reader.pos;
        var consumed := inLen - remaining;
        if consumed <= 0 then 0 else |output| * remaining / consumed
    }

    /** grow: room for at least `n` more bytes; `spare` is what the pool rounds up by. */
    method Grow(n: nat, spare: nat)
      requires |output| <= cap
      modifies this`cap
      ensures cap - |output| >= n && cap >= old(cap)
    {
      if cap - |output| < n {
        cap := |output| + n + spare;
      }
    }

    /** How much the next read asks for: the spare capacity, but no more than one byte past the limit. */
    method Room(maxSize: nat, spare: nat) returns (size: nat)
      requires |output| <= cap && |output| <= maxSize
      modifies this`cap
      ensures 0 < size && |output| + size <= cap && |output| + size <= maxSize + 1
    {
      if cap == |output| {
        var p := Projected();
        Grow(Max(32768, Max(|output| / 2, p + p / 16)), spare);
      }
      size := cap - |output|;
      if maxSize - |output| < size {
        size := maxSize - |output| + 1;
      }
    }

    static function Max(a: nat, b: nat): nat { if a > b then a else b }

    static function SizeFor(w: Option<Window>): nat { if w.Some? then w.value.Size() else WINDOW_SIZE }

    /** A piece of output joins the rest: too much of it ends the message, and so does the last of it. */
    method Append(data: seq<byte>, maxSize: nat, spare: nat) returns (out: seq<byte>, err: Err, more: bool)
      requires Live() && !streaming && msg.total == output + data && |output| + |data| <= cap && |output| <= maxSize
      modifies this`output, this`window, this`active, this`done, this`streaming, this`kept, Windows()
      ensures more ==>
                && Live() && !streaming && !done && window == old(window)
                && output == msg.total == old(output) + data && |output| <= maxSize
      ensures !more ==> Idle() && (err == Ok || err == TooLarge)
      ensures !more && err == Ok ==> out == msg.total && |out| <= maxSize && old(Expected()) == Some(out)
      ensures !more && err == TooLarge && old(Expected()).Some? ==> |old(Expected()).value| > maxSize
      ensures !more && old(window).Some? ==>
                && old(window).value.Valid()
                && old(window).value.Dict() == if err == Ok then Last(msg.hist + out, old(Size())) else []
    {
      hide SizeOf, Last, Message, Reader.Valid;
      output := output + data;
      if |output| > maxSize {
        Fail(spare);
        return [], TooLarge, false;
      }
      if done {
        Succeed(spare);
        return output, Ok, false;
      }
      return [], Ok, true;
    }

    /** The loop of Decompress. */
    method Collect(maxSize: nat, spare: nat) returns (out: seq<byte>, err: Err)
      requires Live() && !streaming && msg.total == output && |output| <= maxSize
      modifies this, reader, Windows()
      ensures Idle() && (err == Ok || err == TooLarge || err == Broken) && reader.fails == old(reader.fails)
        && reader.reliable == old(reader.reliable)
      ensures err == Ok ==> |out| <= maxSize && old(Expected()) == Some(out)
      ensures reader.reliable && old(Expected()).Some? && |old(Expected()).value| <= maxSize ==> err == Ok
      ensures reader.reliable && err == Broken ==> old(Expected()) == None
      ensures old(window).Some? ==>
                && old(window).value.Valid()
                && old(window).value.Dict() == if err == Ok then Last(old(msg.hist) + out, old(Size())) else []
    {
      hide SizeOf, Last, Message, Feed.Rest, Feed.Valid, Feed.Exhausted, Feed.Fails, Feed.Onward, Source.Rest,
        Source.Valid;
      ghost var msg0, w0 := msg, window;
      while true
        invariant Live() && !streaming && window == w0
        invariant msg == msg0.(total := output) && |output| <= maxSize && reader.fails == old(reader.fails)
          && reader.reliable == old(reader.reliable)
        decreases maxSize - |output|
      {
        var size := Room(maxSize, spare);
        var data;
        data, err := Read(size, spare);
        if err == Ok {
          var more;
          out, err, more := Append(data, maxSize, spare);
          if !more {
            return;
          }
        } else if err == Eof {
          return output, Ok;
        } else {
          return [], Broken;
        }
      }
    }

    /**
     * Decompress: succeeds exactly when the message inflates within the limit.
     * Success leaves the output in the window; every failure clears it, except
     * a negative limit, which touches nothing.
     */
    method Decompress(payload: seq<byte>, maxSize: int, w: Option<Window>, spare: nat)
      returns (out: seq<byte>, err: Err)
      requires Base() && |output| <= cap && (window.Some? ==> active)
      requires w.Some? ==> w.value != scratch && w.value.Valid()
      modifies this, reader, Windows(), if w.Some? then {w.value} else {}
      ensures err == Ok || err == TooLarge || err == Broken || err == InvalidLimit
      ensures err == InvalidLimit <==> maxSize < 0
      ensures err == InvalidLimit && w.Some? ==> w.value.View() == old(w.value.View())
      ensures err != InvalidLimit ==> Idle() && (w.Some? ==> w.value.Valid())
      ensures
        var expected := Message(reader.inf, SizeFor(w), old(HistoryFor(w)), payload + INFLATE_TAIL);
        && (err == Ok ==> |out| <= maxSize && expected == Some(out))
        && (reader.steady && maxSize >= 0 && expected.Some? && |expected.value| <= maxSize ==> err == Ok)
        && (reader.steady && err == Broken ==> expected == None)
      ensures err == Ok ==>
        |out| <= maxSize && InflatesTo(reader.inf, SizeFor(w), old(HistoryFor(w)), payload + INFLATE_TAIL, out)
      ensures reader.steady ==>
        forall x :: InflatesTo(reader.inf, SizeFor(w), old(HistoryFor(w)), payload + INFLATE_TAIL, x) ==>
          (|x| <= maxSize ==> err == Ok && out == x) && err != Broken
      ensures err == Ok && w.Some? ==> w.value.Dict() == Last(old(HistoryFor(w)) + out, SizeFor(w))
      ensures err != Ok && err != InvalidLimit && w.Some? ==> w.value.Dict() == []
    {
      if maxSize < 0 {
        return [], InvalidLimit;
      }
      hide SizeOf, Last, Message, InflatesTo, INFLATE_TAIL;
      MessageIsCuts(reader.inf, SizeFor(w), HistoryFor(w), payload + INFLATE_TAIL);
      Begin(Slice(payload + INFLATE_TAIL), w, spare);
      Reserve(Min(4 * |payload|, maxSize + 1), spare);
      out, err := Collect(maxSize, spare);
    }

    /** An empty output with room for the likely result. */
    method Reserve(hint: nat, spare: nat)
      requires Live() && !streaming && msg.total == []
      modifies this`output, this`cap
      ensures Live() && output == [] && cap >= hint
    {
      output := [];
      if cap < hint {
        cap := hint + spare;
      }
    }

    /** What a payload inflates to for a decompressor about to start on it. */
    static ghost function Decoded(d: Decompressor, w: Option<Window>, payload: seq<byte>): Option<seq<byte>>
      reads d, if w.Some? then {w.value} else {}
    {
      Message(d.reader.inf, d.SizeFor(w), d.HistoryFor(w), payload + INFLATE_TAIL)
    }

    /**
     * Begin on a chunk source, then Read with buffers of the given sizes to
     * the end: however the payload is cut into chunks, streaming gives what
     * slice mode gives; a source that fails can only fail the message.
     */
    method Drain(chunks: seq<seq<byte>>, fails: bool, w: Option<Window>, sizes: seq<nat>, size: nat, spare: nat)
      returns (out: seq<byte>, err: Err)
      requires Base() && |output| <= cap && (window.Some? ==> active)
      requires w.Some? ==> w.value != scratch && w.value.Valid()
      modifies this, reader, Windows(), if w.Some? then {w.value} else {}
      ensures Idle() && (w.Some? ==> w.value.Valid()) && (err == Eof || err == Broken) && (fails ==> err == Broken)
      ensures
        var expected := Message(reader.inf, SizeFor(w), old(HistoryFor(w)), Flatten(chunks) + INFLATE_TAIL);
        && (err == Eof ==> expected == Some(out))
        && (reader.steady && !fails && expected.Some? && (AllPositive(sizes, size) || expected == Some([])) ==>
          err == Eof)
        && (FirstSize(sizes, size) == 0 && expected != Some([]) ==> err == Broken)
      ensures err == Eof ==>
        InflatesTo(reader.inf, SizeFor(w), old(HistoryFor(w)), Flatten(chunks) + INFLATE_TAIL, out)
      ensures reader.steady && !fails && AllPositive(sizes, size) ==>
        forall x :: InflatesTo(reader.inf, SizeFor(w), old(HistoryFor(w)), Flatten(chunks) + INFLATE_TAIL, x) ==>
          err == Eof && out == x
      ensures err == Eof && w.Some? ==> w.value.Dict() == Last(old(HistoryFor(w)) + out, SizeFor(w))
      ensures err != Eof && w.Some? ==> w.value.Dict() == []
    {
      hide SizeOf, Last, Message, InflatesTo, INFLATE_TAIL;
      MessageIsCuts(reader.inf, SizeFor(w), HistoryFor(w), Flatten(chunks) + INFLATE_TAIL);
      var src := Source(chunks, [], INFLATE_TAIL, false, fails);
      assert src.Rest() == Flatten(chunks) + INFLATE_TAIL by {
        assert [] + Flatten(chunks) == Flatten(chunks);
      }
      Begin(Chunked(src), w, spare);
      out, err := ReadAll(sizes, size, spare);
    }

    static predicate AllPositive(sizes: seq<nat>, size: nat) {
      size > 0 && forall i :: 0 <= i < |sizes| ==> sizes[i] > 0
    }

    static function FirstSize(sizes: seq<nat>, size: nat): nat { if sizes == [] then size else sizes[0] }

    /** Buffers of the given sizes, then of `size`; an empty one before the end fails the message. */
    method ReadAll(sizes: seq<nat>, size: nat, spare: nat) returns (out: seq<byte>, err: Err)
      requires Live() && !done && streaming && msg.total == []
      modifies this, reader, Windows()
      ensures Idle() && (err == Eof || err == Broken) && reader.fails == old(reader.fails)
        && reader.reliable == old(reader.reliable)
      ensures err == Eof ==> old(Expected()) == Some(out) && !reader.fails
      ensures reader.reliable && old(Expected()).Some? && (AllPositive(sizes, size) || old(Expected()) == Some([])) ==>
        err == Eof
      ensures FirstSize(sizes, size) == 0 && old(Expected()) != Some([]) ==> err == Broken
      ensures old(window).Some? ==>
                && old(window).value.Valid()
                && old(window).value.Dict() == if err == Eof then Last(old(msg.hist) + out, old(Size())) else []
    {
      hide SizeOf, Last, Message, Feed.Rest, Feed.Valid, Feed.Exhausted, Feed.Fails, Feed.Onward, Source.Rest,
        Source.Valid;
      ghost var msg0, w0 := msg, window;
      out := [];
      var i := 0;
      while true
        invariant Live() && streaming && window == w0
        invariant msg == msg0.(total := out) && i <= |sizes| && reader.fails == old(reader.fails)
          && reader.reliable == old(reader.reliable)
        invariant Expected() == old(Expected())
        invariant out == [] ==> i == 0 && !done
        invariant out != [] ==> FirstSize(sizes, size) > 0
        decreases |reader.input|, |reader.todo|
      {
        var data;
        data, err := Read(if i < |sizes| then sizes[i] else size, spare);
        i := if i < |sizes| then i + 1 else i;
        if err != Ok {
          return;
        }
        out := out + data;
      }
    }
  }
}
