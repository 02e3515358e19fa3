/**
 * ws/conn_compress.go: prepared payloads sent but not yet copied into the send
 * window. At most eight are held; older ones the later ones cover are dropped.
 */
module PendingHistory {
  import opened Bytes
  import opened DeflateWindow

  const SLOTS: nat := 8

  /** A send window and the payloads it still owes, oldest first. */
  datatype Lazy = Lazy(window: History, pending: seq<seq<byte>>) {
    predicate Valid() { window.Valid() && |pending| <= SLOTS }

    /** The history the peer has: what the window would be had it been kept up to date. */
    function Meaning(): seq<byte> { Last(window.data + Flatten(pending), window.size) }
  }

  /** Add each payload in order. */
  function AddAll(h: History, ps: seq<seq<byte>>): History
    decreases |ps|
  {
    if ps == [] then h else AddAll(h.Remember(ps[0]), ps[1..])
  }

  /** The oldest payloads go while the others and `n` more bytes still fill the window. */
  function DropCovered(ps: seq<seq<byte>>, n: nat, size: nat): (qs: seq<seq<byte>>)
    ensures |qs| <= |ps|
  {
    if ps != [] && |Flatten(ps[1..])| + n >= size then DropCovered(ps[1..], n, size) else ps
  }

  function Flushed(l: Lazy): Lazy { Lazy(AddAll(l.window, l.pending), []) }

  /** notePrepared. */
  function Noted(l: Lazy, p: seq<byte>): Lazy {
    if |p| >= l.window.size then l.(pending := [p])
    else
      var kept := l.(pending := DropCovered(l.pending, |p|, l.window.size));
      var room := if |kept.pending| == SLOTS then Flushed(kept) else kept;
      room.(pending := room.pending + [p])
  }

  lemma {:induction false} AddAllIsSuffix(h: History, ps: seq<seq<byte>>)
    requires h.Valid()
    ensures AddAll(h, ps).data == Last(h.data + Flatten(ps), h.size)
    ensures AddAll(h, ps).size == h.size && AddAll(h, ps).Valid() && AddAll(h, ps).gen >= h.gen
    decreases |ps|
  {
    if ps == [] {
      assert h.data + Flatten(ps) == h.data;
    } else {
      AddAllIsSuffix(h.Remember(ps[0]), ps[1..]);
      assert (h.data + ps[0]) + Flatten(ps[1..]) == h.data + Flatten(ps);
      if ps[0] == [] {
        assert h.data + ps[0] == h.data;
      } else {
        LastAppend(h.data + ps[0], Flatten(ps[1..]), h.size);
      }
    }
  }

  /** Copying the deferred payloads changes nothing the peer could tell. */
  lemma FlushKeepsMeaning(l: Lazy)
    requires l.Valid()
    ensures Flushed(l).Valid() && Flushed(l).Meaning() == l.Meaning() == Flushed(l).window.data
    ensures Flushed(l).window.size == l.window.size
  {
    AddAllIsSuffix(l.window, l.pending);
    assert Flushed(l).window.data + Flatten([]) == Flushed(l).window.data;
  }

  /** A dropped payload was already out of reach. */
  lemma {:induction false} DropIsInvisible(d: seq<byte>, ps: seq<seq<byte>>, p: seq<byte>, size: nat)
    ensures Last(d + Flatten(DropCovered(ps, |p|, size)) + p, size) == Last(d + Flatten(ps) + p, size)
    decreases |ps|
  {
    if ps != [] && |Flatten(ps[1..])| + |p| >= size {
      DropIsInvisible(d, ps[1..], p, size);
      var tail := Flatten(ps[1..]) + p;
      assert d + Flatten(ps[1..]) + p == d + tail;
      assert d + Flatten(ps) + p == (d + ps[0]) + tail;
      LastOfSuffix(d, tail, size);
      LastOfSuffix(d + ps[0], tail, size);
    }
  }

  /** Lazy refines eager: noting a payload is adding it. */
  lemma NotedIsAdded(l: Lazy, p: seq<byte>)
    requires l.Valid()
    ensures Noted(l, p).Valid()
    ensures Noted(l, p).Meaning() == Last(l.Meaning() + p, l.window.size)
    ensures Noted(l, p).window.size == l.window.size
  {
    hide Last;
    var size := l.window.size;
    var all := l.window.data + Flatten(l.pending);
    LastAppend(all, p, size);
    if |p| >= size {
      FlattenOne(p);
      LastOfSuffix(l.window.data, p, size);
      LastOfSuffix(all, p, size);
    } else {
      var kept := l.(pending := DropCovered(l.pending, |p|, size));
      var room := if |kept.pending| == SLOTS then Flushed(kept) else kept;
      DropIsInvisible(l.window.data, l.pending, p, size);
      FlushKeepsMeaning(kept);
      assert room.Meaning() == kept.Meaning();
      MeaningExtends(room, p);
      MeaningExtends(kept, p);
      MeaningExtends(l, p);
    }
  }

  lemma MeaningExtends(l: Lazy, p: seq<byte>)
    ensures l.(pending := l.pending + [p]).Meaning() == Last(l.Meaning() + p, l.window.size)
    ensures Last(l.Meaning() + p, l.window.size) == Last(l.window.data + Flatten(l.pending) + p, l.window.size)
  {
    FlattenAppend(l.pending, [p]);
    FlattenOne(p);
    LastAppend(l.window.data + Flatten(l.pending), p, l.window.size);
    assert l.window.data + (Flatten(l.pending) + p) == l.window.data + Flatten(l.pending) + p;
  }

  /** What happens to a deferred history between messages of the connection's own. */
  datatype Event = Note(p: seq<byte>) | Flush

  function After(l: Lazy, es: seq<Event>): Lazy {
    if es == [] then l
    else
      var before := After(l, es[..|es| - 1]);
      match es[|es| - 1] case Note(p) => Noted(before, p) case Flush => Flushed(before)
  }

  function Noteds(es: seq<Event>): seq<byte> {
    if es == [] then []
    else Noteds(es[..|es| - 1]) + match es[|es| - 1] case Note(p) => p case Flush => []
  }

  lemma MeaningIsLast(l: Lazy)
    ensures Last(l.Meaning() + [], l.window.size) == l.Meaning()
  {
    assert l.Meaning() + [] == l.Meaning();
  }

  /** Over any run, the window and its debts mean the last bytes of everything sent, in at most eight slots. */
  lemma {:induction false} LazyRefinesEager(l: Lazy, es: seq<Event>)
    requires l.Valid()
    ensures After(l, es).Valid() && After(l, es).window.size == l.window.size
    ensures After(l, es).Meaning() == Last(l.Meaning() + Noteds(es), l.window.size)
  {
    hide Last, Noted, Flushed, Lazy.Meaning, Lazy.Valid;
    if es == [] {
      MeaningIsLast(l);
    } else {
      var before := es[..|es| - 1];
      LazyRefinesEager(l, before);
      var b := After(l, before);
      match es[|es| - 1]
      case Note(p) =>
        NotedIsAdded(b, p);
        LastAppend(l.Meaning() + Noteds(before), p, l.window.size);
        assert l.Meaning() + Noteds(before) + p == l.Meaning() + Noteds(es);
      case Flush =>
        FlushKeepsMeaning(b);
        assert Noteds(es) == Noteds(before);
    }
  }

  /** The payloads of the slots in use. */
  ghost function Payloads(slots: seq<Option<seq<byte>>>): seq<seq<byte>>
    requires forall i :: 0 <= i < |slots| ==> slots[i].Some?
  {
    seq(|slots|, i requires 0 <= i < |slots| => slots[i].value)
  }

  /** The send side's deferred history, as the connection stores it. */
  class Deferred {
    const window: Window
    const slots: array<Option<seq<byte>>> // Payloads of the prepared messages, oldest first.
    var npending: nat
    var pendingBytes: int

    ghost predicate Valid()
      reads this, window, slots
    {
      && window.Valid()
      && slots.Length == SLOTS && npending <= SLOTS
      && (forall i :: 0 <= i < npending ==> slots[i].Some?)
      && (forall i :: npending <= i < SLOTS ==> slots[i].None?)
      && pendingBytes == |Flatten(Payloads(slots[..npending]))|
    }

    ghost function View(): Lazy
      requires Valid()
      reads this, window, slots
    {
      Lazy(window.View(), Payloads(slots[..npending]))
    }

    constructor (window: Window)
      requires window.Valid()
      ensures Valid() && this.window == window && fresh(slots)
      ensures View() == Lazy(window.View(), [])
    {
      this.window := window;
      slots := new Option<seq<byte>>[SLOTS](_ => None);
      npending, pendingBytes := 0, 0;
    }

    /** applyPending. */
    method ApplyPending(spare: nat)
      requires Valid()
      modifies this, window, slots
      ensures Valid() && View() == Flushed(old(View()))
    {
      ghost var ps := Payloads(slots[..npending]);
      ghost var h := window.View();
      for i := 0 to npending
        invariant npending == old(npending) == |ps| && window.Valid() && slots.Length == SLOTS
        invariant forall j :: 0 <= j < i ==> slots[j].None?
        invariant forall j :: i <= j < npending ==> slots[j] == Some(ps[j])
        invariant forall j :: npending <= j < SLOTS ==> slots[j].None?
        invariant AddAll(window.View(), ps[i..]) == AddAll(h, ps)
      {
        assert ps[i..][0] == ps[i] && ps[i..][1..] == ps[i + 1..];
        window.Remember(slots[i].value, spare);
        slots[i] := None;
      }
      npending, pendingBytes := 0, 0;
      assert Payloads(slots[..npending]) == [];
    }

    /** dropPending. */
    method DropPending()
      requires Valid()
      modifies this, slots
      ensures Valid() && View() == old(View()).(pending := [])
    {
      for i := 0 to npending
        invariant npending == old(npending) && slots.Length == SLOTS
        invariant forall j :: 0 <= j < i || npending <= j < SLOTS ==> slots[j].None?
      {
        slots[i] := None;
      }
      npending, pendingBytes := 0, 0;
      assert Payloads(slots[..npending]) == [];
    }

    /** dropOldestPending: shift the slots down by one. */
    method DropOldestPending()
      requires Valid() && npending > 0
      modifies this, slots
      ensures Valid() && View() == old(View()).(pending := old(View()).pending[1..])
      ensures npending == old(npending) - 1
    {
      ghost var ps := Payloads(slots[..npending]);
      assert Flatten(ps) == ps[0] + Flatten(ps[1..]);
      pendingBytes := pendingBytes - |slots[0].value|;
      npending := npending - 1;
      forall i | 0 <= i < npending {
        slots[i] := slots[i + 1];
      }
      slots[npending] := None;
      assert Payloads(slots[..npending]) == ps[1..];
    }

    /** The loop of notePrepared. */
    method DropCoveredPending(n: nat)
      requires Valid()
      modifies this, slots
      ensures Valid()
      ensures View() == old(View()).(pending := DropCovered(old(View()).pending, n, window.Size()))
    {
      ghost var l := View();
      var size := window.Size();
      hide SizeOf, Flatten;
      while npending > 0 && pendingBytes - |slots[0].value| + n >= size
        invariant Valid() && View().window == l.window
        invariant DropCovered(View().pending, n, size) == DropCovered(l.pending, n, size)
        decreases npending
      {
        FirstOf(View().pending);
        DropOldestPending();
      }
      if npending > 0 {
        FirstOf(View().pending);
      }
    }

    /** A free slot takes the payload. */
    method Push(payload: seq<byte>)
      requires Valid() && npending < SLOTS
      modifies this, slots
      ensures Valid() && View() == old(View()).(pending := old(View()).pending + [payload])
    {
      ghost var ps := View().pending;
      FlattenAppend(ps, [payload]);
      FlattenOne(payload);
      slots[npending] := Some(payload);
      npending := npending + 1;
      pendingBytes := pendingBytes + |payload|;
      assert Payloads(slots[..npending]) == ps + [payload];
    }

    /** notePrepared: no slot index ever reaches the array's length. */
    method NotePrepared(payload: seq<byte>, spare: nat)
      requires Valid()
      modifies this, window, slots
      ensures Valid() && View() == Noted(old(View()), payload)
    {
      hide SizeOf, Flatten;
      var size := window.Size();
      if |payload| >= size {
        DropPending();
      } else {
        DropCoveredPending(|payload|);
        if npending == SLOTS {
          ApplyPending(spare);
        }
      }
      Push(payload);
    }
  }

  lemma FirstOf(ps: seq<seq<byte>>)
    requires ps != []
    ensures |Flatten(ps)| == |ps[0]| + |Flatten(ps[1..])|
  {
  }
}
