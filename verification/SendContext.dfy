/** The compression side of encodeData, fragment and preparedFrame in ws/conn_write.go and ws/prepared.go. */
module SendContexts {
  import opened Bytes
  import opened DeflateWindow
  import opened Flate
  import opened Compressors
  import opened PendingHistory
  import opened Takeover

  class SendContext {
    const enc: Encoder
    const shared: bool
    const deferred: Option<Deferred> // The send window and its debts, when takeover was negotiated.
    var attached: Option<Compressor>

    ghost function Repr(): set<object>
      reads this
    {
      {this}
      + (if deferred.Some? then {deferred.value, deferred.value.window, deferred.value.slots} else {})
      + (if attached.Some? then {attached.value} else {})
    }

    ghost predicate Valid()
      reads this, Repr()
    {
      && (deferred.Some? ==> deferred.value.Valid())
      && (attached.Some? ==> attached.value.enc == enc)
    }

    ghost function View(): Sender<Window>
      requires Valid()
      reads this, Repr()
    {
      Sender(enc, shared,
             if deferred.Some? then Some(deferred.value.View()) else None,
             if attached.Some? then Some(attached.value.State()) else None)
    }

    constructor (enc: Encoder, shared: bool, deferred: Option<Deferred>)
      requires deferred.Some? ==> deferred.value.Valid()
      ensures Valid() && this.enc == enc && this.shared == shared && this.deferred == deferred
      ensures View() == Sender(enc, shared, if deferred.Some? then Some(deferred.value.View()) else None, None)
    {
      this.enc, this.shared, this.deferred := enc, shared, deferred;
      attached := None;
    }

    /** One chunk of a message of the connection's own: debts first, then the compressor it has or one from the pool. */
    method CompressChunk(payload: seq<byte>, final: bool, spare: nat, ghost w: Window) returns (out: seq<byte>)
      requires Valid() && (deferred.Some? ==> deferred.value.window == w)
      modifies Repr()
      ensures Valid() && View() == old(View()).Settled().Sent(w, payload, final)
      ensures
        var piece := old(View()).Settled().Piece(w, payload);
        out == if final && |piece| >= 4 then piece[..|piece| - 4] else piece
    {
      if deferred.Some? {
        deferred.value.ApplyPending(spare);
      }
      var comp: Compressor;
      if attached.Some? {
        comp := attached.value;
      } else {
        comp := new Compressor(enc);
      }
      out := comp.CompressChunk(payload, if deferred.Some? then Some(deferred.value.window) else None, final, spare);
      if final && (shared || deferred.None?) {
        comp.Reset();
        attached := None;
      } else {
        attached := Some(comp);
      }
    }

    /** preparedFrame's bookkeeping for a compressed variant. */
    method NotePrepared(payload: seq<byte>, spare: nat)
      requires Valid() && deferred.Some?
      modifies Repr()
      ensures Valid() && View() == old(View()).(lazy := Some(Noted(old(View()).lazy.value, payload)))
    {
      deferred.value.NotePrepared(payload, spare);
    }
  }
}
