/** deflate/compressor.go: one encoder serving many windows, and when it may skip priming. */
module Compressors {
  import opened Bytes
  import opened DeflateWindow
  import opened Flate

  /**
   * A compressor between calls. `W` names windows. The encoder was primed with
   * `dict` and has since written and flushed `writes`.
   */
  datatype Comp<W(==)> = Comp(reach: nat, attached: Option<W>, gen: nat, mid: bool, dict: seq<byte>,
                              writes: seq<seq<byte>>) {
    /** What the encoder has seen, as the decoder would. */
    function Seen(): seq<byte> { dict + Flatten(writes) }
  }

  /** The dictionary worth priming with: no more than the encoder reaches. */
  function Priming(reach: nat, w: Option<History>): seq<byte> {
    match w case None => [] case Some(h) => Last(h.data, reach)
  }

  /** The decision at the head of CompressChunk. */
  predicate MustPrime<W>(c: Comp<W>, w: Option<W>, h: Option<History>) {
    !c.mid && (w.None? || h.None? || c.attached != w || h.value.gen != c.gen)
  }

  function Primed<W>(c: Comp<W>, w: Option<W>, h: Option<History>): Comp<W> {
    if MustPrime(c, w, h) then c.(dict := Priming(c.reach, h), writes := []) else c
  }

  /** The compressor after one chunk for window `w` holding `h`. */
  function Chunk<W>(c: Comp<W>, w: Option<W>, h: Option<History>, payload: seq<byte>, final: bool): Comp<W> {
    var p := Primed(c, w, h);
    p.(attached := w, mid := !final, writes := p.writes + [payload],
       gen := if h.Some? then h.value.Remember(payload).gen else p.gen)
  }

  /**
   * A message for a window goes on with the encoder as it is exactly when the
   * encoder was last used for that window, unchanged since; otherwise the
   * encoder starts afresh from the last bytes of the history. A message
   * without one always starts afresh, and within a message nothing changes.
   */
  lemma PrimesExactly<W>(c: Comp<W>, w: W, h: History)
    ensures !c.mid && c.attached == Some(w) && c.gen == h.gen ==> Primed(c, Some(w), Some(h)) == c
    ensures !c.mid && !(c.attached == Some(w) && c.gen == h.gen) ==>
      Primed(c, Some(w), Some(h)) == c.(dict := Last(h.data, c.reach), writes := [])
    ensures !c.mid ==> Primed(c, None, None) == c.(dict := [], writes := [])
    ensures c.mid ==> Primed(c, Some(w), Some(h)) == Primed(c, None, None) == c
  {
  }

  /** The compressor of deflate/compressor.go. */
  class Compressor {
    const enc: Encoder
    var attached: Option<Window>
    var gen: nat
    var mid: bool
    var dict: seq<byte>
    var writes: seq<seq<byte>>

    function State(): Comp<Window>
      reads this
    {
      Comp(enc.reach, attached, gen, mid, dict, writes)
    }

    constructor (enc: Encoder)
      ensures this.enc == enc && State() == Comp(enc.reach, None, 0, false, [], [])
    {
      this.enc := enc;
      attached, gen, mid, dict, writes := None, 0, false, [], [];
    }

    static function ViewOf(w: Option<Window>): Option<History>
      reads if w.Some? then {w.value} else {}
    {
      if w.Some? then Some(w.value.View()) else None
    }

    /** CompressChunk: the borrowed output is the piece the encoder emits, without its tail on the final chunk. */
    method CompressChunk(payload: seq<byte>, w: Option<Window>, final: bool, spare: nat) returns (output: seq<byte>)
      requires w.Some? ==> w.value.Valid()
      modifies this, if w.Some? then {w.value} else {}
      ensures w.Some? ==> w.value.Valid() && w.value.View() == old(w.value.View()).Remember(payload)
      ensures State() == Chunk(old(State()), w, old(ViewOf(w)), payload, final)
      ensures
        var p := Primed(old(State()), w, old(ViewOf(w)));
        var piece := enc.emit(p.dict, p.writes, payload);
        output == if final && |piece| >= 4 then piece[..|piece| - 4] else piece
    {
      hide Last, SizeOf;
      LastOfNone<byte>(enc.reach);
      if !mid && (w.None? || attached != w || w.value.gen != gen) {
        var d := if w.None? then [] else w.value.Dict();
        dict, writes := Last(d, enc.reach), []; // ResetDict
      }
      output := enc.emit(dict, writes, payload);
      writes := writes + [payload];
      attached, mid := w, !final;
      if w.Some? {
        w.value.Remember(payload, spare);
        gen := w.value.gen;
      }
      if final && |output| >= 4 {
        output := output[..|output| - 4];
      }
    }

    method Reset()
      modifies this
      ensures State() == old(State()).(attached := None, mid := false, dict := [], writes := [])
    {
      dict, writes := [], [];
      attached, mid := None, false;
    }
  }

  // ----- Coherence of the continuation cache -----

  /** The encoder's history and the window agree as far back as both go. */
  predicate Agree<W>(c: Comp<W>, h: History) {
    Last(c.Seen(), Min(c.reach, h.size)) == Last(h.data, Min(c.reach, h.size))
  }

  /** What a compressor may conclude from an unchanged generation. */
  predicate Coherent<W>(c: Comp<W>, w: W, h: History) {
    c.attached == Some(w) ==> c.gen <= h.gen && (c.gen == h.gen ==> Agree(c, h))
  }

  lemma SeenAfter<W>(c: Comp<W>, payload: seq<byte>)
    ensures c.(writes := c.writes + [payload]).Seen() == c.Seen() + payload
  {
    FlattenAppend(c.writes, [payload]);
    FlattenOne(payload);
    assert c.dict + (Flatten(c.writes) + payload) == c.dict + Flatten(c.writes) + payload;
  }

  /** The last `m` of an extension: the last `m - |p|` before it, then `p`. */
  lemma LastSplit<T>(a: seq<T>, p: seq<T>, m: nat)
    requires |p| <= m
    ensures Last(a + p, m) == Last(a, m - |p|) + p
  {
  }

  lemma SamePrefix<T>(a: seq<T>, b: seq<T>, p: seq<T>)
    ensures a + p == b + p <==> a == b
  {
    if a + p == b + p {
      assert |a| == |b|;
      assert a == (a + p)[..|a|] == (b + p)[..|b|] == b;
    }
  }

  /**
   * Exactly when a chunk leaves the compressor and the window it was given in
   * agreement: when they agreed, before it, on what the chunk does not cover.
   */
  lemma ChunkAgreesExactly<W>(c: Comp<W>, w: W, h: History, payload: seq<byte>, final: bool)
    requires h.Valid()
    ensures
      var p := Primed(c, Some(w), Some(h));
      var m := Min(c.reach, h.size);
      Agree(Chunk(c, Some(w), Some(h), payload, final), h.Remember(payload)) <==>
      (|payload| >= m || Last(p.Seen(), m - |payload|) == Last(h.data, m - |payload|))
  {
    hide Last;
    var p := Primed(c, Some(w), Some(h));
    var m := Min(c.reach, h.size);
    var c' := Chunk(c, Some(w), Some(h), payload, final);
    SeenAfter(p, payload);
    assert c'.Seen() == p.Seen() + payload;
    LastOfLast(h.data + payload, h.size, m);
    assert Last(h.Remember(payload).data, m) == Last(h.data + payload, m) by {
      if payload == [] { assert h.data + payload == h.data; }
    }
    if |payload| >= m {
      LastOfSuffix(p.Seen(), payload, m);
      LastOfSuffix(h.data, payload, m);
    } else {
      LastSplit(p.Seen(), payload, m);
      LastSplit(h.data, payload, m);
      SamePrefix(Last(p.Seen(), m - |payload|), Last(h.data, m - |payload|), payload);
    }
  }

  /** Priming, or an unchanged generation, is agreement. */
  lemma PrimedAgrees<W>(c: Comp<W>, w: W, h: History)
    requires h.Valid() && Coherent(c, w, h)
    requires c.mid ==> c.attached == Some(w) && c.gen == h.gen
    ensures Agree(Primed(c, Some(w), Some(h)), h)
  {
    if MustPrime(c, Some(w), Some(h)) {
      var p := Primed(c, Some(w), Some(h));
      assert p.Seen() == Last(h.data, c.reach);
      LastOfLast(h.data, c.reach, Min(c.reach, h.size));
    }
  }

  /** Agreement on the last `m` is agreement on the last `k` of them. */
  lemma AgreeOnFewer<T>(a: seq<T>, b: seq<T>, m: nat, k: nat)
    requires Last(a, m) == Last(b, m) && k <= m
    ensures Last(a, k) == Last(b, k)
  {
    LastOfLast(a, m, k);
    LastOfLast(b, m, k);
  }

  /** A chunk keeps coherence, unless it is in mid-message and the window is not the one the message left. */
  lemma ChunkKeepsCoherence<W>(c: Comp<W>, w: W, h: History, payload: seq<byte>, final: bool)
    requires h.Valid() && Coherent(c, w, h)
    requires c.mid ==> c.attached == Some(w) && c.gen == h.gen
    ensures Coherent(Chunk(c, Some(w), Some(h), payload, final), w, h.Remember(payload))
  {
    hide Last;
    PrimedAgrees(c, w, h);
    ChunkAgreesExactly(c, w, h, payload, final);
    var p, m := Primed(c, Some(w), Some(h)), Min(c.reach, h.size);
    if |payload| < m {
      AgreeOnFewer(p.Seen(), h.data, m, m - |payload|);
    }
  }

  /** Without that guard it fails: a window touched between two chunks of one message. */
  lemma TouchedMidMessageLosesCoherence()
    ensures
      var h := History(256, [], 0);
      var c := Comp(32768, None, 0, false, [], []);
      var c1 := Chunk(c, Some(0), Some(h), [0x61], false);
      var h1 := h.Remember([0x61]).Remember([0x62]);
      var c2 := Chunk(c1, Some(0), Some(h1), [0x63], true);
      && Coherent(c1, 0, h1) && c2.gen == h1.Remember([0x63]).gen
      && !Coherent(c2, 0, h1.Remember([0x63]))
  {
    var h := History(256, [], 0);
    var c := Comp(32768, None, 0, false, [], []);
    var c1 := Chunk(c, Some(0), Some(h), [0x61], false);
    var h1 := h.Remember([0x61]).Remember([0x62]);
    var c2 := Chunk(c1, Some(0), Some(h1), [0x63], true);
    SeenAfter(Primed(c, Some(0), Some(h)), [0x61]);
    SeenAfter(c1, [0x63]);
    assert c2.Seen() == [0x61, 0x63];
    assert h1.Remember([0x63]).data == [0x61, 0x62, 0x63];
  }

  /**
   * In window bytes alone: a chunk in mid-message, when the window held `was`
   * behind the chunk before and holds `h` now, leaves compressor and window in
   * agreement exactly when the two histories end alike, as far back as the
   * chunk does not cover.
   */
  lemma TouchedAgreesExactly<W>(c: Comp<W>, w: W, was: History, h: History, payload: seq<byte>, final: bool)
    requires h.Valid() && was.size == h.size && c.mid && Agree(c, was)
    ensures
      var m := Min(c.reach, h.size);
      Agree(Chunk(c, Some(w), Some(h), payload, final), h.Remember(payload)) <==>
      (|payload| >= m || Last(was.data, m - |payload|) == Last(h.data, m - |payload|))
  {
    hide Last;
    ChunkAgreesExactly(c, w, h, payload, final);
    var m := Min(c.reach, h.size);
    if |payload| < m {
      AgreeOnFewer(c.Seen(), was.data, m, m - |payload|);
    }
  }

  /**
   * Skipping the re-prime is as good as priming: as far back as both go, the
   * same dictionaries decode what follows. A dictionary that covers the
   * continued encoder covers the primed one, and the other way round unless
   * the encoder reaches past what the window keeps.
   */
  lemma ContinuingEqualsPriming<W>(c: Comp<W>, w: W, h: History, D: seq<byte>)
    requires h.Valid() && Coherent(c, w, h)
    requires c.attached == Some(w) && c.gen == h.gen
    ensures
      var m := Min(c.reach, h.size);
      Covers(D, c.Seen(), m) <==> Covers(D, Priming(c.reach, Some(h)), m)
    ensures Covers(D, c.Seen(), c.reach) ==> Covers(D, Priming(c.reach, Some(h)), c.reach)
    ensures c.reach <= h.size && Covers(D, Priming(c.reach, Some(h)), c.reach) ==> Covers(D, c.Seen(), c.reach)
  {
    var m := Min(c.reach, h.size);
    LastOfLast(h.data, c.reach, m);
    LastOfLast(h.data, c.reach, c.reach);
    if Covers(D, c.Seen(), c.reach) {
      LastOfLast(c.Seen(), c.reach, m);
      LastIsSuffix(Last(c.Seen(), c.reach), m);
      SuffixTrans(Last(c.Seen(), m), Last(c.Seen(), c.reach), D);
    }
  }

  // ----- Any interleaving of many compressors and windows -----

  type Id = nat

  datatype World = World(windows: map<Id, History>, comps: map<Id, Comp<Id>>)

  datatype Action =
    | Compress(c: Id, w: Option<Id>, payload: seq<byte>, final: bool)
    | Detach(c: Id)
    | AddTo(to: Id, payload: seq<byte>)
    | Forget(of: Id)

  /** The action names things that exist, and a message goes on with the window it began with, untouched since. */
  predicate Disciplined(s: World, a: Action) {
    match a
    case Compress(c, w, _, _) =>
      && c in s.comps
      && (w.Some? ==> w.value in s.windows)
      && (w.Some? && s.comps[c].mid ==> s.comps[c].attached == w && s.comps[c].gen == s.windows[w.value].gen)
    case Detach(c) => c in s.comps
    case AddTo(w, _) => w in s.windows
    case Forget(w) => w in s.windows
  }

  function Next(s: World, a: Action): World
    requires Disciplined(s, a)
  {
    match a
    case Compress(c, w, p, final) =>
      var h := if w.Some? then Some(s.windows[w.value]) else None;
      World(if w.Some? then s.windows[w.value := s.windows[w.value].Remember(p)] else s.windows,
            s.comps[c := Chunk(s.comps[c], w, h, p, final)])
    case Detach(c) => s.(comps := s.comps[c := s.comps[c].(attached := None, mid := false, dict := [], writes := [])])
    case AddTo(w, p) => s.(windows := s.windows[w := s.windows[w].Remember(p)])
    case Forget(w) => s.(windows := s.windows[w := s.windows[w].Reset()])
  }

  ghost predicate AllCoherent(s: World) {
    && (forall w :: w in s.windows ==> s.windows[w].Valid())
    && (forall c, w :: c in s.comps && w in s.windows ==> Coherent(s.comps[c], w, s.windows[w]))
  }

  /** Whatever happens next, in whatever order, keeps every cache coherent. */
  lemma StepKeepsCoherence(s: World, a: Action)
    requires AllCoherent(s) && Disciplined(s, a)
    ensures AllCoherent(Next(s, a))
  {
    var s' := Next(s, a);
    forall c, w | c in s'.comps && w in s'.windows
      ensures Coherent(s'.comps[c], w, s'.windows[w])
    {
      assert Coherent(s.comps[c], w, s.windows[w]);
      if a.Compress? && a.c == c && a.w == Some(w) {
        ChunkKeepsCoherence(s.comps[c], w, s.windows[w], a.payload, a.final);
      }
    }
  }

  function Run(s: World, actions: seq<Action>): Option<World> {
    if actions == [] then Some(s)
    else match Run(s, actions[..|actions| - 1])
         case None => None
         case Some(t) => if Disciplined(t, actions[|actions| - 1]) then Some(Next(t, actions[|actions| - 1])) else None
  }

  /** Over whole runs: an attached compressor at its window's generation has that window's history. */
  lemma {:induction false} CacheCoherence(s: World, actions: seq<Action>)
    requires AllCoherent(s)
    ensures Run(s, actions).Some? ==> AllCoherent(Run(s, actions).value)
  {
    if actions != [] {
      CacheCoherence(s, actions[..|actions| - 1]);
      match Run(s, actions[..|actions| - 1])
      case None =>
      case Some(t) =>
        if Disciplined(t, actions[|actions| - 1]) {
          StepKeepsCoherence(t, actions[|actions| - 1]);
        }
    }
  }
}
