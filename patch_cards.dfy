/**
 * The patch-card store inside a decoded save window: the slot count, the slot bytes
 * that pack an id and an enabled flag, and the per-id loaded bitfield.
 * Each operation is a function from the window before to the window after.
 */
module PatchCards {
  import opened Wrappers
  import opened Bytes
  import opened Families

  /** One active slot: the card's id and whether it is enabled. */
  datatype PatchCard = PatchCard(id: nat, enabled: bool)

  /** A slot byte as a card: the id is `c & 0x7f`, and the card is enabled when `c >> 7` is 0. */
  function DecodeSlot(c: byte): (r: PatchCard)
    ensures r.id < CardIds && (r.enabled <==> c < 0x80)
    ensures c as int == r.id + if r.enabled then 0 else 0x80
  {
    PatchCard(c as nat % 0x80, c < 0x80)
  }

  /**
   * The slot byte `setPatchCard` stores: `id | (enabled ? 0 : 1) << 7`, of which the
   * byte store keeps the low 8 bits.
   */
  function EncodeSlot(id: int, enabled: bool): (r: byte)
    ensures 0 <= id < CardIds ==> DecodeSlot(r) == PatchCard(id, enabled)
  {
    var low := id % 0x100;
    (if !enabled && low < 0x80 then low + 0x80 else low) as byte
  }

  /** Every slot byte is the encoding of the card it decodes to: the encoding is a bijection. */
  lemma EncodeDecodeSlot(c: byte)
    ensures DecodeSlot(c).id < CardIds
    ensures EncodeSlot(DecodeSlot(c).id, DecodeSlot(c).enabled) == c
  {
  }

  /** `getPatchCardCount`: the slot count byte. */
  function Count(f: Family, w: seq<byte>): (r: nat)
    requires IsWindow(f, w)
    ensures r < 0x100
  {
    w[f.countOffset] as nat
  }

  /** Every active slot lies inside the window (always so for bn5; bn6 needs a count of at most 0xF0). */
  predicate SlotsInWindow(f: Family, w: seq<byte>)
    requires IsWindow(f, w)
  {
    f.slotsOffset + Count(f, w) <= f.size
  }

  /** `getPatchCard`: absent beyond the count, otherwise the decoded slot byte. */
  function CardAt(f: Family, w: seq<byte>, i: nat): (r: Option<PatchCard>)
    requires IsWindow(f, w) && (i < Count(f, w) ==> f.slotsOffset + i < f.size)
    ensures r.None? <==> i >= Count(f, w)
    ensures r.Some? ==> r.value.id < CardIds && EncodeSlot(r.value.id, r.value.enabled) == w[f.slotsOffset + i]
    ensures r.Some? ==> r.value.id == SlotId(f, w, i)
  {
    if i >= Count(f, w) then None
    else
      EncodeDecodeSlot(w[f.slotsOffset + i]);
      Some(DecodeSlot(w[f.slotsOffset + i]))
  }

  /** The id named by slot `k` whether or not `k` is below the count. */
  function SlotId(f: Family, w: seq<byte>, k: nat): (id: nat)
    requires IsWindow(f, w) && f.slotsOffset + k < f.size
    ensures id < CardIds
  {
    EncodeDecodeSlot(w[f.slotsOffset + k]);
    DecodeSlot(w[f.slotsOffset + k]).id
  }

  /** `setPatchCard`: stores the encoded slot byte for slot `i`. */
  function WithSlot(f: Family, w: seq<byte>, i: nat, id: int, enabled: bool): (r: seq<byte>)
    requires IsWindow(f, w) && f.slotsOffset + i < f.size
    ensures IsWindow(f, r) && GameNameOf(f, r) == GameNameOf(f, w)
    ensures forall j :: 0 <= j < |w| && j != f.slotsOffset + i ==> r[j] == w[j]
  {
    var r := w[f.slotsOffset + i := EncodeSlot(id, enabled)];
    assert GameNameOf(f, r) == GameNameOf(f, w);
    r
  }

  /** `setPatchCardCount`: stores the count, truncated to a byte. */
  function WithCount(f: Family, w: seq<byte>, n: int): (r: seq<byte>)
    requires IsWindow(f, w)
    ensures IsWindow(f, r) && GameNameOf(f, r) == GameNameOf(f, w)
    ensures forall j :: 0 <= j < |w| && j != f.countOffset ==> r[j] == w[j]
    ensures Count(f, r) == n % 0x100
  {
    var r := w[f.countOffset := (n % 0x100) as byte];
    assert GameNameOf(f, r) == GameNameOf(f, w);
    r
  }

  /**
   * `setPatchCardLoaded`: the bitfield entry of `id` becomes its baseline byte XOR the
   * variant's loaded key when loaded, XOR 0xFF when not.
   */
  function WithLoaded(f: Family, w: seq<byte>, key: byte, id: nat, loaded: bool): (r: seq<byte>)
    requires IsWindow(f, w) && f.loadedOffset + id < f.size
    ensures IsWindow(f, r) && GameNameOf(f, r) == GameNameOf(f, w)
    ensures forall j :: 0 <= j < |w| && j != f.loadedOffset + id ==> r[j] == w[j]
  {
    var r := w[f.loadedOffset + id := Xor(w[f.baselineOffset + id], if loaded then key else 0xFF)];
    assert GameNameOf(f, r) == GameNameOf(f, w);
    r
  }

  /** The loaded state the bitfield records for `id`, if its entry is one of the two encodings. */
  function LoadedState(f: Family, w: seq<byte>, key: byte, id: nat): Option<bool>
    requires IsWindow(f, w) && f.loadedOffset + id < f.size
  {
    var diff := Xor(w[f.loadedOffset + id], w[f.baselineOffset + id]);
    if diff == key then Some(true) else if diff == 0xFF then Some(false) else None
  }

  /** Reading back a loaded state that was just set gives that state (for a key other than 0xFF). */
  lemma SetThenGetLoaded(f: Family, w: seq<byte>, key: byte, id: nat, loaded: bool)
    requires IsWindow(f, w) && f.loadedOffset + id < f.size && key != 0xFF
    ensures LoadedState(f, WithLoaded(f, w, key, id, loaded), key, id) == Some(loaded)
  {
    var r := WithLoaded(f, w, key, id, loaded);
    var k: byte := if loaded then key else 0xFF;
    assert r[f.baselineOffset + id] == w[f.baselineOffset + id];
    XorInvolutive(w[f.baselineOffset + id], k);
  }

  /** Reading back slot `i` after setting it gives the card that was set; no other slot changes. */
  lemma SetThenGetSlot(f: Family, w: seq<byte>, i: nat, id: nat, enabled: bool, k: nat)
    requires IsWindow(f, w) && f.slotsOffset + i < f.size && i < Count(f, w) && id < CardIds
    requires k != i && (k < Count(f, w) ==> f.slotsOffset + k < f.size)
    ensures Count(f, WithSlot(f, w, i, id, enabled)) == Count(f, w)
    ensures CardAt(f, WithSlot(f, w, i, id, enabled), i) == Some(PatchCard(id, enabled))
    ensures CardAt(f, WithSlot(f, w, i, id, enabled), k) == CardAt(f, w, k)
  {
  }

  /** After setting the count, the slots below it are read from the unchanged slot bytes. */
  lemma SetCountThenGet(f: Family, w: seq<byte>, n: int, i: nat)
    requires IsWindow(f, w) && f.slotsOffset + i < f.size
    ensures CardAt(f, WithCount(f, w, n), i) == if i < n % 0x100 then Some(DecodeSlot(w[f.slotsOffset + i])) else None
  {
  }

  /**
   * The loop of `rebuildPatchCardsLoaded` after its first `n` rounds: each round reads
   * slot `k`'s id from the current window and marks that id loaded.
   */
  function MarkedUpTo(f: Family, w: seq<byte>, key: byte, n: nat): (r: seq<byte>)
    requires IsWindow(f, w) && f.slotsOffset + n <= f.size
    ensures IsWindow(f, r) && GameNameOf(f, r) == GameNameOf(f, w)
    ensures forall j :: 0 <= j < |w| && !(f.loadedOffset <= j < f.loadedOffset + CardIds) ==> r[j] == w[j]
    decreases n
  {
    if n == 0 then w
    else
      var p := MarkedUpTo(f, w, key, n - 1);
      WithLoaded(f, p, key, SlotId(f, p, n - 1), true)
  }

  /** The state of `rebuildPatchCardsLoaded` after `i` rounds, started from window `w`. */
  ghost predicate Progress(f: Family, w: seq<byte>, key: byte, cur: seq<byte>, i: nat)
  {
    && IsWindow(f, w) && SlotsInWindow(f, w) && i <= Count(f, w)
    && cur == MarkedUpTo(f, w, key, i)
  }

  lemma ProgressStart(f: Family, w: seq<byte>, key: byte)
    requires IsWindow(f, w) && SlotsInWindow(f, w)
    ensures Progress(f, w, key, w, 0)
  {
  }

  /** One more round: the count is still the original one, and the round marks the id in slot `i`. */
  lemma ProgressStep(f: Family, w: seq<byte>, key: byte, cur: seq<byte>, i: nat)
    requires Progress(f, w, key, cur, i) && i < Count(f, w)
    ensures IsWindow(f, cur) && Count(f, cur) == Count(f, w) && f.slotsOffset + i < f.size
    ensures Progress(f, w, key, WithLoaded(f, cur, key, SlotId(f, cur, i), true), i + 1)
  {
  }

  lemma ProgressDone(f: Family, w: seq<byte>, key: byte, cur: seq<byte>, i: nat)
    requires Progress(f, w, key, cur, i) && Count(f, cur) <= i
    ensures cur == RebuiltLoaded(f, w, key)
  {
    assert cur[f.countOffset] == w[f.countOffset];
    assert i == Count(f, w);
  }

  /** The ids named by the first `n` slots. */
  function Marks(f: Family, w: seq<byte>, n: nat): set<nat>
    requires IsWindow(f, w) && f.slotsOffset + n <= f.size
  {
    set k | 0 <= k < n :: SlotId(f, w, k)
  }

  /**
   * Byte `j` after `n` rounds: the bitfield entry of every id named by one of the first
   * `n` slots is its baseline XOR the key; every other byte is as it was.
   */
  lemma {:induction false} MarkedUpToAt(f: Family, w: seq<byte>, key: byte, n: nat, j: nat)
    requires IsWindow(f, w) && f.slotsOffset + n <= f.size && j < |w|
    ensures MarkedUpTo(f, w, key, n)[j] == MarkedByte(f, w, key, n, j)
  {
    if n == 0 {
      assert Marks(f, w, 0) == {};
    } else {
      MarkedUpToAt(f, w, key, n - 1, j);
      MarkedUpToStep(f, w, key, n, j);
    }
  }

  /** What byte `j` holds after `n` rounds, stated without the loop. */
  function MarkedByte(f: Family, w: seq<byte>, key: byte, n: nat, j: nat): byte
    requires IsWindow(f, w) && f.slotsOffset + n <= f.size && j < |w|
  {
    if f.loadedOffset <= j < f.loadedOffset + CardIds && j - f.loadedOffset in Marks(f, w, n)
    then Xor(w[f.baselineOffset + (j - f.loadedOffset)], key)
    else w[j]
  }

  /** Round `n` of the loop keeps the closed form of byte `j`. */
  lemma MarkedUpToStep(f: Family, w: seq<byte>, key: byte, n: nat, j: nat)
    requires IsWindow(f, w) && 0 < n && f.slotsOffset + n <= f.size && j < |w|
    requires MarkedUpTo(f, w, key, n - 1)[j] == MarkedByte(f, w, key, n - 1, j)
    ensures MarkedUpTo(f, w, key, n)[j] == MarkedByte(f, w, key, n, j)
  {
    var p := MarkedUpTo(f, w, key, n - 1);
    var id := SlotId(f, p, n - 1);
    assert p[f.slotsOffset + n - 1] == w[f.slotsOffset + n - 1];
    assert id == SlotId(f, w, n - 1);
    assert p[f.baselineOffset + id] == w[f.baselineOffset + id];
    MarkStep(f, p, w, key, id, j);
    MarkedByteStep(f, w, key, n, j);
  }

  /** The ids of the first `n` slots are those of the first `n - 1` and the id of slot `n - 1`. */
  lemma MarksStep(f: Family, w: seq<byte>, n: nat)
    requires IsWindow(f, w) && 0 < n && f.slotsOffset + n <= f.size
    ensures Marks(f, w, n) == Marks(f, w, n - 1) + {SlotId(f, w, n - 1)}
  {
  }

  /** Round `n` changes the closed form only at the entry of slot `n - 1`'s id, which it marks. */
  lemma MarkedByteStep(f: Family, w: seq<byte>, key: byte, n: nat, j: nat)
    requires IsWindow(f, w) && 0 < n && f.slotsOffset + n <= f.size && j < |w|
    ensures var id := SlotId(f, w, n - 1);
      MarkedByte(f, w, key, n, j) ==
        if j == f.loadedOffset + id then Xor(w[f.baselineOffset + id], key) else MarkedByte(f, w, key, n - 1, j)
  {
    MarksStep(f, w, n);
  }

  /** One round of the loop: only the entry of `id` changes, to its baseline XOR the key. */
  lemma MarkStep(f: Family, p: seq<byte>, w: seq<byte>, key: byte, id: nat, j: nat)
    requires IsWindow(f, p) && |w| == |p| && id < CardIds && j < |p|
    requires p[f.baselineOffset + id] == w[f.baselineOffset + id]
    ensures WithLoaded(f, p, key, id, true)[j] == if j == f.loadedOffset + id then Xor(w[f.baselineOffset + id], key) else p[j]
  {
  }

  /** `rebuildPatchCardsLoaded`: every slot below the count marks its id loaded. */
  function RebuiltLoaded(f: Family, w: seq<byte>, key: byte): (r: seq<byte>)
    requires IsWindow(f, w) && SlotsInWindow(f, w)
    ensures IsWindow(f, r) && GameNameOf(f, r) == GameNameOf(f, w)
    ensures forall j :: 0 <= j < |w| && !(f.loadedOffset <= j < f.loadedOffset + CardIds) ==> r[j] == w[j]
  {
    MarkedUpTo(f, w, key, Count(f, w))
  }

  /**
   * After the rebuild, every id named by a slot below the count is loaded, whether or not
   * that slot is enabled.
   */
  lemma RebuildMarksReferenced(f: Family, w: seq<byte>, key: byte, k: nat)
    requires IsWindow(f, w) && SlotsInWindow(f, w) && k < Count(f, w) && key != 0xFF
    ensures LoadedState(f, RebuiltLoaded(f, w, key), key, SlotId(f, w, k)) == Some(true)
  {
    var id := SlotId(f, w, k);
    var r := RebuiltLoaded(f, w, key);
    assert id in Marks(f, w, Count(f, w));
    MarkedUpToAt(f, w, key, Count(f, w), f.loadedOffset + id);
    MarkedUpToAt(f, w, key, Count(f, w), f.baselineOffset + id);
    var b := w[f.baselineOffset + id];
    MarkedAtMark(f, w, key, Count(f, w), id);
    assert r[f.baselineOffset + id] == b;
    XorInvolutive(b, key);
    LoadedWhenKey(f, r, key, id);
  }

  lemma MarkedAtMark(f: Family, w: seq<byte>, key: byte, n: nat, id: nat)
    requires IsWindow(f, w) && f.slotsOffset + n <= f.size && id < CardIds && id in Marks(f, w, n)
    ensures MarkedByte(f, w, key, n, f.loadedOffset + id) == Xor(w[f.baselineOffset + id], key)
  {
    var j := f.loadedOffset + id;
    assert j - f.loadedOffset == id;
  }

  lemma LoadedWhenKey(f: Family, w: seq<byte>, key: byte, id: nat)
    requires IsWindow(f, w) && f.loadedOffset + id < f.size
    requires Xor(w[f.loadedOffset + id], w[f.baselineOffset + id]) == key
    ensures LoadedState(f, w, key, id) == Some(true)
  {
  }

  /**
   * The rebuild only sets: the entry of an id that no slot below the count names keeps
   * whatever it held, and so do all bytes outside the bitfield.
   */
  lemma RebuildOnlySets(f: Family, w: seq<byte>, key: byte, j: nat)
    requires IsWindow(f, w) && SlotsInWindow(f, w) && j < |w|
    requires !(f.loadedOffset <= j < f.loadedOffset + CardIds) || j - f.loadedOffset !in Marks(f, w, Count(f, w))
    ensures RebuiltLoaded(f, w, key)[j] == w[j]
  {
    MarkedUpToAt(f, w, key, Count(f, w), j);
  }

  /** Windows whose first `n` slots agree reference the same ids. */
  lemma MarksAgree(f: Family, x: seq<byte>, y: seq<byte>, n: nat)
    requires IsWindow(f, x) && IsWindow(f, y) && f.slotsOffset + n <= f.size
    requires x[f.slotsOffset..f.slotsOffset + n] == y[f.slotsOffset..f.slotsOffset + n]
    ensures Marks(f, x, n) == Marks(f, y, n)
  {
    forall k | 0 <= k < n
      ensures SlotId(f, x, k) == SlotId(f, y, k)
    {
      assert x[f.slotsOffset + k] == x[f.slotsOffset..f.slotsOffset + n][k];
      assert y[f.slotsOffset + k] == y[f.slotsOffset..f.slotsOffset + n][k];
    }
  }

  /** Rebuilding the loaded bitfield a second time changes nothing. */
  lemma RebuildLoadedIdempotent(f: Family, w: seq<byte>, key: byte)
    requires IsWindow(f, w) && SlotsInWindow(f, w)
    ensures SlotsInWindow(f, RebuiltLoaded(f, w, key))
    ensures RebuiltLoaded(f, RebuiltLoaded(f, w, key), key) == RebuiltLoaded(f, w, key)
  {
    var r := RebuiltLoaded(f, w, key);
    assert Count(f, r) == Count(f, w);
    var n := Count(f, w);
    assert r[f.slotsOffset..f.slotsOffset + n] == w[f.slotsOffset..f.slotsOffset + n];
    MarksAgree(f, r, w, n);
    var rr := RebuiltLoaded(f, r, key);
    forall j | 0 <= j < |w|
      ensures rr[j] == r[j]
    {
      MarkedUpToAt(f, r, key, n, j);
      MarkedUpToAt(f, w, key, n, j);
      if f.loadedOffset <= j < f.loadedOffset + CardIds {
        var b := f.baselineOffset + (j - f.loadedOffset);
        assert r[b] == w[b];
      }
    }
  }

  /**
   * The rebuild neither reads nor writes the checksum field: windows that differ only
   * there rebuild to windows that differ only there.
   */
  lemma RebuildIgnoresChecksumField(f: Family, x: seq<byte>, y: seq<byte>, key: byte, j: nat)
    requires IsWindow(f, x) && IsWindow(f, y) && SlotsInWindow(f, x)
    requires forall i :: 0 <= i < |x| && !(f.checksumOffset <= i < f.checksumOffset + 4) ==> x[i] == y[i]
    requires j < |x| && !(f.checksumOffset <= j < f.checksumOffset + 4)
    ensures SlotsInWindow(f, y) && RebuiltLoaded(f, x, key)[j] == RebuiltLoaded(f, y, key)[j]
  {
    var n := Count(f, x);
    assert x[f.countOffset] == y[f.countOffset];
    assert x[f.slotsOffset..f.slotsOffset + n] == y[f.slotsOffset..f.slotsOffset + n];
    MarksAgree(f, x, y, n);
    MarkedUpToAt(f, x, key, n, j);
    MarkedUpToAt(f, y, key, n, j);
    if f.loadedOffset <= j < f.loadedOffset + CardIds {
      var b := f.baselineOffset + (j - f.loadedOffset);
      assert x[b] == y[b];
    }
  }

  /** bn5: the count byte is at most 255 and 0x79D0 + 255 lies inside the window, so the slots below any count fit. */
  lemma Bn5SlotsFit(w: seq<byte>)
    requires IsWindow(Bn5, w)
    ensures SlotsInWindow(Bn5, w)
  {
  }

  /** bn6: slot `i` lies inside the window exactly when `i < 0xF0`, so the slots below the count fit exactly when the count is at most 0xF0. */
  lemma Bn6SlotsFit(w: seq<byte>, i: nat)
    requires IsWindow(Bn6, w)
    ensures Bn6.slotsOffset + i < Bn6.size <==> i < 0xF0
    ensures SlotsInWindow(Bn6, w) <==> Count(Bn6, w) <= 0xF0
  {
  }
}
