/** The XOR obfuscation of a save window (`maskSave`), keyed by the mask stored inside the window. */
module Mask {
  import opened Bytes

  /** The XOR key `mask & 0xff` of a 32-bit mask is the mask's first (least significant) byte. */
  lemma LowByteOfMask(w: seq<byte>, maskOffset: nat)
    requires maskOffset + 4 <= |w|
    ensures (ReadU32(w, maskOffset) % 0x100) as byte == w[maskOffset]
  {
    var d0, d1, d2, d3 := w[maskOffset] as nat, w[maskOffset + 1] as nat, w[maskOffset + 2] as nat, w[maskOffset + 3] as nat;
    var x := ReadU32(w, maskOffset);
    assert x == d0 + 0x100 * (d1 + 0x100 * (d2 + 0x100 * d3));
    assert x % 0x100 == d0;
  }

  /**
   * The window after one toggle: every byte XOR-ed with the key, except the four mask
   * bytes, which are written back with the value read before the XOR.
   */
  function Toggled(w: seq<byte>, maskOffset: nat): (r: seq<byte>)
    requires maskOffset + 4 <= |w|
    ensures |r| == |w|
  {
    var key := w[maskOffset];
    seq(|w|, i requires 0 <= i < |w| => if maskOffset <= i < maskOffset + 4 then w[i] else Xor(w[i], key))
  }

  /**
   * Byte by byte: the four mask bytes keep their value, and every other byte is XOR-ed
   * with the low byte of the 32-bit mask.
   */
  lemma ToggledBytes(w: seq<byte>, maskOffset: nat, i: nat)
    requires maskOffset + 4 <= |w| && i < |w|
    ensures var key := (ReadU32(w, maskOffset) % 0x100) as byte;
      Toggled(w, maskOffset)[i] == if maskOffset <= i < maskOffset + 4 then w[i] else Xor(w[i], key)
  {
    LowByteOfMask(w, maskOffset);
  }

  /** The mask is written back: the toggled window stores the same 32-bit mask. */
  lemma ToggledKeepsMask(w: seq<byte>, maskOffset: nat)
    requires maskOffset + 4 <= |w|
    ensures ReadU32(Toggled(w, maskOffset), maskOffset) == ReadU32(w, maskOffset)
  {
    var t := Toggled(w, maskOffset);
    assert t[maskOffset..maskOffset + 4] == w[maskOffset..maskOffset + 4];
    assert t[maskOffset] == w[maskOffset] && t[maskOffset + 1] == w[maskOffset + 1];
    assert t[maskOffset + 2] == w[maskOffset + 2] && t[maskOffset + 3] == w[maskOffset + 3];
  }

  /** Only the first byte of the mask matters: windows that differ only in its upper three bytes toggle alike elsewhere. */
  lemma ToggledIgnoresUpperMask(w: seq<byte>, v: seq<byte>, maskOffset: nat, i: nat)
    requires maskOffset + 4 <= |w| == |v| && i < |w|
    requires forall j :: 0 <= j < |w| && !(maskOffset < j < maskOffset + 4) ==> w[j] == v[j]
    requires !(maskOffset <= i < maskOffset + 4)
    ensures Toggled(w, maskOffset)[i] == Toggled(v, maskOffset)[i]
  {
    assert w[maskOffset] == v[maskOffset];
  }

  /** Toggling twice gives the original window back: the same toggle masks and unmasks. */
  lemma ToggledSelfInverse(w: seq<byte>, maskOffset: nat)
    requires maskOffset + 4 <= |w|
    ensures Toggled(Toggled(w, maskOffset), maskOffset) == w
  {
    var t := Toggled(w, maskOffset);
    assert t[maskOffset] == w[maskOffset];
    var tt := Toggled(t, maskOffset);
    forall i | 0 <= i < |w|
      ensures tt[i] == w[i]
    {
      if !(maskOffset <= i < maskOffset + 4) {
        XorInvolutive(w[i], w[maskOffset]);
      }
    }
  }

  /** `maskSave` over a buffer that holds exactly one window. */
  method MaskWindow(a: array<byte>, maskOffset: nat)
    requires maskOffset + 4 <= a.Length
    modifies a
    ensures a[..] == Toggled(old(a[..]), maskOffset)
  {
    ghost var s := a[..];
    MaskSave(a, 0, a.Length, maskOffset);
    assert s[..0] + Toggled(s[0..|s|], maskOffset) + s[|s|..] == Toggled(s, maskOffset) by {
      assert s[0..|s|] == s;
    }
  }

  /**
   * `maskSave` over the `len` bytes of `a` starting at `start`: reads the mask, XORs
   * every byte of that range with its low byte, then writes the mask back.
   */
  method MaskSave(a: array<byte>, start: nat, len: nat, maskOffset: nat)
    requires start + len <= a.Length && maskOffset + 4 <= len
    modifies a
    ensures a[..] == old(a[..start]) + Toggled(old(a[start..start + len]), maskOffset) + old(a[start + len..])
  {
    var o := start + maskOffset;
    var mask := ReadU32(a[..], o);
    var key := (mask % 0x100) as byte;
    LowByteOfMask(a[..], o);
    XorRange(a, start, len, key);
    ghost var xored := a[..];
    StoreU32(a, o, mask);
    WriteU32Unchanged(old(a[..]), o);
    WriteU32Field(xored, o, mask);
    WriteU32Field(old(a[..]), o, mask);
    ToggleAssembled(old(a[..]), xored, a[..], start, len, maskOffset, key);
  }

  /** XORs each of the `len` bytes of `a` from `start` on with `key`, in place. */
  method XorRange(a: array<byte>, start: nat, len: nat, key: byte)
    requires start + len <= a.Length
    modifies a
    ensures forall j :: 0 <= j < a.Length ==> a[j] == if start <= j < start + len then Xor(old(a[j]), key) else old(a[j])
  {
    var i := 0;
    while i < len
      invariant i <= len
      invariant forall j :: 0 <= j < a.Length && !(start <= j < start + i) ==> a[j] == old(a[j])
      invariant forall j :: start <= j < start + i ==> a[j] == Xor(old(a[j]), key)
    {
      a[start + i] := Xor(a[start + i], key);
      i := i + 1;
    }
  }

  /** The XOR pass followed by writing the mask back is exactly a toggle of the sub-window. */
  lemma ToggleAssembled(s0: seq<byte>, s1: seq<byte>, s2: seq<byte>, start: nat, len: nat, maskOffset: nat, key: byte)
    requires start + len <= |s0| == |s1| == |s2| && maskOffset + 4 <= len
    requires key == s0[start + maskOffset]
    requires forall j :: 0 <= j < |s0| ==> s1[j] == if start <= j < start + len then Xor(s0[j], key) else s0[j]
    requires s2[start + maskOffset..start + maskOffset + 4] == s0[start + maskOffset..start + maskOffset + 4]
    requires forall j :: 0 <= j < |s0| && !(start + maskOffset <= j < start + maskOffset + 4) ==> s2[j] == s1[j]
    ensures s2 == s0[..start] + Toggled(s0[start..start + len], maskOffset) + s0[start + len..]
  {
    var r := s0[..start] + Toggled(s0[start..start + len], maskOffset) + s0[start + len..];
    forall j | 0 <= j < |s0|
      ensures s2[j] == r[j]
    {
      ToggleAssembledAt(s0, s1, s2, start, len, maskOffset, key, j);
    }
  }

  lemma ToggleAssembledAt(s0: seq<byte>, s1: seq<byte>, s2: seq<byte>, start: nat, len: nat, maskOffset: nat, key: byte, j: nat)
    requires start + len <= |s0| == |s1| == |s2| && maskOffset + 4 <= len && j < |s0|
    requires key == s0[start + maskOffset]
    requires s1[j] == if start <= j < start + len then Xor(s0[j], key) else s0[j]
    requires s2[start + maskOffset..start + maskOffset + 4] == s0[start + maskOffset..start + maskOffset + 4]
    requires !(start + maskOffset <= j < start + maskOffset + 4) ==> s2[j] == s1[j]
    ensures s2[j] == (s0[..start] + Toggled(s0[start..start + len], maskOffset) + s0[start + len..])[j]
  {
    var o := start + maskOffset;
    if o <= j < o + 4 {
      assert s2[j] == s2[o..o + 4][j - o] == s0[j];
      ToggledWindowAt(s0, start, len, maskOffset, j);
    } else if start <= j < start + len {
      ToggledWindowAt(s0, start, len, maskOffset, j);
    } else {
      ToggledWindowAt(s0, start, len, maskOffset, j);
    }
  }

  /** Where a byte of the enclosing buffer ends up when its sub-window is toggled. */
  lemma ToggledWindowAt(s: seq<byte>, start: nat, len: nat, maskOffset: nat, j: nat)
    requires start + len <= |s| && maskOffset + 4 <= len && j < |s|
    ensures (s[..start] + Toggled(s[start..start + len], maskOffset) + s[start + len..])[j]
            == if start <= j < start + len && !(start + maskOffset <= j < start + maskOffset + 4)
               then Xor(s[j], s[start + maskOffset]) else s[j]
  {
    var w := s[start..start + len];
    var t := Toggled(w, maskOffset);
    if start <= j < start + len {
      assert t[j - start] == if maskOffset <= j - start < maskOffset + 4 then w[j - start] else Xor(w[j - start], w[maskOffset]);
    }
  }
}
