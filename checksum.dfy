/** The additive checksum over a save window (`computeChecksum`). */
module Checksums {
  import opened Bytes

  /**
   * The checksum of a window: the variant's seed plus every byte of the window except
   * the four bytes of the stored checksum field at `checksumOffset`. It lies between the
   * seed and the seed plus 0xFF for each summed byte.
   */
  function Checksum(w: seq<byte>, checksumOffset: nat, seed: nat): (r: nat)
    requires checksumOffset + 4 <= |w|
    ensures seed <= r <= seed + 0xFF * (|w| - 4)
  {
    SumBound(w[..checksumOffset]);
    SumBound(w[checksumOffset + 4..]);
    seed + Sum(w[..checksumOffset]) + Sum(w[checksumOffset + 4..])
  }

  /**
   * `computeChecksum`: one pass over the window with an unbounded accumulator that
   * jumps over the checksum field when it reaches it.
   */
  method ComputeChecksum(a: array<byte>, checksumOffset: nat, seed: nat) returns (checksum: nat)
    requires checksumOffset + 4 <= a.Length
    ensures checksum == Checksum(a[..], checksumOffset, seed)
  {
    checksum := seed;
    var i := 0;
    while i < a.Length
      invariant 0 <= i <= a.Length
      invariant i <= checksumOffset || checksumOffset + 4 <= i
      invariant i <= checksumOffset ==> checksum == seed + Sum(a[..i])
      invariant checksumOffset + 4 <= i ==> checksum == seed + Sum(a[..checksumOffset]) + Sum(a[checksumOffset + 4..i])
    {
      if i == checksumOffset {
        // Step over the four bytes of the checksum field at once (the source's i += 3 followed by the loop's ++i).
        i := i + 4;
        assert a[checksumOffset + 4..i] == [];
      } else {
        if i < checksumOffset {
          SumExtend(a[..], 0, i);
          assert a[..][0..i + 1] == a[..i + 1] && a[..][0..i] == a[..i];
        } else {
          SumExtend(a[..], checksumOffset + 4, i);
        }
        checksum := checksum + a[i] as nat;
        i := i + 1;
      }
    }
    assert a[..i] == a[..];
  }

  /** The checksum does not depend on the bytes of the checksum field. */
  lemma ChecksumIgnoresField(w: seq<byte>, x: seq<byte>, checksumOffset: nat, seed: nat)
    requires checksumOffset + 4 <= |w| == |x|
    requires forall j :: 0 <= j < |w| && !(checksumOffset <= j < checksumOffset + 4) ==> w[j] == x[j]
    ensures Checksum(w, checksumOffset, seed) == Checksum(x, checksumOffset, seed)
  {
    assert w[..checksumOffset] == x[..checksumOffset];
    assert w[checksumOffset + 4..] == x[checksumOffset + 4..];
  }

  /** Changing one byte outside the checksum field changes the checksum by exactly the byte's change. */
  lemma ChecksumDelta(w: seq<byte>, checksumOffset: nat, seed: nat, j: nat, b: byte)
    requires checksumOffset + 4 <= |w| && j < |w| && !(checksumOffset <= j < checksumOffset + 4)
    ensures Checksum(w[j := b], checksumOffset, seed) == Checksum(w, checksumOffset, seed) - w[j] as int + b as int
  {
    var c := checksumOffset;
    if j < c {
      SumUpdate(w[..c], j, b);
      assert w[j := b][..c] == w[..c][j := b];
      assert w[j := b][c + 4..] == w[c + 4..];
    } else {
      SumUpdate(w[c + 4..], j - (c + 4), b);
      assert w[j := b][c + 4..] == w[c + 4..][j - (c + 4) := b];
      assert w[j := b][..c] == w[..c];
    }
  }
}
