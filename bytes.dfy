/** Byte-level helpers over a save window: bytes, XOR, little-endian 32-bit fields and byte sums. */
module Bytes {

  /** One byte of a save image, as the unsigned value a `Uint8Array` element holds. */
  newtype byte = x: int | 0 <= x < 0x100

  /** 2^32: the range of a field read with `getUint32` and written with `setUint32`. */
  const U32Limit: nat := 0x1_0000_0000

  function Pow2(n: nat): (r: nat)
    ensures r > 0
  {
    if n == 0 then 1 else 2 * Pow2(n - 1)
  }

  /** Bitwise exclusive or of the low `n` bits of `a` and `b`. */
  function XorBits(a: nat, b: nat, n: nat): (r: nat)
    ensures r < Pow2(n)
  {
    if n == 0 then 0 else (a % 2 + b % 2) % 2 + 2 * XorBits(a / 2, b / 2, n - 1)
  }

  /**
   * Bitwise exclusive or of two bytes (the `^` of the source on byte values): it is zero
   * exactly when the two bytes are equal, and its low bit is the parity of the low bits.
   */
  function Xor(a: byte, b: byte): (r: byte)
    ensures r == 0 <==> a == b
    ensures r as int % 2 == (a as int % 2 + b as int % 2) % 2
  {
    assert Pow2(8) == 0x100;
    XorBitsZero(a as nat, b as nat, 8);
    XorBits(a as nat, b as nat, 8) as byte
  }

  /** The XOR of two `n`-bit values is zero exactly when the values are equal. */
  lemma {:induction false} XorBitsZero(a: nat, b: nat, n: nat)
    requires a < Pow2(n) && b < Pow2(n)
    ensures XorBits(a, b, n) == 0 <==> a == b
  {
    if n > 0 {
      HalfBelow(a, n);
      HalfBelow(b, n);
      XorBitsZero(a / 2, b / 2, n - 1);
      BitJoin(a);
      BitJoin(b);
    }
  }

  /** XOR-ing twice with the same byte undoes the first XOR, and XOR-ing with the original recovers the key. */
  lemma XorInvolutive(a: byte, k: byte)
    ensures Xor(Xor(a, k), k) == a
    ensures Xor(Xor(a, k), a) == k
  {
    assert Pow2(8) == 0x100;
    XorBitsInvolutive(a as nat, k as nat, 8);
    XorBitsCommutes(a as nat, k as nat, 8);
    XorBitsInvolutive(k as nat, a as nat, 8);
  }

  lemma {:induction false} XorBitsInvolutive(a: nat, b: nat, n: nat)
    requires a < Pow2(n)
    ensures XorBits(XorBits(a, b, n), b, n) == a
  {
    if n > 0 {
      var x' := XorBits(a / 2, b / 2, n - 1);
      var bit := (a % 2 + b % 2) % 2;
      BitSplit(bit, x');
      HalfBelow(a, n);
      XorBitsInvolutive(a / 2, b / 2, n - 1);
      ParityCancel(a % 2, b % 2);
      BitJoin(a);
    }
  }

  /** Splitting `bit + 2 * x` into its low bit and the rest. */
  lemma BitSplit(bit: nat, x: nat)
    requires bit < 2
    ensures (bit + 2 * x) % 2 == bit && (bit + 2 * x) / 2 == x
  {
  }

  lemma BitJoin(a: nat)
    ensures a == a % 2 + 2 * (a / 2)
  {
  }

  lemma HalfBelow(a: nat, n: nat)
    requires n > 0 && a < Pow2(n)
    ensures a / 2 < Pow2(n - 1)
  {
  }

  lemma {:induction false} XorBitsCommutes(a: nat, b: nat, n: nat)
    ensures XorBits(a, b, n) == XorBits(b, a, n)
  {
    if n > 0 {
      XorBitsCommutes(a / 2, b / 2, n - 1);
    }
  }

  lemma ParityCancel(p: nat, q: nat)
    requires p < 2 && q < 2
    ensures ((p + q) % 2 + q) % 2 == p
  {
    if p == 0 && q == 0 {
    } else if p == 0 {
    } else if q == 0 {
    } else {
    }
  }

  /** The little-endian unsigned 32-bit value stored at offset `o`. */
  function ReadU32(w: seq<byte>, o: nat): (r: nat)
    requires o + 4 <= |w|
    ensures r < U32Limit
  {
    var b0, b1, b2, b3 := w[o] as nat, w[o + 1] as nat, w[o + 2] as nat, w[o + 3] as nat;
    b0 + 0x100 * (b1 + 0x100 * (b2 + 0x100 * b3))
  }

  /** The four little-endian bytes `setUint32` stores for `v` (which it first reduces modulo 2^32). */
  function U32Bytes(v: int): (r: seq<byte>)
    ensures |r| == 4
  {
    var u := v % U32Limit;
    var q1 := u / 0x100;
    var q2 := q1 / 0x100;
    var q3 := q2 / 0x100;
    [(u % 0x100) as byte, (q1 % 0x100) as byte, (q2 % 0x100) as byte, (q3 % 0x100) as byte]
  }

  /** The window after storing `v` as a little-endian 32-bit field at offset `o`. */
  function WriteU32(w: seq<byte>, o: nat, v: int): (r: seq<byte>)
    requires o + 4 <= |w|
    ensures |r| == |w|
    ensures forall j :: 0 <= j < |w| && !(o <= j < o + 4) ==> r[j] == w[j]
    ensures ReadU32(r, o) == v % U32Limit
  {
    var r := w[..o] + U32Bytes(v) + w[o + 4..];
    assert r[o..o + 4] == U32Bytes(v);
    ReadOfU32Bytes(v);
    r
  }

  /** Reading back the bytes written for `v` gives `v` modulo 2^32. */
  lemma ReadOfU32Bytes(v: int)
    ensures ReadU32(U32Bytes(v), 0) == v % U32Limit
  {
    var u := v % U32Limit;
    var q1 := u / 0x100;
    var q2 := q1 / 0x100;
    var q3 := q2 / 0x100;
    assert u == u % 0x100 + 0x100 * q1;
    assert q1 == q1 % 0x100 + 0x100 * q2;
    assert q2 == q2 % 0x100 + 0x100 * q3;
    assert q3 < 0x100;
  }

  /** The field written for `v` holds exactly the bytes of `v`. */
  lemma WriteU32Field(w: seq<byte>, o: nat, v: int)
    requires o + 4 <= |w|
    ensures WriteU32(w, o, v)[o..o + 4] == U32Bytes(v)
  {
  }

  /** Writing back the value a field already holds leaves the window as it was. */
  lemma WriteU32Unchanged(w: seq<byte>, o: nat)
    requires o + 4 <= |w|
    ensures WriteU32(w, o, ReadU32(w, o)) == w
  {
    var x := ReadU32(w, o);
    DigitsOf(w[o] as nat, w[o + 1] as nat, w[o + 2] as nat, w[o + 3] as nat, x);
    assert U32Bytes(x) == w[o..o + 4];
    assert w[..o] + w[o..o + 4] + w[o + 4..] == w;
  }

  /** The base-256 digits `U32Bytes` extracts from a four-digit number are the digits it was built from. */
  lemma DigitsOf(d0: nat, d1: nat, d2: nat, d3: nat, x: int)
    requires d0 < 0x100 && d1 < 0x100 && d2 < 0x100 && d3 < 0x100
    requires x == d0 + 0x100 * (d1 + 0x100 * (d2 + 0x100 * d3))
    ensures var u := x % U32Limit;
            var q1 := u / 0x100;
            var q2 := q1 / 0x100;
            var q3 := q2 / 0x100;
            u % 0x100 == d0 && q1 % 0x100 == d1 && q2 % 0x100 == d2 && q3 % 0x100 == d3
  {
    var k2 := d2 + 0x100 * d3;
    var k1 := d1 + 0x100 * k2;
    assert x % U32Limit == x;
    assert x / 0x100 == k1 && x % 0x100 == d0;
    assert k1 / 0x100 == k2 && k1 % 0x100 == d1;
    assert k2 / 0x100 == d3 && k2 % 0x100 == d2;
  }

  /** The sum of the bytes of `s`. */
  function Sum(s: seq<byte>): nat
  {
    if s == [] then 0 else Sum(s[..|s| - 1]) + s[|s| - 1] as nat
  }

  /** Extending a slice by one byte adds that byte to its sum. */
  lemma SumExtend(s: seq<byte>, lo: nat, hi: nat)
    requires lo <= hi < |s|
    ensures Sum(s[lo..hi + 1]) == Sum(s[lo..hi]) + s[hi] as nat
  {
    assert s[lo..hi + 1][..hi - lo] == s[lo..hi];
  }

  /** No byte adds more than 0xFF. */
  lemma {:induction false} SumBound(s: seq<byte>)
    ensures Sum(s) <= 0xFF * |s|
  {
    if s != [] {
      SumBound(s[..|s| - 1]);
    }
  }

  /** Replacing one byte changes the sum by exactly the difference of the two bytes. */
  lemma {:induction false} SumUpdate(s: seq<byte>, j: nat, b: byte)
    requires j < |s|
    ensures Sum(s[j := b]) == Sum(s) - s[j] as int + b as int
  {
    var n := |s| - 1;
    if j == n {
      assert s[j := b][..n] == s[..n];
    } else {
      SumUpdate(s[..n], j, b);
      assert s[j := b][..n] == s[..n][j := b];
    }
  }

  /** Stores `v` as a little-endian 32-bit field at offset `o` of the array (`DataView.setUint32`). */
  method StoreU32(a: array<byte>, o: nat, v: int)
    requires o + 4 <= a.Length
    modifies a
    ensures a[..] == WriteU32(old(a[..]), o, v)
  {
    var b := U32Bytes(v);
    a[o], a[o + 1], a[o + 2], a[o + 3] := b[0], b[1], b[2], b[3];
    assert a[..] == old(a[..])[..o] + b + old(a[..])[o + 4..];
  }
}
