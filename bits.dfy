/** Bytes and bits, most significant bit first. This is the meaning the
    modulator relies on for the helper crate's `unpackbits` (bytes to bits)
    and `pack_into` (bits to an unsigned integer). */
module Bits {
  import opened Arith

  newtype byte = x: int | 0 <= x < 256

  /** One unpacked bit, stored as 0 or 1. */
  type Bit = b: nat | b < 2

  /** The unsigned value of `bits` read most significant bit first. */
  function Pack(bits: seq<Bit>): (r: nat)
    ensures r < Pow2(|bits|)
  {
    if bits == [] then 0 else 2 * Pack(bits[..|bits| - 1]) + bits[|bits| - 1]
  }

  /** The `width` low-order bits of `n`, most significant bit first. */
  function ToBits(n: nat, width: nat): (r: seq<Bit>)
    ensures |r| == width
  {
    if width == 0 then [] else ToBits(n / 2, width - 1) + [n % 2]
  }

  /** `width` zero bits. */
  function Zeros(width: nat): (r: seq<Bit>)
    ensures |r| == width
    ensures forall i :: 0 <= i < width ==> r[i] == 0
  {
    seq(width, _ => 0)
  }

  /** Packing undoes `ToBits` for every value that fits the width. */
  lemma {:induction false} PackToBits(n: nat, width: nat)
    requires n < Pow2(width)
    ensures Pack(ToBits(n, width)) == n
  {
    if width > 0 {
      var high := ToBits(n / 2, width - 1);
      assert ToBits(n, width)[..width - 1] == high;
      PackToBits(n / 2, width - 1);
    }
  }

  /** `ToBits` undoes packing: a bit pattern is determined by its value and
      its length. */
  lemma {:induction false} ToBitsPack(bits: seq<Bit>)
    ensures ToBits(Pack(bits), |bits|) == bits
  {
    if bits != [] {
      var high, low := bits[..|bits| - 1], bits[|bits| - 1];
      var v := Pack(bits);
      assert v == 2 * Pack(high) + low;
      DivModUnique(v, 2, Pack(high), low);
      assert ToBits(v, |bits|) == ToBits(Pack(high), |high|) + [low];
      ToBitsPack(high);
      assert bits == high + [low];
    }
  }

  /** Appending bits shifts the value of the prefix left by their count. */
  lemma {:induction false} PackAppend(a: seq<Bit>, b: seq<Bit>)
    ensures Pack(a + b) == Pack(a) * Pow2(|b|) + Pack(b)
  {
    if b == [] {
      assert a + b == a;
    } else {
      var b', x := b[..|b| - 1], b[|b| - 1];
      assert (a + b)[..|a + b| - 1] == a + b';
      assert (a + b)[|a + b| - 1] == x;
      PackAppend(a, b');
      assert Pack(a + b) == 2 * Pack(a + b') + x;
      assert Pack(b) == 2 * Pack(b') + x;
      ShiftStep(Pack(a), Pow2(|b'|), Pack(a + b'), Pack(b'), x);
    }
  }

  /** Zero bits pack to zero. */
  lemma {:induction false} PackZeros(width: nat)
    ensures Pack(Zeros(width)) == 0
  {
    if width > 0 {
      assert Zeros(width)[..width - 1] == Zeros(width - 1);
      PackZeros(width - 1);
    }
  }

  /** Every byte becomes eight bits, most significant first, bytes in order. */
  function UnpackBits(data: seq<byte>): (r: seq<Bit>)
    ensures |r| == 8 * |data|
  {
    if data == [] then [] else ToBits(data[0] as nat, 8) + UnpackBits(data[1..])
  }

  /** Bits `8k .. 8k+8` of the unpacked stream are byte `k`'s bits, and they
      pack back to that byte. */
  lemma {:induction false} UnpackBitsAt(data: seq<byte>, k: nat)
    requires k < |data|
    ensures UnpackBits(data)[8 * k .. 8 * k + 8] == ToBits(data[k] as nat, 8)
    ensures Pack(UnpackBits(data)[8 * k .. 8 * k + 8]) == data[k] as nat
  {
    if k > 0 {
      UnpackBitsAt(data[1..], k - 1);
      var rest := UnpackBits(data[1..]);
      assert UnpackBits(data)[8 * k .. 8 * k + 8] == rest[8 * (k - 1) .. 8 * (k - 1) + 8];
    }
    assert Pow2(8) == 256;
    PackToBits(data[k] as nat, 8);
  }
}
