/** Bit sequences and the fixed-width reads and writes of the bit streams.
    A stream is a `seq<bool>` (true = bit 1); every group of bits is most
    significant bit first. */
module Bits {

  function Pow2(n: nat): (p: nat)
    ensures p >= 1
  {
    if n == 0 then 1 else 2 * Pow2(n - 1)
  }

  lemma {:induction false} Pow2Add(a: nat, b: nat)
    ensures Pow2(a + b) == Pow2(a) * Pow2(b)
  {
    if a > 0 {
      Pow2Add(a - 1, b);
    }
  }

  /** The byte widths the codec uses. */
  lemma Pow2Byte()
    ensures Pow2(8) == 256 && Pow2(9) == 512
  {
    Pow2Add(4, 4);
    assert Pow2(4) == 16;
  }

  /** The int widths the codec uses. */
  lemma Pow2Int()
    ensures Pow2(31) == 0x8000_0000 && Pow2(32) == 0x1_0000_0000
  {
    Pow2Byte();
    Pow2Add(8, 8);
    Pow2Add(16, 15);
    Pow2Add(16, 16);
  }

  /** The `width` low-order bits of `v`, most significant first. */
  function NatToBits(v: nat, width: nat): (b: seq<bool>)
    ensures |b| == width
  {
    if width == 0 then [] else NatToBits(v / 2, width - 1) + [v % 2 == 1]
  }

  /** The unsigned value of a bit group, most significant bit first. */
  function BitsToNat(b: seq<bool>): (v: nat)
    ensures v < Pow2(|b|)
  {
    if b == [] then 0 else 2 * BitsToNat(b[..|b| - 1]) + (if b[|b| - 1] then 1 else 0)
  }

  lemma {:induction false} BitsRoundTrip(b: seq<bool>)
    ensures NatToBits(BitsToNat(b), |b|) == b
  {
    if b != [] {
      var n := |b| - 1;
      var init, last := b[..n], b[n];
      BitsRoundTrip(init);
      var bit := if last then 1 else 0;
      assert BitsToNat(b) == 2 * BitsToNat(init) + bit;
      AppendBit(BitsToNat(init), bit, n);
      assert b == init + [last];
    }
  }

  /** Doubling a value and adding a bit appends that bit to its bits. */
  lemma AppendBit(x: nat, bit: nat, n: nat)
    requires bit < 2
    ensures NatToBits(2 * x + bit, n + 1) == NatToBits(x, n) + [bit == 1]
  {
    assert (2 * x + bit) / 2 == x && (2 * x + bit) % 2 == bit;
  }

  lemma {:induction false} NatRoundTrip(v: nat, width: nat)
    requires v < Pow2(width)
    ensures BitsToNat(NatToBits(v, width)) == v
  {
    if width > 0 {
      NatRoundTrip(v / 2, width - 1);
      var b := NatToBits(v, width);
      assert b[..|b| - 1] == NatToBits(v / 2, width - 1);
    }
  }

  /** Model of `BitOutputStream.writeBits(width, value)`: the low `width` bits
      of `value`. Dafny's `%` is Euclidean, so for a negative Java int this is
      the low part of its two's-complement pattern. */
  function WriteBits(width: nat, value: int): (b: seq<bool>)
    ensures |b| == width
    ensures 0 <= value < Pow2(width) ==> BitsToNat(b) == value
  {
    var low := LowPart(value, Pow2(width));
    NatRoundTrip(low, width);
    NatToBits(low, width)
  }

  /** `value % modulus`, the Euclidean remainder. */
  function LowPart(value: int, modulus: nat): (low: nat)
    requires modulus >= 1
    ensures low < modulus
    ensures 0 <= value < modulus ==> low == value
  {
    value % modulus
  }

  /** Writing a group's own value in its own width gives the group back. */
  lemma WriteBitsOfValue(b: seq<bool>)
    ensures WriteBits(|b|, BitsToNat(b)) == b
  {
    BitsRoundTrip(b);
    assert LowPart(BitsToNat(b), Pow2(|b|)) == BitsToNat(b);
  }

  /** Model of `BitInputStream.readBits(width)`. An input stream is the
      sequence of its unread bits, so the cursor is what is left: the result
      is the value of the next `width` bits and the rest of the stream, or the
      sentinel -1 and an exhausted stream when fewer than `width` bits
      remain. */
  function ReadBits(input: seq<bool>, width: nat): (r: (int, seq<bool>))
    ensures width <= |input| ==> 0 <= r.0 < Pow2(width) && r.1 == input[width..]
    ensures width > |input| ==> r == (-1, [])
  {
    if width <= |input| then (BitsToNat(input[..width]) as int, input[width..]) else (-1, [])
  }

  /** `readBits(1)`: the next bit as 0 or 1 and the rest, or -1 at the end. */
  function ReadBit(input: seq<bool>): (int, seq<bool>)
  {
    if input == [] then (-1, []) else (if input[0] then 1 else 0, input[1..])
  }

  /** `ReadBit` is the one-bit case of `ReadBits`. */
  lemma ReadBitIsReadBits(input: seq<bool>)
    ensures ReadBit(input) == ReadBits(input, 1)
  {
    if input != [] {
      assert input[..1] == [input[0]];
      assert [input[0]][..0] == [];
    }
  }

  /** The 8-bit values that successive `readBits(8)` calls deliver until the
      sentinel; trailing bits that do not fill a group are never delivered. */
  function Bytes(bits: seq<bool>): (s: seq<int>)
    ensures |s| == |bits| / 8
    decreases |bits|
  {
    if |bits| < 8 then [] else [BitsToNat(bits[..8])] + Bytes(bits[8..])
  }

  /** Every value delivered is a byte. */
  lemma {:induction false} BytesInRange(bits: seq<bool>)
    ensures forall i :: 0 <= i < |Bytes(bits)| ==> 0 <= Bytes(bits)[i] < 256
    decreases |bits|
  {
    if |bits| >= 8 {
      BytesInRange(bits[8..]);
      Pow2Byte();
    }
  }

  /** The bits output by one `writeBits(8, v)` per element of `s`. */
  function BytesToBits(s: seq<int>): (b: seq<bool>)
    ensures |b| == 8 * |s|
  {
    if s == [] then [] else WriteBits(8, s[0]) + BytesToBits(s[1..])
  }

  /** Writing bytes and reading them back gives the same bytes. */
  lemma {:induction false} BytesOfBytesToBits(s: seq<int>)
    requires forall i :: 0 <= i < |s| ==> 0 <= s[i] < 256
    ensures Bytes(BytesToBits(s)) == s
  {
    if s != [] {
      Pow2Byte();
      var b := BytesToBits(s);
      assert b[..8] == WriteBits(8, s[0]);
      assert b[8..] == BytesToBits(s[1..]);
      BytesOfBytesToBits(s[1..]);
    }
  }

  /** Reading whole bytes and writing them back gives every complete byte of
      the input. */
  lemma {:induction false} BytesToBitsOfBytes(bits: seq<bool>)
    ensures BytesToBits(Bytes(bits)) == bits[..8 * (|bits| / 8)]
    decreases |bits|
  {
    if |bits| >= 8 {
      BytesToBitsOfBytes(bits[8..]);
      WriteBitsOfValue(bits[..8]);
      var s := Bytes(bits);
      assert s[1..] == Bytes(bits[8..]);
      var m := 8 * ((|bits| - 8) / 8);
      assert 8 * (|bits| / 8) == 8 + m;
      SliceSplit(bits, 8, m);
    }
  }

  lemma SliceSplit(a: seq<bool>, k: nat, m: nat)
    requires k + m <= |a|
    ensures a[..k + m] == a[..k] + a[k..][..m]
  {
  }
}
