/**
 Bit placement in bytes (core/codec/src/codec_bits.h): an aligned contiguous signal
 is the little-endian number of its bytes, an aligned sawtooth signal the
 big-endian one.
 */
module ByteOrder {
  import opened Bits
  import opened CodecBits

  function LittleEndian(bs: seq<byte>): nat {
    if bs == [] then 0 else bs[0] as nat + 256 * LittleEndian(bs[1..])
  }

  function BigEndian(bs: seq<byte>): nat {
    if bs == [] then 0 else bs[|bs| - 1] as nat + 256 * BigEndian(bs[..|bs| - 1])
  }

  /** The low n bits of a sum are those of the low part, the others those of the high part. */
  lemma {:induction false} LowPart(low: nat, high: nat, n: nat, i: nat)
    requires low < Pow2(n)
    ensures Bit(low + Pow2(n) * high, i) == if i < n then Bit(low, i) else Bit(high, i - n)
  {
    if n != 0 {
      var p := Pow2(n - 1);
      var v := low + Pow2(n) * high;
      assert Pow2(n) * high == 2 * (p * high);
      assert v % 2 == low % 2 && v / 2 == low / 2 + p * high;
      if i != 0 { LowPart(low / 2, high, n - 1, i - 1); }
    }
  }

  lemma ByteAndRest(b: byte, rest: nat, i: nat)
    ensures Bit(b + 256 * rest, i) == if i < 8 then Bit(b, i) else Bit(rest, i - 8)
  {
    Pow2Of8();
    LowPart(b, rest, 8, i);
  }

  lemma ByteAndRestBound(b: byte, rest: nat, n: nat)
    requires rest < Pow2(n)
    ensures b + 256 * rest < Pow2(8 + n)
  {
    Pow2Of8();
    Pow2Split(8, n);
    MulMono(256, rest + 1, Pow2(n));
  }

  lemma {:induction false} LittleBits(bs: seq<byte>, i: nat)
    requires i < 8 * |bs|
    ensures Bit(LittleEndian(bs), i) == Bit(bs[i / 8], i % 8)
  {
    ByteAndRest(bs[0], LittleEndian(bs[1..]), i);
    if i >= 8 {
      LittleBits(bs[1..], i - 8);
      assert (i - 8) / 8 == i / 8 - 1;
    }
  }

  lemma {:induction false} LittleBound(bs: seq<byte>)
    ensures LittleEndian(bs) < Pow2(8 * |bs|)
  {
    if bs != [] {
      LittleBound(bs[1..]);
      ByteAndRestBound(bs[0], LittleEndian(bs[1..]), 8 * (|bs| - 1));
    }
  }

  lemma {:induction false} BigBits(bs: seq<byte>, i: nat)
    requires i < 8 * |bs|
    ensures Bit(BigEndian(bs), i) == Bit(bs[|bs| - 1 - i / 8], i % 8)
  {
    var n := |bs| - 1;
    ByteAndRest(bs[n], BigEndian(bs[..n]), i);
    if i >= 8 {
      BigBits(bs[..n], i - 8);
      assert (i - 8) / 8 == i / 8 - 1;
    }
  }

  lemma {:induction false} BigBound(bs: seq<byte>)
    ensures BigEndian(bs) < Pow2(8 * |bs|)
  {
    if bs != [] {
      var n := |bs| - 1;
      BigBound(bs[..n]);
      ByteAndRestBound(bs[n], BigEndian(bs[..n]), 8 * n);
    }
  }

  /** A contiguous placement of n whole bytes holds their little-endian number. */
  lemma AlignedRunIs(f: seq<byte>, k: nat, n: nat)
    requires k + n <= |f|
    ensures Fits(Run(8 * k, 8 * n), |f|) && RawOf(f, Run(8 * k, 8 * n)) == LittleEndian(f[k..k + n])
  {
    var pl := Run(8 * k, 8 * n);
    var raw, bs := RawOf(f, pl), f[k..k + n];
    LittleBound(bs);
    forall i: nat | i < 8 * n ensures Bit(raw, i) == Bit(LittleEndian(bs), i) {
      LittleBits(bs, i);
      assert Bit(raw, i) == BitAt(f, pl, i);
      ByteOfBit(k, i);
      assert bs[i / 8] == f[k + i / 8];
    }
    hide Bit;
    SameBits(raw, LittleEndian(bs), 8 * n);
  }

  lemma ByteOfBit(k: nat, i: nat)
    ensures (8 * k + i) / 8 == k + i / 8 && (8 * k + i) % 8 == i % 8
  {
  }

  /** A sawtooth placement of n whole bytes, from the top bit of the first, holds their big-endian number. */
  lemma AlignedSawIs(f: seq<byte>, k: nat, n: nat)
    requires k + n <= |f|
    ensures Fits(Saw(8 * k + 7, 8 * n), |f|) && RawOf(f, Saw(8 * k + 7, 8 * n)) == BigEndian(f[k..k + n])
  {
    var pl := Saw(8 * k + 7, 8 * n);
    SawStart(k);
    var raw, bs := RawOf(f, pl), f[k..k + n];
    BigBound(bs);
    forall i: nat | i < 8 * n ensures Bit(raw, i) == Bit(BigEndian(bs), i) {
      assert Bit(raw, i) == BitAt(f, pl, i);
      SawBit(f, k, n, i);
    }
    hide Bit;
    SameBits(raw, BigEndian(bs), 8 * n);
  }

  lemma SawBit(f: seq<byte>, k: nat, n: nat, i: nat)
    requires k + n <= |f| && i < 8 * n
    ensures Position(Saw(8 * k + 7, 8 * n), i) < 8 * |f|
    ensures BitAt(f, Saw(8 * k + 7, 8 * n), i) == Bit(BigEndian(f[k..k + n]), i)
  {
    var bs := f[k..k + n];
    BigBits(bs, i);
    SawPosition(k, n, i);
    hide Bit, BigEndian, Position;
    var q := i / 8;
    ByteOfBit(k + n - 1 - q, i % 8);
    assert bs[n - 1 - q] == f[k + n - 1 - q];
  }

  lemma SawStart(k: nat)
    ensures BeIdx(8 * k + 7) == 8 * k
  {
  }

  lemma SawPosition(k: nat, n: nat, i: nat)
    requires i < 8 * n
    ensures Position(Saw(8 * k + 7, 8 * n), i) == 8 * (k + n - 1 - i / 8) + i % 8
  {
    SawStart(k);
    var q, r := i / 8, i % 8;
    var idx := 8 * k + (8 * n - 1 - i);
    assert idx == 8 * (k + n - 1 - q) + (7 - r);
    ByteOfBit(k + n - 1 - q, 7 - r);
  }
}
