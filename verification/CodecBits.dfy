/**
 Placement of a signal's raw bits in the payload, and the loops that move raw
 words in and out of a frame (core/codec/src/codec_bits.h).

 A placement names, for every raw bit, the payload bit that carries it; what the
 loops do is stated against that map, bit by bit.
 */
module CodecBits {
  import opened Bits
  import opened Words

  const FRAME_MAX_LENGTH: nat := 64

  /** The two bit orders: a linear LSB0 run, and the DBC Motorola sawtooth from its MSB. */
  datatype Placement =
    | Run(first: nat, count: nat)
    | Saw(start: nat, count: nat)

  function BeIdx(p: nat): nat { p / 8 * 8 + (7 - p % 8) }

  function BeBit(idx: nat): nat { idx / 8 * 8 + (7 - idx % 8) }

  /** The two conversions are each other's inverse and stay within a byte. */
  lemma BeInverse(p: nat)
    ensures BeBit(BeIdx(p)) == p && BeIdx(BeBit(p)) == p
  {
    Mirrored(p);
  }

  /** Counting the bits of a byte from the other end keeps the byte. */
  lemma Mirrored(p: nat)
    ensures (p / 8 * 8 + (7 - p % 8)) / 8 == p / 8 && (p / 8 * 8 + (7 - p % 8)) % 8 == 7 - p % 8
  {
    DivUnique(p / 8 * 8 + (7 - p % 8), 8, p / 8, 7 - p % 8);
  }

  lemma BeBelow(idx: nat, length: nat)
    ensures BeBit(idx) < 8 * length <==> idx < 8 * length
  {
  }

  /** Payload bit that carries raw bit i. */
  function Position(pl: Placement, i: nat): nat
    requires i < pl.count
  {
    match pl
    case Run(first, _) => first + i
    case Saw(start, count) => BeBit(BeIdx(start) + (count - 1 - i))
  }

  predicate Occupies(pl: Placement, p: nat) {
    match pl
    case Run(first, count) => first <= p < first + count
    case Saw(start, count) => BeIdx(start) <= BeIdx(p) < BeIdx(start) + count
  }

  /** The raw bit a payload bit carries: the inverse of `Position`. */
  function RawIndex(pl: Placement, p: nat): (i: nat)
    requires Occupies(pl, p)
    ensures i < pl.count
  {
    match pl
    case Run(first, _) => p - first
    case Saw(start, count) => count - 1 - (BeIdx(p) - BeIdx(start))
  }

  /** `Position` and `RawIndex` are mutually inverse on the occupied bits. */
  lemma PositionInverse(pl: Placement, i: nat, p: nat)
    requires i < pl.count
    ensures p == Position(pl, i) <==> Occupies(pl, p) && RawIndex(pl, p) == i
  {
    if pl.Saw? { BeInverse(BeIdx(pl.start) + (pl.count - 1 - i)); BeInverse(p); }
  }

  /** Every occupied payload bit lies within `length` bytes. */
  predicate Fits(pl: Placement, length: nat) {
    match pl
    case Run(first, count) => first + count <= 8 * length
    case Saw(start, count) => count == 0 || BeIdx(start) + count <= 8 * length
  }

  lemma PositionInside(pl: Placement, length: nat, i: nat)
    requires i < pl.count && Fits(pl, length)
    ensures Position(pl, i) < 8 * length
  {
    if pl.Saw? { BeBelow(BeIdx(pl.start) + (pl.count - 1 - i), length); }
  }

  /** `Fits` is the bound it names: all occupied bits are inside the frame. */
  lemma FitsIffBitsInside(pl: Placement, length: nat)
    requires pl.count >= 1
    ensures Fits(pl, length) <==> forall i: nat | i < pl.count :: Position(pl, i) < 8 * length
  {
    if Fits(pl, length) {
      forall i: nat | i < pl.count ensures Position(pl, i) < 8 * length { PositionInside(pl, length, i); }
    } else if pl.Saw? {
      BeBelow(BeIdx(pl.start) + (pl.count - 1), length);
      assert Position(pl, 0) >= 8 * length;
    } else {
      assert Position(pl, pl.count - 1) >= 8 * length;
    }
  }

  /** `raw` is what the frame holds at the placement, zero-extended. */
  ghost predicate Loaded(f: seq<byte>, pl: Placement, raw: nat)
    requires Fits(pl, |f|)
  {
    && raw < Pow2(pl.count)
    && forall i: nat | i < pl.count :: Bit(raw, i) == BitAt(f, pl, i)
  }

  predicate BitAt(f: seq<byte>, pl: Placement, i: nat)
    requires Fits(pl, |f|) && i < pl.count
  {
    PositionInside(pl, |f|, i);
    FrameBit(f, Position(pl, i))
  }

  /** `after` is `before` with the low bits of `raw` at the placement and every other bit unchanged. */
  ghost predicate Stored(before: seq<byte>, after: seq<byte>, pl: Placement, raw: nat) {
    && |after| == |before|
    && forall p: nat | p < 8 * |before| ::
         FrameBit(after, p) == if Occupies(pl, p) then Bit(raw, RawIndex(pl, p)) else FrameBit(before, p)
  }

  /** The word a frame holds at a placement, as a function. */
  function RawOf(f: seq<byte>, pl: Placement): (raw: nat)
    requires Fits(pl, |f|)
    ensures Loaded(f, pl, raw)
  {
    Gather(f, pl, pl.count)
  }

  function Gather(f: seq<byte>, pl: Placement, n: nat): (raw: nat)
    requires Fits(pl, |f|) && n <= pl.count
    ensures raw < Pow2(n)
    ensures forall i: nat | i < n :: Bit(raw, i) == BitAt(f, pl, i)
  {
    if n == 0 then 0 else
      var low := Gather(f, pl, n - 1);
      NoHighBits(low, n - 1, n - 1);
      UpdateBound(low, n - 1, n);
      if BitAt(f, pl, n - 1) then
        assert forall i: nat | i < n :: Bit(SetBit(low, n - 1), i) == (i == n - 1 || Bit(low, i)) by {
          forall i: nat | i < n { BitOfSet(low, n - 1, i); }
        }
        SetBit(low, n - 1)
      else low
  }

  lemma LoadedUnique(f: seq<byte>, pl: Placement, a: nat, b: nat)
    requires Fits(pl, |f|) && Loaded(f, pl, a) && Loaded(f, pl, b)
    ensures a == b
  {
    SameBits(a, b, pl.count);
  }

  /** Reading back a store of a word that fits the width returns the word. */
  lemma LoadAfterStore(before: seq<byte>, after: seq<byte>, pl: Placement, raw: nat)
    requires Fits(pl, |before|) && Stored(before, after, pl, raw) && raw < Pow2(pl.count)
    ensures RawOf(after, pl) == raw
  {
    forall i: nat | i < pl.count ensures Bit(raw, i) == BitAt(after, pl, i) { StoredAt(before, after, pl, raw, i); }
    LoadedUnique(after, pl, raw, RawOf(after, pl));
  }

  lemma StoredAt(before: seq<byte>, after: seq<byte>, pl: Placement, raw: nat, i: nat)
    requires Fits(pl, |before|) && Stored(before, after, pl, raw) && i < pl.count
    ensures BitAt(after, pl, i) == Bit(raw, i)
  {
    var p := Position(pl, i);
    PositionInverse(pl, i, p);
    PositionInside(pl, |before|, i);
    hide BeIdx, BeBit;
    assert FrameBit(after, p) == Bit(raw, RawIndex(pl, p));
  }

  /** A store leaves every placement that shares no bit with it unchanged. */
  lemma LoadAfterDisjointStore(before: seq<byte>, after: seq<byte>, pl: Placement, raw: nat, other: Placement)
    requires Fits(other, |before|) && Stored(before, after, pl, raw)
    requires Disjoint(pl, other)
    ensures RawOf(after, other) == RawOf(before, other)
  {
    forall i: nat | i < other.count ensures BitAt(after, other, i) == BitAt(before, other, i) {
      KeptAt(before, after, pl, raw, other, i);
    }
    LoadedUnique(after, other, RawOf(after, other), RawOf(before, other));
  }

  lemma KeptAt(before: seq<byte>, after: seq<byte>, pl: Placement, raw: nat, other: Placement, i: nat)
    requires Fits(other, |before|) && Stored(before, after, pl, raw) && Disjoint(pl, other) && i < other.count
    ensures BitAt(after, other, i) == BitAt(before, other, i)
  {
    var p := Position(other, i);
    PositionInverse(other, i, p);
    PositionInside(other, |before|, i);
    hide BeIdx, BeBit;
    assert FrameBit(after, p) == FrameBit(before, p);
  }

  ghost predicate Disjoint(a: Placement, b: Placement) {
    forall p: nat :: !(Occupies(a, p) && Occupies(b, p))
  }

  /** A store is fully determined by the frame before it. */
  lemma StoredUnique(before: seq<byte>, a: seq<byte>, b: seq<byte>, pl: Placement, raw: nat)
    requires Stored(before, a, pl, raw) && Stored(before, b, pl, raw)
    ensures a == b
  {
    SameFrame(a, b);
  }

  // ---------------------------------------------------------------------------
  // The loops
  // ---------------------------------------------------------------------------

  method LoadRun(frame: array<byte>, first: nat, count: nat) returns (raw: nat)
    requires frame.Length <= FRAME_MAX_LENGTH && count <= 64
    requires Fits(Run(first, count), frame.Length)
    ensures Loaded(frame[..], Run(first, count), raw)
  {
    raw := 0;
    for i := 0 to count
      invariant raw < Pow2(i)
      invariant forall j: nat | j < i :: Bit(raw, j) == BitAt(frame[..], Run(first, count), j)
    {
      var g := first + i;
      NoHighBits(raw, i, i);
      UpdateBound(raw, i, i + 1);
      assert FrameBit(frame[..], g) == Bit(frame[g / 8], g % 8);
      if Bit(frame[g / 8], g % 8) {
        forall j: nat | j <= i { BitOfSet(raw, i, j); }
        raw := SetBit(raw, i);
      }
    }
  }

  method LoadSaw(frame: array<byte>, start: nat, count: nat) returns (raw: nat)
    requires frame.Length <= FRAME_MAX_LENGTH && 1 <= count <= 64
    requires Fits(Saw(start, count), frame.Length)
    ensures Loaded(frame[..], Saw(start, count), raw)
  {
    var idx := BeIdx(start);
    raw := 0;
    forall j: nat | j < count ensures !Bit(0, j) { NoHighBits(0, 0, j); }
    for k := 0 to count
      invariant raw < Pow2(count)
      invariant forall j: nat | j < count - k :: !Bit(raw, j)
      invariant forall j: nat | count - k <= j < count :: Bit(raw, j) == BitAt(frame[..], Saw(start, count), j)
    {
      var p := BeBit(idx + k);
      PositionInside(Saw(start, count), frame.Length, count - 1 - k);
      UpdateBound(raw, count - 1 - k, count);
      assert BitAt(frame[..], Saw(start, count), count - 1 - k) == Bit(frame[p / 8], p % 8);
      if Bit(frame[p / 8], p % 8) {
        forall j: nat | j < count { BitOfSet(raw, count - 1 - k, j); }
        raw := SetBit(raw, count - 1 - k);
      }
    }
  }

  /** `Stored`, restricted to the raw bits in `lo..hi`. */
  ghost predicate PartStored(before: seq<byte>, after: seq<byte>, pl: Placement, lo: nat, hi: nat, raw: nat) {
    && |after| == |before|
    && forall p: nat | p < 8 * |before| ::
         FrameBit(after, p) == if Occupies(pl, p) && lo <= RawIndex(pl, p) < hi
                               then Bit(raw, RawIndex(pl, p)) else FrameBit(before, p)
  }

  lemma StoreStep(before: seq<byte>, was: seq<byte>, now: seq<byte>, pl: Placement, lo: nat, hi: nat, raw: nat, i: nat)
    requires PartStored(before, was, pl, lo, hi, raw)
    requires i < pl.count && lo <= hi && (i + 1 == lo || i == hi) && |now| == |was|
    requires forall p: nat | p < 8 * |was| ::
               FrameBit(now, p) == if p == Position(pl, i) then Bit(raw, i) else FrameBit(was, p)
    ensures PartStored(before, now, pl, if i + 1 == lo then i else lo, if i == hi then i + 1 else hi, raw)
  {
    forall p: nat { PositionInverse(pl, i, p); }
    hide BeIdx, BeBit, Position, RawIndex, Occupies;
  }

  method StoreRun(frame: array<byte>, first: nat, count: nat, value: nat)
    requires frame.Length <= FRAME_MAX_LENGTH && count <= 64
    requires Fits(Run(first, count), frame.Length)
    modifies frame
    ensures Stored(old(frame[..]), frame[..], Run(first, count), value)
  {
    for i := 0 to count
      invariant PartStored(old(frame[..]), frame[..], Run(first, count), 0, i, value)
    {
      var g := first + i;
      ghost var was := frame[..];
      if Bit(value, i) {
        frame[g / 8] := SetByteBit(frame[g / 8], g % 8);
      } else {
        frame[g / 8] := ClearByteBit(frame[g / 8], g % 8);
      }
      WriteBit(was, g, Bit(value, i), frame[..]);
      StoreStep(old(frame[..]), was, frame[..], Run(first, count), 0, i, value, i);
    }
  }

  method StoreSaw(frame: array<byte>, start: nat, count: nat, value: nat)
    requires frame.Length <= FRAME_MAX_LENGTH && 1 <= count <= 64
    requires Fits(Saw(start, count), frame.Length)
    modifies frame
    ensures Stored(old(frame[..]), frame[..], Saw(start, count), value)
  {
    var idx := BeIdx(start);
    ghost var pl := Saw(start, count);
    for k := 0 to count
      invariant PartStored(old(frame[..]), frame[..], pl, count - k, count, value)
    {
      var p := BeBit(idx + k);
      var rawBit := count - 1 - k;
      assert p == Position(pl, rawBit);
      PositionInside(pl, frame.Length, rawBit);
      hide BeIdx, BeBit, Position, RawIndex, Occupies;
      ghost var was := frame[..];
      if Bit(value, rawBit) {
        frame[p / 8] := SetByteBit(frame[p / 8], p % 8);
      } else {
        frame[p / 8] := ClearByteBit(frame[p / 8], p % 8);
      }
      WriteBit(was, p, Bit(value, rawBit), frame[..]);
      StoreStep(old(frame[..]), was, frame[..], pl, count - k, count, value, rawBit);
    }
  }

  /**
   The run-time bounds check.  `start` is any uint32_t, so the index arithmetic
   may wrap; the answer is nevertheless the unwrapped bound.
   */
  method SawFits(length: nat, start: nat, count: nat) returns (fits: bool)
    requires length <= FRAME_MAX_LENGTH && count <= 64 && start < UINT32_MODULUS
    ensures fits == Fits(Saw(start, count), length)
  {
    var idx := BeIdx(start);
    BeBelow(start, 0x2000_0000);
    hide BeIdx, BeBit, U32;
    for k := 0 to count
      invariant idx < UINT32_MODULUS
      invariant k == 0 || idx + k <= 8 * length
    {
      var p := BeBit(U32(idx + k));
      BeBelow(idx + k, length);
      if p >= length * 8 {
        return false;
      }
    }
    return true;
  }

  /** Payload bit at step k of the sawtooth walk, with the wrap of the uint32_t index. */
  function SawBit(start: nat, k: nat): nat {
    BeBit(U32(BeIdx(start) + k))
  }

  lemma SawBitIsPosition(start: nat, count: nat, k: nat)
    requires start < UINT32_MODULUS && k < count
    ensures SawBit(start, k) < UINT32_MODULUS
    ensures BeIdx(start) + count <= UINT32_MODULUS ==> SawBit(start, k) == Position(Saw(start, count), count - 1 - k)
  {
    BeBelow(U32(BeIdx(start) + k), 0x2000_0000);
    hide BeIdx, BeBit, U32;
  }

  /** Least and greatest payload bit of a sawtooth signal; `start` and `count` are any uint32_t. */
  method SawRange(start: nat, count: nat) returns (minOut: nat, maxOut: nat)
    requires start < UINT32_MODULUS
    ensures count == 0 ==> minOut == UINT32_MODULUS - 1 && maxOut == 0
    ensures forall k: nat | k < count :: minOut <= SawBit(start, k) <= maxOut
    ensures count >= 1 ==> exists k: nat | k < count :: SawBit(start, k) == minOut
    ensures count >= 1 ==> exists k: nat | k < count :: SawBit(start, k) == maxOut
    ensures count >= 1 && BeIdx(start) + count <= UINT32_MODULUS ==> IsExtent(Saw(start, count), minOut, maxOut)
  {
    hide BeIdx, BeBit, Position, SawBit, U32, IsExtent;
    var idx := BeIdx(start);
    minOut, maxOut := UINT32_MODULUS - 1, 0;
    ghost var atMin: nat, atMax: nat := 0, 0;
    for k := 0 to count
      invariant k == 0 ==> minOut == UINT32_MODULUS - 1 && maxOut == 0
      invariant forall j: nat | j < k :: minOut <= SawBit(start, j) <= maxOut
      invariant k > 0 ==> atMin < count && minOut == SawBit(start, atMin)
      invariant k > 0 ==> atMax < count && maxOut == SawBit(start, atMax)
    {
      var p := BeBit(U32(idx + k));
      SawBitIsPosition(start, count, k);
      assert p == SawBit(start, k) by { SawBitIs(start, k); }
      atMin := if p < minOut || k == 0 then k else atMin;
      atMax := if p > maxOut || k == 0 then k else atMax;
      if p < minOut {
        minOut := p;
      }
      if p > maxOut {
        maxOut := p;
      }
    }
    if count >= 1 && BeIdx(start) + count <= UINT32_MODULUS { RangeIsExtent(start, count, minOut, maxOut, atMin, atMax); }
  }

  lemma SawBitIs(start: nat, k: nat)
    ensures SawBit(start, k) == BeBit(U32(BeIdx(start) + k))
  {
  }

  lemma RangeIsExtent(start: nat, count: nat, lo: nat, hi: nat, a: nat, b: nat)
    requires start < UINT32_MODULUS && BeIdx(start) + count <= UINT32_MODULUS && a < count && b < count
    requires lo == SawBit(start, a) && hi == SawBit(start, b)
    requires forall k: nat | k < count :: lo <= SawBit(start, k) <= hi
    ensures IsExtent(Saw(start, count), lo, hi)
  {
    hide BeIdx, BeBit, Position, SawBit;
    var pl := Saw(start, count);
    forall i: nat | i < count ensures SawBit(start, count - 1 - i) == Position(pl, i) {
      SawBitIsPosition(start, count, count - 1 - i);
    }
    assert Position(pl, count - 1 - a) == lo && Position(pl, count - 1 - b) == hi;
  }

  /** `lo` and `hi` are the least and the greatest payload bit the placement occupies. */
  ghost predicate IsExtent(pl: Placement, lo: nat, hi: nat) {
    && (forall i: nat | i < pl.count :: lo <= Position(pl, i) <= hi)
    && (exists i: nat | i < pl.count :: Position(pl, i) == lo)
    && (exists i: nat | i < pl.count :: Position(pl, i) == hi)
  }

  /** The greatest bit decides the fit, for every layout. */
  lemma ExtentDecidesFit(pl: Placement, lo: nat, hi: nat, length: nat)
    requires pl.count >= 1 && IsExtent(pl, lo, hi)
    ensures hi < 8 * length <==> Fits(pl, length)
  {
    FitsIffBitsInside(pl, length);
  }
}
