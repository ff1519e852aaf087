/**
 The bytes of a trace dump (tools/trace_viewer/trace_format.py): where each field
 stands in a written image, what a reader makes of arbitrary bytes, and which
 inputs either side refuses.
 */
module TraceLayout {
  import opened Bits
  import opened Wrappers
  import opened Trace

  // ---------------------------------------------------------------------------
  // Words
  // ---------------------------------------------------------------------------

  /** Little-endian words of two, four and eight bytes. */
  function Word16(bs: seq<byte>, o: nat): nat
    requires o + 2 <= |bs|
  {
    bs[o] as nat + 0x100 * bs[o + 1] as nat
  }

  function Word32(bs: seq<byte>, o: nat): nat
    requires o + 4 <= |bs|
  {
    Word16(bs, o) + 0x1_0000 * Word16(bs, o + 2)
  }

  function Word64(bs: seq<byte>, o: nat): nat
    requires o + 8 <= |bs|
  {
    Word32(bs, o) + 0x1_0000_0000 * Word32(bs, o + 4)
  }

  /** The two's complement reading of a word. */
  function SignedWord(w: nat, modulus: nat): int {
    if 2 * w < modulus then w else w - modulus
  }

  lemma Powers()
    ensures Pow256(1) == 0x100 && Pow256(2) == 0x1_0000 && Pow256(4) == 0x1_0000_0000 && Pow256(8) == 0x1_0000_0000_0000_0000
  {
    assert Pow256(0) == 1;
    assert Pow256(3) == 256 * Pow256(2) && Pow256(4) == 256 * Pow256(3) && Pow256(5) == 256 * Pow256(4);
    assert Pow256(6) == 256 * Pow256(5) && Pow256(7) == 256 * Pow256(6);
  }

  lemma FieldOf2(bs: seq<byte>, o: nat)
    requires o + 2 <= |bs|
    ensures Field(bs, o, 2) == Word16(bs, o)
  {
    var s := bs[o..o + 2];
    assert s[1..][1..] == [] && FromLe(s[1..][1..]) == 0;
    assert FromLe(s[1..]) == s[1] + 256 * FromLe(s[1..][1..]);
  }

  lemma Times256(a: int, b: int)
    ensures 256 * (a * b) == 256 * a * b
  {
  }

  lemma {:induction false} FromLeSplit(bs: seq<byte>, n: nat)
    requires n <= |bs|
    ensures FromLe(bs) == FromLe(bs[..n]) + Pow256(n) * FromLe(bs[n..])
  {
    if n == 0 {
      assert bs[0..] == bs;
    } else {
      FromLeSplit(bs[1..], n - 1);
      assert bs[..n][1..] == bs[1..][..n - 1] && bs[1..][n - 1..] == bs[n..];
      Times256(Pow256(n - 1), FromLe(bs[n..]));
    }
  }

  lemma FieldOf4(bs: seq<byte>, o: nat)
    requires o + 4 <= |bs|
    ensures Field(bs, o, 4) == Word32(bs, o)
  {
    var s := bs[o..o + 4];
    FromLeSplit(s, 2);
    Powers();
    assert s[..2] == bs[o..o + 2] && s[2..] == bs[o + 2..o + 4];
    FieldOf2(bs, o);
    FieldOf2(bs, o + 2);
    hide FromLe, Pow256;
  }

  lemma FieldOf8(bs: seq<byte>, o: nat)
    requires o + 8 <= |bs|
    ensures Field(bs, o, 8) == Word64(bs, o)
  {
    var s := bs[o..o + 8];
    FromLeSplit(s, 4);
    Powers();
    assert s[..4] == bs[o..o + 4] && s[4..] == bs[o + 4..o + 8];
    FieldOf4(bs, o);
    FieldOf4(bs, o + 4);
    hide FromLe, Pow256, Word32;
  }

  // ---------------------------------------------------------------------------
  // Reading
  // ---------------------------------------------------------------------------

  /** A header is accepted exactly with the magic, version 1, header size 32, room for a detail byte and no more records than slots. */
  lemma HeaderIsReadIff(blob: seq<byte>)
    ensures ParseHeader(blob).Some? <==>
            && |blob| >= 32 && blob[0] == 0x43 && blob[1] == 0x54 && blob[2] == 0x52 && blob[3] == 0x43
            && Word16(blob, 4) == 1 && Word16(blob, 6) == 32 && Word32(blob, 8) >= 29 && Word32(blob, 12) <= Word32(blob, 16)
    ensures ParseHeader(blob).Some? ==>
              ParseHeader(blob).value
              == Header(1, Word32(blob, 8), Word32(blob, 12), Word32(blob, 16), Word32(blob, 20), Word64(blob, 24))
  {
    if |blob| >= 32 {
      FieldOf2(blob, 4);
      FieldOf2(blob, 6);
      FieldOf4(blob, 8);
      FieldOf4(blob, 12);
      FieldOf4(blob, 16);
      FieldOf4(blob, 20);
      FieldOf8(blob, 24);
      MagicIs(blob);
    }
    hide Field, Word16, Word32, Word64;
  }

  lemma MagicIs(blob: seq<byte>)
    requires |blob| >= 4
    ensures blob[..4] == MAGIC <==> blob[0] == 0x43 && blob[1] == 0x54 && blob[2] == 0x52 && blob[3] == 0x43
  {
    assert blob[..4] == [blob[0], blob[1], blob[2], blob[3]];
  }

  /** The records are read one record size apart behind the header, exactly when the file is long enough. */
  lemma RecordsAreReadIff(blob: seq<byte>, h: Header)
    requires h.recordSize >= 29
    ensures Records(blob, h).Some? <==> |blob| >= 32 + h.count * h.recordSize
    ensures Records(blob, h).Some? ==> |Records(blob, h).value| == h.count
  {
    OffsetIsProduct(h.count, h.recordSize - 28);
    hide RecordsIn, Offset;
  }

  lemma RecordIsRead(blob: seq<byte>, h: Header, k: nat)
    requires h.recordSize >= 29 && Records(blob, h).Some? && k < h.count
    ensures var o, size := 32 + k * h.recordSize, h.recordSize - 28;
      o + h.recordSize <= |blob| && Records(blob, h).value[k] == RecordAt(blob, o, size)
  {
    RecordInAt(blob, h.count, h.recordSize - 28, k);
    OffsetIsProduct(k, h.recordSize - 28);
    OffsetGrows(k, h.count, h.recordSize - 28);
    hide RecordsIn, Offset, RecordAt;
  }

  lemma {:induction false} RecordInAt(blob: seq<byte>, count: nat, size: nat, k: nat)
    requires Offset(count, size) <= |blob| && k < count
    ensures Offset(k, size) + 28 + size <= |blob|
    ensures RecordsIn(blob, count, size)[k] == RecordAt(blob, Offset(k, size), size)
  {
    hide RecordAt;
    OffsetGrows(k, count, size);
    if k < count - 1 { RecordInAt(blob, count - 1, size, k); }
  }

  /** One record, word by word; its detail ends before the first zero byte. */
  lemma RecordIs(blob: seq<byte>, o: nat, size: nat)
    requires o + 28 + size <= |blob|
    ensures var r := RecordAt(blob, o, size);
      && r.sequence == Word64(blob, o) && r.timestamp == SignedWord(Word64(blob, o + 8), 0x1_0000_0000_0000_0000)
      && r.instance == Word32(blob, o + 16)
      && r.kind == SignedWord(Word32(blob, o + 20), 0x1_0000_0000) && r.code == SignedWord(Word32(blob, o + 24), 0x1_0000_0000)
      && r.detail <= blob[o + 28..o + 28 + size] && 0 !in r.detail
      && (|r.detail| < size ==> blob[o + 28 + |r.detail|] == 0)
  {
    Powers();
    FieldOf8(blob, o);
    FieldOf8(blob, o + 8);
    FieldOf4(blob, o + 16);
    FieldOf4(blob, o + 20);
    FieldOf4(blob, o + 24);
    UpToNulIs(blob[o + 28..o + 28 + size]);
    hide Field, Word32, Word64, UpToNul, Pow256;
  }

  lemma {:induction false} UpToNulIs(bs: seq<byte>)
    ensures UpToNul(bs) <= bs && 0 !in UpToNul(bs) && (|UpToNul(bs)| < |bs| ==> bs[|UpToNul(bs)|] == 0)
  {
    if bs != [] && bs[0] != 0 {
      UpToNulIs(bs[1..]);
      assert bs == [bs[0]] + bs[1..];
    }
  }

  // ---------------------------------------------------------------------------
  // Writing
  // ---------------------------------------------------------------------------

  /** The values that fit the fields of a record. */
  lemma PacksIff(r: Record)
    ensures Packs(r) <==>
            && 0 <= r.sequence < 0x1_0000_0000_0000_0000
            && -0x8000_0000_0000_0000 <= r.timestamp < 0x8000_0000_0000_0000
            && 0 <= r.instance < 0x1_0000_0000
            && -0x8000_0000 <= r.kind < 0x8000_0000 && -0x8000_0000 <= r.code < 0x8000_0000
  {
    Powers();
    hide Pow256;
  }

  lemma HeaderPacksIff(h: Header)
    ensures HeaderPacks(h) <==>
            && h.version < 0x1_0000 && h.recordSize < 0x1_0000_0000 && h.count < 0x1_0000_0000
            && h.capacity < 0x1_0000_0000 && h.dropped < 0x1_0000_0000 && h.reserved < 0x1_0000_0000_0000_0000
  {
    Powers();
    hide Pow256;
  }

  lemma WordOfLe(bs: seq<byte>, o: nat, v: nat, n: nat)
    requires n in [2, 4, 8] && v < Pow256(n) && o + n <= |bs| && bs[o..o + n] == Le(v, n)
    ensures v == if n == 2 then Word16(bs, o) else if n == 4 then Word32(bs, o) else Word64(bs, o)
  {
    LeRoundTrip(v, n);
    if n == 2 { FieldOf2(bs, o); } else if n == 4 { FieldOf4(bs, o); } else { FieldOf8(bs, o); }
    hide FromLe, Le, Word16, Word32, Word64;
  }

  /** What one record is on disk: five words, then the detail and zeros, the last byte always zero. */
  lemma RecordLayout(r: Record, size: nat)
    requires Packs(r)
    ensures var bs := RecordBytes(r, size);
      && |bs| == 28 + size
      && Word64(bs, 0) == r.sequence && SignedWord(Word64(bs, 8), 0x1_0000_0000_0000_0000) == r.timestamp
      && Word32(bs, 16) == r.instance
      && SignedWord(Word32(bs, 20), 0x1_0000_0000) == r.kind && SignedWord(Word32(bs, 24), 0x1_0000_0000) == r.code
      && forall i: nat | i < size :: bs[28 + i] == if i < |r.detail| && i < size - 1 then r.detail[i] else 0
  {
    PacksIff(r);
    FixedLayout(r);
    var fixed, bs := FixedBytes(r), RecordBytes(r, size);
    assert forall i | 0 <= i < 28 :: bs[i] == fixed[i];
    SameWords(fixed, bs);
    forall i: nat | i < size ensures bs[28 + i] == if i < |r.detail| && i < size - 1 then r.detail[i] else 0 {
      assert bs[28 + i] == DetailBytes(r.detail, size)[i];
    }
    hide FixedBytes, DetailBytes, Packs, Word32, Word64, SignedWord;
  }

  lemma SameWords(a: seq<byte>, b: seq<byte>)
    requires |a| == 28 <= |b| && forall i | 0 <= i < 28 :: b[i] == a[i]
    ensures Word64(a, 0) == Word64(b, 0) && Word64(a, 8) == Word64(b, 8)
    ensures Word32(a, 16) == Word32(b, 16) && Word32(a, 20) == Word32(b, 20) && Word32(a, 24) == Word32(b, 24)
  {
  }

  lemma FixedLayout(r: Record)
    requires Packs(r)
    ensures var bs := FixedBytes(r);
      && Word64(bs, 0) == r.sequence && SignedWord(Word64(bs, 8), 0x1_0000_0000_0000_0000) == r.timestamp
      && Word32(bs, 16) == r.instance
      && SignedWord(Word32(bs, 20), 0x1_0000_0000) == r.kind && SignedWord(Word32(bs, 24), 0x1_0000_0000) == r.code
  {
    Powers();
    PacksIff(r);
    var bs := FixedBytes(r);
    FixedSlices(r);
    hide FixedBytes, Pow256, Le, Word32, Word64, Packs;
    WordOfLe(bs, 0, r.sequence, 8);
    WordOfLe(bs, 8, Unsigned(r.timestamp, 8), 8);
    WordOfLe(bs, 16, r.instance, 4);
    WordOfLe(bs, 20, Unsigned(r.kind, 4), 4);
    WordOfLe(bs, 24, Unsigned(r.code, 4), 4);
  }

  lemma FixedSlices(r: Record)
    requires Packs(r)
    ensures Unsigned(r.timestamp, 8) >= 0 && Unsigned(r.kind, 4) >= 0 && Unsigned(r.code, 4) >= 0
    ensures var bs := FixedBytes(r);
      && bs[0..8] == Le(r.sequence, 8) && bs[8..16] == Le(Unsigned(r.timestamp, 8), 8) && bs[16..20] == Le(r.instance, 4)
      && bs[20..24] == Le(Unsigned(r.kind, 4), 4) && bs[24..28] == Le(Unsigned(r.code, 4), 4)
  {
    Powers();
    hide Pow256, Le;
  }

  /** What the header is on disk. */
  lemma HeaderLayout(h: Header)
    requires HeaderPacks(h)
    ensures var bs := HeaderBytes(h);
      && bs[0] == 0x43 && bs[1] == 0x54 && bs[2] == 0x52 && bs[3] == 0x43
      && Word16(bs, 4) == h.version && Word16(bs, 6) == 32 && Word32(bs, 8) == h.recordSize && Word32(bs, 12) == h.count
      && Word32(bs, 16) == h.capacity && Word32(bs, 20) == h.dropped && Word64(bs, 24) == h.reserved
  {
    Powers();
    HeaderPacksIff(h);
    HeaderSlices(h);
    var bs := HeaderBytes(h);
    MagicIs(bs);
    hide HeaderBytes, HeaderPacks, Pow256, Le, Word16, Word32, Word64;
    WordOfLe(bs, 4, h.version, 2);
    WordOfLe(bs, 6, 32, 2);
    WordOfLe(bs, 8, h.recordSize, 4);
    WordOfLe(bs, 12, h.count, 4);
    WordOfLe(bs, 16, h.capacity, 4);
    WordOfLe(bs, 20, h.dropped, 4);
    WordOfLe(bs, 24, h.reserved, 8);
  }

  lemma HeaderSlices(h: Header)
    requires HeaderPacks(h)
    ensures var bs := HeaderBytes(h);
      && bs[..4] == MAGIC && bs[4..6] == Le(h.version, 2) && bs[6..8] == Le(32, 2) && bs[8..12] == Le(h.recordSize, 4)
      && bs[12..16] == Le(h.count, 4) && bs[16..20] == Le(h.capacity, 4) && bs[20..24] == Le(h.dropped, 4)
      && bs[24..32] == Le(h.reserved, 8)
  {
    hide Le, HeaderPacks, Pow256;
  }

  /** A dump is written exactly when there is a slot for the records, the header fits its words, and every stored record does. */
  lemma DumpIsWrittenIff(rs: seq<Record>, capacity: int, dropped: int, size: nat, version: int)
    ensures Image(rs, capacity, dropped, size, version).Some? <==>
            && 0 <= capacity < 0x1_0000_0000 && 0 <= dropped < 0x1_0000_0000 && 0 <= version < 0x1_0000
            && (rs == [] || capacity > 0) && 28 + size < 0x1_0000_0000
            && forall r | r in Newest(rs, capacity) :: Packs(r)
  {
    if 0 <= capacity && 0 <= dropped && 0 <= version && !(capacity == 0 && rs != []) {
      HeaderPacksIff(HeaderOf(rs, capacity, dropped, size, version));
      AllBytesIff(Stored(rs, capacity), size);
      SameRecords(rs, capacity);
    }
    hide HeaderPacks, HeaderBytes, AllBytes, Stored, Packs, Newest;
  }

  lemma {:induction false} AllBytesIff(rs: seq<Record>, size: nat)
    ensures AllBytes(rs, size).Some? <==> forall r | r in rs :: Packs(r)
  {
    hide Packs, RecordBytes;
    if rs != [] {
      var n := |rs| - 1;
      AllBytesIff(rs[..n], size);
      assert rs == rs[..n] + [rs[n]];
    }
  }

  lemma SameRecords(rs: seq<Record>, capacity: nat)
    requires |rs| > capacity ==> capacity >= 1
    ensures forall r :: r in Stored(rs, capacity) <==> r in Newest(rs, capacity)
  {
    if |rs| > capacity {
      var retained := rs[|rs| - capacity..];
      var rotation := capacity - |rs| % capacity;
      assert retained == retained[..rotation] + retained[rotation..];
    }
  }

  /** The image is the header and, one record size apart, the slots. */
  lemma {:induction false} SlotIsAt(rs: seq<Record>, size: nat, k: nat)
    requires AllBytes(rs, size).Some? && k < |rs|
    ensures |AllBytes(rs, size).value| == |rs| * (28 + size)
    ensures Packs(rs[k]) && (k + 1) * (28 + size) <= |rs| * (28 + size)
    ensures AllBytes(rs, size).value[k * (28 + size)..(k + 1) * (28 + size)] == RecordBytes(rs[k], size)
  {
    hide Packs, RecordBytes;
    var n := |rs| - 1;
    var before := AllBytes(rs[..n], size).value;
    SlotsLength(rs, size);
    SlotsLength(rs[..n], size);
    MulMono(28 + size, k + 1, |rs|);
    if k < n {
      SlotIsAt(rs[..n], size, k);
    } else {
      assert (k + 1) * (28 + size) == k * (28 + size) + (28 + size);
    }
  }

  lemma {:induction false} SlotsLength(rs: seq<Record>, size: nat)
    requires AllBytes(rs, size).Some?
    ensures |AllBytes(rs, size).value| == |rs| * (28 + size)
  {
    hide Packs, RecordBytes;
    if rs != [] {
      SlotsLength(rs[..|rs| - 1], size);
      assert |rs| * (28 + size) == (|rs| - 1) * (28 + size) + (28 + size);
    }
  }
}
