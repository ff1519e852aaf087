/**
 Reading back what the dump writer wrote (tools/trace_viewer/trace_format.py):
 the reader recovers the newest records that the ring retained, in order.
 */
module TraceRoundTrip {
  import opened Bits
  import opened Wrappers
  import opened Trace
  import opened TraceOrder

  // ---------------------------------------------------------------------------
  // Bytes
  // ---------------------------------------------------------------------------

  /** `bs` stands in the image at an offset. */
  predicate At(blob: seq<byte>, offset: nat, bs: seq<byte>)
    ensures At(blob, offset, bs) ==> offset + |bs| <= |blob|
  {
    offset + |bs| <= |blob| && blob[offset..offset + |bs|] == bs
  }

  lemma AtSplit(blob: seq<byte>, offset: nat, a: seq<byte>, b: seq<byte>)
    requires At(blob, offset, a + b)
    ensures At(blob, offset, a) && At(blob, offset + |a|, b)
  {
    var s := blob[offset..offset + |a + b|];
    assert s[..|a|] == a && s[|a|..] == b;
    assert s[..|a|] == blob[offset..offset + |a|] && s[|a|..] == blob[offset + |a|..offset + |a| + |b|];
  }

  lemma FieldUnsigned(blob: seq<byte>, offset: nat, v: int, n: nat)
    requires FitsUnsigned(v, n) && At(blob, offset, Le(v, n))
    ensures Field(blob, offset, n) == v
  {
    LeRoundTrip(v, n);
  }

  lemma FieldSigned(blob: seq<byte>, offset: nat, v: int, n: nat)
    requires n != 0 && FitsSigned(v, n) && Unsigned(v, n) >= 0 && At(blob, offset, Le(Unsigned(v, n), n))
    ensures offset + n <= |blob| && Signed(Field(blob, offset, n), n) == v
  {
    hide Signed, Unsigned, FitsSigned, FitsUnsigned, Field;
    SignedRoundTrip(v, n);
    FieldUnsigned(blob, offset, Unsigned(v, n), n);
  }

  /** Cutting, padding and reading up to the first zero byte. */
  lemma {:induction false} UpToNulOfPadded(kept: seq<byte>, n: nat)
    requires n >= 1
    ensures UpToNul(kept + Zeros(n)) == UpToNul(kept)
  {
    var padded := kept + Zeros(n);
    if kept == [] {
      assert padded[0] == 0;
    } else if kept[0] != 0 {
      UpToNulOfPadded(kept[1..], n);
      assert padded[1..] == kept[1..] + Zeros(n);
    }
  }

  /** What a reader gets to see of a record written with that detail size. */
  function Seen(r: Record, size: nat): Record {
    r.(detail := UpToNul(Kept(r.detail, size)))
  }

  function AllSeen(rs: seq<Record>, size: nat): (ss: seq<Record>)
    ensures |ss| == |rs| && forall i | 0 <= i < |rs| :: ss[i] == Seen(rs[i], size)
  {
    seq(|rs|, i requires 0 <= i < |rs| => Seen(rs[i], size))
  }

  lemma {:induction false} UpToNulIsIdentityIff(bs: seq<byte>)
    ensures |UpToNul(bs)| <= |bs| && (UpToNul(bs) == bs <==> 0 !in bs)
  {
    if bs != [] {
      UpToNulIsIdentityIff(bs[1..]);
      assert bs == [bs[0]] + bs[1..];
      if bs[0] != 0 { assert UpToNul(bs)[1..] == UpToNul(bs[1..]); }
    }
  }

  /** A record survives unchanged exactly when its detail is free of zero bytes and leaves room for one. */
  lemma SeenUnchangedIff(r: Record, size: nat)
    requires size >= 1
    ensures Seen(r, size) == r <==> 0 !in r.detail && |r.detail| < size
  {
    UpToNulIsIdentityIff(Kept(r.detail, size));
  }

  lemma DetailReadBack(detail: seq<byte>, size: nat)
    requires size >= 1
    ensures UpToNul(DetailBytes(detail, size)) == UpToNul(Kept(detail, size))
  {
    UpToNulOfPadded(Kept(detail, size), size - |Kept(detail, size)|);
  }

  lemma PacksSigned(r: Record)
    requires Packs(r)
    ensures Unsigned(r.timestamp, 8) >= 0 && Unsigned(r.kind, 4) >= 0 && Unsigned(r.code, 4) >= 0
  {
    hide Pow256;
  }

  lemma FixedAt(blob: seq<byte>, o: nat, r: Record)
    requires Packs(r) && At(blob, o, FixedBytes(r))
    ensures Unsigned(r.timestamp, 8) >= 0 && Unsigned(r.kind, 4) >= 0 && Unsigned(r.code, 4) >= 0
    ensures At(blob, o, Le(r.sequence, 8)) && At(blob, o + 8, Le(Unsigned(r.timestamp, 8), 8))
    ensures At(blob, o + 16, Le(r.instance, 4)) && At(blob, o + 20, Le(Unsigned(r.kind, 4), 4))
    ensures At(blob, o + 24, Le(Unsigned(r.code, 4), 4))
  {
    hide At, Le, Unsigned, FitsSigned, Pow256;
    PacksSigned(r);
    var a, b, c := Le(r.sequence, 8), Le(Unsigned(r.timestamp, 8), 8), Le(r.instance, 4);
    var d, e := Le(Unsigned(r.kind, 4), 4), Le(Unsigned(r.code, 4), 4);
    AtSplit(blob, o, a + b + c + d, e);
    AtSplit(blob, o, a + b + c, d);
    AtSplit(blob, o, a + b, c);
    AtSplit(blob, o, a, b);
  }

  /** A record read where it was written. */
  lemma RecordReadBack(blob: seq<byte>, o: nat, r: Record, size: nat)
    requires Packs(r) && size >= 1 && At(blob, o, RecordBytes(r, size))
    ensures RecordAt(blob, o, size) == Seen(r, size)
  {
    hide Le, Unsigned, Signed, FitsSigned, FitsUnsigned, Field, FixedBytes, DetailBytes, UpToNul, Kept;
    AtSplit(blob, o, FixedBytes(r), DetailBytes(r.detail, size));
    FixedAt(blob, o, r);
    FieldUnsigned(blob, o, r.sequence, 8);
    FieldSigned(blob, o + 8, r.timestamp, 8);
    FieldUnsigned(blob, o + 16, r.instance, 4);
    FieldSigned(blob, o + 20, r.kind, 4);
    FieldSigned(blob, o + 24, r.code, 4);
    DetailReadBack(r.detail, size);
  }

  lemma {:induction false} AllBytesLength(rs: seq<Record>, size: nat)
    requires AllBytes(rs, size).Some?
    ensures HEADER_SIZE + |AllBytes(rs, size).value| == Offset(|rs|, size)
  {
    hide Packs, RecordBytes;
    if rs != [] { AllBytesLength(rs[..|rs| - 1], size); }
  }

  lemma {:induction false} RecordsReadBack(blob: seq<byte>, rs: seq<Record>, size: nat)
    requires size >= 1 && AllBytes(rs, size).Some? && At(blob, HEADER_SIZE, AllBytes(rs, size).value)
    ensures Offset(|rs|, size) <= |blob| && RecordsIn(blob, |rs|, size) == AllSeen(rs, size)
  {
    hide Packs, RecordBytes, At, RecordAt, Seen;
    AllBytesLength(rs, size);
    if rs != [] {
      var n := |rs| - 1;
      var before := rs[..n];
      AllBytesLength(before, size);
      AtSplit(blob, HEADER_SIZE, AllBytes(before, size).value, RecordBytes(rs[n], size));
      RecordsReadBack(blob, before, size);
      RecordReadBack(blob, Offset(n, size), rs[n], size);
    }
  }

  // ---------------------------------------------------------------------------
  // Header
  // ---------------------------------------------------------------------------

  lemma HeaderAt(blob: seq<byte>, h: Header)
    requires HeaderPacks(h) && At(blob, 0, HeaderBytes(h))
    ensures At(blob, 0, MAGIC) && At(blob, 4, Le(h.version, 2)) && At(blob, 6, Le(HEADER_SIZE, 2))
    ensures At(blob, 8, Le(h.recordSize, 4)) && At(blob, 12, Le(h.count, 4)) && At(blob, 16, Le(h.capacity, 4))
    ensures At(blob, 20, Le(h.dropped, 4)) && At(blob, 24, Le(h.reserved, 8))
  {
    hide At, Le, FitsUnsigned;
    var m, a, b, c := MAGIC, Le(h.version, 2), Le(HEADER_SIZE, 2), Le(h.recordSize, 4);
    var d, e, f, g := Le(h.count, 4), Le(h.capacity, 4), Le(h.dropped, 4), Le(h.reserved, 8);
    AtSplit(blob, 0, m + a + b + c + d + e + f, g);
    AtSplit(blob, 0, m + a + b + c + d + e, f);
    AtSplit(blob, 0, m + a + b + c + d, e);
    AtSplit(blob, 0, m + a + b + c, d);
    AtSplit(blob, 0, m + a + b, c);
    AtSplit(blob, 0, m + a, b);
    AtSplit(blob, 0, m, a);
  }

  /** A written header is accepted exactly when the reader supports it, and then read unchanged. */
  lemma HeaderReadBack(blob: seq<byte>, h: Header)
    requires HeaderPacks(h) && At(blob, 0, HeaderBytes(h))
    ensures ParseHeader(blob)
            == if h.version == FORMAT_VERSION && h.recordSize > RECORD_FIXED_SIZE && h.count <= h.capacity
               then Some(h) else None
  {
    HeaderAt(blob, h);
    HeaderFields(blob, h);
    assert blob[..4] == MAGIC;
  }

  lemma HeaderFields(blob: seq<byte>, h: Header)
    requires HeaderPacks(h) && |blob| >= HEADER_SIZE
    requires At(blob, 4, Le(h.version, 2)) && At(blob, 6, Le(HEADER_SIZE, 2))
    requires At(blob, 8, Le(h.recordSize, 4)) && At(blob, 12, Le(h.count, 4)) && At(blob, 16, Le(h.capacity, 4))
    requires At(blob, 20, Le(h.dropped, 4)) && At(blob, 24, Le(h.reserved, 8))
    ensures Field(blob, 4, 2) == h.version && Field(blob, 6, 2) == HEADER_SIZE
    ensures Field(blob, 8, 4) == h.recordSize && Field(blob, 12, 4) == h.count && Field(blob, 16, 4) == h.capacity
    ensures Field(blob, 20, 4) == h.dropped && Field(blob, 24, 8) == h.reserved
  {
    hide At, Le, Field;
    FieldUnsigned(blob, 4, h.version, 2);
    FieldUnsigned(blob, 6, HEADER_SIZE, 2);
    FieldUnsigned(blob, 8, h.recordSize, 4);
    FieldUnsigned(blob, 12, h.count, 4);
    FieldUnsigned(blob, 16, h.capacity, 4);
    FieldUnsigned(blob, 20, h.dropped, 4);
    FieldUnsigned(blob, 24, h.reserved, 8);
  }

  // ---------------------------------------------------------------------------
  // The whole dump
  // ---------------------------------------------------------------------------

  function Parsed(blob: seq<byte>): Option<Dump> {
    var header :- ParseHeader(blob);
    var records :- Records(blob, header);
    var order :- Chronological(records, header.count == header.capacity && header.capacity > 0);
    Some(Dump(header, order.0, order.1))
  }

  method ParseDump(blob: seq<byte>) returns (dump: Option<Dump>)
    ensures dump == Parsed(blob)
  {
    hide Chronological, Records;
    var header := ParseHeader(blob);
    if header.None? { return None; }
    var records := ParseRecords(blob, header.value);
    if records.None? { return None; }
    var order := Chronological(records.value, header.value.count == header.value.capacity && header.value.capacity > 0);
    if order.None? { return None; }
    return Some(Dump(header.value, order.value.0, order.value.1));
  }

  /** Where the oldest retained record stands among the slots. */
  function Oldest(rs: seq<Record>, capacity: nat): nat
    requires |rs| > capacity ==> capacity >= 1
  {
    if |rs| > capacity then |rs| % capacity else 0
  }

  lemma StoredRotatesBack(rs: seq<Record>, capacity: nat)
    requires |rs| > capacity ==> capacity >= 1
    ensures Oldest(rs, capacity) == 0 || Oldest(rs, capacity) < |Stored(rs, capacity)|
    ensures Rotate(Stored(rs, capacity), Oldest(rs, capacity)) == Newest(rs, capacity)
  {
    if |rs| > capacity {
      var m := |rs| % capacity;
      assert m < capacity;
      RotateTwice(rs[|rs| - capacity..], capacity - m);
    }
  }

  lemma RotateTwice<T>(s: seq<T>, k: nat)
    requires k <= |s|
    ensures Rotate(s[k..] + s[..k], |s| - k) == s
  {
  }

  lemma SeenRotates(rs: seq<Record>, size: nat, k: nat)
    requires k <= |rs|
    ensures AllSeen(Rotate(rs, k), size) == Rotate(AllSeen(rs, size), k)
  {
  }

  lemma SeenIncreasing(rs: seq<Record>, size: nat)
    ensures Increasing(AllSeen(rs, size)) <==> Increasing(rs)
  {
    forall i | 0 <= i < |rs| ensures AllSeen(rs, size)[i].sequence == rs[i].sequence {}
    if Increasing(AllSeen(rs, size)) {
      forall i, j | 0 <= i < j < |rs| ensures rs[i].sequence < rs[j].sequence {
        assert AllSeen(rs, size)[i].sequence < AllSeen(rs, size)[j].sequence;
      }
    }
  }

  lemma ImageParts(rs: seq<Record>, capacity: int, dropped: int, size: nat, version: int)
    requires Image(rs, capacity, dropped, size, version).Some?
    ensures capacity >= 0 && dropped >= 0 && version >= 0 && (|rs| > capacity ==> capacity >= 1)
    ensures HeaderPacks(HeaderOf(rs, capacity, dropped, size, version)) && AllBytes(Stored(rs, capacity), size).Some?
    ensures At(Image(rs, capacity, dropped, size, version).value, 0, HeaderBytes(HeaderOf(rs, capacity, dropped, size, version)))
    ensures At(Image(rs, capacity, dropped, size, version).value, HEADER_SIZE, AllBytes(Stored(rs, capacity), size).value)
  {
    hide HeaderPacks, HeaderBytes, AllBytes, Stored;
  }

  /** The records of a dump of a supported version, as stored. */
  lemma StoredReadBack(rs: seq<Record>, capacity: int, dropped: int, size: nat, version: int)
    requires Image(rs, capacity, dropped, size, version).Some?
    ensures capacity >= 0 && dropped >= 0 && version >= 0 && (|rs| > capacity ==> capacity >= 1)
    ensures Parsed(Image(rs, capacity, dropped, size, version).value)
            == if version != FORMAT_VERSION || size == 0 then None
               else
                 var stored := AllSeen(Stored(rs, capacity), size);
                 match Chronological(stored, |stored| == capacity && capacity > 0)
                 case None => None
                 case Some(o) => Some(Dump(HeaderOf(rs, capacity, dropped, size, version), o.0, o.1))
  {
    hide HeaderPacks, HeaderBytes, AllBytes, Stored, Chronological, Image, At, AllSeen, ParseHeader, RecordsIn;
    ImageParts(rs, capacity, dropped, size, version);
    var blob := Image(rs, capacity, dropped, size, version).value;
    HeaderReadBack(blob, HeaderOf(rs, capacity, dropped, size, version));
    if version == FORMAT_VERSION && size >= 1 {
      RecordsReadBack(blob, Stored(rs, capacity), size);
    }
  }

  /**
   Reading a written dump yields the retained records in the order in which they
   were recorded, with their details as seen and every header value unchanged,
   exactly when the retained sequence numbers are strictly increasing; the dump
   is called wrapped when the oldest record is not in the first slot.
   */
  lemma DumpRoundTrip(rs: seq<Record>, capacity: int, dropped: int, size: nat, version: int)
    requires Image(rs, capacity, dropped, size, version).Some?
    ensures capacity >= 0 && dropped >= 0 && version >= 0 && (|rs| > capacity ==> capacity >= 1)
    ensures Parsed(Image(rs, capacity, dropped, size, version).value)
            == Some(Dump(Header(version, 28 + size, if |rs| > capacity then capacity else |rs|, capacity, dropped, 0),
                         AllSeen(Newest(rs, capacity), size), |rs| > capacity && |rs| % capacity != 0))
            <==> version == 1 && size >= 1 && Increasing(Newest(rs, capacity))
  {
    hide Chronological, Image, Parsed, Stored, Newest, Rotate, AllSeen, Increasing;
    StoredReadBack(rs, capacity, dropped, size, version);
    var m := Oldest(rs, capacity);
    StoredRotatesBack(rs, capacity);
    SeenRotates(Stored(rs, capacity), size, m);
    SeenIncreasing(Newest(rs, capacity), size);
    var stored := AllSeen(Stored(rs, capacity), size);
    if version == FORMAT_VERSION && size >= 1 {
      var full := |stored| == capacity && capacity > 0;
      if Increasing(Newest(rs, capacity)) {
        RotationIsFound(stored, full, m);
      } else if Chronological(stored, full).Some? {
        var k := OrderIsRotation(stored, full);
      }
    }
  }

  lemma NewestIncreasing(rs: seq<Record>, capacity: nat)
    requires Increasing(rs)
    ensures Increasing(Newest(rs, capacity))
  {
  }

  lemma AllSeenUnchangedIff(rs: seq<Record>, size: nat)
    requires size >= 1
    ensures AllSeen(rs, size) == rs <==> forall r | r in rs :: 0 !in r.detail && |r.detail| < size
  {
    hide Seen;
    forall r | r in rs ensures Seen(r, size) == r <==> 0 !in r.detail && |r.detail| < size {
      SeenUnchangedIff(r, size);
    }
    if AllSeen(rs, size) == rs {
      forall r | r in rs ensures Seen(r, size) == r {
        var i :| 0 <= i < |rs| && rs[i] == r;
        assert AllSeen(rs, size)[i] == rs[i];
      }
    }
  }

  /** For sequences that increase throughout, the retained records come back bit for bit exactly when their details fit. */
  lemma ExactDumpRoundTrip(rs: seq<Record>, capacity: nat, dropped: int, size: nat)
    requires Image(rs, capacity, dropped, size, FORMAT_VERSION).Some? && size >= 1 && Increasing(rs)
    ensures dropped >= 0 && (|rs| > capacity ==> capacity >= 1)
    ensures Parsed(Image(rs, capacity, dropped, size, FORMAT_VERSION).value)
            == Some(Dump(Header(1, 28 + size, if |rs| > capacity then capacity else |rs|, capacity, dropped, 0),
                         Newest(rs, capacity), |rs| > capacity && |rs| % capacity != 0))
            <==> forall r | r in Newest(rs, capacity) :: 0 !in r.detail && |r.detail| < size
  {
    hide Image, Parsed, Newest, Increasing, AllSeen;
    NewestIncreasing(rs, capacity);
    DumpRoundTrip(rs, capacity, dropped, size, FORMAT_VERSION);
    AllSeenUnchangedIff(Newest(rs, capacity), size);
  }
}
