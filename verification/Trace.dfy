/**
 The binary trace dump (tools/trace_viewer/trace_format.py): `BuildDump` and
 `ParseRecords` follow the writer and the reader byte by byte.

 A detail text is its bytes in UTF-8.  An exception of the source, including
 one that `struct` raises for a value out of range, is the result None.
 */
module Trace {
  import opened Bits
  import opened Wrappers

  datatype Record = Record(sequence: int, timestamp: int, instance: int, kind: int, code: int, detail: seq<byte>)

  datatype Header = Header(version: nat, recordSize: nat, count: nat, capacity: nat, dropped: nat, reserved: nat)

  datatype Dump = Dump(header: Header, records: seq<Record>, wrapped: bool)

  const MAGIC: seq<byte> := [0x43, 0x54, 0x52, 0x43]
  const FORMAT_VERSION := 1
  const HEADER_SIZE := 32
  const RECORD_FIXED_SIZE := 28

  // ---------------------------------------------------------------------------
  // Little-endian fields
  // ---------------------------------------------------------------------------

  function Pow256(n: nat): (p: int)
    ensures p >= 1
  {
    if n == 0 then 1 else 256 * Pow256(n - 1)
  }

  /** The n low bytes of v, least significant first. */
  function Le(v: nat, n: nat): (bs: seq<byte>)
    ensures |bs| == n
  {
    if n == 0 then [] else [v % 256] + Le(v / 256, n - 1)
  }

  function FromLe(bs: seq<byte>): nat {
    if bs == [] then 0 else bs[0] + 256 * FromLe(bs[1..])
  }

  /** The unsigned image of a two's complement number of n bytes, and back. */
  function Unsigned(v: int, n: nat): int {
    if v < 0 then v + Pow256(n) else v
  }

  function Signed(u: nat, n: nat): int {
    if 2 * u >= Pow256(n) then u - Pow256(n) else u
  }

  predicate FitsUnsigned(v: int, n: nat) { 0 <= v < Pow256(n) }

  predicate FitsSigned(v: int, n: nat) { -Pow256(n) <= 2 * v < Pow256(n) }

  lemma {:induction false} LeRoundTrip(v: nat, n: nat)
    requires FitsUnsigned(v, n)
    ensures FromLe(Le(v, n)) == v
  {
    if n != 0 {
      var p := Pow256(n - 1);
      assert v / 256 < p;
      LeRoundTrip(v / 256, n - 1);
      assert Le(v, n)[1..] == Le(v / 256, n - 1);
    }
  }

  lemma SignedRoundTrip(v: int, n: nat)
    requires FitsSigned(v, n) && n != 0
    ensures FitsUnsigned(Unsigned(v, n), n) && Signed(Unsigned(v, n), n) == v
  {
  }

  /** The field of n bytes at an offset. */
  function Field(blob: seq<byte>, offset: nat, n: nat): nat
    requires offset + n <= |blob|
  {
    FromLe(blob[offset..offset + n])
  }

  // ---------------------------------------------------------------------------
  // Writing
  // ---------------------------------------------------------------------------

  /** The ranges `struct.pack` accepts for one record. */
  predicate Packs(r: Record) {
    FitsUnsigned(r.sequence, 8) && FitsSigned(r.timestamp, 8) && FitsUnsigned(r.instance, 4)
    && FitsSigned(r.kind, 4) && FitsSigned(r.code, 4)
  }

  function Zeros(n: nat): (z: seq<byte>)
    ensures |z| == n && forall i | 0 <= i < n :: z[i] == 0
  {
    seq(n, _ => 0)
  }

  /** The detail cut so that at least one zero byte follows it, padded to its size. */
  function DetailBytes(detail: seq<byte>, size: nat): (bs: seq<byte>)
    ensures |bs| == size
  {
    var kept := Kept(detail, size);
    kept + Zeros(size - |kept|)
  }

  function Kept(detail: seq<byte>, size: nat): (kept: seq<byte>)
    ensures |kept| <= size
  {
    if size == 0 then [] else if |detail| <= size - 1 then detail else detail[..size - 1]
  }

  function FixedBytes(r: Record): (bs: seq<byte>)
    requires Packs(r)
    ensures |bs| == RECORD_FIXED_SIZE
  {
    Le(r.sequence, 8) + Le(Unsigned(r.timestamp, 8), 8) + Le(r.instance, 4)
    + Le(Unsigned(r.kind, 4), 4) + Le(Unsigned(r.code, 4), 4)
  }

  function RecordBytes(r: Record, size: nat): (bs: seq<byte>)
    requires Packs(r)
    ensures |bs| == RECORD_FIXED_SIZE + size
  {
    FixedBytes(r) + DetailBytes(r.detail, size)
  }

  predicate HeaderPacks(h: Header) {
    FitsUnsigned(h.version, 2) && FitsUnsigned(h.recordSize, 4) && FitsUnsigned(h.count, 4)
    && FitsUnsigned(h.capacity, 4) && FitsUnsigned(h.dropped, 4) && FitsUnsigned(h.reserved, 8)
  }

  function HeaderBytes(h: Header): (bs: seq<byte>)
    requires HeaderPacks(h)
    ensures |bs| == HEADER_SIZE
  {
    MAGIC + Le(h.version, 2) + Le(HEADER_SIZE, 2) + Le(h.recordSize, 4) + Le(h.count, 4)
    + Le(h.capacity, 4) + Le(h.dropped, 4) + Le(h.reserved, 8)
  }

  /** The records one after the other; None when one of them does not pack. */
  function AllBytes(rs: seq<Record>, size: nat): (bs: Option<seq<byte>>)
  {
    if rs == [] then Some([])
    else
      var before :- AllBytes(rs[..|rs| - 1], size);
      if Packs(rs[|rs| - 1]) then Some(before + RecordBytes(rs[|rs| - 1], size)) else None
  }

  lemma NoBytes(size: nat)
    ensures AllBytes([], size) == Some([])
  {
  }

  lemma AllBytesStep(rs: seq<Record>, i: nat, size: nat)
    requires i < |rs| && AllBytes(rs[..i], size).Some?
    ensures AllBytes(rs[..i + 1], size)
            == if Packs(rs[i]) then Some(AllBytes(rs[..i], size).value + RecordBytes(rs[i], size)) else None
  {
    hide Packs, RecordBytes;
    assert rs[..i + 1][..i] == rs[..i];
  }

  /** Writing stops at the first record that does not pack. */
  lemma {:induction false} AllBytesPrefix(rs: seq<Record>, size: nat, n: nat)
    requires n <= |rs| && AllBytes(rs, size).Some?
    ensures AllBytes(rs[..n], size).Some?
  {
    hide Packs, RecordBytes;
    if n < |rs| {
      AllBytesPrefix(rs[..|rs| - 1], size, n);
      assert rs[..|rs| - 1][..n] == rs[..n];
    } else {
      assert rs[..n] == rs;
    }
  }

  /** The newest records that a ring of that capacity retains. */
  function Newest(rs: seq<Record>, capacity: nat): seq<Record> {
    if |rs| > capacity then rs[|rs| - capacity..] else rs
  }

  /** The slots in the order in which the writer lays them out. */
  function Stored(rs: seq<Record>, capacity: nat): (slots: seq<Record>)
    requires |rs| > capacity ==> capacity >= 1
    ensures |slots| == if |rs| > capacity then capacity else |rs|
  {
    if |rs| > capacity then
      var retained := rs[|rs| - capacity..];
      var rotation := capacity - |rs| % capacity;
      retained[rotation..] + retained[..rotation]
    else rs
  }

  function HeaderOf(rs: seq<Record>, capacity: nat, dropped: nat, size: nat, version: nat): Header
    requires |rs| > capacity ==> capacity >= 1
  {
    Header(version, RECORD_FIXED_SIZE + size, |Stored(rs, capacity)|, capacity, dropped, 0)
  }

  /** The dump image; None where the source raises. */
  function Image(rs: seq<Record>, capacity: int, dropped: int, size: nat, version: int): Option<seq<byte>> {
    if capacity < 0 || dropped < 0 || version < 0 || (capacity == 0 && rs != []) then None
    else
      var header := HeaderOf(rs, capacity, dropped, size, version);
      if !HeaderPacks(header) then None
      else
        var body :- AllBytes(Stored(rs, capacity), size);
        Some(HeaderBytes(header) + body)
  }

  method BuildDump(records: seq<Record>, maximum: Option<int>, dropped: int, size: nat, version: int)
    returns (image: Option<seq<byte>>)
    ensures image == Image(records, if maximum.None? then (if records == [] then 1 else |records|) else maximum.value,
                           dropped, size, version)
  {
    hide HeaderPacks, HeaderBytes, RecordBytes, Packs, AllBytes;
    var capacity := if maximum.None? then (if records == [] then 1 else |records|) else maximum.value;
    if capacity < 0 || dropped < 0 || version < 0 || (capacity == 0 && records != []) { return None; }
    var stored := records;
    if |records| > capacity {
      var retained := records[|records| - capacity..];
      var rotation := capacity - |records| % capacity;
      stored := retained[rotation..] + retained[..rotation];
    }
    var header := Header(version, RECORD_FIXED_SIZE + size, |stored|, capacity, dropped, 0);
    if !HeaderPacks(header) { return None; }
    var blob := HeaderBytes(header);
    assert stored[..0] == [];
    NoBytes(size);
    var i := 0;
    while i < |stored|
      invariant 0 <= i <= |stored|
      invariant AllBytes(stored[..i], size).Some?
      invariant blob == HeaderBytes(header) + AllBytes(stored[..i], size).value
    {
      AllBytesStep(stored, i, size);
      if !Packs(stored[i]) {
        if AllBytes(stored, size).Some? { AllBytesPrefix(stored, size, i + 1); }
        return None;
      }
      blob := blob + RecordBytes(stored[i], size);
      i := i + 1;
    }
    assert stored[..i] == stored;
    return Some(blob);
  }

  // ---------------------------------------------------------------------------
  // Reading
  // ---------------------------------------------------------------------------

  function ParseHeader(blob: seq<byte>): Option<Header> {
    if |blob| < HEADER_SIZE then None
    else if blob[..4] != MAGIC then None
    else
      var h := Header(Field(blob, 4, 2), Field(blob, 8, 4), Field(blob, 12, 4), Field(blob, 16, 4),
                      Field(blob, 20, 4), Field(blob, 24, 8));
      if h.version != FORMAT_VERSION || Field(blob, 6, 2) != HEADER_SIZE then None
      else if h.recordSize < RECORD_FIXED_SIZE + 1 || h.count > h.capacity then None
      else Some(h)
  }

  function UpToNul(bs: seq<byte>): seq<byte> {
    if bs == [] || bs[0] == 0 then [] else [bs[0]] + UpToNul(bs[1..])
  }

  function RecordAt(blob: seq<byte>, offset: nat, size: nat): Record
    requires offset + RECORD_FIXED_SIZE + size <= |blob|
  {
    Record(Field(blob, offset, 8), Signed(Field(blob, offset + 8, 8), 8), Field(blob, offset + 16, 4),
           Signed(Field(blob, offset + 20, 4), 4), Signed(Field(blob, offset + 24, 4), 4),
           UpToNul(blob[offset + 28..offset + 28 + size]))
  }

  /** Position of record number k. */
  function Offset(k: nat, size: nat): (o: nat)
    ensures o >= HEADER_SIZE
  {
    if k == 0 then HEADER_SIZE else Offset(k - 1, size) + RECORD_FIXED_SIZE + size
  }

  lemma {:induction false} OffsetIsProduct(k: nat, size: nat)
    ensures Offset(k, size) == HEADER_SIZE + k * (RECORD_FIXED_SIZE + size)
  {
    if k != 0 {
      OffsetIsProduct(k - 1, size);
      assert (k - 1) * (RECORD_FIXED_SIZE + size) + (RECORD_FIXED_SIZE + size) == k * (RECORD_FIXED_SIZE + size);
    }
  }

  function RecordsIn(blob: seq<byte>, count: nat, size: nat): (rs: seq<Record>)
    requires Offset(count, size) <= |blob|
    ensures |rs| == count
  {
    if count == 0 then [] else RecordsIn(blob, count - 1, size) + [RecordAt(blob, Offset(count - 1, size), size)]
  }

  function Records(blob: seq<byte>, header: Header): Option<seq<Record>>
    requires header.recordSize > RECORD_FIXED_SIZE
  {
    var size := header.recordSize - RECORD_FIXED_SIZE;
    if |blob| < Offset(header.count, size) then None else Some(RecordsIn(blob, header.count, size))
  }

  lemma {:induction false} OffsetGrows(j: nat, k: nat, size: nat)
    requires j < k
    ensures Offset(j, size) + RECORD_FIXED_SIZE + size <= Offset(k, size)
  {
    if j < k - 1 { OffsetGrows(j, k - 1, size); }
  }

  method ParseRecords(blob: seq<byte>, header: Header) returns (records: Option<seq<Record>>)
    requires header.recordSize > RECORD_FIXED_SIZE
    ensures records == Records(blob, header)
  {
    hide RecordAt, Pow256;
    var size := header.recordSize - RECORD_FIXED_SIZE;
    OffsetIsProduct(header.count, size);
    var available := |blob| - HEADER_SIZE;
    if available < header.count * header.recordSize { return None; }
    var rs := [];
    var offset := HEADER_SIZE;
    var index := 0;
    while index < header.count
      invariant 0 <= index <= header.count
      invariant offset == Offset(index, size) <= |blob|
      invariant rs == RecordsIn(blob, index, size)
    {
      OffsetGrows(index, header.count, size);
      rs := rs + [RecordAt(blob, offset, size)];
      offset := offset + header.recordSize;
      index := index + 1;
    }
    return Some(rs);
  }
}
