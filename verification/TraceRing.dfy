/**
 The slots of the trace ring (tools/trace_viewer/trace_format.py): the writer's
 rotation against a ring that is overwritten record by record.
 */
module TraceRing {
  import opened Bits
  import opened Trace

  /** What the target does: record number k overwrites slot k % capacity. */
  function Ring(rs: seq<Record>, capacity: nat): (slots: seq<Record>)
    requires capacity >= 1
    ensures |slots| == if |rs| > capacity then capacity else |rs|
  {
    if rs == [] then []
    else
      var n := |rs| - 1;
      var before := Ring(rs[..n], capacity);
      if n < capacity then before + [rs[n]] else before[n % capacity := rs[n]]
  }

  /** A slot holds the newest record whose number is congruent to it. */
  function SlotOwner(n: nat, capacity: nat, j: nat): int
    requires capacity >= 1
  {
    if j < n % capacity then n - n % capacity + j else n - n % capacity - capacity + j
  }

  lemma ModStep(n: nat, c: nat)
    requires c >= 1
    ensures (n + 1) % c == if n % c + 1 == c then 0 else n % c + 1
  {
    var q, r := n / c, n % c;
    assert n == c * q + r;
    if r + 1 == c {
      assert n + 1 == c * (q + 1);
      DivUnique(n + 1, c, q + 1, 0);
    } else {
      DivUnique(n + 1, c, q, r + 1);
    }
  }

  lemma {:induction false} RingSlot(rs: seq<Record>, capacity: nat, j: nat)
    requires capacity >= 1 && |rs| >= capacity && j < capacity
    ensures 0 <= SlotOwner(|rs|, capacity, j) < |rs|
    ensures Ring(rs, capacity)[j] == rs[SlotOwner(|rs|, capacity, j)]
  {
    var n := |rs| - 1;
    ModStep(n, capacity);
    if n >= capacity {
      RingSlot(rs[..n], capacity, j);
    } else {
      RingUnfilled(rs, capacity);
      DivUnique(|rs|, capacity, 1, 0);
    }
  }

  lemma {:induction false} RingUnfilled(rs: seq<Record>, capacity: nat)
    requires capacity >= 1 && |rs| <= capacity
    ensures Ring(rs, capacity) == rs
  {
    if rs != [] { RingUnfilled(rs[..|rs| - 1], capacity); }
  }

  lemma StoredSlot(rs: seq<Record>, capacity: nat, j: nat)
    requires capacity >= 1 && |rs| > capacity && j < capacity
    ensures 0 <= SlotOwner(|rs|, capacity, j) < |rs|
    ensures Stored(rs, capacity)[j] == rs[SlotOwner(|rs|, capacity, j)]
  {
    hide Pow256;
    var n, m := |rs|, |rs| % capacity;
    assert m < capacity;
    var retained := rs[n - capacity..];
    if j < m {
      assert retained[capacity - m..][j] == retained[capacity - m + j];
    } else {
      assert retained[..capacity - m][j - m] == retained[j - m];
    }
  }

  /** The writer's rotation yields the slots of a ring written record by record. */
  lemma StoredIsRing(rs: seq<Record>, capacity: nat)
    requires capacity >= 1
    ensures Stored(rs, capacity) == Ring(rs, capacity)
  {
    if |rs| > capacity {
      forall j | 0 <= j < capacity
        ensures Stored(rs, capacity)[j] == Ring(rs, capacity)[j]
      {
        hide Stored, Ring, SlotOwner;
        RingSlot(rs, capacity, j);
        StoredSlot(rs, capacity, j);
      }
    } else {
      RingUnfilled(rs, capacity);
    }
  }
}
