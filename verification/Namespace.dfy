/**
 The signal namespace (core/codec/src/namespace.c).

 Codec maps and signals are objects, because the source tells them apart by
 address.  Ids are not stored anywhere: `Entries` lists the registered signals
 in registration order, and both traversals of the source are stated by it.
 */
module Namespace {
  import opened Wrappers
  import opened CodecTypes
  import opened Words
  import opened Names

  const MAX_CAPACITY := 256

  /** CANCESTRY_ID_NONE. */
  const ID_NONE := 0

  class SignalDef {
    const name: string

    constructor (name: string)
      ensures this.name == name
    {
      this.name := name;
    }
  }

  /** A codec map: its name and, per message, the signals. */
  class MapDef {
    const name: string
    const messages: seq<seq<SignalDef>>

    constructor (name: string, messages: seq<seq<SignalDef>>)
      ensures this.name == name && this.messages == messages
    {
      this.name := name;
      this.messages := messages;
    }
  }

  datatype Entry = Entry(codec: MapDef, signal: SignalDef)

  datatype Resolution = Resolution(id: nat, entry: Entry)

  // ---------------------------------------------------------------------------
  // Registration order
  // ---------------------------------------------------------------------------

  /** The signals of the messages, in map order. */
  function Flat(messages: seq<seq<SignalDef>>): seq<SignalDef> {
    if messages == [] then [] else Flat(messages[..|messages| - 1]) + messages[|messages| - 1]
  }

  function Tagged(codec: MapDef): (es: seq<Entry>)
    ensures |es| == |Flat(codec.messages)|
    ensures forall i | 0 <= i < |es| :: es[i] == Entry(codec, Flat(codec.messages)[i])
  {
    var signals := Flat(codec.messages);
    seq(|signals|, i requires 0 <= i < |signals| => Entry(codec, signals[i]))
  }

  /** All registered signals in registration order. */
  function Entries(maps: seq<MapDef>): seq<Entry> {
    if maps == [] then [] else Entries(maps[..|maps| - 1]) + Tagged(maps[|maps| - 1])
  }

  lemma {:induction false} FlatPrefix(messages: seq<seq<SignalDef>>, m: nat, s: nat)
    requires m < |messages| && s < |messages[m]|
    ensures |Flat(messages[..m])| + s < |Flat(messages)|
    ensures Flat(messages)[|Flat(messages[..m])| + s] == messages[m][s]
  {
    var n := |messages| - 1;
    if m < n {
      FlatPrefix(messages[..n], m, s);
      assert messages[..n][..m] == messages[..m];
    }
  }

  lemma {:induction false} EntriesPrefix(maps: seq<MapDef>, i: nat, k: nat)
    requires i < |maps| && k < |Flat(maps[i].messages)|
    ensures |Entries(maps[..i])| + k < |Entries(maps)|
    ensures Entries(maps)[|Entries(maps[..i])| + k] == Entry(maps[i], Flat(maps[i].messages)[k])
  {
    var n := |maps| - 1;
    if i < n {
      EntriesPrefix(maps[..n], i, k);
      assert maps[..n][..i] == maps[..i];
    }
  }

  /** Every entry is a signal of one of the maps. */
  lemma {:induction false} EntryOrigin(maps: seq<MapDef>, k: nat) returns (i: nat, j: nat)
    requires k < |Entries(maps)|
    ensures i < |maps| && j < |Flat(maps[i].messages)| && k == |Entries(maps[..i])| + j
    ensures Entries(maps)[k] == Entry(maps[i], Flat(maps[i].messages)[j])
  {
    var n := |maps| - 1;
    if k < |Entries(maps[..n])| {
      i, j := EntryOrigin(maps[..n], k);
      assert maps[..n][..i] == maps[..i];
    } else {
      i, j := n, k - |Entries(maps[..n])|;
    }
  }

  lemma Nothing()
    ensures Flat([]) == [] && Entries([]) == []
  {
  }

  /** The prefix of a list one longer. */
  lemma FlatStep(messages: seq<seq<SignalDef>>, m: nat)
    requires m < |messages|
    ensures Flat(messages[..m + 1]) == Flat(messages[..m]) + messages[m]
  {
    assert messages[..m + 1][..m] == messages[..m];
  }

  lemma EntriesStep(maps: seq<MapDef>, i: nat)
    requires i < |maps|
    ensures Entries(maps[..i + 1]) == Entries(maps[..i]) + Tagged(maps[i])
  {
    assert maps[..i + 1][..i] == maps[..i];
  }

  // ---------------------------------------------------------------------------
  // Ids
  // ---------------------------------------------------------------------------

  /** Position of the first occurrence, or the length. */
  function FirstIndex<T(==)>(s: seq<T>, x: T): (k: nat)
    ensures k <= |s|
  {
    if s == [] || s[0] == x then 0 else 1 + FirstIndex(s[1..], x)
  }

  lemma {:induction false} FirstIndexIs<T>(s: seq<T>, x: T, k: nat)
    requires k <= |s| && (k < |s| ==> s[k] == x)
    requires forall j | 0 <= j < k :: s[j] != x
    ensures FirstIndex(s, x) == k
  {
    if k != 0 {
      FirstIndexIs(s[1..], x, k - 1);
    }
  }

  lemma {:induction false} FirstIndexFinds<T>(s: seq<T>, x: T)
    ensures FirstIndex(s, x) < |s| ==> s[FirstIndex(s, x)] == x
    ensures x in s <==> FirstIndex(s, x) < |s|
    ensures forall j | 0 <= j < FirstIndex(s, x) :: s[j] != x
  {
    if s != [] && s[0] != x {
      FirstIndexFinds(s[1..], x);
      assert s == [s[0]] + s[1..];
    }
  }

  /** The id recomputed for an entry; ids are uint32_t. */
  function IdOf(maps: seq<MapDef>, e: Entry): (id: nat)
    ensures id < UINT32_MODULUS
  {
    var k := FirstIndex(Entries(maps), e);
    if k < |Entries(maps)| then U32(k + 1) else ID_NONE
  }

  /** The position whose id is the target, counting from zero. */
  function Rank(target: nat): nat
    requires target < UINT32_MODULUS
  {
    if target == 0 then UINT32_MODULUS - 1 else target - 1
  }

  function EntryOf(maps: seq<MapDef>, target: nat): Option<Entry>
    requires target < UINT32_MODULUS
  {
    if Rank(target) < |Entries(maps)| then Some(Entries(maps)[Rank(target)]) else None
  }

  /** While no id was missed, the running id meets the target exactly at its position. */
  lemma IdMeets(seen: nat, target: nat)
    requires target < UINT32_MODULUS && seen <= Rank(target)
    ensures U32(seen + 1) == target <==> seen == Rank(target)
  {
  }

  // ---------------------------------------------------------------------------
  // Names
  // ---------------------------------------------------------------------------

  predicate DistinctNames(signals: seq<SignalDef>) {
    forall i, j | 0 <= i < j < |signals| :: signals[i].name != signals[j].name
  }

  /** What registration has checked of the maps in the slots. */
  predicate Coherent(maps: seq<MapDef>) {
    && (forall i, j | 0 <= i < j < |maps| :: maps[i].name != maps[j].name)
    && (forall codec | codec in maps :: codec.messages != [] && DistinctNames(Flat(codec.messages)))
  }

  /** The first signal of that name, as a position. */
  function Named(signals: seq<SignalDef>, name: string): (k: nat)
    ensures k <= |signals|
    ensures k < |signals| ==> signals[k].name == name
    ensures forall j | 0 <= j < k :: signals[j].name != name
  {
    if signals == [] || signals[0].name == name then 0
    else
      var k := Named(signals[1..], name);
      assert forall j | 1 <= j < k + 1 :: signals[j] == signals[1..][j - 1];
      k + 1
  }

  lemma NamedIs(signals: seq<SignalDef>, name: string, k: nat)
    requires k <= |signals| && (k < |signals| ==> signals[k].name == name)
    requires forall j | 0 <= j < k :: signals[j].name != name
    ensures Named(signals, name) == k
  {
  }

  /** Position of the map of that name, or the number of maps. */
  function MapNamed(maps: seq<MapDef>, name: string): (i: nat)
    ensures i <= |maps|
    ensures i < |maps| ==> maps[i].name == name
    ensures forall j | 0 <= j < i :: maps[j].name != name
  {
    if maps == [] || maps[0].name == name then 0
    else
      var k := MapNamed(maps[1..], name);
      assert forall j | 1 <= j < k + 1 :: maps[j] == maps[1..][j - 1];
      k + 1
  }

  lemma MapNamedIs(maps: seq<MapDef>, name: string, k: nat)
    requires k <= |maps| && (k < |maps| ==> maps[k].name == name)
    requires forall j | 0 <= j < k :: maps[j].name != name
    ensures MapNamed(maps, name) == k
  {
  }

  /** How many of the entries carry a short name, and the last of them. */
  function Matches(es: seq<Entry>, name: string): nat {
    if es == [] then 0
    else Matches(es[..|es| - 1], name) + if es[|es| - 1].signal.name == name then 1 else 0
  }

  function LastMatch(es: seq<Entry>, name: string): Option<Entry> {
    if es == [] then None
    else if es[|es| - 1].signal.name == name then Some(es[|es| - 1])
    else LastMatch(es[..|es| - 1], name)
  }

  /** What a name resolves to. */
  function Resolved(maps: seq<MapDef>, name: string): (Status, Option<Resolution>) {
    if name == "" then (ErrArgument, None)
    else if Dot(name) < |name| then Canonical(maps, name[..Dot(name)], name[Dot(name) + 1..])
    else if Matches(Entries(maps), name) == 0 then (ErrNotFound, None)
    else if Matches(Entries(maps), name) > 1 then (ErrAmbiguous, None)
    else
      match LastMatch(Entries(maps), name)
      case None => (ErrNotFound, None)
      case Some(e) => (Status.Ok, Some(Resolution(IdOf(maps, e), e)))
  }

  function Canonical(maps: seq<MapDef>, prefix: string, suffix: string): (Status, Option<Resolution>) {
    if prefix == "" || suffix == "" then (ErrArgument, None)
    else
      var i := MapNamed(maps, prefix);
      if i == |maps| then (ErrNotFound, None)
      else
        var signals := Flat(maps[i].messages);
        var k := Named(signals, suffix);
        if k == |signals| then (ErrNotFound, None)
        else
          var e := Entry(maps[i], signals[k]);
          (Status.Ok, Some(Resolution(IdOf(maps, e), e)))
  }

  // ---------------------------------------------------------------------------
  // The namespace object
  // ---------------------------------------------------------------------------

  method StringEqual(lhs: string, rhs: string) returns (equal: bool)
    ensures equal == (lhs == rhs)
  {
    var i := 0;
    while i < |lhs| && i < |rhs|
      invariant 0 <= i <= |lhs| && i <= |rhs| && lhs[..i] == rhs[..i]
    {
      if lhs[i] != rhs[i] { return false; }
      i := i + 1;
    }
    if i == |lhs| && i == |rhs| {
      assert lhs[..i] == lhs && rhs[..i] == rhs;
      return true;
    }
    return false;
  }

  /** Whether the signal at a position has the name of a later one. */
  method RepeatsLater(messages: seq<seq<SignalDef>>, m: nat, a: nat) returns (repeated: bool)
    requires m < |messages| && a < |messages[m]|
    ensures var k := |Flat(messages[..m])| + a;
      k < |Flat(messages)| && (repeated <==> exists j | k < j < |Flat(messages)| :: Flat(messages)[j].name == Flat(messages)[k].name)
  {
    ghost var flat := Flat(messages);
    ghost var k := |Flat(messages[..m])| + a;
    FlatPrefix(messages, m, a);
    var mm := m;
    ghost var seen := k + 1;
    while mm < |messages|
      invariant m <= mm <= |messages| && k < seen
      invariant seen == if mm == m then k + 1 else |Flat(messages[..mm])|
      invariant forall j | k < j < seen && j < |flat| :: flat[j].name != flat[k].name
    {
      var b := if mm == m then a + 1 else 0;
      while b < |messages[mm]|
        invariant 0 <= b <= |messages[mm]| && k < seen
        invariant seen == |Flat(messages[..mm])| + b
        invariant forall j | k < j < seen && j < |flat| :: flat[j].name != flat[k].name
      {
        FlatPrefix(messages, mm, b);
        var equal := StringEqual(messages[m][a].name, messages[mm][b].name);
        if equal { return true; }
        b := b + 1;
        seen := seen + 1;
      }
      FlatStep(messages, mm);
      mm := mm + 1;
    }
    assert messages[..mm] == messages;
    return false;
  }

  method HasDuplicateSignalNames(codec: MapDef) returns (duplicate: bool)
    ensures duplicate == !DistinctNames(Flat(codec.messages))
  {
    ghost var flat := Flat(codec.messages);
    var m := 0;
    ghost var seen := 0;
    while m < |codec.messages|
      invariant 0 <= m <= |codec.messages|
      invariant seen == |Flat(codec.messages[..m])|
      invariant forall i, j | 0 <= i < j < |flat| && i < seen :: flat[i].name != flat[j].name
    {
      var a := 0;
      while a < |codec.messages[m]|
        invariant 0 <= a <= |codec.messages[m]|
        invariant seen == |Flat(codec.messages[..m])| + a
        invariant forall i, j | 0 <= i < j < |flat| && i < seen :: flat[i].name != flat[j].name
      {
        var again := RepeatsLater(codec.messages, m, a);
        if again { return true; }
        a := a + 1;
        seen := seen + 1;
      }
      FlatStep(codec.messages, m);
      m := m + 1;
    }
    assert codec.messages[..m] == codec.messages;
    return false;
  }

  method FindSignal(codec: MapDef, name: string) returns (found: Option<SignalDef>)
    ensures var k := Named(Flat(codec.messages), name);
      found == if k < |Flat(codec.messages)| then Some(Flat(codec.messages)[k]) else None
  {
    ghost var flat := Flat(codec.messages);
    var m := 0;
    ghost var seen := 0;
    while m < |codec.messages|
      invariant 0 <= m <= |codec.messages|
      invariant seen == |Flat(codec.messages[..m])|
      invariant forall j | 0 <= j < seen && j < |flat| :: flat[j].name != name
    {
      var n := 0;
      while n < |codec.messages[m]|
        invariant 0 <= n <= |codec.messages[m]|
        invariant seen == |Flat(codec.messages[..m])| + n
        invariant forall j | 0 <= j < seen && j < |flat| :: flat[j].name != name
      {
        FlatPrefix(codec.messages, m, n);
        var equal := StringEqual(name, codec.messages[m][n].name);
        if equal {
          NamedIs(flat, name, seen);
          return Some(codec.messages[m][n]);
        }
        n := n + 1;
        seen := seen + 1;
      }
      FlatStep(codec.messages, m);
      m := m + 1;
    }
    assert codec.messages[..m] == codec.messages;
    NamedIs(flat, name, |flat|);
    return None;
  }

  class SignalNamespace {
    var slots: array?<MapDef?>
    var capacity: nat
    var count: nat

    predicate IsValid()
      reads this
    {
      slots != null && 0 < capacity <= MAX_CAPACITY && count <= capacity
    }

    /** The part of the caller-owned storage that is in use. */
    ghost predicate Sound()
      reads this, slots
    {
      IsValid() ==>
        && slots.Length >= capacity
        && (forall i | 0 <= i < count :: slots[i] != null)
        && Coherent(Registered())
    }

    ghost function Registered(): (maps: seq<MapDef>)
      requires IsValid() && slots.Length >= capacity && forall i | 0 <= i < count :: slots[i] != null
      reads this, slots
      ensures |maps| == count && forall i | 0 <= i < count :: maps[i] == slots[i]
    {
      assert forall c | c in slots[..count] :: c != null;
      slots[..count]
    }

    constructor (storage: array?<MapDef?>, capacity: nat)
      requires storage != null ==> storage.Length >= capacity
      ensures Sound() && count == 0
      ensures IsValid() <==> storage != null && 1 <= capacity <= 256
      ensures IsValid() ==> slots == storage && this.capacity == capacity
    {
      if storage == null || capacity == 0 || capacity > MAX_CAPACITY {
        slots, this.capacity, count := null, 0, 0;
      } else {
        slots, this.capacity, count := storage, capacity, 0;
      }
    }

    method Size() returns (size: nat)
      requires Sound()
      ensures size == if IsValid() then |Registered()| else 0
    {
      if !IsValid() { return 0; }
      return count;
    }

    method SignalCount() returns (total: nat)
      requires Sound()
      ensures total == if IsValid() then U32(|Entries(Registered())|) else 0
    {
      hide U32, Coherent;
      if !IsValid() { return 0; }
      ghost var maps := Registered();
      total := U32(0);
      var i := 0;
      while i < count
        invariant 0 <= i <= count
        invariant total == U32(|Entries(maps[..i])|)
      {
        total := CountMap(slots[i], total, |Entries(maps[..i])|);
        EntriesStep(maps, i);
        i := i + 1;
      }
      assert maps[..i] == maps;
    }

    method Register(codec: MapDef) returns (status: Status)
      requires Sound()
      modifies this, slots
      ensures Sound() && IsValid() == old(IsValid())
      ensures slots == old(slots) && capacity == old(capacity)
      ensures status ==
        (if !IsValid() then ErrNull
         else if codec.messages == [] then ErrArgument
         else if exists m | m in old(Registered()) :: m.name == codec.name then ErrConflict
         else if !DistinctNames(Flat(codec.messages)) then ErrConflict
         else if old(count) >= capacity then ErrCapacity
         else Status.Ok)
      ensures IsValid() ==> Registered() == (if status == Status.Ok then old(Registered()) + [codec] else old(Registered()))
    {
      if !IsValid() { return ErrNull; }
      if codec.messages == [] { return ErrArgument; }
      ghost var maps := Registered();
      var i := 0;
      while i < count
        invariant 0 <= i <= count
        invariant forall j | 0 <= j < i :: maps[j].name != codec.name
        modifies {}
      {
        var equal := StringEqual(slots[i].name, codec.name);
        if equal {
          assert maps[i] in maps;
          return ErrConflict;
        }
        i := i + 1;
      }
      var duplicate := HasDuplicateSignalNames(codec);
      if duplicate { return ErrConflict; }
      if count >= capacity { return ErrCapacity; }
      slots[count] := codec;
      count := count + 1;
      assert Registered() == maps + [codec];
      return Status.Ok;
    }

    method SignalAt(target: nat) returns (found: Option<Entry>)
      requires Sound() && IsValid() && target < UINT32_MODULUS
      ensures found == EntryOf(Registered(), target)
    {
      hide U32, Coherent, Flat, Entries, Tagged, Rank;
      ghost var maps := Registered();
      var current := 1;
      ghost var seen := 0;
      assert maps[..0] == [];
      Nothing();
      var i := 0;
      while i < count
        invariant 0 <= i <= count
        invariant seen == |Entries(maps[..i])| <= Rank(target) && current == U32(seen + 1)
      {
        var codec := slots[i];
        ghost var base := seen;
        var m := 0;
        assert codec.messages[..0] == [];
        Nothing();
        while m < |codec.messages|
          invariant 0 <= m <= |codec.messages|
          invariant seen == base + |Flat(codec.messages[..m])| <= Rank(target) && current == U32(seen + 1)
        {
          var s := 0;
          while s < |codec.messages[m]|
            invariant 0 <= s <= |codec.messages[m]|
            invariant seen == base + |Flat(codec.messages[..m])| + s <= Rank(target) && current == U32(seen + 1)
          {
            IdMeets(seen, target);
            if current == target {
              FlatPrefix(codec.messages, m, s);
              EntriesPrefix(maps, i, |Flat(codec.messages[..m])| + s);
              return Some(Entry(codec, codec.messages[m][s]));
            }
            U32Add(seen + 1, 1);
            current := U32(current + 1);
            s := s + 1;
            seen := seen + 1;
          }
          FlatStep(codec.messages, m);
          m := m + 1;
        }
        assert codec.messages[..m] == codec.messages;
        EntriesStep(maps, i);
        i := i + 1;
      }
      assert maps[..i] == maps;
      return None;
    }

    method IdOfSignal(codec: MapDef, signal: SignalDef) returns (id: nat)
      requires Sound() && IsValid()
      ensures id == IdOf(Registered(), Entry(codec, signal))
    {
      hide U32, Coherent, Flat, Entries, Tagged, FirstIndex;
      ghost var maps := Registered();
      ghost var e := Entry(codec, signal);
      ghost var es := Entries(maps);
      var current := 1;
      ghost var seen := 0;
      assert maps[..0] == [];
      Nothing();
      var i := 0;
      while i < count
        invariant 0 <= i <= count
        invariant seen == |Entries(maps[..i])| && current == U32(seen + 1)
        invariant forall j | 0 <= j < seen && j < |es| :: es[j] != e
      {
        var registered := slots[i];
        ghost var base := seen;
        if registered != codec {
          current := CountMap(registered, current, seen + 1);
          seen := seen + |Flat(registered.messages)|;
          forall j | base <= j < seen && j < |es| ensures es[j] != e {
            EntriesPrefix(maps, i, j - base);
          }
        } else {
          var m := 0;
          assert codec.messages[..0] == [];
          Nothing();
          while m < |codec.messages|
            invariant 0 <= m <= |codec.messages|
            invariant seen == base + |Flat(codec.messages[..m])| && current == U32(seen + 1)
            invariant forall j | 0 <= j < seen && j < |es| :: es[j] != e
          {
            var s := 0;
            while s < |codec.messages[m]|
              invariant 0 <= s <= |codec.messages[m]|
              invariant seen == base + |Flat(codec.messages[..m])| + s && current == U32(seen + 1)
              invariant forall j | 0 <= j < seen && j < |es| :: es[j] != e
            {
              FlatPrefix(codec.messages, m, s);
              EntriesPrefix(maps, i, |Flat(codec.messages[..m])| + s);
              if codec.messages[m][s] == signal {
                FirstIndexIs(es, e, seen);
                return current;
              }
              U32Add(seen + 1, 1);
              current := U32(current + 1);
              s := s + 1;
              seen := seen + 1;
            }
            FlatStep(codec.messages, m);
            m := m + 1;
          }
          assert codec.messages[..m] == codec.messages;
        }
        EntriesStep(maps, i);
        i := i + 1;
      }
      assert maps[..i] == maps;
      FirstIndexIs(es, e, |es|);
      return ID_NONE;
    }

    method ResolveId(id: nat) returns (status: Status, out: Option<Resolution>)
      requires Sound() && id < UINT32_MODULUS
      ensures !IsValid() || id == ID_NONE ==> status == ErrArgument && out == None
      ensures IsValid() && id != ID_NONE ==>
        match EntryOf(Registered(), id)
        case None => status == ErrNotFound && out == None
        case Some(e) => status == Status.Ok && out == Some(Resolution(id, e))
    {
      if !IsValid() || id == ID_NONE { return ErrArgument, None; }
      var found := SignalAt(id);
      if found.None? { return ErrNotFound, None; }
      return Status.Ok, Some(Resolution(id, found.value));
    }

    method Resolve(name: string) returns (status: Status, out: Option<Resolution>)
      requires Sound()
      ensures (status, out) == if IsValid() then Resolved(Registered(), name) else (ErrArgument, None)
    {
      hide U32, Coherent, Flat, Entries, IdOf, Matches, LastMatch, Canonical;
      if !IsValid() || name == "" { return ErrArgument, None; }
      var dot := Dot(name);
      if dot < |name| {
        status, out := ResolveCanonical(name, dot);
      } else {
        status, out := ResolveShort(name);
      }
    }

    method ResolveCanonical(name: string, dot: nat) returns (status: Status, out: Option<Resolution>)
      requires Sound() && IsValid() && dot < |name|
      ensures (status, out) == Canonical(Registered(), name[..dot], name[dot + 1..])
    {
      hide U32, Coherent, Flat, Entries, IdOf;
      var suffix := name[dot + 1..];
      if dot == 0 || suffix == "" { return ErrArgument, None; }
      ghost var maps := Registered();
      var codec: MapDef? := null;
      var m := 0;
      while m < count
        invariant 0 <= m <= count && codec == null
        invariant forall j | 0 <= j < m :: maps[j].name != name[..dot]
      {
        var equal := StringEqual(slots[m].name, name[..dot]);
        if equal {
          codec := slots[m];
          break;
        }
        m := m + 1;
      }
      MapNamedIs(maps, name[..dot], m);
      if codec == null { return ErrNotFound, None; }
      var signal := FindSignal(codec, suffix);
      if signal.None? { return ErrNotFound, None; }
      var id := IdOfSignal(codec, signal.value);
      return Status.Ok, Some(Resolution(id, Entry(codec, signal.value)));
    }

    method ResolveShort(name: string) returns (status: Status, out: Option<Resolution>)
      requires Sound() && IsValid() && name != "" && Dot(name) == |name|
      ensures (status, out) == Resolved(Registered(), name)
    {
      hide U32, Coherent, Flat, Entries, Tagged, IdOf, Canonical, Matches, LastMatch;
      NoMatch(name);
      ghost var maps := Registered();
      ghost var es := Entries(maps);
      var matches := 0;
      var found: Option<Entry> := None;
      ghost var seen := 0;
      assert maps[..0] == [] && es[..0] == [];
      Nothing();
      var m := 0;
      while m < count
        invariant 0 <= m <= count && seen == |Entries(maps[..m])| <= |es|
        invariant matches == Matches(es[..seen], name) && found == LastMatch(es[..seen], name)
      {
        var codec := slots[m];
        ghost var base := seen;
        EntriesBound(maps, m);
        assert codec.messages[..0] == [];
        Nothing();
        var mm := 0;
        while mm < |codec.messages|
          invariant 0 <= mm <= |codec.messages| && seen == base + |Flat(codec.messages[..mm])| <= |es|
          invariant matches == Matches(es[..seen], name) && found == LastMatch(es[..seen], name)
        {
          var s := 0;
          while s < |codec.messages[mm]|
            invariant 0 <= s <= |codec.messages[mm]| && seen == base + |Flat(codec.messages[..mm])| + s <= |es|
            invariant matches == Matches(es[..seen], name) && found == LastMatch(es[..seen], name)
          {
            FlatPrefix(codec.messages, mm, s);
            EntriesPrefix(maps, m, |Flat(codec.messages[..mm])| + s);
            MatchStep(es, seen, name);
            var equal := StringEqual(codec.messages[mm][s].name, name);
            if equal {
              matches := matches + 1;
              found := Some(Entry(codec, codec.messages[mm][s]));
            }
            s := s + 1;
            seen := seen + 1;
          }
          FlatStep(codec.messages, mm);
          mm := mm + 1;
        }
        assert codec.messages[..mm] == codec.messages;
        EntriesStep(maps, m);
        m := m + 1;
      }
      assert maps[..m] == maps && es[..|es|] == es;
      if matches == 0 { return ErrNotFound, None; }
      if matches > 1 { return ErrAmbiguous, None; }
      if found.None? { return ErrNotFound, None; }
      var id := IdOfSignal(found.value.codec, found.value.signal);
      return Status.Ok, Some(Resolution(id, found.value));
    }
  }

  /** Adds the number of signals of a map to a running uint32_t. */
  method CountMap(codec: MapDef, start: nat, ghost before: nat) returns (current: nat)
    requires start == U32(before)
    ensures current == U32(before + |Flat(codec.messages)|)
  {
    hide U32;
    current := start;
    var m := 0;
    while m < |codec.messages|
      invariant 0 <= m <= |codec.messages|
      invariant current == U32(before + |Flat(codec.messages[..m])|)
    {
      U32Add(before + |Flat(codec.messages[..m])|, |codec.messages[m]|);
      current := U32(current + |codec.messages[m]|);
      FlatStep(codec.messages, m);
      m := m + 1;
    }
    assert codec.messages[..m] == codec.messages;
  }

  lemma NoMatch(name: string)
    ensures Matches([], name) == 0 && LastMatch([], name) == None
  {
  }

  lemma MatchStep(es: seq<Entry>, k: nat, name: string)
    requires k < |es|
    ensures Matches(es[..k + 1], name) == Matches(es[..k], name) + if es[k].signal.name == name then 1 else 0
    ensures LastMatch(es[..k + 1], name) == if es[k].signal.name == name then Some(es[k]) else LastMatch(es[..k], name)
  {
    assert es[..k + 1][..k] == es[..k];
  }

  lemma {:induction false} EntriesBound(maps: seq<MapDef>, i: nat)
    requires i <= |maps|
    ensures |Entries(maps[..i])| <= |Entries(maps)|
  {
    if i < |maps| {
      EntriesBound(maps[..|maps| - 1], i);
      assert maps[..|maps| - 1][..i] == maps[..i];
    } else {
      assert maps[..i] == maps;
    }
  }
}
