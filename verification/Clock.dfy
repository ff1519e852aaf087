/**
 The microsecond clock over a 32-bit cycle counter (platform/cortex_m/hal_stm32.c).

 A run is the list of true cycle counts at which the clock is read; the counter
 shows each of them modulo 2^32.
 */
module Clock {
  import opened Bits
  import opened Words

  const DEFAULT_FREQUENCY := 160_000_000

  datatype State = State(cyclesPerUs: nat, lastRaw: uint32, accumulated: uint64)

  const US_PER_SECOND := 1_000_000

  /** The clock frequency in use. */
  function Effective(frequency: uint32): (f: nat)
    ensures f >= 1
  {
    if frequency > 0 then frequency else DEFAULT_FREQUENCY
  }

  /** Whole cycles per microsecond, cut off. */
  function CyclesPerUs(frequency: uint32): (c: nat)
    ensures c >= 1
  {
    if Effective(frequency) / US_PER_SECOND == 0 then 1 else Effective(frequency) / US_PER_SECOND
  }

  /** Subtraction in uint32_t. */
  function Delta(raw: uint32, last: uint32): uint32 {
    if raw >= last then raw - last else raw - last + UINT32_MODULUS
  }

  /** One reading of the counter. */
  function Step(s: State, raw: uint32): State {
    s.(lastRaw := raw, accumulated := U64(s.accumulated + Delta(raw, s.lastRaw)))
  }

  class Clock {
    var frequency: uint32
    var at: State

    constructor (requested: uint32)
      ensures at == State(CyclesPerUs(requested), 0, 0)
      ensures at.cyclesPerUs == if requested == 0 then 160 else if requested < 1_000_000 then 1 else requested / 1_000_000
    {
      frequency := if requested > 0 then requested else DEFAULT_FREQUENCY;
      var c: nat := (if requested > 0 then requested else DEFAULT_FREQUENCY) / 1_000_000;
      if c == 0 { c := 1; }
      at := State(c, 0, 0);
    }

    method TimestampUs(raw: uint32) returns (us: nat)
      requires at.cyclesPerUs >= 1
      modifies this
      ensures at == Step(old(at), raw) && us == at.accumulated / at.cyclesPerUs
    {
      var delta := Delta(raw, at.lastRaw);
      at := at.(accumulated := U64(at.accumulated + delta));
      at := at.(lastRaw := raw);
      FloorMono(0, at.accumulated, at.cyclesPerUs);
      us := at.accumulated / at.cyclesPerUs;
    }
  }

  /** The state after the first n readings of a run. */
  function Run(start: State, ts: seq<nat>, n: nat): State
    requires n <= |ts|
  {
    if n == 0 then start else Step(Run(start, ts, n - 1), U32(ts[n - 1]))
  }

  /** True cycles at the n-th reading. */
  function Elapsed(ts: seq<nat>, n: nat): nat
    requires n <= |ts|
  {
    if n == 0 then 0 else ts[n - 1]
  }

  predicate Ordered(ts: seq<nat>) {
    forall n | 0 <= n < |ts| :: Elapsed(ts, n) <= Elapsed(ts, n + 1)
  }

  /** The counter wraps at most once between reading n and the next. */
  predicate Close(ts: seq<nat>, n: nat)
    requires n < |ts|
  {
    Elapsed(ts, n + 1) - Elapsed(ts, n) < UINT32_MODULUS
  }

  function Initial(frequency: uint32): State {
    State(CyclesPerUs(frequency), 0, 0)
  }

  /** The difference of two counter values is the elapsed time modulo 2^32. */
  lemma DeltaIsElapsed(t: nat, u: nat)
    requires t <= u
    ensures Delta(U32(u), U32(t)) == U32(u - t)
  {
    var q, r := t / UINT32_MODULUS, t % UINT32_MODULUS;
    var p, s := (u - t) / UINT32_MODULUS, (u - t) % UINT32_MODULUS;
    assert t == UINT32_MODULUS * q + r && u - t == UINT32_MODULUS * p + s;
    if r + s < UINT32_MODULUS {
      DivUnique(u, UINT32_MODULUS, q + p, r + s);
    } else {
      DivUnique(u, UINT32_MODULUS, q + p + 1, r + s - UINT32_MODULUS);
    }
  }

  /** One step adds the true distance exactly when the readings are close, and otherwise less. */
  lemma StepIsExactIff(s: State, t: nat, u: nat)
    requires t <= u && s.lastRaw == U32(t) && s.accumulated + (u - t) < UINT64_MODULUS
    ensures Step(s, U32(u)).accumulated <= s.accumulated + (u - t)
    ensures Step(s, U32(u)).accumulated == s.accumulated + (u - t) <==> u - t < UINT32_MODULUS
  {
    hide U64;
    DeltaIsElapsed(t, u);
  }

  lemma {:induction false} NeverAhead(start: State, ts: seq<nat>, n: nat)
    requires n <= |ts| && Ordered(ts) && Elapsed(ts, n) < UINT64_MODULUS && start.lastRaw == 0 && start.accumulated == 0
    ensures Run(start, ts, n).lastRaw == U32(Elapsed(ts, n))
    ensures Run(start, ts, n).accumulated <= Elapsed(ts, n)
    ensures Run(start, ts, n).cyclesPerUs == start.cyclesPerUs
  {
    hide U64, U32, Delta;
    if n == 0 {
      assert U32(0) == 0;
    } else {
      assert Elapsed(ts, n - 1) <= Elapsed(ts, n - 1 + 1);
      NeverAhead(start, ts, n - 1);
      StepIsExactIff(Run(start, ts, n - 1), Elapsed(ts, n - 1), Elapsed(ts, n));
    }
  }

  /** Over a whole run, the accumulated cycles are the true ones exactly when no two readings are 2^32 cycles apart. */
  lemma {:induction false} AccumulatedIsElapsedIff(start: State, ts: seq<nat>, n: nat)
    requires n <= |ts| && Ordered(ts) && Elapsed(ts, n) < UINT64_MODULUS && start.lastRaw == 0 && start.accumulated == 0
    ensures Run(start, ts, n).accumulated == Elapsed(ts, n) <==> forall k | 0 <= k < n :: Close(ts, k)
  {
    hide U64, U32, Delta, Step;
    if n != 0 {
      assert Elapsed(ts, n - 1) <= Elapsed(ts, n - 1 + 1);
      AccumulatedIsElapsedIff(start, ts, n - 1);
      NeverAhead(start, ts, n - 1);
      StepIsExactIff(Run(start, ts, n - 1), Elapsed(ts, n - 1), Elapsed(ts, n));
      assert Close(ts, n - 1) <==> Elapsed(ts, n) - Elapsed(ts, n - 1) < UINT32_MODULUS;
    }
  }

  /** A first reading 2^32 cycles after the start shows no time at all. */
  lemma LateReadingLosesTime(frequency: uint32)
    ensures Run(Initial(frequency), [UINT32_MODULUS], 1).accumulated == 0
    ensures Elapsed([UINT32_MODULUS], 1) == UINT32_MODULUS
  {
    DivUnique(UINT32_MODULUS, UINT32_MODULUS, 1, 0);
  }

  /** Microseconds returned by the n-th reading. */
  function Micros(frequency: uint32, ts: seq<nat>, n: nat): int
    requires n <= |ts|
  {
    Run(Initial(frequency), ts, n).accumulated / CyclesPerUs(frequency)
  }

  /** Close readings return the elapsed cycles divided by the whole cycles per microsecond. */
  lemma CloseReadingsDivideElapsed(frequency: uint32, ts: seq<nat>, n: nat)
    requires n <= |ts| && Ordered(ts) && Elapsed(ts, n) < UINT64_MODULUS && AllClose(ts, n)
    ensures Micros(frequency, ts, n) == Elapsed(ts, n) / CyclesPerUs(frequency)
  {
    hide Run, CyclesPerUs, Ordered;
    AccumulatedIsElapsedIff(Initial(frequency), ts, n);
  }

  predicate AllClose(ts: seq<nat>, n: nat)
    requires n <= |ts|
  {
    forall k | 0 <= k < n :: Close(ts, k)
  }

  /** True microseconds at the n-th reading, rounded down. */
  function TrueMicros(frequency: uint32, ts: seq<nat>, n: nat): int
    requires n <= |ts|
  {
    Elapsed(ts, n) * US_PER_SECOND / Effective(frequency)
  }

  /** Every run of close readings returns the true time. */
  ghost predicate IsTrueClock(frequency: uint32) {
    forall ts: seq<nat>, n: nat | n <= |ts| && Ordered(ts) && Elapsed(ts, n) < UINT64_MODULUS && AllClose(ts, n) ::
      Micros(frequency, ts, n) == TrueMicros(frequency, ts, n)
  }

  /** The returned time is the true one on every run of close readings exactly when the frequency is a whole number of megahertz. */
  lemma TimestampsAreExactIff(frequency: uint32)
    ensures IsTrueClock(frequency) <==> Effective(frequency) % US_PER_SECOND == 0
  {
    hide Effective, CyclesPerUs, Ordered, AllClose, Elapsed, Micros;
    if Effective(frequency) % US_PER_SECOND == 0 {
      forall ts: seq<nat>, n: nat | n <= |ts| && Ordered(ts) && Elapsed(ts, n) < UINT64_MODULUS && AllClose(ts, n)
        ensures Micros(frequency, ts, n) == TrueMicros(frequency, ts, n)
      {
        CloseReadingsDivideElapsed(frequency, ts, n);
        WholeMegahertz(frequency, Elapsed(ts, n));
      }
    } else {
      FractionalMegahertz(frequency);
    }
  }

  lemma WholeMegahertz(frequency: uint32, elapsed: nat)
    requires Effective(frequency) % US_PER_SECOND == 0
    ensures elapsed / CyclesPerUs(frequency) == elapsed * US_PER_SECOND / Effective(frequency)
  {
    var f, c := Effective(frequency), CyclesPerUs(frequency);
    assert f == c * US_PER_SECOND;
    hide Effective, CyclesPerUs;
    var q, r := elapsed / c, elapsed % c;
    assert elapsed == c * q + r;
    assert elapsed * US_PER_SECOND == f * q + r * US_PER_SECOND by {
      assert (c * q + r) * US_PER_SECOND == c * US_PER_SECOND * q + r * US_PER_SECOND;
    }
    DivUnique(elapsed * US_PER_SECOND, f, q, r * US_PER_SECOND);
  }

  /** A first reading that a clock of another frequency reads wrong: one cut-off microsecond, or one second below a megahertz. */
  lemma FractionalMegahertz(frequency: uint32)
    requires Effective(frequency) % US_PER_SECOND != 0
    ensures !IsTrueClock(frequency)
  {
    var f, c := Effective(frequency), CyclesPerUs(frequency);
    var first := if f < US_PER_SECOND then f else c;
    assert first < UINT32_MODULUS;
    FirstReading(frequency, first);
    hide Micros, Run;
    if f < US_PER_SECOND {
      assert first / c == f;
      DivUnique(first * US_PER_SECOND, f, US_PER_SECOND, 0);
    } else {
      assert c * US_PER_SECOND < f;
      DivUnique(first, c, 1, 0);
      DivUnique(first * US_PER_SECOND, f, 0, first * US_PER_SECOND);
    }
    assert Micros(frequency, [first], 1) != TrueMicros(frequency, [first], 1);
  }

  lemma FirstReading(frequency: uint32, first: uint32)
    ensures Ordered([first]) && AllClose([first], 1) && Elapsed([first], 1) == first
    ensures Micros(frequency, [first], 1) == first / CyclesPerUs(frequency)
  {
    hide CyclesPerUs;
    CloseReadingsDivideElapsed(frequency, [first], 1);
  }

  /** At 1.5 MHz, 3 cycles are 2 microseconds and read as 3. */
  lemma FractionalMegahertzRunsAhead()
    ensures Micros(1_500_000, [3], 1) == 3 && TrueMicros(1_500_000, [3], 1) == 2
  {
    FirstReading(1_500_000, 3);
    assert CyclesPerUs(1_500_000) == 1;
  }

  /** The returned time never decreases, however far apart the readings are. */
  lemma TimestampsNeverDecrease(frequency: uint32, ts: seq<nat>, n: nat)
    requires n < |ts| && Ordered(ts) && Elapsed(ts, n + 1) < UINT64_MODULUS
    ensures Micros(frequency, ts, n) <= Micros(frequency, ts, n + 1)
  {
    hide CyclesPerUs, U32, Delta, U64;
    var s := Run(Initial(frequency), ts, n);
    assert Elapsed(ts, n) <= Elapsed(ts, n + 1);
    NeverAhead(Initial(frequency), ts, n);
    DeltaIsElapsed(Elapsed(ts, n), Elapsed(ts, n + 1));
    U32AtMost(Elapsed(ts, n + 1) - Elapsed(ts, n));
    FloorMono(s.accumulated, Step(s, U32(ts[n])).accumulated, CyclesPerUs(frequency));
  }

  lemma U32AtMost(x: nat)
    ensures U32(x) <= x
  {
    assert x == UINT32_MODULUS * (x / UINT32_MODULUS) + U32(x);
  }
}
