/**
 The BMS thermal and torque governor (core/governor/bms_governor.c).

 `Evaluation` states the decision with exact products and quotients; the methods
 follow the source's 64-bit arithmetic, wrap-around included.
 */
module Governor {
  import opened Bits
  import opened Wrappers
  import opened Words

  /** BMS_POWER_DENOMINATOR: milliamperes times millivolts times permille per watt. */
  const DENOMINATOR := 1_000_000_000
  const EFFICIENCY_SCALE := 1000

  const FAULT_GOVERNOR_INTERVENTION: uint32 := 0x4253_4D01
  const FAULT_INVALID_INPUT: uint32 := 0x4253_4D02
  const FAULT_BMS_UNAVAILABLE: uint32 := 0x4253_4D03

  const STATE_NORMAL := 0
  const STATE_THERMAL_DERATING := 1
  const STATE_FAULT := 2

  datatype Decision = Allow | Derate | Block

  datatype Status = StatusOk | ErrNull | ErrInvalidInput | ErrBmsFault

  datatype Request = Request(power: uint32, torque: uint32, voltage: uint32, maxCurrent: uint32, efficiency: uint16, state: int)

  datatype Evidence = Evidence(
    decision: Decision, requestedCurrent: uint32, allowedCurrent: uint32, maximumPower: uint32,
    allowedPower: uint32, allowedTorque: uint32, intervention: bool, faultCode: uint32)

  // ---------------------------------------------------------------------------
  // Exact arithmetic
  // ---------------------------------------------------------------------------

  function Saturate(x: nat): (r: uint32)
    ensures r <= x && (x <= UINT32_MAX ==> r == x) && (x > UINT32_MAX ==> r == UINT32_MAX)
  {
    if x > UINT32_MAX then UINT32_MAX else x
  }

  function CeilDiv(n: nat, d: nat): nat
    requires d > 0
  {
    if n % d == 0 then n / d else n / d + 1
  }

  /** Denominator times the power in watts that a current of i milliamperes supplies. */
  function Supply(i: nat, voltage: nat, efficiency: nat): (s: nat) {
    i * voltage * efficiency
  }

  /** The smallest current that supplies a power, saturated. */
  function RequestedCurrent(power: uint32, voltage: uint32, efficiency: uint16): uint32 {
    if voltage * efficiency == 0 then UINT32_MAX else Saturate(CeilDiv(power * DENOMINATOR, voltage * efficiency))
  }

  /** The largest whole power that a current supplies, saturated. */
  function MaximumPower(current: uint32, voltage: uint32, efficiency: uint16): uint32 {
    Saturate(Supply(current, voltage, efficiency) / DENOMINATOR)
  }

  function Ratio(a: nat, b: nat, d: nat): nat
    requires d > 0
  {
    NonNegative(a, b, d);
    a * b / d
  }

  lemma NonNegative(a: nat, b: nat, d: nat)
    requires d > 0
    ensures a * b / d >= 0
  {
    MulMono(a, 0, b);
    var q, r := a * b / d, a * b % d;
    assert a * b == d * q + r;
    if q < 0 { MulStep(d, q, 0); }
  }

  function ScaledTorque(torque: uint32, allowed: uint32, requested: uint32): uint32 {
    if requested == 0 then 0 else Saturate(Ratio(torque, allowed, requested))
  }

  predicate ValidInput(r: Request) {
    r.voltage != 0 && r.maxCurrent != 0 && 0 < r.efficiency <= EFFICIENCY_SCALE
  }

  predicate Usable(r: Request) {
    ValidInput(r) && (r.state == STATE_NORMAL || r.state == STATE_THERMAL_DERATING)
  }

  function AllowedPower(r: Request): uint32 {
    var most := MaximumPower(r.maxCurrent, r.voltage, r.efficiency);
    if r.power < most then r.power else most
  }

  const BLOCKED := Evidence(Block, 0, 0, 0, 0, 0, true, FAULT_INVALID_INPUT)

  function Evaluation(request: Option<Request>): (Status, Evidence) {
    if request.None? then (ErrNull, BLOCKED)
    else
      var r := request.value;
      var asked := BLOCKED.(requestedCurrent := RequestedCurrent(r.power, r.voltage, r.efficiency));
      if !ValidInput(r) then (ErrInvalidInput, asked)
      else if r.state == STATE_FAULT then (ErrBmsFault, asked.(faultCode := FAULT_BMS_UNAVAILABLE))
      else
        var most := MaximumPower(r.maxCurrent, r.voltage, r.efficiency);
        var limited := asked.(allowedCurrent := r.maxCurrent, maximumPower := most);
        if !Usable(r) then (ErrInvalidInput, limited)
        else
          var derated := r.power > most;
          (StatusOk, limited.(
            decision := if derated then Derate else Allow,
            allowedPower := AllowedPower(r),
            allowedTorque := ScaledTorque(r.torque, AllowedPower(r), r.power),
            intervention := derated,
            faultCode := if derated then FAULT_GOVERNOR_INTERVENTION else 0))
  }

  lemma CeilIsLeast(n: nat, d: nat, c: nat)
    requires d > 0
    ensures CeilDiv(n, d) <= c <==> n <= d * c
  {
    var q, r := n / d, n % d;
    assert n == d * q + r;
    if c < q { MulStep(d, c, q); } else { MulMono(d, q, c); }
    if c > q { MulStep(d, q, c); }
  }

  lemma Products(a: nat, b: nat, x: nat, y: nat)
    requires a <= x && b <= y
    ensures a * b <= x * y
  {
    MulMono(a, b, y);
    MulMono(y, a, x);
    assert a * y == y * a && y * x == x * y;
  }

  // ---------------------------------------------------------------------------
  // The 64-bit computation
  // ---------------------------------------------------------------------------

  method RequestedCurrentMa(power: uint32, voltage: uint32, efficiency: uint16) returns (current: uint32)
    ensures current == RequestedCurrent(power, voltage, efficiency)
  {
    hide U64;
    Products(power, DENOMINATOR, UINT32_MAX, DENOMINATOR);
    Products(voltage, efficiency, UINT32_MAX, 0xFFFF);
    var numerator := U64(power * DENOMINATOR);
    var denominator := U64(voltage * efficiency);
    if denominator == 0 { return UINT32_MAX; }
    var quotient := numerator / denominator;
    QuotientSmall(numerator, denominator);
    if numerator % denominator != 0 { quotient := U64(quotient + 1); }
    return Saturate(quotient);
  }

  lemma QuotientSmall(n: nat, d: nat)
    requires d > 0
    ensures 0 <= n / d <= n
  {
    FloorIsMost(n, d, n / d);
    MulMono(n / d, 1, d);
  }

  /** Dividing before the multiplication by the efficiency loses nothing. */
  lemma SplitDivision(product: nat, efficiency: nat)
    ensures product / DENOMINATOR * efficiency + product % DENOMINATOR * efficiency / DENOMINATOR
            == product * efficiency / DENOMINATOR
  {
    var w, r := product / DENOMINATOR, product % DENOMINATOR;
    var q, s := r * efficiency / DENOMINATOR, r * efficiency % DENOMINATOR;
    assert product * efficiency == DENOMINATOR * (w * efficiency + q) + s by {
      assert product == DENOMINATOR * w + r;
      Distribute(w, r, efficiency);
    }
    DivUnique(product * efficiency, DENOMINATOR, w * efficiency + q, s);
  }

  lemma Distribute(w: nat, r: nat, e: nat)
    ensures (DENOMINATOR * w + r) * e == DENOMINATOR * (w * e) + r * e
  {
  }

  /** The guard against an overflow of current times voltage never holds. */
  lemma GuardIsFalse(current: uint32, voltage: uint32)
    requires voltage != 0
    ensures current <= UINT64_MAX / voltage
  {
    Products(voltage, current, UINT32_MAX, UINT32_MAX);
    FloorIsMost(UINT64_MAX, voltage, current);
  }

  method MaximumPowerW(current: uint32, voltage: uint32, efficiency: uint16) returns (power: uint32)
    ensures power == MaximumPower(current, voltage, efficiency)
  {
    hide U64, Saturate;
    if voltage != 0 { GuardIsFalse(current, voltage); }
    power := UINT32_MAX;
    if voltage != 0 && current > UINT64_MAX / voltage { return; }
    Products(current, voltage, UINT32_MAX, UINT32_MAX);
    var product := U64(current * voltage);
    var whole := product / DENOMINATOR;
    var remainder := product % DENOMINATOR;
    NoOverflow(product, efficiency);
    var scaled := U64(U64(whole * efficiency) + U64(remainder * efficiency) / DENOMINATOR);
    SplitDivision(product, efficiency);
    return Saturate(scaled);
  }

  lemma NoOverflow(product: uint64, efficiency: uint16)
    ensures 0 <= product / DENOMINATOR * efficiency <= 18_446_744_073 * 0xFFFF
    ensures 0 <= product % DENOMINATOR * efficiency <= DENOMINATOR * 0xFFFF
    ensures 0 <= product % DENOMINATOR * efficiency / DENOMINATOR <= DENOMINATOR * 0xFFFF
  {
    Products(product / DENOMINATOR, efficiency, 18_446_744_073, 0xFFFF);
    Products(product % DENOMINATOR, efficiency, DENOMINATOR, 0xFFFF);
    QuotientSmall(product % DENOMINATOR * efficiency, DENOMINATOR);
  }

  method ScaleTorque(torque: uint32, allowed: uint32, requested: uint32) returns (scaled: uint32)
    ensures scaled == ScaledTorque(torque, allowed, requested)
  {
    hide U64;
    if requested == 0 { return 0; }
    Products(torque, allowed, UINT32_MAX, UINT32_MAX);
    NonNegative(torque, allowed, requested);
    return Saturate(U64(torque * allowed) / requested);
  }

  /** The result structure that the caller owns. */
  class Outcome {
    var decision: Decision
    var requestedCurrent: uint32
    var allowedCurrent: uint32
    var maximumPower: uint32
    var allowedPower: uint32
    var allowedTorque: uint32
    var intervention: bool
    var faultCode: uint32

    constructor ()
      ensures View() == BLOCKED
    {
      decision, requestedCurrent, allowedCurrent, maximumPower := Block, 0, 0, 0;
      allowedPower, allowedTorque, intervention, faultCode := 0, 0, true, FAULT_INVALID_INPUT;
    }

    function View(): Evidence
      reads this
    {
      Evidence(decision, requestedCurrent, allowedCurrent, maximumPower, allowedPower, allowedTorque, intervention, faultCode)
    }

    method Reset()
      modifies this
      ensures View() == BLOCKED
    {
      decision := Block;
      requestedCurrent := 0;
      allowedCurrent := 0;
      maximumPower := 0;
      allowedPower := 0;
      allowedTorque := 0;
      intervention := true;
      faultCode := FAULT_INVALID_INPUT;
    }
  }

  method Evaluate(request: Option<Request>, result: Outcome?) returns (status: Status)
    modifies result
    ensures result == null ==> status == ErrNull
    ensures result != null ==> (status, result.View()) == Evaluation(request)
  {
    hide RequestedCurrent, MaximumPower, ScaledTorque;
    if result == null { return ErrNull; }
    result.Reset();
    if request.None? { return ErrNull; }
    var r := request.value;
    var current := RequestedCurrentMa(r.power, r.voltage, r.efficiency);
    result.requestedCurrent := current;
    if r.voltage == 0 || r.maxCurrent == 0 || r.efficiency == 0 || r.efficiency > EFFICIENCY_SCALE {
      result.faultCode := FAULT_INVALID_INPUT;
      return ErrInvalidInput;
    }
    result.allowedCurrent := r.maxCurrent;
    var most := MaximumPowerW(r.maxCurrent, r.voltage, r.efficiency);
    result.maximumPower := most;
    if r.state == STATE_FAULT {
      result.decision := Block;
      result.allowedCurrent := 0;
      result.maximumPower := 0;
      result.allowedPower := 0;
      result.allowedTorque := 0;
      result.faultCode := FAULT_BMS_UNAVAILABLE;
      return ErrBmsFault;
    }
    if r.state != STATE_NORMAL && r.state != STATE_THERMAL_DERATING {
      result.faultCode := FAULT_INVALID_INPUT;
      return ErrInvalidInput;
    }
    var allowed := if r.power < most then r.power else most;
    result.allowedPower := allowed;
    var torque := ScaleTorque(r.torque, allowed, r.power);
    result.allowedTorque := torque;
    if r.power > most {
      result.decision := Derate;
      result.intervention := true;
      result.faultCode := FAULT_GOVERNOR_INTERVENTION;
    } else {
      result.decision := Allow;
      result.intervention := false;
      result.faultCode := 0;
    }
    return StatusOk;
  }

  /** Whether an outcome permits a response. */
  predicate MayTransmit(e: Evidence) {
    match e.decision
    case Allow => !e.intervention && e.faultCode == 0
    case Derate => e.intervention && e.faultCode == FAULT_GOVERNOR_INTERVENTION
    case Block => false
  }

  /** A uint32_t that the caller owns. */
  class Cell {
    var value: uint32
  }

  method GateResponse(request: Option<Request>, power: Cell?, torque: Cell?, fault: Cell?) returns (open: bool)
    modifies power, torque, fault
    ensures power == null || torque == null || fault == null ==>
      && !open
      && (power != null ==> power.value == old(power.value))
      && (torque != null ==> torque.value == old(torque.value))
      && (fault != null ==> fault.value == old(fault.value))
    ensures power != null && power != torque && power != fault && torque != null && torque != fault && fault != null ==>
      && var (status, e) := Evaluation(request);
      && open == (status == StatusOk)
      && power.value == (if open then e.allowedPower else 0)
      && torque.value == (if open then e.allowedTorque else 0)
      && fault.value == e.faultCode
  {
    hide RequestedCurrent, MaximumPower, ScaledTorque, AllowedPower;
    if power == null || torque == null || fault == null { return false; }
    power.value := 0;
    torque.value := 0;
    fault.value := FAULT_INVALID_INPUT;
    var result := new Outcome();
    var status := Evaluate(request, result);
    fault.value := result.faultCode;
    if status != StatusOk || !MayTransmit(result.View()) { return false; }
    power.value := result.allowedPower;
    torque.value := result.allowedTorque;
    return true;
  }

  /** A null output: the other outputs keep whatever they held, and no fault code is written. */
  method NullOutputKeepsOld(request: Option<Request>, stale: uint32) returns (open: bool, torque: Cell, fault: Cell)
    ensures !open && torque.value == stale && fault.value == stale
  {
    torque, fault := new Cell, new Cell;
    torque.value, fault.value := stale, stale;
    open := GateResponse(request, null, torque, fault);
  }

  // ---------------------------------------------------------------------------
  // The outcome, by the fields of the request
  // ---------------------------------------------------------------------------

  /** The four inputs are in range. */
  predicate InputsValid(r: Request) {
    r.voltage > 0 && r.maxCurrent > 0 && 1 <= r.efficiency <= 1000
  }

  /** A current in milliamperes supplies a power in watts. */
  predicate Supplies(current: nat, power: nat, r: Request) {
    1_000_000_000 * power <= current * r.voltage * r.efficiency
  }

  /** The status of every request: BMS states are 0 for normal, 1 for thermal derating and 2 for a fault. */
  lemma StatusIff(r: Request)
    ensures var status := Evaluation(Some(r)).0;
      && (status == StatusOk <==> InputsValid(r) && (r.state == 0 || r.state == 1))
      && (status == ErrBmsFault <==> InputsValid(r) && r.state == 2)
      && (status == ErrInvalidInput <==> !InputsValid(r) || r.state < 0 || r.state > 2)
    ensures Evaluation(None) == (ErrNull, Evidence(Block, 0, 0, 0, 0, 0, true, 0x4253_4D02))
  {
    hide RequestedCurrent, MaximumPower, ScaledTorque, AllowedPower;
  }

  /** A BMS fault blocks, zeroes every limit and output, and has its own code; so has an invalid input, which keeps the limits of valid numbers. */
  lemma RefusalIs(r: Request)
    ensures var (status, e) := Evaluation(Some(r));
      && (status == ErrBmsFault ==> e == Evidence(Block, e.requestedCurrent, 0, 0, 0, 0, true, 0x4253_4D03))
      && (status == ErrInvalidInput ==>
            e == Evidence(Block, e.requestedCurrent, if InputsValid(r) then r.maxCurrent else 0, e.maximumPower, 0, 0, true, 0x4253_4D02))
      && (status == ErrInvalidInput && !InputsValid(r) ==> e.maximumPower == 0)
  {
    hide RequestedCurrent, MaximumPower, ScaledTorque, AllowedPower;
  }

  /** The requested current is the least that supplies the request, or the largest uint32_t when no smaller one does. */
  lemma RequestedCurrentIsLeast(r: Request, current: uint32)
    ensures var e := Evaluation(Some(r)).1;
      && (r.voltage * r.efficiency == 0 ==> e.requestedCurrent == 0xFFFF_FFFF)
      && (r.voltage * r.efficiency > 0 && current < 0xFFFF_FFFF ==> (e.requestedCurrent <= current <==> Supplies(current, r.power, r)))
  {
    var d := r.voltage * r.efficiency;
    assert current * r.voltage * r.efficiency == d * current by { SupplyIs(current, r.voltage, r.efficiency); }
    assert Evaluation(Some(r)).1.requestedCurrent == RequestedCurrent(r.power, r.voltage, r.efficiency) by {
      hide RequestedCurrent, MaximumPower, ScaledTorque, AllowedPower;
    }
    if d > 0 { CeilIsLeast(r.power * DENOMINATOR, d, current); }
    hide Evaluation, CeilDiv;
  }

  /** The maximum power is the largest that the limit supplies, whenever inputs are valid and the BMS has no fault. */
  lemma MaximumPowerIsLargest(r: Request, power: uint32)
    requires InputsValid(r) && r.state != 2
    ensures var e := Evaluation(Some(r)).1;
      && e.allowedCurrent == r.maxCurrent
      && (power <= e.maximumPower <==> Supplies(r.maxCurrent, power, r))
  {
    AboveMaximumIff(power, r);
    hide MaximumPower, RequestedCurrent, ScaledTorque, AllowedPower;
  }

  /** A usable request is derated exactly when the limit does not supply it, and is allowed the largest supplied power up to it. */
  lemma DecisionIs(r: Request, power: uint32)
    requires InputsValid(r) && (r.state == 0 || r.state == 1)
    ensures var e := Evaluation(Some(r)).1;
      && (Supplies(r.maxCurrent, r.power, r) ==> e.decision == Allow && !e.intervention && e.faultCode == 0)
      && (!Supplies(r.maxCurrent, r.power, r) ==> e.decision == Derate && e.intervention && e.faultCode == 0x4253_4D01)
      && (power <= e.allowedPower <==> power <= r.power && Supplies(r.maxCurrent, power, r))
  {
    AboveMaximumIff(power, r);
    AboveMaximumIff(r.power, r);
    hide MaximumPower, RequestedCurrent, ScaledTorque;
  }

  // ---------------------------------------------------------------------------
  // Safety
  // ---------------------------------------------------------------------------

  /** The allowed power never needs more current than the battery may deliver. */
  lemma AllowedPowerIsSafe(r: Request)
    requires Usable(r)
    ensures RequestedCurrent(AllowedPower(r), r.voltage, r.efficiency) <= r.maxCurrent
  {
    var d := r.voltage * r.efficiency;
    Positive(r.voltage, r.efficiency);
    SupplyIs(r.maxCurrent, r.voltage, r.efficiency);
    FloorIsMost(Supply(r.maxCurrent, r.voltage, r.efficiency), DENOMINATOR, AllowedPower(r));
    CeilIsLeast(AllowedPower(r) * DENOMINATOR, d, r.maxCurrent);
  }

  lemma Positive(a: nat, b: nat)
    requires a > 0 && b > 0
    ensures a * b > 0
  {
  }

  lemma SupplyIs(i: nat, v: nat, e: nat)
    ensures Supply(i, v, e) == v * e * i
  {
  }

  /** A power is above the maximum exactly when the current limit does not supply it. */
  lemma AboveMaximumIff(power: uint32, r: Request)
    ensures power > MaximumPower(r.maxCurrent, r.voltage, r.efficiency)
            <==> DENOMINATOR * power > Supply(r.maxCurrent, r.voltage, r.efficiency)
  {
    hide Supply;
    FloorIsMost(Supply(r.maxCurrent, r.voltage, r.efficiency), DENOMINATOR, power);
  }

  /** A power that the current limit does not supply needs more current, saturation aside. */
  lemma OverLimitIff(power: uint32, r: Request)
    requires ValidInput(r)
    ensures DENOMINATOR * power > Supply(r.maxCurrent, r.voltage, r.efficiency)
            <==> CeilDiv(power * DENOMINATOR, r.voltage * r.efficiency) > r.maxCurrent
  {
    Positive(r.voltage, r.efficiency);
    SupplyIs(r.maxCurrent, r.voltage, r.efficiency);
    CeilIsLeast(power * DENOMINATOR, r.voltage * r.efficiency, r.maxCurrent);
  }

  /**
   The decision is DERATE exactly when the requested current exceeds the limit,
   unless the limit is the largest uint32_t and does not supply the request: the
   requested current then saturates at the limit.
   */
  lemma DerateIffOverLimit(r: Request)
    requires Usable(r)
    ensures var (status, e) := Evaluation(Some(r));
      && status == StatusOk
      && ((e.decision == Derate <==> e.requestedCurrent > r.maxCurrent)
          <==> r.maxCurrent < UINT32_MAX || DENOMINATOR * r.power <= Supply(r.maxCurrent, r.voltage, r.efficiency))
      && (e.decision == Derate <==> DENOMINATOR * r.power > Supply(r.maxCurrent, r.voltage, r.efficiency))
  {
    hide Supply, CeilDiv, MaximumPower;
    AboveMaximumIff(r.power, r);
    OverLimitIff(r.power, r);
    Positive(r.voltage, r.efficiency);
  }

  /** A request derated although its requested current equals the limit. */
  lemma SaturationHidesExcess()
    ensures var r := Request(5, 0, 1, UINT32_MAX, 1, STATE_NORMAL);
      var (status, e) := Evaluation(Some(r));
      status == StatusOk && e.decision == Derate && e.requestedCurrent == r.maxCurrent
  {
    var r := Request(5, 0, 1, UINT32_MAX, 1, STATE_NORMAL);
    assert CeilDiv(r.power * DENOMINATOR, r.voltage * r.efficiency) == 5_000_000_000;
    assert Supply(r.maxCurrent, r.voltage, r.efficiency) / DENOMINATOR == 4;
  }

  /** No larger power up to the request is within a limit that does not saturate. */
  lemma AllowedPowerIsMost(r: Request, power: uint32)
    requires Usable(r) && r.maxCurrent < UINT32_MAX && power <= r.power
    ensures RequestedCurrent(power, r.voltage, r.efficiency) <= r.maxCurrent ==> power <= AllowedPower(r)
  {
    hide Supply, CeilDiv, MaximumPower;
    AboveMaximumIff(power, r);
    OverLimitIff(power, r);
    Positive(r.voltage, r.efficiency);
  }

  // ---------------------------------------------------------------------------
  // The governor as a projection
  // ---------------------------------------------------------------------------

  lemma RatioZero(a: nat, d: nat)
    requires d > 0
    ensures Ratio(a, 0, d) == 0
  {
    DivUnique(0, d, 0, 0);
  }

  /** Asking for what was allowed is allowed unchanged. */
  lemma EvaluationIsIdempotent(r: Request)
    requires Usable(r)
    ensures var (status, e) := Evaluation(Some(r));
      var (again, f) := Evaluation(Some(r.(power := e.allowedPower, torque := e.allowedTorque)));
      && again == StatusOk && f.decision == Allow && !f.intervention && f.faultCode == 0
      && f.allowedPower == e.allowedPower && f.allowedTorque == e.allowedTorque
      && f.requestedCurrent <= r.maxCurrent
  {
    hide RequestedCurrent, MaximumPower, Ratio;
    var e := Evaluation(Some(r)).1;
    AllowedPowerIsSafe(r);
    if e.allowedPower == 0 {
      if r.power != 0 { RatioZero(r.torque, r.power); }
    } else {
      RatioExact(e.allowedTorque, e.allowedPower);
    }
  }

  lemma RatioBounds(a: nat, b: nat, d: nat)
    requires d > 0
    ensures d * Ratio(a, b, d) <= a * b < d * (Ratio(a, b, d) + 1)
  {
    var q, r := a * b / d, a * b % d;
    assert a * b == d * q + r;
    assert d * (q + 1) == d * q + d;
  }

  lemma RatioMono(a: nat, b: nat, c: nat, d: nat)
    requires d > 0 && b <= c
    ensures Ratio(a, b, d) <= Ratio(a, c, d)
  {
    MulMono(a, b, c);
    MulMono(a, 0, b);
    FloorMono(a * b, a * c, d);
  }

  lemma RatioExact(a: nat, d: nat)
    requires d > 0
    ensures Ratio(a, d, d) == a
  {
    MulMono(a, 0, d);
    DivUnique(a * d, d, a, 0);
  }

  /** The torque keeps the ratio of allowed to requested power, rounded down, and never grows. */
  lemma TorqueKeepsRatio(r: Request)
    requires Usable(r) && r.power != 0
    ensures var t := Evaluation(Some(r)).1.allowedTorque;
      && t <= r.torque
      && r.power * t <= r.torque * AllowedPower(r) < r.power * (t + 1)
  {
    hide RequestedCurrent, MaximumPower, Ratio;
    var a := AllowedPower(r);
    RatioBounds(r.torque, a, r.power);
    RatioMono(r.torque, a, r.power, r.power);
    RatioExact(r.torque, r.power);
  }

  /** Without a demand for power no torque is granted. */
  lemma NoPowerNoTorque(r: Request)
    requires Usable(r) && r.power == 0
    ensures var (status, e) := Evaluation(Some(r));
      e.decision == Allow && e.allowedPower == 0 && e.allowedTorque == 0
  {
  }

  /** Raising the limit, the voltage or the efficiency never lowers the allowed power or torque. */
  lemma EvaluationIsMonotone(r: Request, s: Request)
    requires Usable(r) && Usable(s) && r.power == s.power && r.torque == s.torque
    requires r.maxCurrent <= s.maxCurrent && r.voltage <= s.voltage && r.efficiency <= s.efficiency
    ensures Evaluation(Some(r)).1.allowedPower <= Evaluation(Some(s)).1.allowedPower
    ensures Evaluation(Some(r)).1.allowedTorque <= Evaluation(Some(s)).1.allowedTorque
  {
    hide RequestedCurrent, Supply;
    SupplyMono(r, s);
    FloorMono(Supply(r.maxCurrent, r.voltage, r.efficiency), Supply(s.maxCurrent, s.voltage, s.efficiency), DENOMINATOR);
    TorqueMono(r.torque, AllowedPower(r), AllowedPower(s), r.power);
  }

  lemma SupplyMono(r: Request, s: Request)
    requires r.maxCurrent <= s.maxCurrent && r.voltage <= s.voltage && r.efficiency <= s.efficiency
    ensures Supply(r.maxCurrent, r.voltage, r.efficiency) <= Supply(s.maxCurrent, s.voltage, s.efficiency)
  {
    Products(r.maxCurrent, r.voltage, s.maxCurrent, s.voltage);
    Products(r.maxCurrent * r.voltage, r.efficiency, s.maxCurrent * s.voltage, s.efficiency);
  }

  lemma TorqueMono(torque: uint32, a: uint32, b: uint32, requested: uint32)
    requires a <= b
    ensures ScaledTorque(torque, a, requested) <= ScaledTorque(torque, b, requested)
  {
    hide Ratio;
    if requested != 0 { RatioMono(torque, a, b, requested); }
  }

  /** A usable evaluation may always be transmitted, and no other may. */
  lemma TransmitsIffOk(request: Option<Request>)
    ensures var (status, e) := Evaluation(request);
      && (MayTransmit(e) <==> status == StatusOk)
      && (status == StatusOk <==> request.Some? && InputsValid(request.value) && (request.value.state == 0 || request.value.state == 1))
      && (status != StatusOk ==> e.allowedPower == 0 && e.allowedTorque == 0 && e.intervention && e.faultCode != 0)
  {
    hide RequestedCurrent, MaximumPower, ScaledTorque;
  }
}
