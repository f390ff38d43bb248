/** The driver's polling state machine together with the sensor it talks to, as a transition system.
    A run interleaves calls of the driver with the sensor finishing its conversion. The ordering holds
    whatever is computed from the readings, so the compensation formulas are a parameter. */
module Bmp180System {
  import opened CInt
  import opened Bits
  import opened Bmp180Arithmetic

  datatype Kind = Temperature | Pressure

  const BMP180_T_MEASURE: uint8 := 0x2E
  const BMP180_P3_MEASURE: uint8 := 0xF4
  const BUSY_BIT: uint8 := 0x20

  /** The sensor: its CTRL_MEAS register, whose bit 5 is set while a conversion runs, and the three
      bytes of the result register. */
  datatype Sensor = Sensor(ctrl: uint8, msb: uint8, lsb: uint8, xlsb: uint8)
  {
    predicate Busy() {
      ctrl / 0x20 % 2 == 1
    }

    /** Writing a command starts its conversion. */
    function Write(cmd: uint8): Sensor {
      this.(ctrl := cmd)
    }

    /** The conversion ends: the busy bit falls and the result is there. */
    function Finish(m: uint8, l: uint8, x: uint8): Sensor
      requires Busy()
    {
      Sensor(ctrl - BUSY_BIT, m, l, x)
    }
  }

  /** The kind of the conversion a control value asks for: bits 4 .. 0 are 0x0E for a temperature. */
  function KindOf(ctrl: uint8): Kind {
    if ctrl % 0x20 == 0x0E then Temperature else Pressure
  }

  function RawTemperature(m: uint8, l: uint8): int {
    m as int * 0x100 + l as int
  }

  function OssOf(ctrl: uint8): (oss: nat)
    ensures oss < 4
  {
    ctrl / 0x40
  }

  function RawPressure(m: uint8, l: uint8, x: uint8, oss: nat): int
    requires oss < 4
  {
    (m as int * 0x1_0000 + l as int * 0x100 + x as int) / (0x100 / OssScale(oss))
  }

  /** The result bits shifted right by 8 - oss, for every oversampling setting. */
  lemma RawPressureByBits(m: uint8, l: uint8, x: uint8, oss: nat)
    requires oss < 4
    ensures RawPressure(m, l, x, oss) == (m as int * 0x1_0000 + l as int * 0x100 + x as int) / Pow2(8 - oss)
  {
    OssScaleIsPow2(oss);
    assert Pow2(8) == 0x100 && Pow2(7) == 0x80 && Pow2(6) == 0x40 && Pow2(5) == 0x20;
  }

  /** At oversampling 3 the raw pressure is the top 19 of the 24 result bits. */
  lemma RawPressureAtOss3(m: uint8, l: uint8, x: uint8)
    ensures RawPressure(m, l, x, 3) == m as int * 0x800 + l as int * 8 + x as int / 0x20 < 0x8_0000
  {
  }

  datatype State = TStart | TWait | TComplete | PStart | PWait | PComplete

  /** What happens on the bus, and the returns of 0. */
  datatype Event =
    | Started(cmd: uint8, inFlight: bool)
    | Finished(kind: Kind, m: uint8, l: uint8, x: uint8)
    | TemperatureRead(raw: int, b5: int16, t: int)
    | PressureRead(raw: int, oss: nat, b5: int16, p: int32)
    | Returned

  /** B5 and the temperature from a raw temperature; the pressure from B5, a raw pressure and oss. */
  datatype Formulas = Formulas(b5: int -> int16, temperature: int -> int, pressure: (int16, int, nat) -> int32)

  /** The formulas the driver applies with a given calibration. */
  function FormulasOf(cal: Calibration): Formulas {
    Formulas(raw => MachineB5(cal, raw),
             raw => MachineTemperature(cal, raw),
             (b5, raw, oss) => if oss < 4 then MachineReading(cal, b5, raw, oss) else 0)
  }

  datatype System = System(f: Formulas, b5: int16, state: State, sensor: Sensor, log: seq<Event>)

  /** The successor state of one call, given what a poll of the busy bit would say. */
  function Next(st: State, busy: bool): State {
    match st
    case TStart => TWait
    case TWait => if busy then TWait else TComplete
    case TComplete => PStart
    case PStart => PWait
    case PWait => if busy then PWait else PComplete
    case PComplete => TStart
  }

  function Ret(st: State): int {
    if st == PComplete then 0 else 1
  }

  /** What one call logs. */
  function Emitted(s: System): seq<Event> {
    match s.state
    case TStart => [Started(BMP180_T_MEASURE, s.sensor.Busy())]
    case TWait => []
    case TComplete =>
      var raw := RawTemperature(s.sensor.msb, s.sensor.lsb);
      [TemperatureRead(raw, s.f.b5(raw), s.f.temperature(raw))]
    case PStart => [Started(BMP180_P3_MEASURE, s.sensor.Busy())]
    case PWait => []
    case PComplete =>
      var oss := OssOf(s.sensor.ctrl);
      var raw := RawPressure(s.sensor.msb, s.sensor.lsb, s.sensor.xlsb, oss);
      [PressureRead(raw, oss, s.b5, s.f.pressure(s.b5, raw, oss)), Returned]
  }

  /** One call of the conversion process. */
  function Call(s: System): System {
    System(
      s.f,
      if s.state == TComplete then s.f.b5(RawTemperature(s.sensor.msb, s.sensor.lsb)) else s.b5,
      Next(s.state, s.sensor.Busy()),
      if s.state == TStart then s.sensor.Write(BMP180_T_MEASURE)
      else if s.state == PStart then s.sensor.Write(BMP180_P3_MEASURE)
      else s.sensor,
      s.log + Emitted(s))
  }

  /** The sensor finishes, if it is converting. */
  function Complete(s: System, m: uint8, l: uint8, x: uint8): System {
    if s.sensor.Busy() then
      s.(sensor := s.sensor.Finish(m, l, x), log := s.log + [Finished(KindOf(s.sensor.ctrl), m, l, x)])
    else s
  }

  datatype Step = CallStep | FinishStep(m: uint8, l: uint8, x: uint8)

  function Do(s: System, step: Step): System {
    match step
    case CallStep => Call(s)
    case FinishStep(m, l, x) => Complete(s, m, l, x)
  }

  function Run(s: System, steps: seq<Step>): System {
    if steps == [] then s else Do(Run(s, steps[..|steps| - 1]), steps[|steps| - 1])
  }

  /** A driver that has not been called yet, next to an idle sensor. */
  ghost predicate Initial(s: System) {
    s.state == TStart && !s.sensor.Busy() && s.log == []
  }

  /** Event `i` of the log is the `i mod 7`-th of the cycle: temperature conversion started by its command
      while no conversion was in flight, finished, its two result bytes read; then the same for pressure, the
      top 19 of its result bits read, at oversampling 3 and with the B5 of this cycle's temperature; then 0 returned. */
  ghost predicate InCycle(f: Formulas, log: seq<Event>, i: nat)
    requires i < |log|
  {
    match i % 7
    case 0 => log[i] == Started(0x2E, false)
    case 1 => log[i].Finished? && log[i].kind == Temperature
    case 2 =>
      i >= 1 && log[i - 1].Finished? &&
      var raw := 0x100 * log[i - 1].m as int + log[i - 1].l as int;
      log[i] == TemperatureRead(raw, f.b5(raw), f.temperature(raw))
    case 3 => log[i] == Started(0xF4, false)
    case 4 => log[i].Finished? && log[i].kind == Pressure
    case 5 =>
      i >= 3 && log[i - 1].Finished? && log[i - 3].TemperatureRead? &&
      var raw := 0x800 * log[i - 1].m as int + 8 * log[i - 1].l as int + log[i - 1].x as int / 0x20;
      log[i] == PressureRead(raw, 3, log[i - 3].b5, f.pressure(log[i - 3].b5, raw, 3))
    case _ => log[i] == Returned
  }

  ghost predicate Cyclic(f: Formulas, log: seq<Event>) {
    forall i: nat | i < |log| :: InCycle(f, log, i)
  }

  /** The result registers hold the last finished conversion. */
  ghost predicate HoldsResult(s: System) {
    |s.log| > 0 && s.log[|s.log| - 1].Finished? &&
    var e := s.log[|s.log| - 1];
    s.sensor.msb == e.m && s.sensor.lsb == e.l && s.sensor.xlsb == e.x
  }

  /** B5 is that of the temperature read `back` events ago. */
  ghost predicate HoldsB5(s: System, back: nat) {
    0 < back <= |s.log| && s.log[|s.log| - back].TemperatureRead? && s.log[|s.log| - back].b5 == s.b5
  }

  ghost predicate Waiting(s: System, cmd: uint8, phase: nat)
    requires BUSY_BIT <= cmd
  {
    (|s.log| % 7 == phase && s.sensor.ctrl == cmd) ||
    (|s.log| % 7 == phase + 1 && s.sensor.ctrl == cmd - BUSY_BIT && HoldsResult(s))
  }

  /** Where the driver's state stands in the cycle. */
  ghost predicate Consistent(s: System) {
    match s.state
    case TStart => |s.log| % 7 == 0 && !s.sensor.Busy()
    case TWait => Waiting(s, BMP180_T_MEASURE, 1)
    case TComplete => |s.log| % 7 == 2 && !s.sensor.Busy() && HoldsResult(s)
    case PStart => |s.log| % 7 == 3 && !s.sensor.Busy() && HoldsB5(s, 1)
    case PWait => Waiting(s, BMP180_P3_MEASURE, 4) && HoldsB5(s, if s.sensor.Busy() then 2 else 3)
    case PComplete =>
      |s.log| % 7 == 5 && s.sensor.ctrl == BMP180_P3_MEASURE - BUSY_BIT && HoldsResult(s) && HoldsB5(s, 3)
  }

  ghost predicate Inv(s: System) {
    Cyclic(s.f, s.log) && Consistent(s)
  }

  lemma CyclicAppend(f: Formulas, log: seq<Event>, e: Event)
    requires Cyclic(f, log) && InCycle(f, log + [e], |log|)
    ensures Cyclic(f, log + [e])
  {
    forall i: nat | i < |log|
      ensures InCycle(f, log + [e], i)
    {
      assert InCycle(f, log, i);
    }
  }

  lemma WaitKeepsInv(s: System)
    requires Inv(s) && (s.state == TWait || s.state == PWait)
    ensures Inv(Call(s))
  {
    assert s.log + [] == s.log;
  }

  lemma StartKeepsInv(s: System)
    requires Inv(s) && (s.state == TStart || s.state == PStart)
    ensures Inv(Call(s))
  {
    CyclicAppend(s.f, s.log, Emitted(s)[0]);
  }

  lemma TemperatureEvent(s: System)
    requires Inv(s) && s.state == TComplete
    ensures |Emitted(s)| == 1 && InCycle(s.f, s.log + [Emitted(s)[0]], |s.log|)
  {
    var last := s.log[|s.log| - 1];
    assert RawTemperature(s.sensor.msb, s.sensor.lsb) == 0x100 * last.m as int + last.l as int;
  }

  lemma ReadTemperatureKeepsInv(s: System)
    requires Inv(s) && s.state == TComplete
    ensures Inv(Call(s))
  {
    TemperatureEvent(s);
    CyclicAppend(s.f, s.log, Emitted(s)[0]);
  }

  lemma PressureEvents(s: System)
    requires Inv(s) && s.state == PComplete
    ensures |Emitted(s)| == 2 && Emitted(s)[1] == Returned
    ensures InCycle(s.f, s.log + [Emitted(s)[0]], |s.log|)
  {
    var last := s.log[|s.log| - 1];
    assert OssOf(s.sensor.ctrl) == 3;
    RawPressureAtOss3(last.m, last.l, last.x);
    assert s.log[|s.log| - 3].b5 == s.b5;
  }

  lemma ReadPressureKeepsInv(s: System)
    requires Inv(s) && s.state == PComplete
    ensures Inv(Call(s))
  {
    PressureEvents(s);
    var e := Emitted(s);
    CyclicAppend(s.f, s.log, e[0]);
    CyclicAppend(s.f, s.log + [e[0]], Returned);
    assert Call(s).log == s.log + [e[0]] + [Returned];
  }

  lemma CallKeepsInv(s: System)
    requires Inv(s)
    ensures Inv(Call(s))
  {
    match s.state {
      case TStart => StartKeepsInv(s);
      case TWait => WaitKeepsInv(s);
      case TComplete => ReadTemperatureKeepsInv(s);
      case PStart => StartKeepsInv(s);
      case PWait => WaitKeepsInv(s);
      case PComplete => ReadPressureKeepsInv(s);
    }
  }

  /** Only a waiting driver has a conversion in flight, and then of its own kind. */
  lemma BusyOnlyWhenWaiting(s: System)
    requires Inv(s) && s.sensor.Busy()
    ensures s.state == TWait || s.state == PWait
    ensures s.sensor.ctrl == if s.state == TWait then BMP180_T_MEASURE else BMP180_P3_MEASURE
    ensures |s.log| % 7 == if s.state == TWait then 1 else 4
  {
  }

  lemma FinishedInCycle(f: Formulas, log: seq<Event>, e: Event)
    requires e.Finished? && |log| % 7 == if e.kind == Temperature then 1 else 4
    ensures InCycle(f, log + [e], |log|)
  {
  }

  /** A finished conversion leaves the control register without its busy bit, and the log one event longer. */
  lemma CompleteResult(s: System, m: uint8, l: uint8, x: uint8)
    requires s.sensor.Busy()
    ensures var t := Complete(s, m, l, x);
            |t.log| == |s.log| + 1 && HoldsResult(t) && t.sensor.ctrl == s.sensor.ctrl - BUSY_BIT && !t.sensor.Busy() &&
            t.state == s.state && t.b5 == s.b5 && (forall i: nat | i < |s.log| :: t.log[i] == s.log[i])
  {
  }

  lemma CompleteKeepsConsistent(s: System, m: uint8, l: uint8, x: uint8)
    requires Inv(s)
    ensures Consistent(Complete(s, m, l, x))
  {
    if s.sensor.Busy() {
      BusyOnlyWhenWaiting(s);
      CompleteResult(s, m, l, x);
      var t := Complete(s, m, l, x);
      if s.state == PWait {
        assert HoldsB5(s, 2) && HoldsB5(t, 3);
      }
    }
  }

  lemma CompleteKeepsInv(s: System, m: uint8, l: uint8, x: uint8)
    requires Inv(s)
    ensures Inv(Complete(s, m, l, x))
  {
    CompleteKeepsConsistent(s, m, l, x);
    if s.sensor.Busy() {
      BusyOnlyWhenWaiting(s);
      var e := Finished(KindOf(s.sensor.ctrl), m, l, x);
      FinishedInCycle(s.f, s.log, e);
      CyclicAppend(s.f, s.log, e);
    }
  }

  lemma {:induction false} RunKeepsInv(s: System, steps: seq<Step>)
    requires Initial(s)
    ensures Inv(Run(s, steps)) && Run(s, steps).f == s.f
  {
    if steps != [] {
      RunKeepsInv(s, steps[..|steps| - 1]);
      var r := Run(s, steps[..|steps| - 1]);
      match steps[|steps| - 1] {
        case CallStep => CallKeepsInv(r);
        case FinishStep(m, l, x) => CompleteKeepsInv(r, m, l, x);
      }
    }
  }

  /** Every run, however calls and completions interleave, logs exactly the conversion cycle over and
      over: this is the whole ordering discipline of the driver in one statement. */
  lemma EveryRunIsCyclic(s: System, steps: seq<Step>)
    requires Initial(s)
    ensures Cyclic(s.f, Run(s, steps).log)
  {
    RunKeepsInv(s, steps);
  }

  /** Every temperature of the log gave a B5 for which every calibration set is safe. */
  ghost predicate B5InRange(log: seq<Event>) {
    forall i: nat | i < |log| && log[i].TemperatureRead? :: -7994 <= log[i].b5 <= 15994
  }

  /** A logged pressure that was computed from the formulas' operands, by a divisor that is not zero. */
  ghost predicate ComputedSafely(cal: Calibration, e: Event)
    requires e.PressureRead?
  {
    e.oss < 4 && OperandsSafe(cal, e.b5, e.oss) &&
    MachineB3(cal, e.b5, e.oss) == B3(cal, e.b5, e.oss) && MachineB4(cal, e.b5) == B4(cal, e.b5) >= 1 &&
    e.p == MachineReading(cal, e.b5, e.raw, e.oss)
  }

  lemma PressureFollowsTemperature(f: Formulas, log: seq<Event>, i: nat)
    requires Cyclic(f, log) && i < |log| && log[i].PressureRead?
    ensures i >= 3 && log[i - 3].TemperatureRead? && log[i].b5 == log[i - 3].b5 && log[i].oss == 3
    ensures log[i].p == f.pressure(log[i].b5, log[i].raw, 3)
  {
    assert InCycle(f, log, i);
  }

  /** In every run of the driver with its own formulas, with AC4 >= 2 and temperatures in that range, no
      pressure is computed with an overflowed operand or a zero divisor, although each uses the B5 that an
      earlier call has left behind. */
  lemma EveryPressureIsSafe(s: System, steps: seq<Step>, cal: Calibration)
    requires Initial(s) && s.f == FormulasOf(cal) && cal.AC4 >= 2 && B5InRange(Run(s, steps).log)
    ensures forall i: nat | i < |Run(s, steps).log| && Run(s, steps).log[i].PressureRead? ::
              ComputedSafely(cal, Run(s, steps).log[i])
  {
    var log := Run(s, steps).log;
    EveryRunIsCyclic(s, steps);
    forall i: nat | i < |log| && log[i].PressureRead?
      ensures ComputedSafely(cal, log[i])
    {
      PressureFollowsTemperature(s.f, log, i);
      OperandsSafeInRange(cal, log[i].b5, 3);
      OperandsExact(cal, log[i].b5, 3);
    }
  }

  /** Before the first temperature is read, two systems may differ in B5; afterwards in nothing. */
  ghost predicate EqualButB5(s: System, t: System) {
    t == s.(b5 := t.b5) && (s.state == PStart || s.state == PWait || s.state == PComplete ==> t.b5 == s.b5)
  }

  lemma CallKeepsEqual(s: System, t: System)
    requires EqualButB5(s, t)
    ensures EqualButB5(Call(s), Call(t))
  {
    assert Emitted(s) == Emitted(t);
  }

  /** The B5 a driver starts with, swapped or not, has no effect on any run: every pressure uses a later one. */
  lemma {:induction false} StartingB5Irrelevant(s: System, t: System, steps: seq<Step>)
    requires Initial(s) && t == s.(b5 := t.b5)
    ensures EqualButB5(Run(s, steps), Run(t, steps)) && Run(s, steps).log == Run(t, steps).log
  {
    if steps != [] {
      var n := |steps| - 1;
      StartingB5Irrelevant(s, t, steps[..n]);
      if steps[n] == CallStep {
        CallKeepsEqual(Run(s, steps[..n]), Run(t, steps[..n]));
      }
    }
  }

  function Zeros(log: seq<Event>): nat {
    if log == [] then 0 else Zeros(log[..|log| - 1]) + if log[|log| - 1] == Returned then 1 else 0
  }

  /** 0 is returned exactly once per cycle. */
  lemma {:induction false} OneZeroPerCycle(f: Formulas, log: seq<Event>)
    requires Cyclic(f, log)
    ensures Zeros(log) == |log| / 7
  {
    if log != [] {
      var n := |log| - 1;
      forall i: nat | i < n
        ensures InCycle(f, log[..n], i)
      {
        assert InCycle(f, log, i);
      }
      OneZeroPerCycle(f, log[..n]);
      assert InCycle(f, log, n);
      assert log[n] == Returned <==> n % 7 == 6;
    }
  }

  // Progress

  /** Calls still needed in the worst case, when at most `k` more polls of the running conversion and
      at most `most` polls of any later one find the sensor busy. */
  function Rank(most: nat, k: nat, st: State): (r: nat)
    ensures r >= 1
    ensures k <= most ==> r <= 2 * most + 6
  {
    match st
    case TStart => 2 * most + 6
    case TWait => k + most + 5
    case TComplete => most + 4
    case PStart => most + 3
    case PWait => k + 2
    case PComplete => 1
  }

  predicate Polls(st: State) {
    st == TWait || st == PWait
  }

  /** The polls left for the conversion that runs after a call. */
  function Left(most: nat, k: nat, st: State, busy: bool): nat {
    if !Polls(st) then most else if busy && k > 0 then k - 1 else k
  }

  /** `polls` are answers to successive calls in which no conversion is found busy more often than allowed. */
  ghost predicate BusyAtMost(most: nat, k: nat, st: State, polls: seq<bool>)
    decreases |polls|
  {
    polls == [] ||
    ((Polls(st) && polls[0] ==> k > 0) &&
     BusyAtMost(most, Left(most, k, st, polls[0]), Next(st, polls[0]), polls[1..]))
  }

  /** What the calls of a run find in the busy bit. */
  function Answers(s: System, steps: seq<Step>): seq<bool>
    decreases |steps|
  {
    if steps == [] then []
    else (if steps[0] == CallStep then [s.sensor.Busy()] else []) + Answers(Do(s, steps[0]), steps[1..])
  }

  lemma {:induction false} RunFirst(s: System, steps: seq<Step>)
    requires steps != []
    ensures Run(s, steps) == Run(Do(s, steps[0]), steps[1..])
  {
    var n := |steps| - 1;
    if n > 0 {
      RunFirst(s, steps[..n]);
      assert steps[..n][1..] == steps[1..][..n - 1];
    } else {
      assert Run(s, steps[..0]) == s;
    }
  }

  lemma ZerosAppend(log: seq<Event>, e: Event)
    ensures Zeros(log + [e]) == Zeros(log) + if e == Returned then 1 else 0
  {
    assert (log + [e])[..|log|] == log;
  }

  lemma ZerosOfFew(log: seq<Event>, e: seq<Event>)
    requires |e| <= 2 && (e != [] ==> e[0] != Returned)
    ensures Zeros(log + e) == Zeros(log) + if |e| == 2 && e[1] == Returned then 1 else 0
  {
    if |e| == 0 {
      assert log + e == log;
    } else if |e| == 1 {
      ZerosAppend(log, e[0]);
    } else {
      assert log + e == log + [e[0]] + [e[1]];
      ZerosAppend(log, e[0]);
      ZerosAppend(log + [e[0]], e[1]);
    }
  }

  /** A step logs a 0 exactly if it is the call that reads the pressure. */
  lemma ZerosOfDo(s: System, step: Step)
    ensures Zeros(Do(s, step).log) == Zeros(s.log) + if step == CallStep && Ret(s.state) == 0 then 1 else 0
  {
    match step {
      case FinishStep(m, l, x) => ZerosAppend(s.log, Finished(KindOf(s.sensor.ctrl), m, l, x));
      case CallStep => ZerosOfFew(s.log, Emitted(s));
    }
  }

  /** How often a run returns 0. */
  function NewZeros(s: System, steps: seq<Step>): int {
    Zeros(Run(s, steps).log) - Zeros(s.log)
  }

  lemma NewZerosFirst(s: System, steps: seq<Step>)
    requires steps != []
    ensures NewZeros(s, steps) == NewZeros(Do(s, steps[0]), steps[1..])
                                + if steps[0] == CallStep && s.state == PComplete then 1 else 0
  {
    RunFirst(s, steps);
    ZerosOfDo(s, steps[0]);
  }

  lemma AnswersFirst(s: System, steps: seq<Step>)
    requires steps != []
    ensures var rest := Answers(Do(s, steps[0]), steps[1..]);
            if steps[0] == CallStep then Answers(s, steps) == [s.sensor.Busy()] + rest
            else Answers(s, steps) == rest
  {
  }

  /** A call lowers the rank, unless it returns 0. */
  lemma RankFalls(most: nat, k: nat, st: State, polls: seq<bool>)
    requires k <= most && polls != [] && BusyAtMost(most, k, st, polls)
    ensures var j := Left(most, k, st, polls[0]);
            j <= most && BusyAtMost(most, j, Next(st, polls[0]), polls[1..]) &&
            if st == PComplete then Rank(most, k, st) == 1 && Rank(most, j, Next(st, polls[0])) == 2 * most + 6
            else Rank(most, j, Next(st, polls[0])) < Rank(most, k, st)
  {
  }

  lemma Account(n: nat, c: nat, r: nat, d: int, later: nat, total: int)
    requires n < later + c * d
    requires (total == d + 1 && r == 1 && later == c) || (total == d && later < r)
    ensures n + 1 < r + c * total
  {
    assert c * (d + 1) == c * d + c;
  }

  /** Calls are paid for by zeros: in every run, from any state, in which no conversion is found busy
      more than `most` times, at most c = 2 * most + 6 calls are spent on each 0 returned, besides those
      still owed to the next one. */
  lemma {:induction false} CallsPerZero(most: nat, k: nat, s: System, steps: seq<Step>, c: nat)
    requires k <= most && BusyAtMost(most, k, s.state, Answers(s, steps)) && c == 2 * most + 6
    ensures |Answers(s, steps)| < Rank(most, k, s.state) + c * NewZeros(s, steps)
    decreases |steps|
  {
    if steps == [] {
      assert NewZeros(s, []) == 0;
    } else {
      NewZerosFirst(s, steps);
      AnswersFirst(s, steps);
      var t, rest := Do(s, steps[0]), steps[1..];
      if steps[0] == CallStep {
        var polls, j := Answers(s, steps), Left(most, k, s.state, s.sensor.Busy());
        RankFalls(most, k, s.state, polls);
        CallsPerZero(most, j, t, rest, c);
        Account(|Answers(t, rest)|, c, Rank(most, k, s.state), NewZeros(t, rest), Rank(most, j, t.state),
                NewZeros(s, steps));
      } else {
        CallsPerZero(most, k, t, rest, c);
      }
    }
  }

  /** So every run of 2 * most + 6 calls returns 0. */
  lemma Progress(most: nat, s: System, steps: seq<Step>)
    requires BusyAtMost(most, most, s.state, Answers(s, steps)) && |Answers(s, steps)| >= 2 * most + 6
    ensures NewZeros(s, steps) > 0
  {
    CallsPerZero(most, most, s, steps, 2 * most + 6);
    SomeZero(|Answers(s, steps)|, 2 * most + 6, NewZeros(s, steps));
  }

  lemma SomeZero(n: nat, c: nat, d: int)
    requires c <= n < c + c * d
    ensures d > 0
  {
  }

  /** The sensor finishes before the next poll, because no busy answer is left. */
  predicate MustFinish(k: nat, s: System) {
    Polls(s.state) && k == 0 && s.sensor.Busy()
  }

  lemma RankOfCall(most: nat, k: nat, st: State, busy: bool)
    requires st != PComplete && !(Polls(st) && k == 0 && busy)
    ensures Rank(most, Left(most, k, st, busy), Next(st, busy)) < Rank(most, k, st)
  {
  }

  lemma FinishStops(sensor: Sensor)
    requires sensor.Busy()
    ensures !sensor.Finish(0, 0, 0).Busy()
  {
  }

  /** The slowest run up to the read of the pressure: every conversion ends only when it has been found
      busy as often as allowed. */
  function SlowRun(most: nat, k: nat, s: System): seq<Step>
    decreases Rank(most, k, s.state), s.sensor.Busy()
  {
    if s.state == PComplete then []
    else if MustFinish(k, s) then
      FinishStops(s.sensor);
      [FinishStep(0, 0, 0)] + SlowRun(most, k, Complete(s, 0, 0, 0))
    else
      RankOfCall(most, k, s.state, s.sensor.Busy());
      [CallStep] + SlowRun(most, Left(most, k, s.state, s.sensor.Busy()), Call(s))
  }

  /** The sensor converts as long as busy polls are left, and only while the driver waits for it. */
  ghost predicate InStep(k: nat, s: System) {
    if Polls(s.state) then s.sensor.Busy() || k == 0 else !s.sensor.Busy()
  }

  lemma {:induction false} SlowAnswers(most: nat, k: nat, s: System)
    requires k <= most && InStep(k, s)
    ensures var polls := Answers(s, SlowRun(most, k, s));
            BusyAtMost(most, k, s.state, polls) && |polls| == Rank(most, k, s.state) - 1
    decreases Rank(most, k, s.state), s.sensor.Busy()
  {
    var steps := SlowRun(most, k, s);
    if s.state == PComplete {
    } else if MustFinish(k, s) {
      SlowAnswers(most, k, Complete(s, 0, 0, 0));
      AnswersFirst(s, steps);
      assert steps[1..] == SlowRun(most, k, Complete(s, 0, 0, 0));
    } else {
      var j := Left(most, k, s.state, s.sensor.Busy());
      SlowAnswers(most, j, Call(s));
      AnswersFirst(s, steps);
      assert steps[1..] == SlowRun(most, j, Call(s));
    }
  }

  lemma {:induction false} SlowZeros(most: nat, k: nat, s: System)
    ensures NewZeros(s, SlowRun(most, k, s)) == 0
    decreases Rank(most, k, s.state), s.sensor.Busy()
  {
    var steps := SlowRun(most, k, s);
    if s.state == PComplete {
    } else if MustFinish(k, s) {
      SlowZeros(most, k, Complete(s, 0, 0, 0));
      NewZerosFirst(s, steps);
      assert steps[1..] == SlowRun(most, k, Complete(s, 0, 0, 0));
    } else {
      var j := Left(most, k, s.state, s.sensor.Busy());
      SlowZeros(most, j, Call(s));
      NewZerosFirst(s, steps);
      assert steps[1..] == SlowRun(most, j, Call(s));
    }
  }

  /** One call less does not do: from the start of the driver this run makes 2 * most + 5 calls, finds no
      conversion busy too often, and has not returned 0. */
  lemma BoundIsTight(most: nat, s: System)
    requires Initial(s)
    ensures var steps := SlowRun(most, most, s);
            BusyAtMost(most, most, s.state, Answers(s, steps)) && |Answers(s, steps)| == 2 * most + 5 &&
            NewZeros(s, steps) == 0
  {
    SlowAnswers(most, most, s);
    SlowZeros(most, most, s);
  }
}
