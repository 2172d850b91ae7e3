/** The thruster arming machine: how callbacks and command ticks change it, and what it puts on the bus. */
module Thrusters {
  import opened RpmToGain

  datatype Option<T> = None | Some(value: T)

  // ---- Mapping ----

  /** A thruster: its index in setpoints, whether it runs in reverse, and its index on the bus. */
  datatype Thruster = Thruster(global: nat, reverse: bool, dronecan: nat)

  const MAPPING: seq<Thruster> := [
    Thruster(0, true, 3), Thruster(1, false, 6), Thruster(2, true, 5), Thruster(3, false, 7),
    Thruster(4, true, 0), Thruster(5, true, 4), Thruster(6, true, 2), Thruster(7, true, 1)]

  const THRUSTERS: nat := 8

  function SignOf(t: Thruster): real {
    if t.reverse then -1.0 else 1.0
  }

  /** The first n entries of the mapping written into the arrays that the driver keeps. */
  function ToGlobal(n: nat, count: nat): (r: seq<nat>)
    requires n <= |MAPPING| && THRUSTERS <= count
    ensures |r| == count
  {
    if n == 0 then seq(count, i => 0)
    else MappingInRange(n - 1); ToGlobal(n - 1, count)[MAPPING[n - 1].dronecan := MAPPING[n - 1].global]
  }

  function Signs(n: nat, count: nat): (r: seq<real>)
    requires n <= |MAPPING| && THRUSTERS <= count
    ensures |r| == count
  {
    if n == 0 then seq(count, i => 1.0)
    else MappingInRange(n - 1); Signs(n - 1, count)[MAPPING[n - 1].dronecan := SignOf(MAPPING[n - 1])]
  }

  lemma MappingInRange(k: nat)
    requires k < |MAPPING|
    ensures MAPPING[k].dronecan < THRUSTERS && MAPPING[k].global < THRUSTERS
  {
  }

  /** Every bus index and every setpoint index below 8 belongs to exactly one thruster. */
  lemma MappingIsPermutation(i: nat, j: nat)
    requires i < |MAPPING| && j < |MAPPING| && i != j
    ensures MAPPING[i].dronecan != MAPPING[j].dronecan && MAPPING[i].global != MAPPING[j].global
  {
  }

  lemma {:induction false} ArraysHoldMapping(n: nat, count: nat, k: nat)
    requires k < n <= |MAPPING| && THRUSTERS <= count
    ensures MAPPING[k].dronecan < count
    ensures ToGlobal(n, count)[MAPPING[k].dronecan] == MAPPING[k].global
    ensures Signs(n, count)[MAPPING[k].dronecan] == SignOf(MAPPING[k])
    decreases n
  {
    MappingInRange(k);
    MappingInRange(n - 1);
    if k < n - 1 {
      MappingIsPermutation(k, n - 1);
      ArraysHoldMapping(n - 1, count, k);
    }
  }

  lemma {:induction false} GlobalsInRange(n: nat, count: nat, d: nat)
    requires n <= |MAPPING| && THRUSTERS <= count && d < count
    ensures ToGlobal(n, count)[d] < THRUSTERS && (Signs(n, count)[d] == 1.0 || Signs(n, count)[d] == -1.0)
  {
    if n > 0 {
      MappingInRange(n - 1);
      GlobalsInRange(n - 1, count, d);
    }
  }

  // ---- State ----

  datatype Config = Config(
    escCount: nat, startupMin: real, cutoff: real, hold: real, equations: Equations, roots: Roots)

  predicate ConfigOk(c: Config) {
    THRUSTERS <= c.escCount
  }

  /** The last voltage each node reported, in the order in which the nodes first appeared. */
  datatype Reading = Reading(node: nat, voltage: real)

  datatype State = State(
    armed: bool, bigArm: bool, throttles: seq<real>, telemetry: seq<Reading>, since: Option<real>)

  datatype Event =
    | EscStatus(node: nat, voltage: real)
    | Watchdog(report: string)
    | Setpoint(wantsArmed: bool, thrust: seq<real>)
    | Tick(now: real)

  /** One tick's pair of broadcasts. */
  datatype Frame = Frame(status: nat, commands: seq<int>)

  function Zeros(n: nat): seq<real> {
    seq(n, i => 0.0)
  }

  function Record(telemetry: seq<Reading>, node: nat, voltage: real): (r: seq<Reading>)
    ensures r != []
  {
    if telemetry == [] then [Reading(node, voltage)]
    else if telemetry[0].node == node then [Reading(node, voltage)] + telemetry[1..]
    else [telemetry[0]] + Record(telemetry[1..], node, voltage)
  }

  function Total(telemetry: seq<Reading>): real {
    if telemetry == [] then 0.0 else Total(telemetry[..|telemetry| - 1]) + telemetry[|telemetry| - 1].voltage
  }

  function Average(telemetry: seq<Reading>): real {
    if telemetry == [] then 16.0 else Total(telemetry) / |telemetry| as real
  }

  /** What is sent to bus index d: the gain for one place of the setpoint, with one sign. */
  function Adjusted(c: Config, thrust: seq<real>, v: real, d: nat): real
    requires ConfigOk(c) && |thrust| == c.escCount && d < c.escCount
  {
    GlobalsInRange(|MAPPING|, c.escCount, d);
    Gain(c.equations, c.roots, thrust[ToGlobal(|MAPPING|, c.escCount)[d]], v) * Signs(|MAPPING|, c.escCount)[d]
  }

  function Remap(c: Config, thrust: seq<real>, v: real): (r: seq<real>)
    requires ConfigOk(c) && |thrust| == c.escCount
    ensures |r| == c.escCount
  {
    seq(c.escCount, d requires 0 <= d < c.escCount => Adjusted(c, thrust, v, d))
  }

  function Disarm(c: Config, s: State): State {
    s.(armed := false, throttles := Zeros(c.escCount))
  }

  function CheckUndervoltage(c: Config, s: State, now: real): State {
    if !s.bigArm || s.telemetry == [] then s
    else if Average(s.telemetry) >= c.cutoff then s.(since := None)
    else if s.since == None then s.(since := Some(now))
    else if now - s.since.value >= c.hold then Disarm(c, s.(bigArm := false))
    else s
  }

  /** Truncation toward zero. */
  function Truncate(x: real): int {
    if x >= 0.0 then x.Floor else -((-x).Floor)
  }

  function TruncateAll(xs: seq<real>): (r: seq<int>)
    ensures |r| == |xs| && forall i :: 0 <= i < |xs| ==> r[i] == Truncate(xs[i])
  {
    seq(|xs|, i requires 0 <= i < |xs| => Truncate(xs[i]))
  }

  function Broadcast(c: Config, s: State): Frame {
    var armed := s.armed && s.bigArm;
    Frame(if armed then 255 else 0, TruncateAll(if armed then s.throttles else Zeros(c.escCount)))
  }

  function Step(c: Config, s: State, e: Event): State
    requires ConfigOk(c)
  {
    match e
    case EscStatus(node, voltage) => s.(telemetry := Record(s.telemetry, node, voltage))
    case Watchdog(report) =>
      if report == "continue" then s.(armed := true)
      else if report == "kill" then s.(bigArm := false, throttles := Zeros(c.escCount))
      else s
    case Setpoint(wantsArmed, thrust) =>
      if |thrust| != c.escCount then s
      else if !wantsArmed || !s.bigArm then Disarm(c, s)
      else s.(armed := true, throttles := Remap(c, thrust, Average(s.telemetry)))
    case Tick(now) => CheckUndervoltage(c, s, now)
  }

  /** The state after a series of events. */
  function Run(c: Config, s: State, events: seq<Event>): State
    requires ConfigOk(c)
    decreases |events|
  {
    if events == [] then s else Step(c, Run(c, s, events[..|events| - 1]), events[|events| - 1])
  }

  /** The state in which the callbacks start, from the setting of BIGARM and the telemetry gathered so far. */
  function Startup(c: Config, bigArm: bool, telemetry: seq<Reading>): State {
    if telemetry != [] && Average(telemetry) >= c.startupMin then
      State(true, bigArm, Zeros(c.escCount), telemetry, None)
    else
      State(false, false, Zeros(c.escCount), telemetry, None)
  }

  lemma {:induction false} RunExtends(c: Config, s: State, events: seq<Event>, n: nat)
    requires ConfigOk(c) && n < |events|
    ensures Run(c, s, events[..n + 1]) == Step(c, Run(c, s, events[..n]), events[n])
  {
    assert events[..n + 1][..n] == events[..n];
  }
}
