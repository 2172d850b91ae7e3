/** What the bus carries, and when the thrusters are killed, over every interleaving of callbacks and ticks. */
module ThrusterSafety {
  import opened RpmToGain
  import opened Thrusters

  // ---- One setpoint ----

  /** Each thruster is sent the gain for its own place in the setpoint, negated if it runs in reverse. */
  lemma EachThrusterGetsItsOwn(c: Config, thrust: seq<real>, v: real, k: nat, t: Thruster)
    requires ConfigOk(c) && |thrust| == c.escCount && k < |MAPPING| && t == MAPPING[k]
    ensures t.dronecan < c.escCount && t.global < |thrust|
    ensures var gain := Gain(c.equations, c.roots, thrust[t.global], v);
      Remap(c, thrust, v)[t.dronecan] == if t.reverse then -gain else gain
  {
    MappingInRange(k);
    ArraysHoldMapping(|MAPPING|, c.escCount, k);
    assert Remap(c, thrust, v)[t.dronecan] == Adjusted(c, thrust, v, t.dronecan);
  }

  lemma RemapInBounds(c: Config, thrust: seq<real>, v: real, d: nat)
    requires ConfigOk(c) && |thrust| == c.escCount && d < c.escCount
    ensures -MAX_GAIN <= Remap(c, thrust, v)[d] <= MAX_GAIN
  {
    GlobalsInRange(|MAPPING|, c.escCount, d);
    GainInBounds(c.equations, c.roots, thrust[ToGlobal(|MAPPING|, c.escCount)[d]], v);
  }

  /** A command is the gain without its fraction. */
  lemma TruncateTowardZero(x: real)
    ensures x >= 0.0 ==> Truncate(x) as real <= x < Truncate(x) as real + 1.0
    ensures x <= 0.0 ==> Truncate(x) as real - 1.0 < x <= Truncate(x) as real
  {
  }

  lemma TruncateInBounds(x: real)
    requires -MAX_GAIN <= x <= MAX_GAIN
    ensures -8191 <= Truncate(x) <= 8191
  {
  }

  // ---- Once killed, always off ----

  lemma {:induction false} KillIsLatched(c: Config, s: State, events: seq<Event>, n: nat)
    requires ConfigOk(c) && n <= |events| && !Run(c, s, events[..n]).bigArm
    ensures !Run(c, s, events).bigArm
    decreases |events| - n
  {
    if n < |events| {
      RunExtends(c, s, events, n);
      KillIsLatched(c, s, events, n + 1);
    } else {
      assert events[..n] == events;
    }
  }

  function Off(c: Config): Frame {
    Frame(0, seq(c.escCount, i => 0))
  }

  lemma ZerosAreOff(c: Config)
    ensures TruncateAll(Zeros(c.escCount)) == Off(c).commands
  {
  }

  /** Once BIGARM is false, whatever happens: every later broadcast is status 0 with all commands zero. */
  lemma KilledMeansOff(c: Config, s: State, events: seq<Event>, n: nat)
    requires ConfigOk(c) && n <= |events| && !Run(c, s, events[..n]).bigArm
    ensures Broadcast(c, Run(c, s, events)) == Off(c)
  {
    KillIsLatched(c, s, events, n);
    ZerosAreOff(c);
  }

  // ---- What exactly is sent before ----

  predicate WellFormed(c: Config, e: Event) {
    e.Setpoint? && |e.thrust| == c.escCount
  }

  /** The place of the latest well-formed setpoint. */
  function Latest(c: Config, events: seq<Event>): (r: Option<nat>)
    ensures r.None? ==> forall k :: 0 <= k < |events| ==> !WellFormed(c, events[k])
    ensures r.Some? ==> r.value < |events| && WellFormed(c, events[r.value])
    ensures r.Some? ==> forall k :: r.value < k < |events| ==> !WellFormed(c, events[k])
    decreases |events|
  {
    if events == [] then None
    else if WellFormed(c, events[|events| - 1]) then Some(|events| - 1)
    else Latest(c, events[..|events| - 1])
  }

  /** The watchdog has said "continue" at or after the n-th event. */
  predicate Continued(events: seq<Event>, n: nat)
    decreases |events|
  {
    |events| > n && (events[|events| - 1] == Watchdog("continue") || Continued(events[..|events| - 1], n))
  }

  /** Arming state and throttles as the history alone determines them, while not killed. */
  function WantedArmed(c: Config, s: State, events: seq<Event>): bool {
    match Latest(c, events)
    case None => s.armed || Continued(events, 0)
    case Some(i) => events[i].wantsArmed || Continued(events, i + 1)
  }

  function WantedThrottles(c: Config, s: State, events: seq<Event>): seq<real>
    requires ConfigOk(c)
  {
    match Latest(c, events)
    case None => Zeros(c.escCount)
    case Some(i) =>
      if events[i].wantsArmed then Remap(c, events[i].thrust, Average(Run(c, s, events[..i]).telemetry))
      else Zeros(c.escCount)
  }

  lemma LatestOfPrefix(c: Config, s: State, events: seq<Event>)
    requires ConfigOk(c) && events != [] && !WellFormed(c, events[|events| - 1])
    ensures WantedThrottles(c, s, events) == WantedThrottles(c, s, events[..|events| - 1])
    ensures WantedArmed(c, s, events)
      <==> WantedArmed(c, s, events[..|events| - 1]) || events[|events| - 1] == Watchdog("continue")
  {
    var init := events[..|events| - 1];
    var r := Latest(c, init);
    assert Latest(c, events) == r;
    if r.Some? {
      assert init[..r.value] == events[..r.value] && init[r.value] == events[r.value];
    }
  }

  ghost predicate Follows(c: Config, s: State, events: seq<Event>)
    requires ConfigOk(c)
  {
    var q := Run(c, s, events);
    if q.bigArm then q.armed == WantedArmed(c, s, events) && q.throttles == WantedThrottles(c, s, events)
    else q.throttles == Zeros(c.escCount)
  }

  lemma {:induction false} StateFollowsHistory(c: Config, s: State, events: seq<Event>)
    requires ConfigOk(c) && s.throttles == Zeros(c.escCount)
    ensures Follows(c, s, events)
    decreases |events|
  {
    if events != [] {
      var init, e := events[..|events| - 1], events[|events| - 1];
      StateFollowsHistory(c, s, init);
      if WellFormed(c, e) {
        assert Latest(c, events) == Some(|events| - 1);
      } else {
        LatestOfPrefix(c, s, events);
      }
    }
  }

  /**
  Wire safety, exactly: in every run from a start-up state, what is broadcast is off if BIGARM has been cleared;
  else, if the latest well-formed setpoint was armed, exactly its remapped gains at the voltage of its arrival;
  else all zeros, armed only by start-up or by a "continue" since that setpoint.
  */
  lemma WireIsExactly(c: Config, s: State, events: seq<Event>)
    requires ConfigOk(c) && s.throttles == Zeros(c.escCount)
    ensures var q, latest := Run(c, s, events), Latest(c, events);
      Broadcast(c, q) ==
        if !q.bigArm then Off(c)
        else if latest.Some? && events[latest.value].wantsArmed then
          Frame(255, TruncateAll(Remap(c, events[latest.value].thrust, Average(Run(c, s, events[..latest.value]).telemetry))))
        else
          Off(c).(status := if WantedArmed(c, s, events) then 255 else 0)
  {
    StateFollowsHistory(c, s, events);
    ZerosAreOff(c);
  }

  /** In particular: a command that is not zero stems from the latest well-formed setpoint, armed when BIGARM was still set. */
  lemma NonZeroCommands(c: Config, s: State, events: seq<Event>, d: nat) returns (i: nat)
    requires ConfigOk(c) && s.throttles == Zeros(c.escCount) && d < c.escCount
    requires d < |Broadcast(c, Run(c, s, events)).commands| && Broadcast(c, Run(c, s, events)).commands[d] != 0
    ensures Latest(c, events) == Some(i) && events[i].wantsArmed && Run(c, s, events[..i]).bigArm
    ensures Broadcast(c, Run(c, s, events)).commands[d]
         == Truncate(Remap(c, events[i].thrust, Average(Run(c, s, events[..i]).telemetry))[d])
  {
    WireIsExactly(c, s, events);
    i := Latest(c, events).value;
    if !Run(c, s, events[..i]).bigArm {
      KillIsLatched(c, s, events, i);
    }
  }

  /** A thruster whose speed in the latest well-formed setpoint is within the dead band is sent 0, whatever its voltage and sign. */
  lemma DeadBandIsStill(c: Config, s: State, events: seq<Event>, k: nat, i: nat)
    requires ConfigOk(c) && s.throttles == Zeros(c.escCount) && k < |MAPPING|
    requires Latest(c, events) == Some(i) && MAPPING[k].global < |events[i].thrust|
    requires -50.0 < events[i].thrust[MAPPING[k].global] < 50.0
    ensures MAPPING[k].dronecan < |Broadcast(c, Run(c, s, events)).commands|
    ensures Broadcast(c, Run(c, s, events)).commands[MAPPING[k].dronecan] == 0
  {
    WireIsExactly(c, s, events);
    MappingInRange(k);
    if events[i].wantsArmed {
      var v := Average(Run(c, s, events[..i]).telemetry);
      DeadBandIsZero(c.equations, c.roots, events[i].thrust[MAPPING[k].global], v);
      EachThrusterGetsItsOwn(c, events[i].thrust, v, k, MAPPING[k]);
    }
  }

  /** Every command ever broadcast is within the range of the bus. */
  lemma CommandsInRange(c: Config, s: State, events: seq<Event>, d: nat)
    requires ConfigOk(c) && s.throttles == Zeros(c.escCount) && d < c.escCount
    ensures |Broadcast(c, Run(c, s, events)).commands| == c.escCount
    ensures -8191 <= Broadcast(c, Run(c, s, events)).commands[d] <= 8191
  {
    WireIsExactly(c, s, events);
    var latest := Latest(c, events);
    if latest.Some? && events[latest.value].wantsArmed {
      var v := Average(Run(c, s, events[..latest.value]).telemetry);
      RemapInBounds(c, events[latest.value].thrust, v, d);
      TruncateInBounds(Remap(c, events[latest.value].thrust, v)[d]);
    }
  }

  // ---- When exactly the thrusters are killed ----

  /** The tick at k sees telemetry with an average below the cutoff. */
  predicate Low(c: Config, s: State, events: seq<Event>, k: nat)
    requires ConfigOk(c) && k < |events|
  {
    var telemetry := Run(c, s, events[..k]).telemetry;
    telemetry != [] && Average(telemetry) < c.cutoff
  }

  /** There is a tick at i, and from there on every tick up to, but not including, n is low. */
  ghost predicate LowFrom(c: Config, s: State, events: seq<Event>, i: nat, n: nat)
    requires ConfigOk(c) && n <= |events|
  {
    && i < n && events[i].Tick?
    && forall k: nat {:trigger Low(c, s, events, k)} :: i <= k < n && events[k].Tick? ==> Low(c, s, events, k)
  }

  predicate Monotone(events: seq<Event>) {
    forall i, j :: 0 <= i < j < |events| && events[i].Tick? && events[j].Tick? ==> events[i].now <= events[j].now
  }

  /** Ticks i and j, at least the hold time apart, with every tick from i to j low. */
  ghost predicate Window(c: Config, s: State, events: seq<Event>, i: nat, j: nat)
    requires ConfigOk(c) && j < |events|
  {
    && i < j && events[j].Tick? && LowFrom(c, s, events, i, j + 1)
    && events[j].now - events[i].now >= c.hold
  }

  ghost predicate HadWindow(c: Config, s: State, events: seq<Event>, n: nat)
    requires ConfigOk(c) && n <= |events|
  {
    exists i: nat, j: nat :: j < n && Window(c, s, events, i, j)
  }

  predicate Killed(events: seq<Event>, n: nat)
    requires n <= |events|
  {
    exists k :: 0 <= k < n && events[k] == Watchdog("kill")
  }

  /** The timer holds the time of the first tick from which on all were low. */
  ghost predicate TimerRight(c: Config, s: State, events: seq<Event>, n: nat)
    requires ConfigOk(c) && n <= |events|
  {
    match Run(c, s, events[..n]).since
    case None => forall i: nat :: !LowFrom(c, s, events, i, n)
    case Some(t) =>
      && (exists i: nat :: LowFrom(c, s, events, i, n) && events[i].now == t)
      && (forall i: nat :: LowFrom(c, s, events, i, n) ==> t <= events[i].now)
  }

  lemma {:induction false} TelemetryStays(c: Config, s: State, events: seq<Event>, i: nat, n: nat)
    requires ConfigOk(c) && i <= n <= |events| && Run(c, s, events[..i]).telemetry != []
    ensures Run(c, s, events[..n]).telemetry != []
    decreases n - i
  {
    if i < n {
      RunExtends(c, s, events, i);
      TelemetryStays(c, s, events, i + 1, n);
    }
  }

  /** How one more event changes from where all ticks are low. */
  lemma LowFromExtends(c: Config, s: State, events: seq<Event>, i: nat, n: nat)
    requires ConfigOk(c) && n < |events|
    ensures LowFrom(c, s, events, i, n + 1) <==>
      if events[n].Tick? then Low(c, s, events, n) && (i == n || LowFrom(c, s, events, i, n))
      else LowFrom(c, s, events, i, n)
  {
    if LowFrom(c, s, events, i, n + 1) {
      if events[n].Tick? {
        assert Low(c, s, events, n);
      }
    }
  }

  lemma TimerNeedsTelemetry(c: Config, s: State, events: seq<Event>, n: nat)
    requires ConfigOk(c) && n <= |events| && TimerRight(c, s, events, n) && Run(c, s, events[..n]).since.Some?
    ensures Run(c, s, events[..n]).telemetry != []
  {
    var i: nat :| LowFrom(c, s, events, i, n);
    assert Low(c, s, events, i);
    TelemetryStays(c, s, events, i, n);
  }

  lemma TimerThroughOthers(c: Config, s: State, events: seq<Event>, n: nat, m: nat)
    requires ConfigOk(c) && n < |events| && m == n + 1 && !events[n].Tick? && TimerRight(c, s, events, n)
    ensures TimerRight(c, s, events, m)
  {
    RunExtends(c, s, events, n);
    assert Run(c, s, events[..m]).since == Run(c, s, events[..n]).since;
    forall i: nat ensures LowFrom(c, s, events, i, m) <==> LowFrom(c, s, events, i, n) {
      LowFromExtends(c, s, events, i, n);
    }
  }

  lemma TimerThroughHighTick(c: Config, s: State, events: seq<Event>, n: nat, m: nat)
    requires ConfigOk(c) && n < |events| && m == n + 1 && events[n].Tick? && TimerRight(c, s, events, n)
    requires Run(c, s, events[..n]).bigArm && !Low(c, s, events, n)
    ensures TimerRight(c, s, events, m)
  {
    RunExtends(c, s, events, n);
    if Run(c, s, events[..n]).since.Some? {
      TimerNeedsTelemetry(c, s, events, n);
    }
    assert Run(c, s, events[..m]).since == None;
    forall i: nat ensures !LowFrom(c, s, events, i, m) {
      LowFromExtends(c, s, events, i, n);
    }
  }

  lemma TimerThroughLowTick(c: Config, s: State, events: seq<Event>, n: nat, m: nat)
    requires ConfigOk(c) && n < |events| && m == n + 1 && events[n].Tick? && Monotone(events) && TimerRight(c, s, events, n)
    requires Run(c, s, events[..n]).bigArm && Low(c, s, events, n)
    ensures TimerRight(c, s, events, m)
  {
    var p, q := Run(c, s, events[..n]), Run(c, s, events[..m]);
    RunExtends(c, s, events, n);
    forall i: nat ensures LowFrom(c, s, events, i, m) <==> i == n || LowFrom(c, s, events, i, n) {
      LowFromExtends(c, s, events, i, n);
    }
    if p.since == None {
      assert q.since == Some(events[n].now) && LowFrom(c, s, events, n, m);
    } else {
      var i: nat :| LowFrom(c, s, events, i, n) && events[i].now == p.since.value;
      assert q.since == p.since && LowFrom(c, s, events, i, m);
    }
  }

  lemma TimerStaysRight(c: Config, s: State, events: seq<Event>, n: nat)
    requires ConfigOk(c) && n < |events| && Monotone(events) && TimerRight(c, s, events, n)
    requires Run(c, s, events[..n]).bigArm
    ensures TimerRight(c, s, events, n + 1)
  {
    if !events[n].Tick? {
      TimerThroughOthers(c, s, events, n, n + 1);
    } else if Low(c, s, events, n) {
      TimerThroughLowTick(c, s, events, n, n + 1);
    } else {
      TimerThroughHighTick(c, s, events, n, n + 1);
    }
  }

  /** A tick kills exactly when it completes a window. */
  lemma TickKillsExactly(c: Config, s: State, events: seq<Event>, n: nat)
    requires ConfigOk(c) && n < |events| && events[n].Tick? && Monotone(events) && TimerRight(c, s, events, n)
    requires Run(c, s, events[..n]).bigArm
    ensures !Run(c, s, events[..n + 1]).bigArm <==> exists i: nat :: Window(c, s, events, i, n)
  {
    var p := Run(c, s, events[..n]);
    RunExtends(c, s, events, n);
    if !Run(c, s, events[..n + 1]).bigArm {
      var i: nat :| LowFrom(c, s, events, i, n) && events[i].now == p.since.value;
      LowFromExtends(c, s, events, i, n);
      assert Window(c, s, events, i, n);
    }
    if i: nat :| Window(c, s, events, i, n) {
      LowFromExtends(c, s, events, i, n);
      assert Low(c, s, events, n);
      assert LowFrom(c, s, events, i, n);
    }
  }

  lemma NoWindowEndsElsewhere(c: Config, s: State, events: seq<Event>, n: nat)
    requires ConfigOk(c) && n < |events|
    ensures HadWindow(c, s, events, n + 1) <==> HadWindow(c, s, events, n) || exists i: nat :: Window(c, s, events, i, n)
  {
    if i: nat, j: nat :| j < n + 1 && Window(c, s, events, i, j) {
      assert j == n || j < n;
    }
    if i: nat :| Window(c, s, events, i, n) {
      assert n < n + 1 && Window(c, s, events, i, n);
    }
  }

  ghost predicate KilledRightly(c: Config, s: State, events: seq<Event>, n: nat)
    requires ConfigOk(c) && n <= |events|
  {
    Run(c, s, events[..n]).bigArm <==> s.bigArm && !Killed(events, n) && !HadWindow(c, s, events, n)
  }

  lemma KillStep(c: Config, s: State, events: seq<Event>, n: nat)
    requires ConfigOk(c) && n < |events| && Monotone(events) && KilledRightly(c, s, events, n)
    requires Run(c, s, events[..n]).bigArm ==> TimerRight(c, s, events, n)
    ensures KilledRightly(c, s, events, n + 1)
  {
    RunExtends(c, s, events, n);
    NoWindowEndsElsewhere(c, s, events, n);
    if Run(c, s, events[..n]).bigArm && events[n].Tick? {
      TickKillsExactly(c, s, events, n);
    }
    assert Killed(events, n + 1) <==> Killed(events, n) || events[n] == Watchdog("kill");
  }

  lemma {:induction false} KilledExactlyAt(c: Config, s: State, events: seq<Event>, n: nat)
    requires ConfigOk(c) && n <= |events| && Monotone(events) && s.since == None
    ensures KilledRightly(c, s, events, n)
    ensures Run(c, s, events[..n]).bigArm ==> TimerRight(c, s, events, n)
  {
    if n == 0 {
      assert events[..0] == [];
    } else {
      KilledExactlyAt(c, s, events, n - 1);
      RunExtends(c, s, events, n - 1);
      KillStep(c, s, events, n - 1);
      if Run(c, s, events[..n]).bigArm {
        TimerStaysRight(c, s, events, n - 1);
      }
    }
  }

  /**
  When exactly BIGARM is cleared, with a clock that does not run backwards: by a watchdog "kill", or when some two
  ticks at least the hold time apart saw telemetry below the cutoff, as did every tick between them.
  */
  lemma KilledExactly(c: Config, s: State, events: seq<Event>)
    requires ConfigOk(c) && Monotone(events) && s.since == None
    ensures !Run(c, s, events).bigArm
      <==> !s.bigArm || Killed(events, |events|) || HadWindow(c, s, events, |events|)
  {
    KilledExactlyAt(c, s, events, |events|);
    assert events[..|events|] == events;
  }

  // ---- What the average can hide ----

  function VoltageOf(telemetry: seq<Reading>, node: nat): Option<real> {
    if telemetry == [] then None
    else if telemetry[0].node == node then Some(telemetry[0].voltage)
    else VoltageOf(telemetry[1..], node)
  }

  /** A status report changes the reading of its own node and of no other. */
  lemma {:induction false} RecordIsUpdate(telemetry: seq<Reading>, node: nat, voltage: real, other: nat)
    ensures VoltageOf(Record(telemetry, node, voltage), other)
         == if other == node then Some(voltage) else VoltageOf(telemetry, other)
  {
    if telemetry != [] && telemetry[0].node != node {
      RecordIsUpdate(telemetry[1..], node, voltage, other);
      assert Record(telemetry, node, voltage)[1..] == Record(telemetry[1..], node, voltage);
    } else if telemetry != [] {
      assert Record(telemetry, node, voltage)[1..] == telemetry[1..];
    }
  }

  predicate AllAtLeast(telemetry: seq<Reading>, v: real) {
    forall r :: r in telemetry ==> r.voltage >= v
  }

  lemma {:induction false} TotalAtLeast(telemetry: seq<Reading>, v: real)
    requires AllAtLeast(telemetry, v)
    ensures Total(telemetry) >= |telemetry| as real * v
    decreases |telemetry|
  {
    if telemetry != [] {
      TotalAtLeast(telemetry[..|telemetry| - 1], v);
      assert telemetry[|telemetry| - 1] in telemetry;
    }
  }

  lemma AverageAtLeast(telemetry: seq<Reading>, v: real)
    requires AllAtLeast(telemetry, v) && telemetry != []
    ensures Average(telemetry) >= v
  {
    TotalAtLeast(telemetry, v);
    QuotientAtLeast(Total(telemetry), |telemetry| as real, v);
  }

  lemma QuotientAtLeast(total: real, n: real, v: real)
    requires n > 0.0 && total >= n * v
    ensures total / n >= v
  {
    assert total / n * n == total;
    assert (total / n - v) * n == total - n * v;
  }

  lemma {:induction false} RecordKeepsBound(telemetry: seq<Reading>, node: nat, voltage: real, v: real)
    requires AllAtLeast(telemetry, v) && voltage >= v
    ensures AllAtLeast(Record(telemetry, node, voltage), v)
  {
    if telemetry != [] && telemetry[0].node != node {
      assert forall r :: r in telemetry[1..] ==> r in telemetry;
      RecordKeepsBound(telemetry[1..], node, voltage, v);
    }
  }

  predicate Healthy(c: Config, events: seq<Event>) {
    forall k :: 0 <= k < |events| ==>
      events[k] != Watchdog("kill") && (events[k].EscStatus? ==> events[k].voltage >= c.cutoff)
  }

  lemma OnlyReportsRecord(c: Config, p: State, e: Event)
    requires ConfigOk(c) && !e.EscStatus?
    ensures Step(c, p, e).telemetry == p.telemetry
  {
  }

  lemma StepKeepsBound(c: Config, p: State, e: Event)
    requires ConfigOk(c) && AllAtLeast(p.telemetry, c.cutoff) && (e.EscStatus? ==> e.voltage >= c.cutoff)
    ensures AllAtLeast(Step(c, p, e).telemetry, c.cutoff)
  {
    if e.EscStatus? {
      RecordKeepsBound(p.telemetry, e.node, e.voltage, c.cutoff);
    } else {
      OnlyReportsRecord(c, p, e);
    }
  }

  lemma {:induction false} HealthyTelemetry(c: Config, s: State, events: seq<Event>, n: nat)
    requires ConfigOk(c) && n <= |events| && Healthy(c, events) && AllAtLeast(s.telemetry, c.cutoff)
    ensures AllAtLeast(Run(c, s, events[..n]).telemetry, c.cutoff)
  {
    if n == 0 {
      assert events[..0] == [];
    } else {
      HealthyTelemetry(c, s, events, n - 1);
      RunExtends(c, s, events, n - 1);
      StepKeepsBound(c, Run(c, s, events[..n - 1]), events[n - 1]);
    }
  }

  /** A pack whose ESCs never report less than the cutoff is not killed, whatever the setpoints and the timing. */
  lemma HealthyPackIsNotKilled(c: Config, s: State, events: seq<Event>)
    requires ConfigOk(c) && Monotone(events) && s.since == None && s.bigArm
    requires Healthy(c, events) && AllAtLeast(s.telemetry, c.cutoff)
    ensures Run(c, s, events).bigArm
  {
    KilledExactly(c, s, events);
    if i: nat, j: nat :| j < |events| && Window(c, s, events, i, j) {
      assert Low(c, s, events, i);
      HealthyTelemetry(c, s, events, i);
      AverageAtLeast(Run(c, s, events[..i]).telemetry, c.cutoff);
    }
  }

  // ---- Start-up and shutdown ----

  /** The driver starts armed, with all commands zero, exactly if BIGARM is set and there is telemetry at or above the minimum. */
  lemma StartupArmsExactly(c: Config, bigArm: bool, telemetry: seq<Reading>)
    requires ConfigOk(c)
    ensures var s := Startup(c, bigArm, telemetry);
      && Broadcast(c, s) == Off(c).(status := if bigArm && telemetry != [] && Average(telemetry) >= c.startupMin then 255 else 0)
      && s.throttles == Zeros(c.escCount) && s.telemetry == telemetry && s.since == None
  {
    ZerosAreOff(c);
  }

  /** Without telemetry, or with a low pack, the thrusters are off for good. */
  lemma RefusedStartupIsOff(c: Config, bigArm: bool, telemetry: seq<Reading>, events: seq<Event>)
    requires ConfigOk(c) && (telemetry == [] || Average(telemetry) < c.startupMin)
    ensures Broadcast(c, Run(c, Startup(c, bigArm, telemetry), events)) == Off(c)
  {
    var s := Startup(c, bigArm, telemetry);
    assert events[..0] == [];
    KilledMeansOff(c, s, events, 0);
  }

  /** The last message of a shutdown is off, whatever came before. */
  lemma ShutdownIsOff(c: Config, s: State, now: real)
    requires ConfigOk(c)
    ensures Broadcast(c, CheckUndervoltage(c, Disarm(c, s), now)) == Off(c)
  {
    ZerosAreOff(c);
  }
}
