/** The CAN driver's callbacks and timers as they change its fields, each proved to take the step of the arming machine. */
module CanDriver {
  import opened RpmToGain
  import opened Thrusters

  class CANDriver {
    const config: Config
    var armed: bool
    var bigArm: bool
    var throttles: seq<real>
    var telemetry: seq<Reading>
    var undervoltageSince: Option<real>
    var dronecanToGlobal: seq<nat>
    var dronecanSigns: seq<real>
    /** Everything broadcast so far. */
    ghost var sent: seq<Frame>

    ghost predicate Valid()
      reads this
    {
      && ConfigOk(config)
      && dronecanToGlobal == ToGlobal(|MAPPING|, config.escCount)
      && dronecanSigns == Signs(|MAPPING|, config.escCount)
    }

    ghost function Abstract(): State
      reads this
    {
      State(armed, bigArm, throttles, telemetry, undervoltageSince)
    }

    /** Start-up, with the telemetry that discovery has gathered. */
    constructor (config: Config, bigArm: bool, telemetry: seq<Reading>)
      requires ConfigOk(config)
      ensures Valid() && this.config == config && sent == []
      ensures Abstract() == Startup(config, bigArm, telemetry)
    {
      this.config := config;
      throttles := Zeros(config.escCount);
      this.bigArm := bigArm;
      armed := false;
      this.telemetry := telemetry;
      undervoltageSince := None;
      sent := [];
      var toGlobal: seq<nat> := seq(config.escCount, i => 0);
      var signs: seq<real> := seq(config.escCount, i => 1.0);
      for k := 0 to |MAPPING|
        invariant toGlobal == ToGlobal(k, config.escCount) && signs == Signs(k, config.escCount)
      {
        MappingInRange(k);
        var info := MAPPING[k];
        toGlobal := toGlobal[info.dronecan := info.global];
        signs := signs[info.dronecan := if info.reverse then -1.0 else 1.0];
      }
      dronecanToGlobal := toGlobal;
      dronecanSigns := signs;
      new;
      var ok := StartupVoltageOk();
      if ok {
        Arm();
      } else {
        this.bigArm := false;
        DisarmEscs();
      }
    }

    method Arm()
      modifies `armed
      ensures armed
    {
      armed := true;
    }

    method DisarmEscs()
      requires Valid()
      modifies `armed, `throttles
      ensures Abstract() == Disarm(config, old(Abstract()))
    {
      armed := false;
      throttles := Zeros(config.escCount);
    }

    method AvgEscVoltage() returns (v: real)
      ensures v == Average(telemetry)
    {
      if telemetry == [] {
        return 16.0;
      }
      var total := 0.0;
      for i := 0 to |telemetry|
        invariant total == Total(telemetry[..i])
      {
        assert telemetry[..i + 1][..i] == telemetry[..i];
        total := total + telemetry[i].voltage;
      }
      assert telemetry[..|telemetry|] == telemetry;
      return total / |telemetry| as real;
    }

    method StartupVoltageOk() returns (ok: bool)
      ensures ok <==> telemetry != [] && Average(telemetry) >= config.startupMin
    {
      if telemetry == [] {
        return false;
      }
      var voltage := AvgEscVoltage();
      return voltage >= config.startupMin;
    }

    method OnEscStatus(node: nat, voltage: real)
      requires Valid()
      modifies `telemetry
      ensures Valid() && Abstract() == Step(config, old(Abstract()), EscStatus(node, voltage))
    {
      telemetry := Record(telemetry, node, voltage);
    }

    /** The first comprehension. */
    method Gains(thrust: seq<real>, voltage: real) returns (gains: seq<real>)
      requires Valid()
      ensures |gains| == |thrust|
      ensures forall k :: 0 <= k < |gains| ==> gains[k] == Gain(config.equations, config.roots, thrust[k], voltage)
    {
      gains := [];
      for i := 0 to |thrust|
        invariant |gains| == i
        invariant forall k :: 0 <= k < i ==> gains[k] == Gain(config.equations, config.roots, thrust[k], voltage)
      {
        gains := gains + [Gain(config.equations, config.roots, thrust[i], voltage)];
      }
    }

    /** The second one. */
    method RemapThrusts(thrust: seq<real>) returns (out: seq<real>)
      requires Valid() && |thrust| == config.escCount
      ensures out == Remap(config, thrust, Average(telemetry))
    {
      var voltage := AvgEscVoltage();
      var gains := Gains(thrust, voltage);
      out := [];
      for d := 0 to config.escCount
        invariant |out| == d
        invariant forall k :: 0 <= k < d ==> out[k] == Adjusted(config, thrust, voltage, k)
      {
        GlobalsInRange(|MAPPING|, config.escCount, d);
        var adjusted := gains[dronecanToGlobal[d]] * dronecanSigns[d];
        assert adjusted == Adjusted(config, thrust, voltage, d);
        out := out + [adjusted];
      }
    }

    method WatchdogCallback(report: string)
      requires Valid()
      modifies `armed, `bigArm, `throttles
      ensures Valid() && Abstract() == Step(config, old(Abstract()), Watchdog(report))
    {
      if report == "continue" {
        armed := true;
      } else if report == "kill" {
        bigArm := false;
        throttles := Zeros(config.escCount);
      }
    }

    method ThrusterCallback(wantsArmed: bool, thrust: seq<real>)
      requires Valid()
      modifies `armed, `throttles
      ensures Valid() && Abstract() == Step(config, old(Abstract()), Setpoint(wantsArmed, thrust))
    {
      if |thrust| != config.escCount {
        return;
      }
      if !wantsArmed || !bigArm {
        throttles := RemapThrusts(thrust);
        DisarmEscs();
        return;
      }
      armed := true;
      throttles := RemapThrusts(thrust);
    }

    method CheckForUndervoltage(now: real)
      requires Valid()
      modifies `armed, `bigArm, `throttles, `undervoltageSince
      ensures Valid() && Abstract() == CheckUndervoltage(config, old(Abstract()), now)
    {
      if !bigArm {
        return;
      }
      if telemetry == [] {
        return;
      }
      var voltage := AvgEscVoltage();
      if voltage >= config.cutoff {
        if undervoltageSince != None {
          undervoltageSince := None;
        }
        return;
      }
      if undervoltageSince == None {
        undervoltageSince := Some(now);
        return;
      }
      var held := now - undervoltageSince.value;
      if held >= config.hold {
        bigArm := false;
        DisarmEscs();
      }
    }

    method SendCommands(now: real)
      requires Valid()
      modifies `armed, `bigArm, `throttles, `undervoltageSince, `sent
      ensures Valid() && Abstract() == Step(config, old(Abstract()), Tick(now))
      ensures sent == old(sent) + [Broadcast(config, Abstract())]
    {
      CheckForUndervoltage(now);
      var live := armed && bigArm;
      var status := if live then 255 else 0;
      var values := if live then throttles else Zeros(config.escCount);
      var raw: seq<int> := [];
      for i := 0 to |values|
        invariant |raw| == i && forall k :: 0 <= k < i ==> raw[k] == Truncate(values[k])
      {
        raw := raw + [Truncate(values[i])];
      }
      assert raw == TruncateAll(values);
      sent := sent + [Frame(status, raw)];
    }

    method DestroyNode(now: real)
      requires Valid()
      modifies `armed, `bigArm, `throttles, `undervoltageSince, `sent
      ensures Valid() && Abstract() == CheckUndervoltage(config, Disarm(config, old(Abstract())), now)
      ensures sent == old(sent) + [Broadcast(config, Abstract())]
    {
      DisarmEscs();
      SendCommands(now);
    }
  }
}
