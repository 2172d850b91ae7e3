/** The voltages that the driver goes by: the latest report of every ESC, and nothing older. */
module ThrusterTelemetry {
  import opened Thrusters
  import opened ThrusterSafety

  function Nodes(telemetry: seq<Reading>): set<nat> {
    set r | r in telemetry :: r.node
  }

  /** One reading for each node. */
  predicate NoRepeats(telemetry: seq<Reading>) {
    forall i, j :: 0 <= i < j < |telemetry| ==> telemetry[i].node != telemetry[j].node
  }

  // ---- What the events alone say ----

  function Reporters(events: seq<Event>): set<nat> {
    set e | e in events && e.EscStatus? :: e.node
  }

  /** The voltage of the node's latest status report, or what was known of it before. */
  function LatestReport(events: seq<Event>, node: nat, before: Option<real>): Option<real>
    decreases |events|
  {
    if events == [] then before
    else
      var e := events[|events| - 1];
      if e.EscStatus? && e.node == node then Some(e.voltage) else LatestReport(events[..|events| - 1], node, before)
  }

  /** The nodes heard of by the end, and the latest voltage of each. */
  function Heard(before: seq<Reading>, events: seq<Event>): set<nat> {
    Nodes(before) + Reporters(events)
  }

  function LatestVoltage(before: seq<Reading>, events: seq<Event>, node: nat): Option<real> {
    LatestReport(events, node, VoltageOf(before, node))
  }

  // ---- One report ----

  lemma NodesOfFirst(telemetry: seq<Reading>)
    requires telemetry != []
    ensures Nodes(telemetry) == {telemetry[0].node} + Nodes(telemetry[1..])
  {
    assert telemetry == [telemetry[0]] + telemetry[1..];
  }

  lemma FirstIsNew(telemetry: seq<Reading>)
    requires telemetry != []
    ensures NoRepeats(telemetry) <==> telemetry[0].node !in Nodes(telemetry[1..]) && NoRepeats(telemetry[1..])
  {
    var rest := telemetry[1..];
    assert forall i :: 0 <= i < |rest| ==> rest[i] == telemetry[i + 1] && rest[i] in rest;
    if telemetry[0].node !in Nodes(rest) && NoRepeats(rest) {
      forall i, j | 0 <= i < j < |telemetry| ensures telemetry[i].node != telemetry[j].node {
        assert telemetry[j] == rest[j - 1] && rest[j - 1].node in Nodes(rest);
        if i > 0 {
          assert telemetry[i] == rest[i - 1];
        }
      }
    }
  }

  lemma {:induction false} RecordKeepsOneEach(telemetry: seq<Reading>, node: nat, voltage: real)
    requires NoRepeats(telemetry)
    ensures NoRepeats(Record(telemetry, node, voltage))
    ensures Nodes(Record(telemetry, node, voltage)) == Nodes(telemetry) + {node}
  {
    if telemetry != [] {
      var r, rest := Record(telemetry, node, voltage), telemetry[1..];
      NodesOfFirst(telemetry);
      FirstIsNew(telemetry);
      if telemetry[0].node == node {
        assert r[1..] == rest;
      } else {
        RecordKeepsOneEach(rest, node, voltage);
        assert r[1..] == Record(rest, node, voltage);
      }
      NodesOfFirst(r);
      FirstIsNew(r);
    }
  }

  // ---- Whole runs ----

  lemma ReportersExtend(events: seq<Event>)
    requires events != []
    ensures var e := events[|events| - 1];
      Reporters(events) == Reporters(events[..|events| - 1]) + if e.EscStatus? then {e.node} else {}
  {
    assert events == events[..|events| - 1] + [events[|events| - 1]];
  }

  lemma {:induction false} TelemetryFollows(c: Config, s: State, events: seq<Event>, node: nat)
    requires ConfigOk(c) && NoRepeats(s.telemetry)
    ensures var t := Run(c, s, events).telemetry;
      NoRepeats(t) && Nodes(t) == Heard(s.telemetry, events) && VoltageOf(t, node) == LatestVoltage(s.telemetry, events, node)
    decreases |events|
  {
    if events != [] {
      var init, e := events[..|events| - 1], events[|events| - 1];
      var t := Run(c, s, init).telemetry;
      TelemetryFollows(c, s, init, node);
      ReportersExtend(events);
      if e.EscStatus? {
        RecordKeepsOneEach(t, e.node, e.voltage);
        RecordIsUpdate(t, e.node, e.voltage, node);
      } else {
        OnlyReportsRecord(c, Run(c, s, init), e);
      }
    }
  }

  lemma {:induction false} VoltageAt(telemetry: seq<Reading>, i: nat)
    requires NoRepeats(telemetry) && i < |telemetry|
    ensures VoltageOf(telemetry, telemetry[i].node) == Some(telemetry[i].voltage)
  {
    if i > 0 {
      FirstIsNew(telemetry);
      assert telemetry[0].node != telemetry[i].node;
      VoltageAt(telemetry[1..], i - 1);
    }
  }

  lemma {:induction false} OneReadingEach(telemetry: seq<Reading>)
    requires NoRepeats(telemetry)
    ensures |telemetry| == |Nodes(telemetry)|
  {
    if telemetry != [] {
      NodesOfFirst(telemetry);
      FirstIsNew(telemetry);
      OneReadingEach(telemetry[1..]);
    }
  }

  /**
   In every run: the driver holds one reading for each node that it has heard of, and that is the node's latest
   report; earlier reports are forgotten.
   */
  lemma TelemetryIsLatest(c: Config, s: State, events: seq<Event>)
    requires ConfigOk(c) && NoRepeats(s.telemetry)
    ensures var t := Run(c, s, events).telemetry;
      && NoRepeats(t) && Nodes(t) == Heard(s.telemetry, events) && |t| == |Heard(s.telemetry, events)|
      && forall i :: 0 <= i < |t| ==> Some(t[i].voltage) == LatestVoltage(s.telemetry, events, t[i].node)
  {
    var t := Run(c, s, events).telemetry;
    TelemetryFollows(c, s, events, 0);
    OneReadingEach(t);
    forall i | 0 <= i < |t| ensures Some(t[i].voltage) == LatestVoltage(s.telemetry, events, t[i].node) {
      TelemetryFollows(c, s, events, t[i].node);
      VoltageAt(t, i);
    }
  }

  // ---- The average ----

  function Value(voltage: Option<real>): real {
    if voltage.Some? then voltage.value else 0.0
  }

  /** The latest voltages of some nodes, added up in any order. */
  ghost function SumOfLatest(nodes: set<nat>, before: seq<Reading>, events: seq<Event>): real
    decreases |nodes|
  {
    if nodes == {} then 0.0
    else var n :| n in nodes; Value(LatestVoltage(before, events, n)) + SumOfLatest(nodes - {n}, before, events)
  }

  lemma {:induction false} TakeOne(nodes: set<nat>, before: seq<Reading>, events: seq<Event>, n: nat)
    requires n in nodes
    ensures SumOfLatest(nodes, before, events)
      == Value(LatestVoltage(before, events, n)) + SumOfLatest(nodes - {n}, before, events)
    decreases |nodes|
  {
    var m :| m in nodes
      && SumOfLatest(nodes, before, events) == Value(LatestVoltage(before, events, m)) + SumOfLatest(nodes - {m}, before, events);
    if m != n {
      TakeOne(nodes - {m}, before, events, n);
      TakeOne(nodes - {n}, before, events, m);
      assert nodes - {m} - {n} == nodes - {n} - {m};
    }
  }

  predicate Holds(telemetry: seq<Reading>, before: seq<Reading>, events: seq<Event>) {
    forall i :: 0 <= i < |telemetry| ==> Some(telemetry[i].voltage) == LatestVoltage(before, events, telemetry[i].node)
  }

  lemma NodesOfLast(init: seq<Reading>, last: Reading)
    requires NoRepeats(init + [last])
    ensures Nodes(init + [last]) == Nodes(init) + {last.node} && last.node !in Nodes(init) && NoRepeats(init)
  {
    var t := init + [last];
    forall i | 0 <= i < |init| ensures init[i].node != last.node {
      assert t[i] == init[i] && t[|init|] == last;
    }
    assert forall i, j :: 0 <= i < j < |init| ==> t[i] == init[i] && t[j] == init[j];
  }

  lemma {:induction false} TotalIsSum(telemetry: seq<Reading>, before: seq<Reading>, events: seq<Event>)
    requires NoRepeats(telemetry) && Holds(telemetry, before, events)
    ensures Total(telemetry) == SumOfLatest(Nodes(telemetry), before, events)
    decreases |telemetry|
  {
    if telemetry != [] {
      var init, last := telemetry[..|telemetry| - 1], telemetry[|telemetry| - 1];
      assert telemetry == init + [last];
      NodesOfLast(init, last);
      TotalIsSum(init, before, events);
      TakeOne(Nodes(telemetry), before, events, last.node);
      assert Nodes(telemetry) - {last.node} == Nodes(init);
    }
  }

  /** The mean of the latest voltages over the nodes heard of, each counted once; 16 when there is none. */
  ghost function Mean(before: seq<Reading>, events: seq<Event>): real {
    var nodes := Heard(before, events);
    if nodes == {} then 16.0 else SumOfLatest(nodes, before, events) / |nodes| as real
  }

  /** What the driver calls the average voltage is that mean, for setpoints and for the cutoff alike. */
  lemma AverageIsMean(c: Config, s: State, events: seq<Event>)
    requires ConfigOk(c) && NoRepeats(s.telemetry)
    ensures Average(Run(c, s, events).telemetry) == Mean(s.telemetry, events)
    ensures Run(c, s, events).telemetry == [] <==> Heard(s.telemetry, events) == {}
  {
    TelemetryIsLatest(c, s, events);
    TotalIsSum(Run(c, s, events).telemetry, s.telemetry, events);
  }

  /** So a tick counts as low exactly if some node has reported and the mean of the latest reports is below the cutoff. */
  lemma LowExactly(c: Config, s: State, events: seq<Event>, k: nat)
    requires ConfigOk(c) && NoRepeats(s.telemetry) && k < |events|
    ensures Low(c, s, events, k)
      <==> Heard(s.telemetry, events[..k]) != {} && Mean(s.telemetry, events[..k]) < c.cutoff
  {
    AverageIsMean(c, s, events[..k]);
  }
}
