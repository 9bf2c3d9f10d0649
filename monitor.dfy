/**
 * `EthernetMonitor` (server.mjs): on every tick it reads the counter table, turns the
 * change of the configured interface's byte counters since the previous tick into a
 * throughput in megabits per second, and keeps the whole table as the next baseline.
 */
module Monitor {
  import opened Wrappers
  import opened NetDev

  /** A sampling interval in milliseconds; every rate is scaled by `1000 / intervalMs`. */
  type Interval = ms: real | ms > 0.0 witness 100.0

  /** The interval the constructor falls back to when none is given. */
  const DefaultIntervalMs: Interval := 100.0

  /** The handle `setInterval` returns. */
  type TimerId = nat

  /** The payload of a `stats` event: receive and transmit speed in Mbps. */
  datatype Speed = Speed(rxSpeed: real, txSpeed: real)

  /** `(diff * 8) / (1024 * 1024) * (1000 / intervalMs)`: a byte delta per interval as Mbps. */
  function Mbps(diff: int, intervalMs: Interval): (mbps: real) {
    (diff as real * 8.0) / (1024.0 * 1024.0) * (1000.0 / intervalMs)
  }

  /** The byte delta per interval a speed in Mbps stands for. */
  function BytesPerInterval(mbps: real, intervalMs: Interval): (bytes: real) {
    mbps * intervalMs * (1024.0 * 1024.0) / 8000.0
  }

  /** The speed determines the byte delta: no information is lost in the conversion. */
  lemma MbpsInverse(diff: int, intervalMs: Interval)
    ensures BytesPerInterval(Mbps(diff, intervalMs), intervalMs) == diff as real
  {
    var d := diff as real;
    assert (1000.0 / intervalMs) * intervalMs == 1000.0;
    calc {
      BytesPerInterval(Mbps(diff, intervalMs), intervalMs);
      (d * 8.0) / (1024.0 * 1024.0) * ((1000.0 / intervalMs) * intervalMs) * (1024.0 * 1024.0) / 8000.0;
      d;
    }
  }

  /** The speed has the sign of the delta: a falling counter gives a negative speed. */
  lemma MbpsSign(diff: int, intervalMs: Interval)
    ensures Mbps(diff, intervalMs) < 0.0 <==> diff < 0
    ensures Mbps(diff, intervalMs) == 0.0 <==> diff == 0
  {
    var scale := 1000.0 / intervalMs;
    assert scale > 0.0;
    assert Mbps(diff, intervalMs) == (diff as real) * (8.0 / (1024.0 * 1024.0) * scale);
  }

  /** Speeds over consecutive intervals add up to the speed of the summed delta. */
  lemma MbpsAdditive(a: int, b: int, intervalMs: Interval)
    ensures Mbps(a, intervalMs) + Mbps(b, intervalMs) == Mbps(a + b, intervalMs)
  {
    var k := 8.0 / (1024.0 * 1024.0) * (1000.0 / intervalMs);
    assert Mbps(a, intervalMs) == (a as real) * k;
    assert Mbps(b, intervalMs) == (b as real) * k;
    assert Mbps(a + b, intervalMs) == (a as real + b as real) * k;
  }

  /**
   * The event of one tick: a speed only when there is a baseline and both the baseline
   * and the fresh table list the interface; the delta is not clamped.
   */
  function Rate(previous: Option<Stats>, current: Stats, iface: string, intervalMs: Interval): (event: Option<Speed>) {
    if previous.Some? && iface in previous.value && iface in current then
      var before, after := previous.value[iface], current[iface];
      Some(Speed(Mbps(after.rxBytes - before.rxBytes, intervalMs), Mbps(after.txBytes - before.txBytes, intervalMs)))
    else None
  }

  /** What one tick leaves behind: the new baseline and the emitted event, if any. */
  datatype TickOutcome = TickOutcome(previousStats: Option<Stats>, event: Option<Speed>)

  /**
   * One run of `logNetworkSpeed` on the outcome of `readNetworkStats`: a failed read
   * changes nothing and emits nothing; a successful one may emit and always becomes
   * the baseline.
   */
  function Tick(previous: Option<Stats>, read: Result<Stats, string>, iface: string, intervalMs: Interval): (outcome: TickOutcome) {
    match read
    case Failure(_) => TickOutcome(previous, None)
    case Success(current) => TickOutcome(Some(current), Rate(previous, current, iface, intervalMs))
  }

  /** A speed is emitted exactly when both snapshots list the interface. */
  lemma RateEmitsIff(previous: Option<Stats>, current: Stats, iface: string, intervalMs: Interval)
    ensures Rate(previous, current, iface, intervalMs).Some? <==>
      previous.Some? && iface in previous.value && iface in current
    ensures previous.None? ==> Rate(previous, current, iface, intervalMs).None?
  {
  }

  /** An emitted speed encodes exactly the counter deltas of the interface. */
  lemma RateMeasuresDelta(previous: Option<Stats>, current: Stats, iface: string, intervalMs: Interval)
    requires Rate(previous, current, iface, intervalMs).Some?
    ensures var s := Rate(previous, current, iface, intervalMs).value;
      && BytesPerInterval(s.rxSpeed, intervalMs) == (current[iface].rxBytes - previous.value[iface].rxBytes) as real
      && BytesPerInterval(s.txSpeed, intervalMs) == (current[iface].txBytes - previous.value[iface].txBytes) as real
  {
    var before, after := previous.value[iface], current[iface];
    MbpsInverse(after.rxBytes - before.rxBytes, intervalMs);
    MbpsInverse(after.txBytes - before.txBytes, intervalMs);
  }

  /** No clamping: a speed is negative exactly when its counter went down. */
  lemma RateNotClamped(previous: Option<Stats>, current: Stats, iface: string, intervalMs: Interval)
    requires Rate(previous, current, iface, intervalMs).Some?
    ensures var s := Rate(previous, current, iface, intervalMs).value;
      && (s.rxSpeed < 0.0 <==> current[iface].rxBytes < previous.value[iface].rxBytes)
      && (s.txSpeed < 0.0 <==> current[iface].txBytes < previous.value[iface].txBytes)
  {
    var before, after := previous.value[iface], current[iface];
    MbpsSign(after.rxBytes - before.rxBytes, intervalMs);
    MbpsSign(after.txBytes - before.txBytes, intervalMs);
  }

  /** A failed read keeps the baseline and emits nothing; a successful one becomes the baseline. */
  lemma TickBaseline(previous: Option<Stats>, read: Result<Stats, string>, iface: string, intervalMs: Interval)
    ensures read.Failure? ==> Tick(previous, read, iface, intervalMs) == TickOutcome(previous, None)
    ensures read.Success? ==> Tick(previous, read, iface, intervalMs).previousStats == Some(read.value)
    ensures previous.None? ==> Tick(previous, read, iface, intervalMs).event.None?
  {
  }

  /** The example of 1 KiB received and 512 bytes sent in one second. */
  lemma TickExample()
    ensures Tick(Some(map["eth0" := Counters(1000, 2000)]), Success(map["eth0" := Counters(2024, 2512)]), "eth0", 1000.0).event
      == Some(Speed(0.0078125, 0.00390625))
  {
  }

  /** The ticks of a run, in order: the last baseline and the events emitted. */
  function RunTicks(previous: Option<Stats>, outcomes: seq<Result<Stats, string>>, iface: string, intervalMs: Interval)
    : (Option<Stats>, seq<Speed>)
    decreases |outcomes|
  {
    if |outcomes| == 0 then (previous, [])
    else
      var first := Tick(previous, outcomes[0], iface, intervalMs);
      var (last, events) := RunTicks(first.previousStats, outcomes[1..], iface, intervalMs);
      (last, (if first.event.Some? then [first.event.value] else []) + events)
  }

  function SuccessCount(outcomes: seq<Result<Stats, string>>): nat {
    if |outcomes| == 0 then 0 else (if outcomes[0].Success? then 1 else 0) + SuccessCount(outcomes[1..])
  }

  function TotalRx(events: seq<Speed>): real {
    if |events| == 0 then 0.0 else events[0].rxSpeed + TotalRx(events[1..])
  }

  function TotalTx(events: seq<Speed>): real {
    if |events| == 0 then 0.0 else events[0].txSpeed + TotalTx(events[1..])
  }

  /**
   * Once a baseline lists the interface, and every table read lists it too, every
   * successful read emits, failed reads are skipped without losing the baseline, and
   * the speeds add up to the speed of the whole change from the first baseline to the
   * last: no delta is lost or counted twice.
   */
  lemma {:induction false} RunTicksTelescope(previous: Option<Stats>, outcomes: seq<Result<Stats, string>>, iface: string, intervalMs: Interval)
    requires previous.Some? && iface in previous.value
    requires forall i :: 0 <= i < |outcomes| && outcomes[i].Success? ==> iface in outcomes[i].value
    decreases |outcomes|
    ensures var (last, events) := RunTicks(previous, outcomes, iface, intervalMs);
      && last.Some? && iface in last.value
      && |events| == SuccessCount(outcomes)
      && TotalRx(events) == Mbps(last.value[iface].rxBytes - previous.value[iface].rxBytes, intervalMs)
      && TotalTx(events) == Mbps(last.value[iface].txBytes - previous.value[iface].txBytes, intervalMs)
  {
    if |outcomes| == 0 {
      MbpsSign(0, intervalMs);
    } else {
      var first := Tick(previous, outcomes[0], iface, intervalMs);
      var next := first.previousStats;
      assert next.Some? && iface in next.value;
      RunTicksTelescope(next, outcomes[1..], iface, intervalMs);
      var (last, events) := RunTicks(next, outcomes[1..], iface, intervalMs);
      var p, n, l := previous.value[iface], next.value[iface], last.value[iface];
      if outcomes[0].Success? {
        var e := first.event.value;
        assert ([e] + events)[1..] == events;
        MbpsAdditive(n.rxBytes - p.rxBytes, l.rxBytes - n.rxBytes, intervalMs);
        MbpsAdditive(n.txBytes - p.txBytes, l.txBytes - n.txBytes, intervalMs);
      } else {
        assert [] + events == events;
      }
    }
  }

  /** Without a baseline the first successful read only sets one. */
  lemma RunTicksFirstSilent(outcomes: seq<Result<Stats, string>>, iface: string, intervalMs: Interval)
    requires |outcomes| > 0 && outcomes[0].Success?
    ensures RunTicks(None, outcomes, iface, intervalMs) == RunTicks(Some(outcomes[0].value), outcomes[1..], iface, intervalMs)
  {
    assert [] + RunTicks(Some(outcomes[0].value), outcomes[1..], iface, intervalMs).1
      == RunTicks(Some(outcomes[0].value), outcomes[1..], iface, intervalMs).1;
  }

  /** A monitor of one interface: its baseline and its timer. */
  class EthernetMonitor {
    const interfaceName: string
    const intervalMs: Interval
    /** The table of the last successful read; `None` before the first one. */
    var previousStats: Option<Stats>
    /** The running timer; `None` while stopped. */
    var intervalId: Option<TimerId>

    constructor(interfaceName: string, intervalMs: Interval := DefaultIntervalMs)
      ensures this.interfaceName == interfaceName && this.intervalMs == intervalMs
      ensures previousStats == None && intervalId == None
    {
      this.interfaceName := interfaceName;
      this.intervalMs := intervalMs;
      previousStats := None;
      intervalId := None;
    }

    /**
     * `logNetworkSpeed`: reads the table, emits a speed when both the baseline and the
     * fresh table list the interface, and keeps the fresh table as the next baseline;
     * a failed read is only logged.
     */
    method LogNetworkSpeed(file: FileRead) returns (event: Option<Speed>)
      requires file.FileData? ==> WellFormedTable(file.data)
      modifies this`previousStats
      ensures TickOutcome(previousStats, event)
        == Tick(old(previousStats), ReadOutcome(file), interfaceName, intervalMs)
    {
      var read := ReadNetworkStats(file);
      event := HandleStats(read);
    }

    /** The part of `logNetworkSpeed` after the read has settled: the `try` body and its `catch`. */
    method HandleStats(read: Result<Stats, string>) returns (event: Option<Speed>)
      modifies this`previousStats
      ensures TickOutcome(previousStats, event)
        == Tick(old(previousStats), read, interfaceName, intervalMs)
    {
      event := None;
      match read
      case Failure(_) =>
      case Success(currentStats) =>
        var iface := interfaceName;
        if previousStats.Some? && iface in previousStats.value && iface in currentStats {
          var rxDiff := currentStats[iface].rxBytes - previousStats.value[iface].rxBytes;
          var txDiff := currentStats[iface].txBytes - previousStats.value[iface].txBytes;
          event := Some(Speed(Mbps(rxDiff, intervalMs), Mbps(txDiff, intervalMs)));
        }
        previousStats := Some(currentStats);
    }

    /** `start`: installs the timer `timer` unless one is already running. */
    method Start(timer: TimerId)
      modifies this`intervalId
      ensures intervalId == if old(intervalId).Some? then old(intervalId) else Some(timer)
    {
      if intervalId.None? {
        intervalId := Some(timer);
      }
    }

    /** `stop`: clears the timer if one is running; the baseline is kept. */
    method Stop()
      modifies this`intervalId
      ensures intervalId == None
    {
      if intervalId.Some? {
        intervalId := None;
      }
    }
  }

  /** A monitor's life: no speed before a baseline, the example speed after it, and idempotent start and stop. */
  method MonitorScenario(err: string) {
    var m := new EthernetMonitor("eth0", 1000.0);
    m.Start(7);
    m.Start(8);
    assert m.intervalId == Some(7);
    var e := m.LogNetworkSpeed(FileError(err));
    assert e == None && m.previousStats == None;
    var first: Stats := map["eth0" := Counters(1000, 2000), "lo" := Counters(5, 5)];
    e := m.HandleStats(Success(first));
    assert e == None && m.previousStats == Some(first);
    e := m.LogNetworkSpeed(FileError(err));
    assert e == None && m.previousStats == Some(first);
    var second: Stats := map["eth0" := Counters(2024, 2512)];
    e := m.HandleStats(Success(second));
    assert e == Some(Speed(0.0078125, 0.00390625));
    assert m.previousStats == Some(second);
    m.Stop();
    m.Stop();
    assert m.intervalId == None && m.previousStats == Some(second);
  }
}
