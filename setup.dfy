/**
 Opening the capture source and installing the filter (c_src/epcap.c
 lines 173-243). Every libpcap call is foreign: what each one returns is
 fixed by a `Driver` record, and the model records the calls made, in
 order, as a trace of `Call`s. A failing call wrapped in `PCAP_ERRBUF` (a
 NULL result) or `IS_LTZERO` (a negative result) ends the process.
 */
module Setup {
  import opened Wrappers

  /** The capture options of `EPCAP_STATE` that these functions read. */
  datatype Config = Config(
    file: Option<string>,     // -f: read from a saved capture
    dev: Option<string>,      // -i: the interface to open
    snaplen: int,
    promisc: int,
    timeout: int,
    bufferSize: int,          // -b
    bufferUnset: int,         // the value of DO_NOT_SET_BUFFER_SIZE, from a header not part of this model
    rfmon: int,
    filterIn: bool,           // -I
    noLookupnet: bool,        // -N
    filt: string)

  /** What each libpcap call returns. */
  datatype Driver = Driver(
    openOffline: bool,        // pcap_open_offline returns a handle
    lookupDev: Option<string>,
    create: bool,             // pcap_create returns a handle
    setSnaplen: int,
    setPromisc: int,
    setTimeout: int,
    setBufferSize: int,
    activate: int,
    canSetRfmon: int,
    lookupNet: int,
    netMask: int,             // the mask pcap_lookupnet stores when it succeeds
    compile: int,
    setFilter: int)

  datatype Call =
    | OpenOffline(file: string)
    | LookupDev
    | Create(dev: string)
    | SetSnaplen(snaplen: int)
    | SetPromisc(promisc: int)
    | SetTimeout(timeout: int)
    | SetBufferSize(size: int)
    | Activate
    | CanSetRfmon
    | SetRfmon(rfmon: int)
    | SetDirectionIn
    | LookupNet(device: Option<string>)
    | Compile(filter: string, mask: int)
    | SetFilter

  /** The calls `epcap_open_live` makes. */
  predicate IsSetupCall(c: Call)
  {
    c.Create? || c.SetSnaplen? || c.SetPromisc? || c.SetTimeout? || c.SetBufferSize? || c.Activate?
  }

  /** The calls that configure a live capture. */
  predicate IsLiveCall(c: Call)
  {
    IsSetupCall(c) || c.LookupDev? || c.CanSetRfmon? || c.SetRfmon?
  }

  /** The calls made so far, and whether the process has ended. */
  datatype Run = Run(calls: seq<Call>, fatal: bool)

  /** `r`, followed by `next` unless `r` ended the process. */
  function Then(r: Run, next: Run): Run
  {
    if r.fatal then r else Run(r.calls + next.calls, next.fatal)
  }

  /** A libpcap call, and whether its result ends the process. */
  datatype Attempt = Attempt(call: Call, fails: bool)

  /** Calls made in order, until the first one whose result ends the process. */
  function Attempts(steps: seq<Attempt>): Run
  {
    if steps == [] then Run([], false)
    else if steps[0].fails then Run([steps[0].call], true)
    else
      var rest := Attempts(steps[1..]);
      Run([steps[0].call] + rest.calls, rest.fatal)
  }

  /** A run of attempts ends the process exactly when one of them fails. */
  lemma {:induction false} AttemptsFatal(steps: seq<Attempt>)
    ensures Attempts(steps).fatal <==> exists i :: 0 <= i < |steps| && steps[i].fails
  {
    if steps != [] && !steps[0].fails {
      var tail := steps[1..];
      AttemptsFatal(tail);
      if Attempts(tail).fatal {
        var i :| 0 <= i < |tail| && tail[i].fails;
        assert steps[i + 1].fails;
      }
      if exists i :: 0 <= i < |steps| && steps[i].fails {
        var i :| 0 <= i < |steps| && steps[i].fails;
        assert tail[i - 1].fails;
      }
    }
  }

  /** Every call made follows only successful calls. */
  lemma {:induction false} AttemptsOnlyReached(steps: seq<Attempt>)
    ensures forall c :: c in Attempts(steps).calls ==>
      exists i :: 0 <= i < |steps| && steps[i].call == c && forall j :: 0 <= j < i ==> !steps[j].fails
  {
    if steps != [] && !steps[0].fails {
      var tail := steps[1..];
      AttemptsOnlyReached(tail);
      forall c | c in Attempts(steps).calls
        ensures exists i :: 0 <= i < |steps| && steps[i].call == c && forall j :: 0 <= j < i ==> !steps[j].fails
      {
        if c == steps[0].call {
          assert steps[0].call == c;
        } else {
          assert c in Attempts(tail).calls;
          var i :| 0 <= i < |tail| && tail[i].call == c && forall j :: 0 <= j < i ==> !tail[j].fails;
          forall j | 0 < j < i + 1 ensures !steps[j].fails {
            assert steps[j] == tail[j - 1];
          }
          assert steps[i + 1].call == c;
        }
      }
    } else if steps != [] {
      assert forall c :: c in Attempts(steps).calls ==> c == steps[0].call;
    }
  }

  /** Every call whose predecessors all succeed is made. */
  lemma {:induction false} AttemptsAllReached(steps: seq<Attempt>)
    ensures forall i :: 0 <= i < |steps| && (forall j :: 0 <= j < i ==> !steps[j].fails) ==>
      steps[i].call in Attempts(steps).calls
  {
    if steps != [] && !steps[0].fails {
      var tail := steps[1..];
      AttemptsAllReached(tail);
      forall i | 0 < i < |steps| && (forall j :: 0 <= j < i ==> !steps[j].fails)
        ensures steps[i].call in Attempts(steps).calls
      {
        forall j | 0 <= j < i - 1 ensures !tail[j].fails {
          assert tail[j] == steps[j + 1];
        }
        assert tail[i - 1].call in Attempts(tail).calls;
      }
    }
  }

  /**
   The trace is the calls in the order given, up to and including the first
   that fails: nothing after a failure is called, and the run is fatal exactly
   when its last call failed.
   */
  lemma {:induction false} AttemptsInOrder(steps: seq<Attempt>)
    ensures var r := Attempts(steps);
      && |r.calls| <= |steps|
      && (forall i :: 0 <= i < |r.calls| ==> r.calls[i] == steps[i].call)
      && (forall j :: 0 <= j < |r.calls| - 1 ==> !steps[j].fails)
      && (r.fatal <==> |r.calls| > 0 && steps[|r.calls| - 1].fails)
  {
    if steps != [] && !steps[0].fails {
      AttemptsInOrder(steps[1..]);
    }
  }

  /** What `epcap_open_live` (lines 198-210) attempts: pcap_create, the settings, pcap_activate. */
  function LiveSteps(cfg: Config, drv: Driver, dev: string): seq<Attempt>
  {
    [Attempt(Create(dev), !drv.create),
     Attempt(SetSnaplen(cfg.snaplen), drv.setSnaplen < 0),
     Attempt(SetPromisc(cfg.promisc), drv.setPromisc < 0),
     Attempt(SetTimeout(cfg.timeout), drv.setTimeout < 0)]
    + (if cfg.bufferSize != cfg.bufferUnset then [Attempt(SetBufferSize(cfg.bufferSize), drv.setBufferSize < 0)] else [])
    + [Attempt(Activate, drv.activate < 0)]
  }

  function LiveRun(cfg: Config, drv: Driver, dev: string): Run
  {
    Attempts(LiveSteps(cfg, drv, dev))
  }

  lemma LiveStepsElems(cfg: Config, drv: Driver, dev: string)
    ensures var steps := LiveSteps(cfg, drv, dev);
      var sized := cfg.bufferSize != cfg.bufferUnset;
      && |steps| == (if sized then 6 else 5)
      && steps[0] == Attempt(Create(dev), !drv.create)
      && steps[1] == Attempt(SetSnaplen(cfg.snaplen), drv.setSnaplen < 0)
      && steps[2] == Attempt(SetPromisc(cfg.promisc), drv.setPromisc < 0)
      && steps[3] == Attempt(SetTimeout(cfg.timeout), drv.setTimeout < 0)
      && (sized ==> steps[4] == Attempt(SetBufferSize(cfg.bufferSize), drv.setBufferSize < 0))
      && steps[|steps| - 1] == Attempt(Activate, drv.activate < 0)
  {
  }

  /** `epcap_open_live` makes only setup calls. */
  lemma LiveRunSetupCalls(cfg: Config, drv: Driver, dev: string)
    ensures forall c :: c in LiveRun(cfg, drv, dev).calls ==> IsSetupCall(c)
  {
    var steps := LiveSteps(cfg, drv, dev);
    LiveStepsElems(cfg, drv, dev);
    AttemptsOnlyReached(steps);
    assert forall i :: 0 <= i < |steps| ==> IsSetupCall(steps[i].call);
  }

  /** `epcap_open_live` ends the process exactly when the capture does not activate. */
  lemma LiveRunFatal(cfg: Config, drv: Driver, dev: string)
    requires cfg.file.None? && LiveDev(cfg, drv) == Some(dev)
    ensures LiveRun(cfg, drv, dev).fatal <==> !Activated(cfg, drv)
  {
    var steps := LiveSteps(cfg, drv, dev);
    LiveStepsElems(cfg, drv, dev);
    AttemptsFatal(steps);
    if !Activated(cfg, drv) {
      var k := if !drv.create then 0 else if drv.setSnaplen < 0 then 1 else if drv.setPromisc < 0 then 2
        else if drv.setTimeout < 0 then 3 else if cfg.bufferSize != cfg.bufferUnset && drv.setBufferSize < 0 then 4
        else |steps| - 1;
      assert steps[k].fails;
    }
  }

  /** `epcap_open_live` calls pcap_set_buffer_size exactly when a size was requested and the earlier settings succeeded. */
  lemma LiveRunBufferSize(cfg: Config, drv: Driver, dev: string)
    requires cfg.file.None? && LiveDev(cfg, drv) == Some(dev)
    ensures SetBufferSize(cfg.bufferSize) in LiveRun(cfg, drv, dev).calls <==>
      LiveReady(cfg, drv) && cfg.bufferSize != cfg.bufferUnset
  {
    var steps := LiveSteps(cfg, drv, dev);
    LiveStepsElems(cfg, drv, dev);
    var c := SetBufferSize(cfg.bufferSize);
    if c in LiveRun(cfg, drv, dev).calls {
      AttemptsOnlyReached(steps);
      var i :| 0 <= i < |steps| && steps[i].call == c && forall j :: 0 <= j < i ==> !steps[j].fails;
      assert i == 4;
      assert !steps[0].fails && !steps[1].fails && !steps[2].fails && !steps[3].fails;
    }
    if LiveReady(cfg, drv) && cfg.bufferSize != cfg.bufferUnset {
      AttemptsAllReached(steps);
      assert forall j :: 0 <= j < 4 ==> !steps[j].fails;
      assert steps[4].call == c;
    }
  }

  /** The calls made so far and those still due from step `k` on add up to the whole run. */
  predicate Pending(start: seq<Call>, calls: seq<Call>, steps: seq<Attempt>, k: nat)
  {
    k <= |steps|
    && start + Attempts(steps).calls == calls + Attempts(steps[k..]).calls
    && Attempts(steps).fatal == Attempts(steps[k..]).fatal
  }

  /** Making the `k`-th call either ends the run there or leaves the rest due. */
  lemma Continue(start: seq<Call>, calls: seq<Call>, steps: seq<Attempt>, k: nat)
    requires k == 0 ==> start == calls
    requires k > 0 ==> Pending(start, calls, steps, k)
    requires k < |steps|
    ensures steps[k].fails ==> start + Attempts(steps).calls == calls + [steps[k].call] && Attempts(steps).fatal
    ensures !steps[k].fails ==> Pending(start, calls + [steps[k].call], steps, k + 1)
  {
    if k == 0 {
      assert steps[0..] == steps;
    }
    var rest := steps[k..];
    assert rest[0] == steps[k] && rest[1..] == steps[k + 1..];
  }

  /** The device a live capture opens: the configured one, else the one pcap_lookupdev names. */
  function LiveDev(cfg: Config, drv: Driver): Option<string>
  {
    if cfg.dev.Some? then cfg.dev else drv.lookupDev
  }

  /** The monitor-mode step after activation (lines 186-187). */
  function RfmonRun(cfg: Config, drv: Driver): Run
  {
    if drv.canSetRfmon == 1 then Run([CanSetRfmon, SetRfmon(cfg.rfmon)], false) else Run([CanSetRfmon], false)
  }

  /** The live branch of `epcap_open` (lines 180-188): device lookup, `epcap_open_live`, monitor mode. */
  function DeviceRun(cfg: Config, drv: Driver): Run
  {
    var lookup := if cfg.dev.Some? then Run([], false) else Run([LookupDev], drv.lookupDev.None?);
    var dev := LiveDev(cfg, drv);
    Then(Then(lookup, if dev.Some? then LiveRun(cfg, drv, dev.value) else Run([], true)), RfmonRun(cfg, drv))
  }

  /** The live branch once a device is known: the lookup, then `epcap_open_live`, then monitor mode if it activated. */
  lemma DeviceRunOf(cfg: Config, drv: Driver)
    requires LiveDev(cfg, drv).Some?
    ensures var pre := if cfg.dev.Some? then [] else [LookupDev];
      var live := LiveRun(cfg, drv, LiveDev(cfg, drv).value);
      DeviceRun(cfg, drv) ==
        if live.fatal then Run(pre + live.calls, true) else Run(pre + live.calls + RfmonRun(cfg, drv).calls, false)
  {
  }

  /** `epcap_open` (lines 173-193). */
  function OpenRun(cfg: Config, drv: Driver): Run
  {
    var source :=
      if cfg.file.Some? then Run([OpenOffline(cfg.file.value)], !drv.openOffline)
      else DeviceRun(cfg, drv);
    if cfg.filterIn then Then(source, Run([SetDirectionIn], false)) else source
  }

  /** A live capture got as far as the buffer-size call. */
  predicate LiveReady(cfg: Config, drv: Driver)
  {
    cfg.file.None? && LiveDev(cfg, drv).Some? && drv.create
    && drv.setSnaplen >= 0 && drv.setPromisc >= 0 && drv.setTimeout >= 0
  }

  /** A live capture was activated. */
  predicate Activated(cfg: Config, drv: Driver)
  {
    LiveReady(cfg, drv) && (cfg.bufferSize == cfg.bufferUnset || drv.setBufferSize >= 0) && drv.activate >= 0
  }

  /** A saved capture is opened without any device lookup or live configuration. */
  lemma OpenFileSkipsLive(cfg: Config, drv: Driver)
    requires cfg.file.Some?
    ensures var r := OpenRun(cfg, drv);
      && r.calls[0] == OpenOffline(cfg.file.value)
      && (forall c :: c in r.calls ==> !IsLiveCall(c))
      && (r.fatal <==> !drv.openOffline)
  {
  }

  /** The process survives `epcap_open` exactly when its source opens (and, live, activates). */
  lemma OpenOutcome(cfg: Config, drv: Driver)
    ensures OpenRun(cfg, drv).fatal <==>
      if cfg.file.Some? then !drv.openOffline else !Activated(cfg, drv)
  {
    if cfg.file.None? && LiveDev(cfg, drv).Some? {
      LiveRunFatal(cfg, drv, LiveDev(cfg, drv).value);
    }
  }

  /** pcap_set_buffer_size is called only when a size was requested, and then whenever the capture gets that far. */
  lemma OpenBufferSize(cfg: Config, drv: Driver)
    ensures SetBufferSize(cfg.bufferSize) in OpenRun(cfg, drv).calls <==>
      LiveReady(cfg, drv) && cfg.bufferSize != cfg.bufferUnset
  {
    if cfg.file.None? && LiveDev(cfg, drv).Some? {
      LiveRunBufferSize(cfg, drv, LiveDev(cfg, drv).value);
    }
  }

  /** Monitor mode is asked for only on an activated live capture, and set only when the driver says it can be. */
  lemma OpenRfmon(cfg: Config, drv: Driver)
    ensures var r := OpenRun(cfg, drv);
      && (CanSetRfmon in r.calls <==> Activated(cfg, drv))
      && (SetRfmon(cfg.rfmon) in r.calls <==> Activated(cfg, drv) && drv.canSetRfmon == 1)
  {
    if cfg.file.None? {
      DeviceRunRfmon(cfg, drv);
    }
  }

  /** The live branch reaches the monitor-mode calls only once the capture is activated. */
  lemma DeviceRunRfmon(cfg: Config, drv: Driver)
    requires cfg.file.None?
    ensures var r := DeviceRun(cfg, drv);
      && (CanSetRfmon in r.calls <==> Activated(cfg, drv))
      && (SetRfmon(cfg.rfmon) in r.calls <==> Activated(cfg, drv) && drv.canSetRfmon == 1)
      && (r.fatal <==> !Activated(cfg, drv))
  {
    var lookup := if cfg.dev.Some? then Run([], false) else Run([LookupDev], drv.lookupDev.None?);
    var dev := LiveDev(cfg, drv);
    if dev.Some? {
      LiveRunSetupCalls(cfg, drv, dev.value);
      LiveRunFatal(cfg, drv, dev.value);
      var live := LiveRun(cfg, drv, dev.value);
      assert CanSetRfmon !in lookup.calls + live.calls && SetRfmon(cfg.rfmon) !in lookup.calls + live.calls by {
        assert !IsSetupCall(CanSetRfmon) && !IsSetupCall(SetRfmon(cfg.rfmon));
      }
    }
  }

  /** Capture is restricted to inbound packets exactly when -I was given, as the last call of a successful open. */
  lemma OpenDirection(cfg: Config, drv: Driver)
    ensures var r := OpenRun(cfg, drv);
      && (SetDirectionIn in r.calls <==> cfg.filterIn && !r.fatal)
      && (SetDirectionIn in r.calls ==> r.calls[|r.calls| - 1] == SetDirectionIn)
  {
    if cfg.file.None? {
      DeviceRunRfmon(cfg, drv);
      if LiveDev(cfg, drv).Some? {
        LiveRunSetupCalls(cfg, drv, LiveDev(cfg, drv).value);
      }
    }
  }

  /**
   The calls `epcap_init` makes (lines 214-243) on the device `dev`, and
   what it returns: a failed lookup stops before compiling; a skipped lookup
   compiles with mask 0; a failed compile never reaches pcap_setfilter; and
   the result is 0 exactly when compile and setfilter both succeed.
   */
  function InitRun(cfg: Config, drv: Driver, dev: Option<string>): (r: (seq<Call>, int))
    ensures var (calls, result) := r;
      && (result == 0 || result == -1)
      && (!cfg.noLookupnet ==> |calls| > 0 && calls[0] == LookupNet(dev))
      && (forall c :: c in calls && c.LookupNet? ==> !cfg.noLookupnet && c == calls[0])
      && (forall c :: c in calls ==> c.LookupNet? || c.Compile? || c == SetFilter)
      && (SetFilter in calls ==> calls[|calls| - 1] == SetFilter)
      && (!cfg.noLookupnet && drv.lookupNet == -1 ==> calls == [LookupNet(dev)] && result == -1)
      && (cfg.noLookupnet ==> |calls| > 0 && calls[0] == Compile(cfg.filt, 0))
      && (forall k :: Compile(cfg.filt, k) in calls ==> k == if cfg.noLookupnet then 0 else drv.netMask)
      && (drv.compile != 0 ==> SetFilter !in calls && result == -1)
      && ((cfg.noLookupnet || drv.lookupNet != -1) ==>
            Compile(cfg.filt, if cfg.noLookupnet then 0 else drv.netMask) in calls)
      && ((cfg.noLookupnet || drv.lookupNet != -1) && drv.compile == 0 ==> SetFilter in calls)
      && (result == 0 <==> (cfg.noLookupnet || drv.lookupNet != -1) && drv.compile == 0 && drv.setFilter == 0)
  {
    var lookup := if cfg.noLookupnet then [] else [LookupNet(dev)];
    if !cfg.noLookupnet && drv.lookupNet == -1 then (lookup, -1)
    else
      var mask := if cfg.noLookupnet then 0 else drv.netMask;
      var compiled := lookup + [Compile(cfg.filt, mask)];
      if drv.compile != 0 then (compiled, -1)
      else if drv.setFilter != 0 then (compiled + [SetFilter], -1)
      else (compiled + [SetFilter], 0)
  }

  /** The capture state `epcap_open` and `epcap_init` update: `ep->dev`, `ep->p` and the process. */
  class Capture {
    const cfg: Config
    const drv: Driver
    /** `ep->dev`. */
    var dev: Option<string>
    /** Whether `ep->p` holds a handle. */
    var handle: bool
    /** The libpcap calls made so far. */
    var calls: seq<Call>
    /** Whether the process has ended. */
    var exited: bool

    constructor (cfg: Config, drv: Driver)
      ensures this.cfg == cfg && this.drv == drv
      ensures dev == cfg.dev && !handle && calls == [] && !exited
    {
      this.cfg := cfg;
      this.drv := drv;
      dev := cfg.dev;
      handle := false;
      calls := [];
      exited := false;
    }

    /** `epcap_open_live` on `ep->dev`. */
    method OpenLive()
      requires !exited && dev.Some?
      modifies this`calls, this`handle, this`exited
      ensures var r := LiveRun(cfg, drv, dev.value);
        calls == old(calls) + r.calls && exited == r.fatal && handle == drv.create
    {
      ghost var start := calls;
      ghost var steps := LiveSteps(cfg, drv, dev.value);
      LiveStepsElems(cfg, drv, dev.value);
      assert steps[0..] == steps;
      ghost var k := 0;
      Continue(start, calls, steps, k);
      calls := calls + [Create(dev.value)];
      handle := drv.create;
      if !handle {
        exited := true;
        return;
      }
      k := k + 1;
      Continue(start, calls, steps, k);
      calls := calls + [SetSnaplen(cfg.snaplen)];
      if drv.setSnaplen < 0 {
        exited := true;
        return;
      }
      k := k + 1;
      Continue(start, calls, steps, k);
      calls := calls + [SetPromisc(cfg.promisc)];
      if drv.setPromisc < 0 {
        exited := true;
        return;
      }
      k := k + 1;
      Continue(start, calls, steps, k);
      calls := calls + [SetTimeout(cfg.timeout)];
      if drv.setTimeout < 0 {
        exited := true;
        return;
      }
      k := k + 1;
      if cfg.bufferSize != cfg.bufferUnset {
        Continue(start, calls, steps, k);
        calls := calls + [SetBufferSize(cfg.bufferSize)];
        if drv.setBufferSize < 0 {
          exited := true;
          return;
        }
        k := k + 1;
      }
      Continue(start, calls, steps, k);
      calls := calls + [Activate];
      assert steps[k + 1..] == [];
      if drv.activate < 0 {
        exited := true;
        return;
      }
    }

    /** The live branch of `epcap_open`. */
    method OpenDevice()
      requires !exited && cfg.file.None? && dev == cfg.dev
      modifies this`calls, this`handle, this`exited, this`dev
      ensures dev == LiveDev(cfg, drv)
      ensures var pre := if cfg.dev.Some? then [] else [LookupDev];
        if dev.None? then calls == old(calls) + pre && exited
        else
          var live := LiveRun(cfg, drv, dev.value);
          && exited == live.fatal
          && calls == old(calls) + pre + live.calls + (if live.fatal then [] else RfmonRun(cfg, drv).calls)
      ensures !exited ==> handle
    {
      if dev.None? {
        calls := calls + [LookupDev];
        dev := drv.lookupDev;
        if dev.None? {
          exited := true;
          return;
        }
      }
      OpenLive();
      if exited {
        return;
      }
      MonitorMode();
    }

    /** Monitor mode (lines 186-187): set only when pcap_can_set_rfmon returns 1; the result of pcap_set_rfmon is ignored. */
    method MonitorMode()
      modifies this`calls
      ensures calls == old(calls) + RfmonRun(cfg, drv).calls
    {
      calls := calls + [CanSetRfmon];
      if drv.canSetRfmon == 1 {
        calls := calls + [SetRfmon(cfg.rfmon)];
      }
    }

    /** `epcap_open`: returns 0 unless the process has ended. */
    method Open() returns (result: int)
      requires !exited && dev == cfg.dev
      modifies this`calls, this`handle, this`exited, this`dev
      ensures var r := OpenRun(cfg, drv);
        calls == old(calls) + r.calls && exited == r.fatal
      ensures !exited ==> result == 0 && handle
      ensures cfg.file.None? ==> dev == LiveDev(cfg, drv)
      ensures cfg.file.Some? ==> dev == old(dev)
    {
      result := 0;
      if cfg.file.Some? {
        calls := calls + [OpenOffline(cfg.file.value)];
        handle := drv.openOffline;
        if !handle {
          exited := true;
          return;
        }
      } else {
        OpenDevice();
        assert calls == old(calls) + DeviceRun(cfg, drv).calls && exited == DeviceRun(cfg, drv).fatal by {
          if dev.Some? {
            DeviceRunOf(cfg, drv);
          }
        }
        if exited {
          return;
        }
      }
      if cfg.filterIn {
        calls := calls + [SetDirectionIn];
      }
    }

    /** `epcap_init` on `ep->dev`. */
    method Init() returns (result: int)
      requires !exited
      modifies this`calls
      ensures var (cs, res) := InitRun(cfg, drv, dev);
        calls == old(calls) + cs && result == res
    {
      var mask := 0;
      if !cfg.noLookupnet {
        calls := calls + [LookupNet(dev)];
        if drv.lookupNet == -1 {
          return -1;
        }
        mask := drv.netMask;
      }
      calls := calls + [Compile(cfg.filt, mask)];
      if drv.compile != 0 {
        return -1;
      }
      calls := calls + [SetFilter];
      if drv.setFilter != 0 {
        return -1;
      }
      return 0;
    }
  }
}
