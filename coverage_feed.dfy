/** The coverage-feed controller of the injected instrumentation script
    (`rpc.exports` in script.js): the target registration, the probe that
    starts and stops execution tracing around each call of the target, the
    coverage event buffer, the one-shot execution time and the periodic
    tracer garbage collection.

    The instrumentation engine is abstract: module lookup and export lookup
    are maps handed to the operations that use them, timestamps and thread
    ids are inputs, and the engine's own state (attached probes, traced
    threads, flushes, collections) is kept in ghost fields. */
module CoverageFeed {
  import opened Common

  /** `covTarget`: the module name and the address the probe is put at,
      which `startCoverageFeed` adds to the module's base. A "0x" handler
      gives an offset into the module; an export lookup gives the export's
      absolute address, which is then offset by the base once more. */
  datatype Target = Target(moduleName: string, address: nat)

  /** One entry `{module, coverage}` of the event buffer; `coverage` is the
      engine's stringified list of compiled blocks. */
  datatype CoverageEvent = CoverageEvent(moduleName: string, coverage: seq<seq<string>>)

  /** The JavaScript value held by `execTime`: undefined, a number of
      milliseconds, or NaN (what `tNow - undefined` yields). */
  datatype ExecTime = Undefined | Millis(ms: int) | NaN

  /** One `{module, handler}` descriptor as the fuzzer sends it. */
  datatype TargetSpec = TargetSpec(moduleName: string, handler: string)

  /** The tracer's memory is reclaimed on every 100th completed call. */
  const GcPeriod: nat := 100

  /** The exit callback as written (it calls `Stalker.garbagecollect`, which
      the engine does not define, so the call throws), or calling the
      engine's `Stalker.garbageCollect` as `stopCoverageFeed` does. */
  datatype Reading = AsWritten | Intended

  /** What reading `target[0].handler` of an empty array throws. */
  const NoHandler: string := "Cannot read properties of undefined (reading 'handler')"

  /** What calling the undefined `Stalker.garbagecollect` throws. */
  const NotAFunction: string := "Stalker.garbagecollect is not a function"

  /** Value of the hexadecimal digits `d`, most significant first. */
  function HexValue(d: string): nat
    requires forall c :: c in d ==> HexDigitValue(c).Some?
  {
    if d == [] then 0 else HexValue(d[..|d| - 1]) * 16 + HexDigitValue(d[|d| - 1]).value
  }

  /** The longest prefix of `s` made of hexadecimal digits. */
  function HexRun(s: string): (r: string)
    ensures |r| <= |s| && r == s[..|r|]
    ensures forall c :: c in r ==> HexDigitValue(c).Some?
    ensures |r| < |s| ==> HexDigitValue(s[|r|]).None?
  {
    if s == [] || HexDigitValue(s[0]).None? then [] else [s[0]] + HexRun(s[1..])
  }

  /** The address `new ptr(handler)` gives a `0x` literal: the value of the
      hexadecimal digits that follow the prefix. */
  function LiteralAddress(handler: string): (a: nat)
    requires StartsWith(handler, "0x")
    ensures var d := HexRun(handler[2..]);
      (d == [] ==> a == 0) && (d != [] ==> a % 16 == HexDigitValue(d[|d| - 1]).value)
  {
    HexValue(HexRun(handler[2..]))
  }

  /** Number of the exit callbacks of calls (start, start + k] that reclaim
      the tracer's memory. */
  function CollectionsBetween(start: nat, k: nat, rd: Reading): nat
  {
    if k == 0 then 0
    else CollectionsBetween(start, k - 1, rd) + (if rd == Intended && (start + k) % GcPeriod == 0 then 1 else 0)
  }

  /** Number of the exit callbacks of calls (start, start + k] that throw. */
  function ThrowsBetween(start: nat, k: nat, rd: Reading): nat
  {
    if k == 0 then 0
    else ThrowsBetween(start, k - 1, rd) + (if rd == AsWritten && (start + k) % GcPeriod == 0 then 1 else 0)
  }

  /** With `Stalker.garbageCollect`, counting the triggers one call at a
      time agrees with counting the multiples of 100 passed: k further calls
      from counter `start` reclaim the tracer's memory
      (start + k) / 100 - start / 100 times, and no callback throws. */
  lemma {:induction false} CollectionsBetweenCount(start: nat, k: nat)
    ensures CollectionsBetween(start, k, Intended) == (start + k) / GcPeriod - start / GcPeriod
    ensures ThrowsBetween(start, k, Intended) == 0
  {
    if k > 0 {
      CollectionsBetweenCount(start, k - 1);
      var n := start + k - 1;
      assert (n + 1) / GcPeriod == n / GcPeriod + (if (n + 1) % GcPeriod == 0 then 1 else 0);
    }
  }

  /** As written, the tracer's memory is never reclaimed by the exit
      callback: every 100th callback throws instead. */
  lemma {:induction false} GarbageNeverCollected(start: nat, k: nat)
    ensures CollectionsBetween(start, k, AsWritten) == 0
    ensures ThrowsBetween(start, k, AsWritten) == (start + k) / GcPeriod - start / GcPeriod
  {
    if k > 0 {
      GarbageNeverCollected(start, k - 1);
      var n := start + k - 1;
      assert (n + 1) / GcPeriod == n / GcPeriod + (if (n + 1) % GcPeriod == 0 then 1 else 0);
    }
  }

  /** The hexadecimal prefix of digits followed by a character that is not
      one is exactly those digits. */
  lemma {:induction false} HexRunOfDigits(d: string, rest: string)
    requires forall c :: c in d ==> HexDigitValue(c).Some?
    requires rest == [] || HexDigitValue(rest[0]).None?
    ensures HexRun(d + rest) == d
  {
    if d != [] {
      assert (d + rest)[1..] == d[1..] + rest;
      HexRunOfDigits(d[1..], rest);
    } else {
      assert d + rest == rest;
    }
  }

  /** A "0x" handler targets the value of the hexadecimal digits after the
      prefix; parsing stops at the first character that is not one. */
  lemma LiteralAddressOfDigits(d: string, rest: string)
    requires forall c :: c in d ==> HexDigitValue(c).Some?
    requires rest == [] || HexDigitValue(rest[0]).None?
    ensures StartsWith("0x" + d + rest, "0x")
    ensures LiteralAddress("0x" + d + rest) == HexValue(d)
  {
    var h := "0x" + d + rest;
    assert h[..2] == "0x";
    assert h[2..] == d + rest;
    HexRunOfDigits(d, rest);
  }

  class Controller {
    /** `stalkerEvents`: the coverage buffer, in the order batches arrived. */
    var stalkerEvents: seq<CoverageEvent>
    /** `covTarget`: None while it is still the empty object `{}`. */
    var covTarget: Option<Target>
    /** `execTime`: the entry timestamp while a call runs, its duration after. */
    var execTime: ExecTime
    /** `gc_cnt`: completed calls of the target. */
    var gcCount: nat

    /** Engine state: absolute addresses of the attached probes. */
    ghost var probes: seq<int>
    /** Engine state: threads the tracer follows. */
    ghost var followed: set<int>
    /** Engine state: tracer flushes and garbage collections requested. */
    ghost var flushes: nat
    ghost var collections: nat

    /** The script's module-level initial state. */
    constructor ()
      ensures stalkerEvents == [] && covTarget == None && execTime == Undefined && gcCount == 0
      ensures probes == [] && followed == {} && flushes == 0 && collections == 0
    {
      stalkerEvents, covTarget, execTime, gcCount := [], None, Undefined, 0;
      probes, followed, flushes, collections := [], {}, 0, 0;
    }

    /** `setTarget(target)`: only `target[0]` is read; an empty array makes
        `target[0].handler` throw a TypeError (the null check is commented
        out) and nothing changes. A handler starting with "0x" is taken as
        the address itself; any other handler is looked up among the
        module's exports, and a failed lookup keeps the previous target.
        The answer, when there is one, is true. */
    method SetTarget(target: seq<TargetSpec>, exports: map<(string, string), nat>)
      returns (ok: bool, thrown: Option<string>)
      modifies this`covTarget
      ensures thrown.Some? <==> |target| == 0
      ensures thrown.Some? ==> thrown.value == NoHandler && covTarget == old(covTarget)
      ensures thrown.None? ==> ok
      ensures |target| > 0 && StartsWith(target[0].handler, "0x") ==>
        covTarget == Some(Target(target[0].moduleName, LiteralAddress(target[0].handler)))
      ensures |target| > 0 && !StartsWith(target[0].handler, "0x") && (target[0].moduleName, target[0].handler) in exports ==>
        covTarget == Some(Target(target[0].moduleName, exports[(target[0].moduleName, target[0].handler)]))
      ensures |target| > 0 && !StartsWith(target[0].handler, "0x") && (target[0].moduleName, target[0].handler) !in exports ==>
        covTarget == old(covTarget)
    {
      if |target| == 0 {
        return false, Some(NoHandler);
      }
      thrown := None;
      var t := target[0];
      if StartsWith(t.handler, "0x") {
        covTarget := Some(Target(t.moduleName, LiteralAddress(t.handler)));
      } else if (t.moduleName, t.handler) in exports {
        covTarget := Some(Target(t.moduleName, exports[(t.moduleName, t.handler)]));
      }
      ok := true;
    }

    /** `startCoverageFeed()`: throws when the target's module is not loaded
        (or no target was set); otherwise attaches one more probe at the
        module's base plus the target address. None: the call completed;
        Some: the message it threw. */
    method StartCoverageFeed(modules: map<string, int>) returns (thrown: Option<string>)
      modifies this`probes
      ensures thrown.None? <==> covTarget.Some? && covTarget.value.moduleName in modules
      ensures thrown.None? ==> probes == old(probes) + [modules[covTarget.value.moduleName] + covTarget.value.address]
      ensures thrown.Some? ==> thrown.value == "Cannot find specified module!" && probes == old(probes)
    {
      if covTarget.None? || covTarget.value.moduleName !in modules {
        return Some("Cannot find specified module!");
      }
      var funAddr := modules[covTarget.value.moduleName] + covTarget.value.address;
      probes := probes + [funAddr];
      thrown := None;
    }

    /** The probe's entry callback: remember the entry timestamp and start
        following the calling thread. */
    method OnEnter(now: int, thread: int)
      modifies this`execTime, this`followed
      ensures execTime == Millis(now)
      ensures followed == old(followed) + {thread}
    {
      execTime := Millis(now);
      followed := followed + {thread};
    }

    /** The tracer's delivery callback: one buffer entry per batch, tagged
        with the current target's module, at the end of the buffer. The
        callback exists only once a target was set. */
    method OnReceive(batch: seq<seq<string>>)
      requires covTarget.Some?
      modifies this`stalkerEvents
      ensures stalkerEvents == old(stalkerEvents) + [CoverageEvent(covTarget.value.moduleName, batch)]
    {
      stalkerEvents := stalkerEvents + [CoverageEvent(covTarget.value.moduleName, batch)];
    }

    /** The probe's exit callback: the duration replaces the entry
        timestamp, the thread is unfollowed, the tracer flushed and the call
        counted; then every 100th call reaches the collection, which throws
        as written (after the changes above) and collects as intended. */
    method OnLeave(now: int, thread: int, rd: Reading) returns (thrown: Option<string>)
      modifies this`execTime, this`gcCount, this`followed, this`flushes, this`collections
      ensures execTime == (if old(execTime).Millis? then Millis(now - old(execTime).ms) else NaN)
      ensures gcCount == old(gcCount) + 1
      ensures followed == old(followed) - {thread}
      ensures flushes == old(flushes) + 1
      ensures thrown.Some? <==> rd == AsWritten && gcCount % GcPeriod == 0
      ensures thrown.Some? ==> thrown.value == NotAFunction
      ensures collections == old(collections) + (if rd == Intended && gcCount % GcPeriod == 0 then 1 else 0)
      ensures collections == old(collections) + CollectionsBetween(old(gcCount), 1, rd)
      ensures (if thrown.Some? then 1 else 0) == ThrowsBetween(old(gcCount), 1, rd)
    {
      if execTime.Millis? {
        execTime := Millis(now - execTime.ms);
      } else {
        execTime := NaN;
      }
      followed := followed - {thread};
      flushes := flushes + 1;
      gcCount := gcCount + 1;
      thrown := None;
      if gcCount % GcPeriod == 0 {
        if rd == AsWritten {
          thrown := Some(NotAFunction);
        } else {
          collections := collections + 1;
        }
      }
    }

    /** `getCoverage()`: the buffer, left as it is. */
    method GetCoverage() returns (events: seq<CoverageEvent>)
      ensures events == stalkerEvents
    {
      events := stalkerEvents;
    }

    /** `getExecTime()`: a one-shot read; the stored value is reset to
        undefined. */
    method GetExecTime() returns (t: ExecTime)
      modifies this`execTime
      ensures t == old(execTime)
      ensures execTime == Undefined
    {
      t := execTime;
      execTime := Undefined;
    }

    /** `clearCoverage()`: the buffer becomes empty. */
    method ClearCoverage()
      modifies this`stalkerEvents
      ensures stalkerEvents == []
    {
      stalkerEvents := [];
    }

    /** `stopCoverageFeed()`: unfollow the calling thread, flush, collect,
        and detach every probe; nothing else changes, so it is harmless when
        no probe is attached. */
    method StopCoverageFeed(thread: int)
      modifies this`followed, this`flushes, this`collections, this`probes
      ensures followed == old(followed) - {thread}
      ensures flushes == old(flushes) + 1
      ensures collections == old(collections) + 1
      ensures probes == []
    {
      followed := followed - {thread};
      flushes := flushes + 1;
      collections := collections + 1;
      probes := [];
    }
  }

  /** The scenario of one instrumented call, read from the controller's
      contracts alone: a target named by an export of module `name` (loaded
      at `base`), one call delivering one batch, then a drain, a clear and
      two execution-time reads. The probe lands at the module's base plus
      what the export lookup answered. */
  method OneCallScenario(name: string, handler: string, exported: nat, base: int,
                         t0: int, t1: int, batch: seq<seq<string>>)
    returns (c: Controller, thrown: Option<string>, drained: seq<CoverageEvent>,
             afterClear: seq<CoverageEvent>, time1: ExecTime, time2: ExecTime)
    requires !StartsWith(handler, "0x")
    ensures thrown == None && c.probes == [base + exported]
    ensures c.collections == 0
    ensures drained == [CoverageEvent(name, batch)]
    ensures afterClear == []
    ensures time1 == Millis(t1 - t0) && time2 == Undefined
  {
    c := new Controller();
    var ok, setThrown := c.SetTarget([TargetSpec(name, handler)], map[(name, handler) := exported]);
    thrown := c.StartCoverageFeed(map[name := base]);
    c.OnEnter(t0, 1);
    c.OnReceive(batch);
    var leaveThrown := c.OnLeave(t1, 1, AsWritten);
    drained := c.GetCoverage();
    c.ClearCoverage();
    afterClear := c.GetCoverage();
    time1 := c.GetExecTime();
    time2 := c.GetExecTime();
  }
}
