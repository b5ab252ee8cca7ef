/** The sweep scheduler of api/app.ts: the module variables `cleanupTimer` and
    `nextCleanupTime`, `startAutoCleanup` (exported again as `restartAutoCleanup`), the
    interval callback, `getNextCleanupTime`, and the `remainingSeconds` figure the
    next-cleanup route derives from it. Real timers become explicit state: `running`
    holds the intervals the runtime is firing, and each firing is a call to `Tick`. */
module App {
  import opened Base
  import opened Init
  import IpService

  const FallbackIntervalSec: nat := 300

  /** An interval armed by `setInterval`: its handle and the interval, in seconds, that
      its callback captured. It fires every `interval * 1000` milliseconds. */
  datatype Timer = Timer(handle: nat, interval: int)

  /** The timers still running once `t` is cleared; clearing a stale handle does nothing. */
  function Without(timers: seq<Timer>, t: Timer): (rest: seq<Timer>)
    ensures forall u :: u in rest <==> u in timers && u.handle != t.handle
  {
    if timers == [] then []
    else (if timers[0].handle == t.handle then [] else [timers[0]]) + Without(timers[1..], t)
  }

  class Scheduler {
    var cleanupTimer: Option<Timer>
    var running: seq<Timer>
    var nextCleanupTime: int
    var handles: nat
    ghost var armedOnce: bool

    /** At most one interval runs, it is the one `cleanupTimer` holds, and until some
        start has armed one, `nextCleanupTime` is still 0. */
    ghost predicate Valid()
      reads this
    {
      && |running| <= 1
      && (forall t :: t in running ==> cleanupTimer == Some(t) && t.handle < handles)
      && (!armedOnce ==> nextCleanupTime == 0 && running == [])
    }

    /** The state when the module is loaded. */
    constructor ()
      ensures Valid()
      ensures cleanupTimer == None && running == [] && nextCleanupTime == 0 && !armedOnce
    {
      cleanupTimer := None;
      running := [];
      nextCleanupTime := 0;
      handles := 0;
      armedOnce := false;
    }

    /** `getNextCleanupTime`. */
    function GetNextCleanupTime(): (t: int)
      reads this
      requires Valid()
      ensures !armedOnce ==> t == 0
    {
      nextCleanupTime
    }

    /** `clearInterval(cleanupTimer)` when the variable holds a handle; the variable keeps
        it. Since the running interval is the held one, nothing runs afterwards. */
    method ClearCurrent()
      requires Valid()
      modifies this`running
      ensures running == if old(cleanupTimer).Some? then Without(old(running), old(cleanupTimer).value) else old(running)
      ensures running == []
    {
      if running != [] {
        assert running[0] in running;
      }
      if cleanupTimer.Some? {
        running := Without(running, cleanupTimer.value);
      }
    }

    /** `nextCleanupTime = Date.now() + interval * 1000; cleanupTimer = setInterval(...)`. */
    method Arm(interval: int, nowMs: int)
      modifies this
      ensures running == old(running) + [Timer(old(handles), interval)]
      ensures cleanupTimer == Some(Timer(old(handles), interval))
      ensures handles == old(handles) + 1 && armedOnce
      ensures nextCleanupTime == nowMs + interval * 1000
    {
      nextCleanupTime := nowMs + interval * 1000;
      var t := Timer(handles, interval);
      handles := handles + 1;
      running := running + [t];
      cleanupTimer := Some(t);
      armedOnce := true;
    }

    /** `startAutoCleanup` / `restartAutoCleanup`. Reads the auto-cleanup settings, clears
        the current interval, and arms one with the configured interval when enabled.
        `configReadFails` stands for the settings read rejecting: then an interval of 300
        seconds is armed, after clearing the current one (see StartAsWritten). */
    method Start(db: Db, nowMs: int, configReadFails: bool)
      requires Valid() && db.Valid()
      modifies this
      ensures Valid()
      ensures configReadFails ==>
        && running == [Timer(old(handles), FallbackIntervalSec)] && cleanupTimer == Some(running[0])
        && nextCleanupTime == nowMs + FallbackIntervalSec * 1000
      ensures !configReadFails && IpService.AutoCleanupOf(db.config).enabled ==>
        var interval := IpService.AutoCleanupOf(db.config).interval;
        && running == [Timer(old(handles), interval)] && cleanupTimer == Some(running[0])
        && nextCleanupTime == nowMs + interval * 1000
      ensures !configReadFails && !IpService.AutoCleanupOf(db.config).enabled ==>
        && running == [] && cleanupTimer == old(cleanupTimer)
        && nextCleanupTime == old(nextCleanupTime)
    {
      if configReadFails {
        ClearCurrent();
        Arm(FallbackIntervalSec, nowMs);
        return;
      }
      var config := IpService.GetAutoCleanup(db);
      ClearCurrent();
      if config.enabled {
        Arm(config.interval, nowMs);
      }
    }

    /** `startAutoCleanup` as written: when the settings read rejects, control jumps to
        the catch block before `clearInterval`, and the fallback interval is armed beside
        the one still running. */
    method StartAsWritten(db: Db, nowMs: int, configReadFails: bool)
      requires Valid() && db.Valid()
      modifies this
      ensures configReadFails ==>
        && running == old(running) + [Timer(old(handles), FallbackIntervalSec)]
        && cleanupTimer == Some(Timer(old(handles), FallbackIntervalSec))
        && nextCleanupTime == nowMs + FallbackIntervalSec * 1000
      ensures !configReadFails ==> Valid()
      ensures !configReadFails && IpService.AutoCleanupOf(db.config).enabled ==>
        var interval := IpService.AutoCleanupOf(db.config).interval;
        && running == [Timer(old(handles), interval)] && cleanupTimer == Some(running[0])
        && nextCleanupTime == nowMs + interval * 1000
      ensures !configReadFails && !IpService.AutoCleanupOf(db.config).enabled ==>
        && running == [] && cleanupTimer == old(cleanupTimer)
        && nextCleanupTime == old(nextCleanupTime)
    {
      if configReadFails {
        Arm(FallbackIntervalSec, nowMs);
      } else {
        Start(db, nowMs, false);
      }
    }

    /** One firing of the interval `t`: run the sweep at the current time and, when it
        succeeds, set the next cleanup time from the interval `t` captured. A failing
        sweep (`storageFails`) deletes nothing, is logged, and leaves both the next
        cleanup time and the interval as they were. */
    method Tick(db: Db, t: Timer, nowMs: int, storageFails: bool) returns (deleted: nat)
      requires Valid() && db.Valid() && t in running
      modifies this`nextCleanupTime, db`rows
      ensures Valid() && db.Valid()
      ensures storageFails ==>
        deleted == 0 && db.rows == old(db.rows) && nextCleanupTime == old(nextCleanupTime)
      ensures !storageFails ==>
        && db.rows == AfterSweep(old(db.rows), db.config, nowMs / 1000)
        && deleted == |old(db.rows)| - |db.rows|
        && nextCleanupTime == nowMs + t.interval * 1000
    {
      if storageFails {
        return 0;
      }
      deleted := CleanupExpiredIPs(db, nowMs / 1000);
      nextCleanupTime := nowMs + t.interval * 1000;
    }
  }

  /** `remainingSeconds` of the next-cleanup route:
      `Math.max(0, Math.floor((nextCleanupTime - Date.now()) / 1000))`. Dafny's `/` by a
      positive divisor rounds down, as `Math.floor` does. */
  function RemainingSeconds(nextCleanupTime: int, nowMs: int): (r: nat)
    ensures nextCleanupTime - nowMs < 1000 ==> r == 0
    ensures nextCleanupTime - nowMs >= 0 ==>
      r * 1000 <= nextCleanupTime - nowMs < (r + 1) * 1000
  {
    var q := (nextCleanupTime - nowMs) / 1000;
    if q > 0 then q else 0
  }

  /** The fallback path as written: a start whose settings read rejects while an interval
      is running leaves two intervals running. */
  method FallbackStartLeavesTwoTimers() returns (armed: nat)
    ensures armed == 2
  {
    var db := new Db();
    InitDatabase(db);
    IpService.SeededDefaultsReadBack();
    var s := new Scheduler();
    s.Start(db, 0, false);
    s.StartAsWritten(db, 1000, true);
    armed := |s.running|;
  }

  /** The same sequence with the corrected start leaves one interval running. */
  method FallbackStartKeepsOneTimer() returns (armed: nat)
    ensures armed == 1
  {
    var db := new Db();
    InitDatabase(db);
    IpService.SeededDefaultsReadBack();
    var s := new Scheduler();
    s.Start(db, 0, false);
    s.Start(db, 1000, true);
    armed := |s.running|;
  }
}
