/** The time limit of a non-blocking call: when it ends the run, and when it is
    missed. */
module MpExpiry {
  import opened Common
  import opened MpProtocol
  import opened MpTheorems
  import opened MpTiming
  import opened MpRearm

  /** A call with a limit, and a poll interval that is a UINTN. */
  predicate Timed(s: Sys) {
    WellFormed(s) && !s.cfg.blocking && 0 < s.cfg.limit < SPAN64 && 0 < s.cfg.interval < SPAN64
  }

  // ------------------------------------------------------------- the countdown

  /** The timer ticks in a schedule. */
  function Ticks(s: Sys, cs: seq<Choice>): nat
    requires WellFormed(s)
  {
    if cs == [] then 0
    else
      var m := |cs| - 1;
      Ticks(s, cs[..m]) + if cs[m].Bsp? && Exec(s, cs[..m]).bsp == Waiting then 1 else 0
  }

  predicate BeforeTimer(pc: BspPc) {
    pc.Prepare? || pc.Dispatch? || pc.DispatchSet? || pc.Arm?
  }

  lemma StepTimeout(t: Sys, c: Choice)
    requires WellFormed(t) && !t.cfg.blocking && t.cfg.limit != 0
    ensures Step(t, c).timeout ==
      if c.Bsp? && t.bsp == Waiting then Elapse(t.timeout, t.cfg.interval)
      else if c.Bsp? && t.bsp == Arm then t.cfg.limit
      else t.timeout
    ensures BeforeTimer(Step(t, c).bsp) ==> BeforeTimer(t.bsp)
  {
  }

  /** In every state of every run the remaining time is the limit counted down
      by the ticks so far, beyond zero included. */
  lemma {:induction false} TimeoutCountsDown(s: Sys, cs: seq<Choice>)
    requires Initial(s) && Timed(s)
    ensures Counted(Exec(s, cs), Ticks(s, cs))
  {
    if cs != [] {
      var m := |cs| - 1;
      TimeoutCountsDown(s, cs[..m]);
      CountedNext(Exec(s, cs[..m]), cs[m], Ticks(s, cs[..m]));
    }
  }

  /** While the limit lasts, that is one interval less for each tick. */
  lemma RemainingTime(s: Sys, cs: seq<Choice>)
    requires Initial(s) && Timed(s) && Ticks(s, cs) <= LastTick(s.cfg)
    ensures var used := Ticks(s, cs) * s.cfg.interval;
      Exec(s, cs).timeout == if used <= s.cfg.limit then s.cfg.limit - used else 0
  {
    TimeoutCountsDown(s, cs);
    RemainsExactly(s.cfg.limit, s.cfg.interval, Ticks(s, cs));
  }

  /** The remaining time is the limit counted down by k ticks; there are none
      before the timer is started. */
  predicate Counted(t: Sys, k: nat) {
    t.timeout == AfterTicks(t.cfg.limit, t.cfg.interval, k) && (BeforeTimer(t.bsp) ==> k == 0)
  }

  lemma CountedNext(t: Sys, c: Choice, k: nat)
    requires WellFormed(t) && !t.cfg.blocking && t.cfg.limit != 0 && Counted(t, k)
    ensures Counted(Step(t, c), k + if c.Bsp? && t.bsp == Waiting then 1 else 0)
  {
    StepTimeout(t, c);
  }

  /** The ticks it takes to bring the time to zero. */
  function LastTick(cfg: Config): nat
    requires cfg.interval > 0
  {
    |Stalls(cfg.limit, cfg.interval)|
  }

  lemma StepTimedOut(t: Sys, c: Choice)
    requires WellFormed(t) && !t.cfg.blocking && (t.timedOut ==> t.bsp == Signalled && t.timeout == 0)
    ensures Step(t, c).timedOut ==> Step(t, c).bsp == Signalled && Step(t, c).timeout == 0
  {
  }

  lemma {:induction false} TimedOutAtZero(s: Sys, cs: seq<Choice>)
    requires Initial(s) && Timed(s)
    ensures Exec(s, cs).timedOut ==> Exec(s, cs).bsp == Signalled && Exec(s, cs).timeout == 0
  {
    if cs != [] {
      var m := |cs| - 1;
      TimedOutAtZero(s, cs[..m]);
      StepTimedOut(Exec(s, cs[..m]), cs[m]);
    }
  }

  /** No run times out before tick ceil(limit / interval). */
  lemma NotBeforeTheLimit(s: Sys, cs: seq<Choice>)
    requires Initial(s) && Timed(s) && Exec(s, cs).timedOut
    ensures Ticks(s, cs) >= LastTick(s.cfg)
  {
    TimedOutAtZero(s, cs);
    TimeoutCountsDown(s, cs);
    if Ticks(s, cs) < LastTick(s.cfg) { Countdown(s.cfg.limit, s.cfg.interval, Ticks(s, cs)); }
  }

  // -------------------------------------------------------------- one callback

  predicate InCallback(pc: BspPc) {
    pc.Scan? || pc.Find? || pc.Promote? || pc.Feed? || pc.Retire? || pc.Check?
  }

  /** The step is a try-lock that fails: of a participant's state while the
      table is scanned, or in the walk over the failed list on expiry. */
  predicate TryLockFails(t: Sys, c: Choice) {
    && c == Bsp(true)
    && match t.bsp
       case Scan(n) => n < |t.cpu| && t.cpu[n].Participant()
       case Check => t.cfg.limit != 0 && t.timeout == 0 && Walks(t)
       case _ => false
  }

  /** With no time left the end of the callback gives up only in the walk over a
      failed list: where the caller asked for one, some processor takes part, and
      its lock is taken.  Otherwise it ends the run. */
  lemma WalkGivesUpExactly(t: Sys, lockFails: bool)
    requires WellFormed(t) && t.bsp == Check && t.cfg.limit != 0 && t.timeout == 0
    ensures var u := Step(t, Bsp(lockFails));
      if lockFails && t.cfg.failedList && exists p | 0 <= p < |t.cpu| :: !t.cpu[p].isBsp && t.cpu[p].enabled
      then u == t.(bsp := Waiting)
      else u.bsp == Signalled && u.timedOut && u.finishCount == t.startCount
  {
    assert forall p | 0 <= p < |t.cpu| :: t.cpu[p].Participant() == (!t.cpu[p].isBsp && t.cpu[p].enabled);
  }

  /** After the first i steps the callback is still running. */
  predicate InsideAt(t: Sys, cs: seq<Choice>, i: nat)
    requires WellFormed(t) && i <= |cs|
  {
    InCallback(Exec(t, cs[..i]).bsp)
  }

  /** From the wait, one callback: the tick, and all up to its return. */
  predicate IsCallback(t: Sys, cs: seq<Choice>)
    requires WellFormed(t)
  {
    && t.bsp == Waiting && |cs| >= 2 && cs[0].Bsp?
    && (forall i | 0 < i < |cs| :: InsideAt(t, cs, i))
    && !InCallback(Exec(t, cs).bsp)
  }

  /** Some try-lock of the callback fails. */
  ghost predicate SomeTryLockFails(t: Sys, cs: seq<Choice>)
    requires WellFormed(t)
  {
    exists i | 0 < i < |cs| :: FailsAt(t, cs, i)
  }

  predicate FailsAt(t: Sys, cs: seq<Choice>, i: nat)
    requires WellFormed(t) && i < |cs|
  {
    TryLockFails(Exec(t, cs[..i]), cs[i])
  }

  /** A step of a callback that runs with no time left. */
  lemma CallbackStep(t: Sys, c: Choice)
    requires WellFormed(t) && !t.cfg.blocking && t.cfg.limit != 0 && t.timeout == 0 && InCallback(t.bsp)
    ensures Step(t, c).timeout == 0
    ensures Step(t, c).bsp == Waiting <==> TryLockFails(t, c)
    ensures !InCallback(Step(t, c).bsp) && Step(t, c).bsp != Waiting ==>
      Step(t, c).bsp == Signalled && Step(t, c).timedOut
  {
  }

  lemma FirstTick(t: Sys, c: Choice)
    requires WellFormed(t) && t.bsp == Waiting && t.cfg.limit != 0 && c.Bsp?
    ensures Exec(t, [c]).timeout == Elapse(t.timeout, t.cfg.interval)
  {
    ExecSnoc(t, [], c);
    assert [] + [c] == [c];
  }

  lemma {:induction false} CallbackTimeout(t: Sys, cs: seq<Choice>, i: nat)
    requires WellFormed(t) && !t.cfg.blocking && t.cfg.limit != 0 && Elapse(t.timeout, t.cfg.interval) == 0
    requires IsCallback(t, cs) && 0 < i <= |cs|
    ensures Exec(t, cs[..i]).timeout == 0
  {
    if i == 1 {
      FirstTick(t, cs[0]);
      assert cs[..1] == [cs[0]];
    } else {
      CallbackTimeout(t, cs, i - 1);
      assert InsideAt(t, cs, i - 1);
      CallbackStep(Exec(t, cs[..i - 1]), cs[i - 1]);
      assert cs[..i][..i - 1] == cs[..i - 1];
    }
  }

  /** Each step after the tick, and where it leads. */
  lemma CallbackAt(t: Sys, cs: seq<Choice>, i: nat)
    requires WellFormed(t) && !t.cfg.blocking && t.cfg.limit != 0 && Elapse(t.timeout, t.cfg.interval) == 0
    requires IsCallback(t, cs) && 0 < i < |cs|
    ensures Exec(t, cs[..i + 1]).bsp == Waiting <==> FailsAt(t, cs, i)
    ensures !InCallback(Exec(t, cs[..i + 1]).bsp) && Exec(t, cs[..i + 1]).bsp != Waiting ==>
      Exec(t, cs[..i + 1]).bsp == Signalled && Exec(t, cs[..i + 1]).timedOut
  {
    CallbackTimeout(t, cs, i);
    assert InsideAt(t, cs, i);
    CallbackStep(Exec(t, cs[..i]), cs[i]);
    assert cs[..i + 1][..i] == cs[..i];
  }

  /** A callback with no time left ends the run, as timed out, exactly when none
      of its try-locks fails. */
  lemma CallbackEndsRunExactly(t: Sys, cs: seq<Choice>)
    requires WellFormed(t) && !t.cfg.blocking && t.cfg.limit != 0 && Elapse(t.timeout, t.cfg.interval) == 0
    requires IsCallback(t, cs)
    ensures Exec(t, cs).bsp == Signalled <==> !SomeTryLockFails(t, cs)
    ensures Exec(t, cs).bsp == Signalled ==> Exec(t, cs).timedOut
    ensures Exec(t, cs).bsp != Signalled ==> Exec(t, cs).bsp == Waiting && Exec(t, cs).timeout == 0
  {
    CallbackReturns(t, cs);
    OnlyLastFails(t, cs);
  }

  lemma OnlyLastFails(t: Sys, cs: seq<Choice>)
    requires WellFormed(t) && !t.cfg.blocking && t.cfg.limit != 0 && Elapse(t.timeout, t.cfg.interval) == 0
    requires IsCallback(t, cs)
    ensures SomeTryLockFails(t, cs) <==> FailsAt(t, cs, |cs| - 1)
  {
    if i :| 0 < i < |cs| && FailsAt(t, cs, i) {
      if i < |cs| - 1 { NotYetFailed(t, cs, i); }
    }
  }

  lemma CallbackReturns(t: Sys, cs: seq<Choice>)
    requires WellFormed(t) && !t.cfg.blocking && t.cfg.limit != 0 && Elapse(t.timeout, t.cfg.interval) == 0
    requires IsCallback(t, cs)
    ensures Exec(t, cs).timeout == 0
    ensures if FailsAt(t, cs, |cs| - 1) then Exec(t, cs).bsp == Waiting
            else Exec(t, cs).bsp == Signalled && Exec(t, cs).timedOut
  {
    var m := |cs| - 1;
    CallbackTimeout(t, cs, m);
    assert InsideAt(t, cs, m);
    CallbackStep(Exec(t, cs[..m]), cs[m]);
  }

  lemma NotYetFailed(t: Sys, cs: seq<Choice>, i: nat)
    requires WellFormed(t) && !t.cfg.blocking && t.cfg.limit != 0 && Elapse(t.timeout, t.cfg.interval) == 0
    requires IsCallback(t, cs) && 0 < i < |cs| - 1
    ensures !FailsAt(t, cs, i)
  {
    CallbackAt(t, cs, i);
    assert InsideAt(t, cs, i + 1);
  }

  /** The callback of tick ceil(limit / interval), the one that brings the time
      to zero, ends the run exactly when none of its try-locks fails.  If one
      does, the limit is lost: the next tick restarts the countdown from the top
      of the range of a UINTN. */
  lemma ExpiryNeedsTheLocks(s: Sys, cs: seq<Choice>, callback: seq<Choice>)
    requires Initial(s) && Timed(s) && Exec(s, cs).bsp == Waiting && Ticks(s, cs) + 1 == LastTick(s.cfg)
    requires IsCallback(Exec(s, cs), callback)
    ensures var t := Exec(s, cs + callback);
      && (t.bsp == Signalled <==> !SomeTryLockFails(Exec(s, cs), callback))
      && (t.bsp == Signalled ==> t.timedOut)
      && (t.bsp != Signalled ==>
            t.bsp == Waiting && Exec(s, cs + callback + [Bsp(false)]).timeout == SPAN64 - s.cfg.interval)
  {
    TimeRunsOut(s, cs);
    CallbackEndsRunExactly(Exec(s, cs), callback);
    ExecAppend(s, cs, callback);
    var t := Exec(s, cs + callback);
    if t.bsp != Signalled {
      NextTickWraps(t);
      ExecSnoc(s, cs + callback, Bsp(false));
    }
  }

  lemma TimeRunsOut(s: Sys, cs: seq<Choice>)
    requires Initial(s) && Timed(s) && Ticks(s, cs) + 1 == LastTick(s.cfg)
    ensures Elapse(Exec(s, cs).timeout, s.cfg.interval) == 0
  {
    TimeoutCountsDown(s, cs);
    LastStep(s.cfg.limit, s.cfg.interval, Ticks(s, cs));
  }

  lemma LastStep(limit: nat, interval: nat, k: nat)
    requires 0 < limit < SPAN64 && 0 < interval < SPAN64 && k + 1 == |Stalls(limit, interval)|
    ensures Elapse(AfterTicks(limit, interval, k), interval) == 0
  {
    Countdown(limit, interval, k + 1);
    assert AfterTicks(limit, interval, k + 1) == Elapse(AfterTicks(limit, interval, k), interval);
  }

  lemma NextTickWraps(t: Sys)
    requires Timed(t) && t.bsp == Waiting && t.timeout == 0
    ensures Step(t, Bsp(false)).timeout == SPAN64 - t.cfg.interval
  {
    StepTimeout(t, Bsp(false));
  }

  // --------------------------------------------------- both misses are reachable

  /** One BSP, one AP, a limit of one poll interval. */
  function Brief(ap: Cpu, started: nat, saved: Option<Work>, timeout: nat, bsp: BspPc): Sys {
    Sys(Config(false, false, true, Work(1, 2), 1, 1),
        [Cpu(true, true, Busy, None, Polling, [], []), ap],
        0, started, saved, timeout, 0, false, [], bsp)
  }

  const SAVED: Option<Work> := Some(Work(1, 2))

  function Call(): Sys {
    Brief(IDLE, 0, None, 1, Prepare(0, Ready))
  }

  lemma CallIsTimed()
    ensures Initial(Call()) && Timed(Call()) && LastTick(Call().cfg) == 1
  {
    assert Stalls(1, 1) == [1] + Stalls(0, 1);
  }

  lemma StatesAssigned()
    ensures Exec(Call(), Times(Bsp(false), 4)) == Brief(READY, 1, None, 1, Dispatch(1))
  {
    var b := Bsp(false);
    var trace := [
      Call(),
      Brief(IDLE, 0, None, 1, Prepare(1, Ready)),
      Brief(READY, 1, None, 1, Prepare(2, Ready)),
      Brief(READY, 1, None, 1, Dispatch(0)),
      Brief(READY, 1, None, 1, Dispatch(1))];
    assert Step(trace[0], b) == trace[1];
    assert IDLE.history + [Ready] == [Ready];
    assert Step(trace[1], b).cpu == trace[2].cpu;
    assert Step(trace[1], b) == trace[2];
    assert Step(trace[2], b) == trace[3];
    assert Step(trace[3], b) == trace[4];
    BspTrace(trace, 4);
  }

  lemma SlotsFilled()
    ensures Exec(Brief(READY, 1, None, 1, Dispatch(1)), Times(Bsp(false), 3)) == Brief(ARMED, 1, None, 1, Arm)
  {
    var b := Bsp(false);
    var trace := [
      Brief(READY, 1, None, 1, Dispatch(1)),
      Brief(READY, 1, None, 1, DispatchSet(1)),
      Brief(ARMED, 1, None, 1, Dispatch(2)),
      Brief(ARMED, 1, None, 1, Arm)];
    assert Step(trace[0], b) == trace[1];
    assert Step(trace[1], b).cpu == trace[2].cpu;
    assert Step(trace[1], b) == trace[2];
    assert Step(trace[2], b) == trace[3];
    BspTrace(trace, 3);
  }

  lemma UpToTheTimer() returns (cs: seq<Choice>)
    ensures Exec(Call(), cs) == Brief(ARMED, 1, None, 1, Arm)
  {
    StatesAssigned();
    SlotsFilled();
    ExecAppend(Call(), Times(Bsp(false), 4), Times(Bsp(false), 3));
    cs := Times(Bsp(false), 4) + Times(Bsp(false), 3);
  }

  lemma TicksMore(s: Sys, cs: seq<Choice>, c: Choice)
    requires WellFormed(s) && Exec(s, cs).bsp != Waiting
    ensures Ticks(s, cs + [c]) == Ticks(s, cs)
  {
    assert (cs + [c])[..|cs|] == cs;
  }

  lemma UpToTheWait() returns (cs: seq<Choice>)
    ensures Exec(Call(), cs) == Brief(ARMED, 1, SAVED, 1, Waiting) && Ticks(Call(), cs) == 0
  {
    var before := UpToTheTimer();
    TimeoutCountsDown(Call(), before);
    cs := before + [Bsp(false)];
    ExecSnoc(Call(), before, Bsp(false));
    TicksMore(Call(), before, Bsp(false));
  }

  /** The tick and the scan of the BSP's own block. */
  lemma IntoTheScan(k: nat)
    requires 1 <= k <= 4
    ensures Exec(Brief(ARMED, 1, SAVED, 1, Waiting), Times(Bsp(false), k))
         == Brief(ARMED, 1, SAVED, 0, if k == 4 then Check else Scan(k - 1))
  {
    var b := Bsp(false);
    var trace := [
      Brief(ARMED, 1, SAVED, 1, Waiting),
      Brief(ARMED, 1, SAVED, 0, Scan(0)),
      Brief(ARMED, 1, SAVED, 0, Scan(1)),
      Brief(ARMED, 1, SAVED, 0, Scan(2)),
      Brief(ARMED, 1, SAVED, 0, Check)];
    assert Step(trace[0], b) == trace[1];
    assert Step(trace[1], b) == trace[2];
    assert Step(trace[2], b) == trace[3];
    assert Step(trace[3], b) == trace[4];
    BspTrace(trace, k);
  }

  /** From the start of a call a run leads to a callback that brings the time to
      zero and has one try-lock fail: that of the scan, or that of the walk over
      the failed list. */
  lemma MissReachable(inScan: bool) returns (s: Sys, cs: seq<Choice>, callback: seq<Choice>)
    ensures Initial(s) && Timed(s) && Exec(s, cs).bsp == Waiting && Ticks(s, cs) + 1 == LastTick(s.cfg)
    ensures IsCallback(Exec(s, cs), callback) && SomeTryLockFails(Exec(s, cs), callback)
    ensures Exec(Exec(s, cs), callback[..|callback| - 1]).bsp == if inScan then Scan(1) else Check
  {
    s := Call();
    cs := UpToTheWait();
    CallIsTimed();
    callback := Miss(if inScan then 2 else 4);
  }

  lemma Miss(k: nat) returns (callback: seq<Choice>)
    requires k == 2 || k == 4
    ensures var t := Brief(ARMED, 1, SAVED, 1, Waiting);
      && IsCallback(t, callback) && SomeTryLockFails(t, callback)
      && Exec(t, callback[..|callback| - 1]).bsp == if k == 2 then Scan(1) else Check
  {
    var t := Brief(ARMED, 1, SAVED, 1, Waiting);
    callback := Times(Bsp(false), k) + [Bsp(true)];
    forall i | 0 < i < |callback|
      ensures InsideAt(t, callback, i)
    {
      assert callback[..i] == Times(Bsp(false), i);
      IntoTheScan(i);
    }
    IntoTheScan(k);
    ExecSnoc(t, Times(Bsp(false), k), Bsp(true));
    assert callback[..k] == Times(Bsp(false), k);
    assert FailsAt(t, callback, k);
  }
}
