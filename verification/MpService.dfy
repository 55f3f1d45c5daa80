/** The dispatcher as the driver writes it: loops over the processor table that
    update it in place, with the APs running between any two lock sections.
    Every method is proved to be a run of the transition system, whatever the
    APs do, so the theorems about all schedules apply to it. */
module MpService {
  import opened Common
  import opened MpProtocol
  import opened MpTheorems
  import opened MpTiming

  /** What the rest of the world does before the BSP's t-th section: the APs
      that take a step, and the outcome of a try-lock. */
  datatype Surroundings = Surroundings(aps: nat -> seq<nat>, lockFails: nat -> bool)

  function ApChoices(aps: seq<nat>): seq<Choice> {
    seq(|aps|, i requires 0 <= i < |aps| => Ap(aps[i]))
  }

  class MpSystem {
    var processorData: array<Cpu>
    var finishCount: nat
    var startCount: nat
    var saved: Option<Work>
    var timeout: nat
    var signals: nat
    var timedOut: bool
    var order: seq<nat>
    const cfg: Config
    ghost var bsp: BspPc
    ghost var origin: Sys
    ghost var run: seq<Choice>

    ghost function Abs(): Sys
      reads this, processorData
    {
      Sys(cfg, processorData[..], finishCount, startCount, saved, timeout, signals, timedOut, order, bsp)
    }

    /** The object's state is the one its recorded schedule leads to. */
    ghost predicate Valid()
      reads this, processorData
    {
      WellFormed(origin) && origin.cfg == cfg && Abs() == Exec(origin, run)
    }

    /** The call has passed its checks: no run is in progress. */
    constructor (data: array<Cpu>, cfg: Config)
      requires Initial(Sys(cfg, data[..], 0, 0, None, cfg.limit, 0, false, [], Prepare(0, Ready)))
      ensures Valid() && processorData == data && bsp == Prepare(0, Ready) && this.cfg == cfg
      ensures Initial(origin) && origin == Abs() && run == []
    {
      processorData := data;
      this.cfg := cfg;
      finishCount, startCount, saved, timeout := 0, 0, None, cfg.limit;
      signals, timedOut, order := 0, false, [];
      bsp := Prepare(0, Ready);
      origin := Sys(cfg, data[..], 0, 0, None, cfg.limit, 0, false, [], Prepare(0, Ready));
      run := [];
    }

    /** One lock section of the idle loop of AP `p`. */
    method ApIdleStep(p: nat)
      requires Valid()
      modifies this`order, this`run, processorData
      ensures Valid() && run == old(run) + [Ap(p)]
    {
      ghost var before := Abs();
      if p < processorData.Length && !processorData[p].isBsp {
        var c := processorData[p];
        match c.pc
        case Polling =>
          if c.slot.Some? { processorData[p] := c.(pc := Fetched(c.slot.value)); }
        case Fetched(job) =>
          processorData[p] := c.SetState(Busy).(pc := Announced(job));
        case Announced(job) =>
          processorData[p] := c.(pc := Inside, calls := c.calls + [job]);
          order := order + [p];
        case Inside =>
          processorData[p] := c.(pc := Returned);
        case Returned =>
          processorData[p] := c.(pc := Cleared, slot := None);
        case Cleared =>
          processorData[p] := c.SetState(Finished).(pc := Polling);
      }
      assert Abs() == Step(before, Ap(p));
      ExecSnoc(origin, run, Ap(p));
      run := run + [Ap(p)];
    }

    /** The APs run for a while. */
    method Interleave(aps: seq<nat>)
      requires Valid()
      modifies this`order, this`run, processorData
      ensures Valid() && run == old(run) + ApChoices(aps)
    {
      for i := 0 to |aps|
        invariant Valid() && run == old(run) + ApChoices(aps[..i])
      {
        ApIdleStep(aps[i]);
        Assoc(old(run), ApChoices(aps[..i]), [Ap(aps[i])]);
        assert ApChoices(aps[..i + 1]) == ApChoices(aps[..i]) + [Ap(aps[i])];
      }
      assert aps[..|aps|] == aps;
    }

    /** Record one section of the BSP. */
    ghost method Record(before: Sys, lockFails: bool)
      requires WellFormed(origin) && origin.cfg == cfg
      requires before == Exec(origin, run) && Abs() == Step(before, Bsp(lockFails))
      modifies this`run
      ensures Valid() && run == old(run) + [Bsp(lockFails)]
    {
      var now, longer := Abs(), run + [Bsp(lockFails)];
      ExecSnoc(origin, run, Bsp(lockFails));
      assert now == Exec(origin, longer);
      run := longer;
      assert Abs() == now;
    }

    /** A section of the BSP that only moves its program counter. */
    ghost method MoveTo(pc: BspPc, lockFails: bool)
      requires Valid() && BspStep(Abs(), lockFails) == Abs().(bsp := pc)
      modifies `bsp, `run
      ensures Valid() && bsp == pc && run == old(run) + [Bsp(lockFails)]
    {
      ghost var before := Abs();
      bsp := pc;
      Record(before, lockFails);
    }

    method SetApProcedure(n: nat, w: Work)
      requires n < processorData.Length
      modifies processorData
      ensures processorData[..] == old(processorData[..])[n := old(processorData[n]).(slot := Some(w))]
    {
      processorData[n] := processorData[n].(slot := Some(w));
    }

    method SetState(n: nat, st: CpuState)
      requires n < processorData.Length
      modifies processorData
      ensures processorData[..] == old(processorData[..])[n := old(processorData[n]).SetState(st)]
    {
      processorData[n] := processorData[n].SetState(st);
    }

    ghost predicate Continues(start: Sys, prefix: seq<Choice>)
      reads this
    {
      origin == start && prefix <= run
    }

    /** One turn of the loop that assigns the initial states. */
    method AssignState(number: nat, initial: CpuState) returns (next: CpuState)
      requires Valid() && bsp == Prepare(number, initial) && number < processorData.Length
      modifies this, processorData
      ensures Valid() && bsp == Prepare(number + 1, next) && timeout == old(timeout)
      ensures Continues(old(origin), old(run)) && processorData == old(processorData)
    {
      ghost var before := Abs();
      next := initial;
      if !processorData[number].isBsp && processorData[number].enabled {
        SetState(number, initial);
        startCount := startCount + 1;
        if cfg.singleThread { next := Blocked; }
      }
      bsp := Prepare(number + 1, next);
      Record(before, false);
    }

    /** The read and the write of the loop that fills the slots. */
    method IsReady(number: nat) returns (ready: bool)
      requires Valid() && bsp == Dispatch(number) && number < processorData.Length
      modifies this
      ensures Valid() && bsp == (if ready then DispatchSet(number) else Dispatch(number + 1))
      ensures Continues(old(origin), old(run)) && processorData == old(processorData)
    {
      ready := !processorData[number].isBsp && processorData[number].enabled && processorData[number].state == Ready;
      MoveTo(if ready then DispatchSet(number) else Dispatch(number + 1), false);
    }

    method FillSlot(number: nat)
      requires Valid() && bsp == DispatchSet(number)
      modifies this, processorData
      ensures Valid() && bsp == Dispatch(number + 1)
      ensures Continues(old(origin), old(run)) && processorData == old(processorData)
    {
      ghost var before := Abs();
      SetApProcedure(number, cfg.work);
      bsp := Dispatch(number + 1);
      Record(before, false);
    }

    method AssignStates(world: Surroundings) returns (t: nat)
      requires Valid() && bsp == Prepare(0, Ready)
      modifies this, processorData
      ensures Valid() && bsp == (if cfg.blocking then Poll(0) else Dispatch(0)) && timeout == old(timeout)
      ensures Continues(old(origin), old(run)) && processorData == old(processorData)
    {
      t := 0;
      var initial := Ready;
      for number := 0 to processorData.Length
        invariant Valid() && bsp == Prepare(number, initial) && timeout == old(timeout)
        invariant Continues(old(origin), old(run)) && processorData == old(processorData)
      {
        Interleave(world.aps(t));
        t := t + 1;
        initial := AssignState(number, initial);
      }
      MoveTo(if cfg.blocking then Poll(0) else Dispatch(0), false);
    }

    /** One turn of that loop. */
    method DispatchOne(number: nat, world: Surroundings, t: nat)
      requires Valid() && bsp == Dispatch(number) && number < processorData.Length
      modifies this, processorData
      ensures Valid() && bsp == Dispatch(number + 1)
      ensures Continues(old(origin), old(run)) && processorData == old(processorData)
    {
      Interleave(world.aps(t));
      var ready := IsReady(number);
      if ready {
        Interleave(world.aps(t + 1));
        FillSlot(number);
      }
    }

    method DispatchAll(world: Surroundings, t0: nat) returns (t: nat)
      requires Valid() && bsp == Dispatch(0)
      modifies this, processorData
      ensures Valid() && bsp == Arm
      ensures Continues(old(origin), old(run)) && processorData == old(processorData)
    {
      t := t0;
      for number := 0 to processorData.Length
        invariant Valid() && bsp == Dispatch(number)
        invariant Continues(old(origin), old(run)) && processorData == old(processorData)
      {
        DispatchOne(number, world, t);
        t := t + 2;
      }
      MoveTo(Arm, false);
    }

    /** StartupAllAPs in non-blocking mode, from the assignment of the initial
        states to the start of the timer. */
    method StartupAllAps(world: Surroundings)
      requires Valid() && bsp == Prepare(0, Ready) && !cfg.blocking
      modifies this, processorData
      ensures Valid() && bsp == Waiting
      ensures Continues(old(origin), old(run)) && processorData == old(processorData)
    {
      var t := AssignStates(world);
      t := DispatchAll(world, t);
      Interleave(world.aps(t));
      StartTimer();
    }

    method StartTimer()
      requires Valid() && bsp == Arm
      modifies this
      ensures Valid() && bsp == Waiting
      ensures Continues(old(origin), old(run)) && processorData == old(processorData)
    {
      ghost var before := Abs();
      saved := Some(cfg.work);
      timeout := cfg.limit;
      bsp := Waiting;
      Record(before, false);
    }

    /** One turn of GetNextBlockedNumber. */
    method IsBlocked(ghost n: nat, number: nat) returns (found: bool)
      requires Valid() && bsp == Find(n, number) && number < processorData.Length
      modifies this
      ensures Valid() && bsp == (if found then Promote(n, number) else Find(n, number + 1)) && timeout == old(timeout)
      ensures Continues(old(origin), old(run)) && processorData == old(processorData)
    {
      found := !processorData[number].isBsp && processorData[number].state == Blocked;
      MoveTo(if found then Promote(n, number) else Find(n, number + 1), false);
    }

    /** GetNextBlockedNumber: the search the callback makes for processor `n`. */
    method GetNextBlockedNumber(ghost n: nat, world: Surroundings, t0: nat) returns (next: Option<nat>, t: nat)
      requires Valid() && bsp == Find(n, 0)
      modifies this, processorData
      ensures Valid() && bsp == (if next.Some? then Promote(n, next.value) else Retire(n)) && timeout == old(timeout)
      ensures Continues(old(origin), old(run)) && processorData == old(processorData)
    {
      t := t0;
      for number := 0 to processorData.Length
        invariant Valid() && bsp == Find(n, number) && timeout == old(timeout)
        invariant Continues(old(origin), old(run)) && processorData == old(processorData)
      {
        Interleave(world.aps(t));
        t := t + 1;
        var found := IsBlocked(n, number);
        if found { return Some(number), t; }
      }
      MoveTo(Retire(n), false);
      next := None;
    }

    /** SingleThread: release the next blocked processor ... */
    method ReleaseNext(ghost n: nat, next: nat)
      requires Valid() && bsp == Promote(n, next)
      modifies this, processorData
      ensures Valid() && bsp == (if cfg.blocking then Retire(n) else Feed(n, next)) && timeout == old(timeout)
      ensures Continues(old(origin), old(run)) && processorData == old(processorData)
    {
      ghost var before := Abs();
      SetState(next, Ready);
      bsp := if cfg.blocking then Retire(n) else Feed(n, next);
      Record(before, false);
    }

    /** ... and hand it the work. */
    method FeedNext(ghost n: nat, next: nat)
      requires Valid() && bsp == Feed(n, next)
      modifies this, processorData
      ensures Valid() && bsp == Retire(n) && timeout == old(timeout)
      ensures Continues(old(origin), old(run)) && processorData == old(processorData)
    {
      ghost var before := Abs();
      SetApProcedure(next, saved.value);
      bsp := Retire(n);
      Record(before, false);
    }

    /** The processor is idle again.  (A blocking call has counted it before.) */
    method RetireAp(n: nat)
      requires Valid() && bsp == Retire(n)
      modifies this, processorData
      ensures Valid() && bsp == (if cfg.blocking then Poll(n + 1) else Scan(n + 1)) && timeout == old(timeout)
      ensures Continues(old(origin), old(run)) && processorData == old(processorData)
    {
      ghost var before := Abs();
      SetState(n, Idle);
      if !cfg.blocking { finishCount := finishCount + 1; }
      bsp := if cfg.blocking then Poll(n + 1) else Scan(n + 1);
      Record(before, false);
    }

    /** The callback hands the released processor its work at once, a blocking
        call leaves that to its loop. */
    method ReleaseAndFeed(ghost n: nat, next: nat, between: seq<nat>)
      requires Valid() && bsp == Promote(n, next)
      modifies this, processorData
      ensures Valid() && bsp == Retire(n) && timeout == old(timeout)
      ensures Continues(old(origin), old(run)) && processorData == old(processorData)
    {
      ReleaseNext(n, next);
      if !cfg.blocking {
        Interleave(between);
        FeedNext(n, next);
      }
    }

    /** SingleThread: the next blocked processor, if any, is released. */
    method ReleaseSuccessor(ghost n: nat, world: Surroundings, t0: nat) returns (t: nat)
      requires Valid() && bsp == Find(n, 0)
      modifies this, processorData
      ensures Valid() && bsp == Retire(n) && timeout == old(timeout)
      ensures Continues(old(origin), old(run)) && processorData == old(processorData)
    {
      var next;
      next, t := GetNextBlockedNumber(n, world, t0);
      if next.Some? {
        Interleave(world.aps(t));
        ReleaseAndFeed(n, next.value, world.aps(t + 1));
        t := t + 2;
      }
    }

    /** The FINISHED case, for processor `n`. */
    method HandleFinished(n: nat, world: Surroundings, t0: nat) returns (t: nat)
      requires Valid() && bsp == (if cfg.singleThread then Find(n, 0) else Retire(n))
      modifies this, processorData
      ensures Valid() && bsp == (if cfg.blocking then Poll(n + 1) else Scan(n + 1)) && timeout == old(timeout)
      ensures Continues(old(origin), old(run)) && processorData == old(processorData)
    {
      t := t0;
      if cfg.singleThread { t := ReleaseSuccessor(n, world, t); }
      Interleave(world.aps(t));
      t := t + 1;
      RetireAp(n);
    }

    /** One turn of the callback's loop; `gaveUp` when the try-lock failed. */
    method ScanAp(number: nat, world: Surroundings, t0: nat) returns (gaveUp: bool, t: nat)
      requires Valid() && bsp == Scan(number) && number < processorData.Length
      modifies this, processorData
      ensures Valid() && bsp == if gaveUp then Waiting else Scan(number + 1)
      ensures Continues(old(origin), old(run)) && processorData == old(processorData)
    {
      t := t0 + 1;
      gaveUp := false;
      if processorData[number].isBsp || !processorData[number].enabled {
        MoveTo(Scan(number + 1), false);
      } else if world.lockFails(t0) {
        MoveTo(Waiting, true);
        gaveUp := true;
      } else if processorData[number].state == Finished {
        MoveTo(if cfg.singleThread then Find(number, 0) else Retire(number), false);
        t := HandleFinished(number, world, t);
      } else {
        MoveTo(Scan(number + 1), false);
      }
    }

    /** The walk over the failed list, if there is one; it gives up at the first
        participant when the try-locks fail.  (What it writes is not modelled.) */
    method WalkFailedList(lockFails: bool) returns (gaveUp: bool)
      ensures gaveUp <==>
        lockFails && cfg.failedList && exists p | 0 <= p < processorData.Length :: processorData[p].Participant()
    {
      gaveUp := false;
      if cfg.failedList {
        for number := 0 to processorData.Length
          invariant !gaveUp && (lockFails ==> forall p | 0 <= p < number :: !processorData[p].Participant())
        {
          if !processorData[number].isBsp && processorData[number].enabled {
            if lockFails { return true; }
          }
        }
      }
    }

    /** The end of the callback: the time limit and the counters. */
    method CompareCounts(lockFails: bool)
      requires Valid() && bsp == Check
      modifies this, processorData
      ensures Valid() && (bsp == Waiting || bsp == Signalled)
      ensures Continues(old(origin), old(run)) && processorData == old(processorData)
    {
      ghost var before := Abs();
      if cfg.limit != 0 && timeout == 0 {
        var gaveUp := WalkFailedList(lockFails);
        if gaveUp {
          bsp := Waiting;
          Record(before, true);
          return;
        }
        timedOut := true;
        finishCount := startCount;
      }
      if finishCount != startCount {
        bsp := Waiting;
      } else {
        signals := signals + 1;
        bsp := Signalled;
      }
      Record(before, lockFails);
    }

    method StartTick()
      requires Valid() && bsp == Waiting
      modifies this
      ensures Valid() && bsp == Scan(0)
      ensures Continues(old(origin), old(run)) && processorData == old(processorData)
    {
      ghost var before := Abs();
      if cfg.limit != 0 { timeout := Elapse(timeout, cfg.interval); }
      bsp := Scan(0);
      Record(before, false);
    }

    /** The periodic timer callback. */
    method CheckAllAPsStatus(world: Surroundings)
      requires Valid() && bsp == Waiting
      modifies this, processorData
      ensures Valid() && (bsp == Waiting || bsp == Signalled)
      ensures Continues(old(origin), old(run)) && processorData == old(processorData)
    {
      StartTick();
      var t: nat := 0;
      for number := 0 to processorData.Length
        invariant Valid() && bsp == Scan(number)
        invariant Continues(old(origin), old(run)) && processorData == old(processorData)
      {
        Interleave(world.aps(t));
        var gaveUp;
        gaveUp, t := ScanAp(number, world, t);
        if gaveUp { return; }
      }
      MoveTo(Check, false);
      Interleave(world.aps(t));
      CompareCounts(world.lockFails(t));
    }

    // ------------------------------------------------------- blocking calls

    /** The write of the loop that polls. */
    method FillPolled(number: nat)
      requires Valid() && bsp == PollSet(number)
      modifies this, processorData
      ensures Valid() && bsp == Poll(number + 1) && timeout == old(timeout)
      ensures Continues(old(origin), old(run)) && processorData == old(processorData)
    {
      ghost var before := Abs();
      SetApProcedure(number, cfg.work);
      bsp := Poll(number + 1);
      Record(before, false);
    }

    method CountFinished(number: nat)
      requires Valid() && bsp == Poll(number) && number < processorData.Length
      requires processorData[number].Participant() && processorData[number].state == Finished
      modifies this
      ensures Valid() && bsp == (if cfg.singleThread then Find(number, 0) else Retire(number))
      ensures timeout == old(timeout)
      ensures Continues(old(origin), old(run)) && processorData == old(processorData)
    {
      ghost var before := Abs();
      finishCount := finishCount + 1;
      bsp := if cfg.singleThread then Find(number, 0) else Retire(number);
      Record(before, false);
    }

    /** One turn of the loop over the processors. */
    method PollAp(number: nat, world: Surroundings, t0: nat) returns (t: nat)
      requires Valid() && bsp == Poll(number) && number < processorData.Length
      modifies this, processorData
      ensures Valid() && bsp == Poll(number + 1) && timeout == old(timeout)
      ensures Continues(old(origin), old(run)) && processorData == old(processorData)
    {
      t := t0;
      if processorData[number].isBsp || !processorData[number].enabled {
        MoveTo(Poll(number + 1), false);
      } else if processorData[number].state == Ready {
        MoveTo(PollSet(number), false);
        Interleave(world.aps(t));
        t := t + 1;
        FillPolled(number);
      } else if processorData[number].state == Finished {
        CountFinished(number);
        t := HandleFinished(number, world, t);
      } else {
        MoveTo(Poll(number + 1), false);
      }
    }

    method PollAll(world: Surroundings, t0: nat) returns (t: nat)
      requires Valid() && bsp == Poll(0)
      modifies this, processorData
      ensures Valid() && bsp == PollCheck && timeout == old(timeout)
      ensures Continues(old(origin), old(run)) && processorData == old(processorData)
    {
      t := t0;
      for number := 0 to processorData.Length
        invariant Valid() && bsp == Poll(number) && timeout == old(timeout)
        invariant Continues(old(origin), old(run)) && processorData == old(processorData)
      {
        Interleave(world.aps(t));
        t := PollAp(number, world, t + 1);
      }
      MoveTo(PollCheck, false);
    }

    /** The end of a turn: return, or stall for another one. */
    method StallOrReturn() returns (done: bool)
      requires Valid() && bsp == PollCheck
      modifies this
      ensures Valid() && bsp == if done then Left else Poll(0)
      ensures done <==> old(finishCount == startCount || (cfg.limit != 0 && timeout == 0))
      ensures !done ==> timeout == Elapse(old(timeout), cfg.interval)
      ensures run == old(run) + [Bsp(false)]
      ensures Continues(old(origin), old(run)) && processorData == old(processorData)
    {
      ghost var before := Abs();
      done := true;
      bsp := Left;
      if finishCount == startCount {
      } else if cfg.limit != 0 && timeout == 0 {
        timedOut := true;
      } else {
        timeout := Elapse(timeout, cfg.interval);
        bsp := Poll(0);
        done := false;
      }
      Record(before, false);
    }

    /** One turn of the polling loop. */
    method TakeTurn(world: Surroundings, t0: nat) returns (t: nat, returned: bool)
      requires Valid() && bsp == Poll(0)
      modifies this, processorData
      ensures Valid() && bsp == if returned then Left else Poll(0)
      ensures cfg.limit != 0 && old(timeout) == 0 ==> returned
      ensures !returned ==> timeout == Elapse(old(timeout), cfg.interval)
      ensures Continues(old(origin), old(run)) && processorData == old(processorData) && |run| > |old(run)|
    {
      t := PollAll(world, t0);
      Interleave(world.aps(t));
      t := t + 1;
      returned := StallOrReturn();
    }

    /** StartupAllAPs in blocking mode.  With a time limit it returns, whatever the
        APs do in between.  Without one the loop need not end; the method gives its
        first turns, and tells whether it has returned in them. */
    method StartupAllApsAndWait(world: Surroundings, turns: nat) returns (returned: bool)
      requires Valid() && bsp == Prepare(0, Ready) && cfg.blocking
      requires cfg.limit < SPAN64 && 0 < cfg.interval < SPAN64 && (cfg.limit != 0 ==> timeout <= cfg.limit)
      modifies this, processorData
      ensures Valid() && bsp == if returned then Left else Poll(0)
      ensures cfg.limit != 0 ==> returned
      ensures !returned ==> |run| >= |old(run)| + turns
      ensures Continues(old(origin), old(run)) && processorData == old(processorData)
    {
      var t := AssignStates(world);
      var turn := 0;
      while cfg.limit != 0 || turn < turns
        invariant Valid() && bsp == Poll(0) && (cfg.limit != 0 ==> timeout <= cfg.limit) && turn <= |run| - |old(run)|
        invariant Continues(old(origin), old(run)) && processorData == old(processorData)
        decreases if cfg.limit != 0 then timeout else turns - turn
      {
        ghost var remaining := timeout;
        t, returned := TakeTurn(world, t);
        if returned { return; }
        if cfg.limit != 0 { NextStall([], remaining, cfg.interval); }
        turn := turn + 1;
      }
      returned := false;
    }
  }

  /** The same for a blocking call that was not cut short by its limit, if no AP
      cleared its slot between the BSP's read of READY and its write. */
  lemma BlockingOutcome(m: MpSystem)
    requires m.Valid() && Initial(m.origin) && m.bsp == Left && !m.timedOut && CalmRun(m.origin, m.run)
    ensures forall p | 0 <= p < m.processorData.Length && m.origin.cpu[p].Participant() ::
      m.processorData[p].calls == [m.cfg.work] && m.processorData[p].state == Idle
    ensures m.cfg.singleThread ==> m.order == Roster(m.origin.cpu)
  {
    forall p | 0 <= p < m.processorData.Length && m.origin.cpu[p].Participant()
      ensures m.processorData[p].calls == [m.cfg.work] && m.processorData[p].state == Idle
    {
      ExactlyOnce(m.origin, m.run, p);
    }
    if m.cfg.singleThread { SingleThreadOrder(m.origin, m.run); }
  }

  /** What the caller finds when WaitEvent is signalled before the time limit,
      whatever the APs did in between. */
  lemma Outcome(m: MpSystem)
    requires m.Valid() && Initial(m.origin) && m.bsp == Signalled && !m.timedOut
    ensures forall p | 0 <= p < m.processorData.Length && m.origin.cpu[p].Participant() ::
      m.processorData[p].calls == [m.cfg.work] && m.processorData[p].state == Idle
    ensures m.signals == 1
    ensures m.cfg.singleThread ==> m.order == Roster(m.origin.cpu)
  {
    NonBlockingIsCalm(m.origin, m.run);
    forall p | 0 <= p < m.processorData.Length && m.origin.cpu[p].Participant()
      ensures m.processorData[p].calls == [m.cfg.work] && m.processorData[p].state == Idle
    {
      ExactlyOnce(m.origin, m.run, p);
    }
    SignalledOnce(m.origin, m.run);
    if m.cfg.singleThread { SingleThreadOrder(m.origin, m.run); }
  }
}
