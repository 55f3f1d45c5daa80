/** The emulator's multi-processor dispatcher as a transition system.

    One step is one lock-protected section (or one unlocked action) of one
    thread.  The application processors (APs) run the idle loop; the bootstrap
    processor (BSP) runs StartupAllAPs and, in non-blocking mode, the timer
    callback CpuCheckAllAPsStatus.  A schedule says which thread takes each
    step, so a statement about every schedule is about every interleaving. */
module MpProtocol {
  import opened Common

  datatype CpuState = Idle | Blocked | Ready | Busy | Finished

  /** The pair (Procedure, ProcedureArgument) handed to an AP. */
  datatype Work = Work(procedure: nat, argument: nat)

  /** Where an AP stands in the idle loop. */
  datatype ApPc =
    | Polling              // about to copy the procedure slot
    | Fetched(copy: Work)  // has a non-null copy, about to set BUSY
    | Announced(job: Work) // BUSY is set, about to call
    | Inside               // running the procedure
    | Returned             // about to clear the slot
    | Cleared              // about to set FINISHED

  /** A processor data block, the AP's program counter, and two logs: every
      value written to State during the run, and every call of a procedure. */
  datatype Cpu = Cpu(
    isBsp: bool, enabled: bool,
    state: CpuState, slot: Option<Work>, pc: ApPc,
    history: seq<CpuState>, calls: seq<Work>)
  {
    predicate Participant() { !isBsp && enabled }

    predicate AtRest() {
      && state == Idle && slot == None && pc == Polling
      && history == [] && calls == []
    }

    function SetState(st: CpuState): Cpu {
      this.(state := st, history := history + [st])
    }
  }

  /** Where the BSP stands.  `n` is the loop variable of the enclosing loop. */
  datatype BspPc =
    | Prepare(n: nat, initial: CpuState) // assign the initial states
    | Dispatch(n: nat)                   // non-blocking: read a state
    | DispatchSet(n: nat)                //   ... it was READY: fill the slot
    | Arm                                //   ... save the work, start the timer
    | Waiting                            // between timer ticks
    | Scan(n: nat)                       // callback: try-lock and read a state
    | Check                              // callback: compare the counters
    | Signalled                          // WaitEvent has been signalled
    | Poll(n: nat)                       // blocking: read a state
    | PollSet(n: nat)                    //   ... it was READY: fill the slot
    | PollCheck                          //   ... compare the counters
    | Left                               // blocking call has returned
    | Find(n: nat, k: nat)               // GetNextBlockedNumber, at index k
    | Promote(n: nat, k: nat)            // set processor k READY
    | Feed(n: nat, k: nat)               // fill the slot of processor k
    | Retire(n: nat)                     // set processor n IDLE

  /** The arguments of the call, and the poll interval.  `failedList` tells
      whether the caller asks for the list of failed processors. */
  datatype Config = Config(
    blocking: bool, singleThread: bool, failedList: bool, work: Work, limit: nat, interval: nat)

  datatype Sys = Sys(
    cfg: Config,
    cpu: seq<Cpu>,
    finishCount: nat, startCount: nat,
    saved: Option<Work>,
    timeout: nat,
    signals: nat, timedOut: bool,
    order: seq<nat>, // which AP entered the procedure, in order of entry
    bsp: BspPc)

  /** A scheduling choice.  `lockFails` decides the try-locks of the callback. */
  datatype Choice = Ap(p: nat) | Bsp(lockFails: bool)

  // ---------------------------------------------------------------- timing

  function StallTime(timeout: nat, interval: nat): nat {
    if timeout < interval && timeout != 0 then timeout else interval
  }

  function Elapse(timeout: nat, interval: nat): nat {
    Sub64(timeout, StallTime(timeout, interval))
  }

  // ------------------------------------------------------------------ steps

  /** One step of an AP's idle loop, on its own data block. */
  function ApMove(c: Cpu): Cpu {
    match c.pc
    case Polling => if c.slot.Some? then c.(pc := Fetched(c.slot.value)) else c
    case Fetched(w) => c.SetState(Busy).(pc := Announced(w))
    case Announced(w) => c.(pc := Inside, calls := c.calls + [w])
    case Inside => c.(pc := Returned)
    case Returned => c.(pc := Cleared, slot := None)
    case Cleared => c.SetState(Finished).(pc := Polling)
  }

  predicate SameShape(s: Sys, t: Sys) {
    |t.cpu| == |s.cpu| && t.cfg == s.cfg
  }

  function ApStep(s: Sys, p: nat): Sys
    requires p < |s.cpu|
  {
    s.(cpu := s.cpu[p := ApMove(s.cpu[p])],
       order := if s.cpu[p].pc.Announced? then s.order + [p] else s.order)
  }

  function SetProcedure(s: Sys, p: nat, w: Work): Sys
    requires p < |s.cpu|
  {
    s.(cpu := s.cpu[p := s.cpu[p].(slot := Some(w))])
  }

  function WriteState(s: Sys, p: nat, st: CpuState): Sys
    requires p < |s.cpu|
  {
    s.(cpu := s.cpu[p := s.cpu[p].SetState(st)])
  }

  function PrepareStep(s: Sys, n: nat, initial: CpuState): (t: Sys)
    ensures WellFormed(t) && SameShape(s, t)
  {
    if n >= |s.cpu| then
      s.(bsp := if s.cfg.blocking then Poll(0) else Dispatch(0))
    else if !s.cpu[n].Participant() then
      s.(bsp := Prepare(n + 1, initial))
    else
      WriteState(s, n, initial).(
        startCount := s.startCount + 1,
        bsp := Prepare(n + 1, if s.cfg.singleThread then Blocked else initial))
  }

  function DispatchStep(s: Sys, n: nat): (t: Sys)
    requires !s.cfg.blocking
    ensures WellFormed(t) && SameShape(s, t)
  {
    if n >= |s.cpu| then s.(bsp := Arm)
    else if s.cpu[n].Participant() && s.cpu[n].state == Ready then s.(bsp := DispatchSet(n))
    else s.(bsp := Dispatch(n + 1))
  }

  function TickStep(s: Sys): (t: Sys)
    requires !s.cfg.blocking && Callback(s)
    ensures WellFormed(t) && SameShape(s, t)
  {
    s.(timeout := if s.cfg.limit != 0 then Elapse(s.timeout, s.cfg.interval) else s.timeout,
       bsp := Scan(0))
  }

  function ScanStep(s: Sys, n: nat, lockFails: bool): (t: Sys)
    requires !s.cfg.blocking && Callback(s)
    ensures WellFormed(t) && SameShape(s, t)
  {
    if n >= |s.cpu| then s.(bsp := Check)
    else if !s.cpu[n].Participant() then s.(bsp := Scan(n + 1))
    else if lockFails then s.(bsp := Waiting)
    else if s.cpu[n].state == Finished then
      s.(bsp := if s.cfg.singleThread then Find(n, 0) else Retire(n))
    else s.(bsp := Scan(n + 1))
  }

  function FindStep(s: Sys, n: nat, k: nat): (t: Sys)
    requires n < |s.cpu| && Callback(s)
    ensures WellFormed(t) && SameShape(s, t)
  {
    if k >= |s.cpu| then s.(bsp := Retire(n))
    else if !s.cpu[k].isBsp && s.cpu[k].state == Blocked then s.(bsp := Promote(n, k))
    else s.(bsp := Find(n, k + 1))
  }

  function RetireStep(s: Sys, n: nat): (t: Sys)
    requires n < |s.cpu| && Callback(s)
    ensures WellFormed(t) && SameShape(s, t)
  {
    if s.cfg.blocking then WriteState(s, n, Idle).(bsp := Poll(n + 1))
    else WriteState(s, n, Idle).(finishCount := s.finishCount + 1, bsp := Scan(n + 1))
  }

  /** The walk over the failed list tries a lock for each participant. */
  predicate Walks(s: Sys) {
    s.cfg.failedList && exists p | 0 <= p < |s.cpu| :: s.cpu[p].Participant()
  }

  /** On a time-out the callback may still give up on a try-lock of that walk;
      otherwise it forces the counters to agree. */
  function CheckStep(s: Sys, lockFails: bool): (t: Sys)
    requires !s.cfg.blocking && Callback(s)
    ensures WellFormed(t) && SameShape(s, t)
  {
    var expired := s.cfg.limit != 0 && s.timeout == 0;
    if expired && lockFails && Walks(s) then s.(bsp := Waiting)
    else if expired then
      s.(finishCount := s.startCount, timedOut := true, signals := s.signals + 1, bsp := Signalled)
    else if s.finishCount != s.startCount then s.(bsp := Waiting)
    else s.(signals := s.signals + 1, bsp := Signalled)
  }

  function PollStep(s: Sys, n: nat): (t: Sys)
    requires s.cfg.blocking
    ensures WellFormed(t) && SameShape(s, t)
  {
    if n >= |s.cpu| then s.(bsp := PollCheck)
    else if !s.cpu[n].Participant() then s.(bsp := Poll(n + 1))
    else if s.cpu[n].state == Ready then s.(bsp := PollSet(n))
    else if s.cpu[n].state == Finished then
      s.(finishCount := s.finishCount + 1,
         bsp := if s.cfg.singleThread then Find(n, 0) else Retire(n))
    else s.(bsp := Poll(n + 1))
  }

  function PollCheckStep(s: Sys): (t: Sys)
    requires s.cfg.blocking
    ensures WellFormed(t) && SameShape(s, t)
  {
    if s.finishCount == s.startCount then s.(bsp := Left)
    else if s.cfg.limit != 0 && s.timeout == 0 then s.(timedOut := true, bsp := Left)
    else s.(timeout := Elapse(s.timeout, s.cfg.interval), bsp := Poll(0))
  }

  function BspStep(s: Sys, lockFails: bool): (t: Sys)
    requires WellFormed(s)
    ensures WellFormed(t) && SameShape(s, t)
  {
    match s.bsp
    case Prepare(n, initial) => PrepareStep(s, n, initial)
    case Dispatch(n) => DispatchStep(s, n)
    case DispatchSet(n) => SetProcedure(s, n, s.cfg.work).(bsp := Dispatch(n + 1))
    case Arm => s.(saved := Some(s.cfg.work), timeout := s.cfg.limit, bsp := Waiting)
    case Waiting => TickStep(s)
    case Scan(n) => ScanStep(s, n, lockFails)
    case Check => CheckStep(s, lockFails)
    case Poll(n) => PollStep(s, n)
    case PollSet(n) => SetProcedure(s, n, s.cfg.work).(bsp := Poll(n + 1))
    case PollCheck => PollCheckStep(s)
    case Find(n, k) => FindStep(s, n, k)
    case Promote(n, k) =>
      WriteState(s, k, Ready).(bsp := if s.cfg.blocking then Retire(n) else Feed(n, k))
    case Feed(n, k) => SetProcedure(s, k, s.saved.value).(bsp := Retire(n))
    case Retire(n) => RetireStep(s, n)
    case Signalled => s
    case Left => s
  }

  /** Program counters belong to the mode of the call, the processor numbers
      they hold are in range, and the callback has its work saved. */
  predicate WellFormed(s: Sys) {
    match s.bsp
    case Prepare(_, _) => true
    case Dispatch(_) => !s.cfg.blocking
    case DispatchSet(n) => !s.cfg.blocking && n < |s.cpu|
    case Arm => !s.cfg.blocking
    case Poll(_) => s.cfg.blocking
    case PollSet(n) => s.cfg.blocking && n < |s.cpu|
    case PollCheck => s.cfg.blocking
    case Left => s.cfg.blocking
    case Find(n, _) => n < |s.cpu| && Callback(s)
    case Promote(n, k) => n < |s.cpu| && k < |s.cpu| && Callback(s)
    case Retire(n) => n < |s.cpu| && Callback(s)
    case Feed(n, k) => !s.cfg.blocking && n < |s.cpu| && k < |s.cpu| && Callback(s)
    case _ => !s.cfg.blocking && Callback(s)
  }

  predicate Callback(s: Sys) {
    s.cfg.blocking || s.saved == Some(s.cfg.work)
  }

  function Step(s: Sys, c: Choice): (t: Sys)
    requires WellFormed(s)
    ensures WellFormed(t) && SameShape(s, t)
  {
    match c
    case Ap(p) => if p < |s.cpu| && !s.cpu[p].isBsp then ApStep(s, p) else s
    case Bsp(lockFails) => BspStep(s, lockFails)
  }

  /** The state after a schedule. */
  function Exec(s: Sys, cs: seq<Choice>): (t: Sys)
    requires WellFormed(s)
    ensures WellFormed(t) && SameShape(s, t)
    decreases |cs|
  {
    if cs == [] then s else Step(Exec(s, cs[..|cs| - 1]), cs[|cs| - 1])
  }

  /** The state in which a call of StartupAllAPs begins to assign states: no
      run is in progress, so every AP is idle with an empty slot. */
  predicate Initial(s: Sys) {
    && s.bsp == Prepare(0, Ready)
    && s.finishCount == 0 && s.startCount == 0 && s.timeout == s.cfg.limit
    && s.signals == 0 && !s.timedOut && s.order == []
    && (forall p | 0 <= p < |s.cpu| && !s.cpu[p].isBsp :: s.cpu[p].AtRest())
    && (forall p | 0 <= p < |s.cpu| && s.cpu[p].isBsp ::
          s.cpu[p].slot == None && s.cpu[p].pc == Polling && s.cpu[p].calls == [])
  }
}
