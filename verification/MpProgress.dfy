/** What brings a run closer to its end.  A non-blocking run never gets stuck:
    from every reachable state some continuation signals WaitEvent. */
module MpProgress {
  import opened Common
  import opened MpProtocol
  import opened MpInvariant
  import opened MpBspSteps
  import opened MpTheorems

  /** The phases the participants still have to go through. */
  function Todo(part: seq<bool>, phase: seq<int>): int
    requires |part| == |phase|
  {
    if part == [] then 0
    else
      var m := |part| - 1;
      Todo(part[..m], phase[..m]) + if part[m] then 10 - phase[m] else 0
  }

  lemma {:induction false} TodoUpdate(part: seq<bool>, phase: seq<int>, p: nat, f: int)
    requires |part| == |phase| && p < |part| && part[p]
    ensures Todo(part, phase[p := f]) == Todo(part, phase) + phase[p] - f
  {
    var m := |part| - 1;
    if p < m {
      TodoUpdate(part[..m], phase[..m], p, f);
      assert phase[p := f][..m] == phase[..m][p := f];
    } else {
      assert phase[p := f][..m] == phase[..m];
    }
  }

  lemma {:induction false} TodoBound(part: seq<bool>, phase: seq<int>)
    requires |part| == |phase|
    requires forall p | 0 <= p < |part| && part[p] :: phase[p] <= 10
    ensures Todo(part, phase) >= 0
  {
    if part != [] {
      TodoBound(part[..|part| - 1], phase[..|part| - 1]);
    }
  }

  predicate Mover(v: View, p: nat) {
    p < |v.part| == |v.phase| && v.part[p] && 3 <= v.phase[p] <= 8
  }

  /** A participant that waits for the BSP: to be retired, or in a blocking call
      to have its slot filled. */
  predicate Due(v: View, p: nat)
    requires p < |v.part| == |v.phase|
  {
    v.part[p] && (v.phase[p] == 9 || (v.cfg.blocking && v.phase[p] == 2))
  }

  /** Some participant at or above `n` waits for the BSP. */
  predicate Waits(v: View, n: nat)
    requires |v.part| == |v.phase|
  {
    exists p | n <= p < |v.part| :: Due(v, p)
  }

  /** The way from processor n on, when the BSP goes through the table. */
  function TableDistance(v: View, n: nat): nat
    requires |v.part| == |v.phase|
  {
    var N := |v.part|;
    var gap := if n <= N then N - n else 0;
    if AllDone(v) then gap + 3
    else if Waits(v, n) then N + 3 + gap
    else 2 * N + 6 + gap
  }

  predicate AllDone(v: View)
    requires |v.part| == |v.phase|
  {
    forall p | 0 <= p < |v.part| && v.part[p] :: v.phase[p] == 10
  }

  /** How far the BSP is from its next effect when no AP moves. */
  function Distance(v: View): int
    requires |v.part| == |v.phase|
  {
    var N := |v.part|;
    match v.bsp
    case Prepare(n, _) => 12 * N + 40 - n
    case Dispatch(n) => 10 * N + 30 - 2 * n
    case DispatchSet(n) => 10 * N + 29 - 2 * n
    case Arm => 4 * N + 20
    case Waiting => if AllDone(v) then N + 5 else 2 * N + 4
    case Scan(n) => TableDistance(v, n)
    case Poll(n) => TableDistance(v, n)
    case Check => if AllDone(v) then 1 else 2 * N + 5
    case PollCheck => if AllDone(v) then 1 else 2 * N + 5
    case Find(_, k) => N + 1 - k
    case _ => 0
  }

  predicate Less(v: View, t: View) {
    && |v.part| == |v.phase| && |t.part| == |t.phase|
    && Todo(t.part, t.phase) < Todo(v.part, v.phase)
  }

  predicate Closer(v: View, t: View) {
    || Less(v, t)
    || (|v.part| == |v.phase| && |t.part| == |t.phase|
        && Todo(t.part, t.phase) == Todo(v.part, v.phase) && 0 <= Distance(t) < Distance(v))
  }

  /** The BSP goes through the table, or is about to. */
  predicate Looking(v: View) {
    if v.cfg.blocking then v.bsp.Poll? || v.bsp.PollCheck? else v.bsp.Waiting? || v.bsp.Scan? || v.bsp.Check?
  }

  /** SingleThread loses no wake-up: if no AP can move and not all are retired,
      one is FINISHED and waits for the callback, or in a blocking call READY and
      waits to be handed the work. */
  lemma SomeoneWaits(v: View)
    requires ViewInv(v) && Looking(v)
    requires !AllDone(v) && forall p | 0 <= p < |v.part| :: !Mover(v, p)
    ensures Waits(v, 0)
  {
    forall p | 0 <= p < |v.part| && v.part[p] ensures RestsOrWaits(v, p) {
      assert Allowed(v, p, v.phase[p]);
      assert !Mover(v, p);
    }
    if exists r | 0 <= r < |v.part| :: v.part[r] && v.phase[r] == 1 {
      var r :| 0 <= r < |v.part| && v.part[r] && v.phase[r] == 1;
      assert Allowed(v, r, 1);
      BelowBlocked(v, r);
    } else {
      var p :| 0 <= p < |v.part| && v.part[p] && v.phase[p] != 10;
      assert RestsOrWaits(v, p) && Due(v, p);
    }
  }

  /** Held back, retired, or waiting for the BSP. */
  predicate RestsOrWaits(v: View, p: nat)
    requires p < |v.part| == |v.phase|
  {
    v.phase[p] == 1 || v.phase[p] == 10 || Due(v, p)
  }

  lemma {:induction false} BelowBlocked(v: View, r: nat)
    requires |v.part| == |v.phase| && r < |v.part| && v.part[r] && v.phase[r] == 1
    requires Chained(v) && Led(v.part, v.phase)
    requires forall p | 0 <= p < |v.part| && v.part[p] :: RestsOrWaits(v, p)
    ensures Waits(v, 0)
  {
    var q :| 0 <= q < r && v.part[q];
    while exists j | q < j < r :: v.part[j]
      invariant 0 <= q < r && v.part[q]
      decreases r - q
    {
      var j :| q < j < r && v.part[j];
      q := j;
    }
    assert Successor(v.part, q, r) && RestsOrWaits(v, q);
    if v.phase[q] == 1 { BelowBlocked(v, q); }
  }

  /** The scan goes on, and does not stop at a try-lock. */
  predicate ScansOn(v: View, pc: BspPc) {
    match v.bsp
    case Scan(n) =>
      if n >= |v.part| then pc == Check
      else if Is(v, n, 9) then Onward(v, n, pc)
      else pc == Scan(n + 1)
    case _ => true
  }

  lemma QuietCloser(v: View, pc: BspPc)
    requires ViewInv(v) && Quiet(v, pc) && !v.bsp.Poll? && !v.bsp.PollCheck?
    requires v.bsp.Waiting? || v.bsp.Scan? || v.bsp.Check? ==> !v.cfg.blocking
    requires forall p | 0 <= p < |v.part| :: !Mover(v, p)
    requires v.bsp.Check? ==> !AllDone(v)
    requires ScansOn(v, pc)
    ensures Closer(v, v.(bsp := pc))
  {
    match v.bsp
    case Waiting => TickCloser(v);
    case Scan(n) => ScanCloser(v, n, pc);
    case Check =>
    case _ =>
  }

  /** The same processors are waited for, whatever the BSP does. */
  lemma SameTable(v: View, t: View, n: nat)
    requires |v.part| == |v.phase| && t.part == v.part && t.phase == v.phase && t.cfg == v.cfg
    ensures (Waits(v, n) <==> Waits(t, n)) && (AllDone(v) <==> AllDone(t)) && TableDistance(v, n) == TableDistance(t, n)
  {
    if p :| n <= p < |v.part| && Due(v, p) { assert Due(t, p); }
    if p :| n <= p < |t.part| && Due(t, p) { assert Due(v, p); }
  }

  lemma TickCloser(v: View)
    requires ViewInv(v) && v.bsp == Waiting && !v.cfg.blocking
    requires forall p | 0 <= p < |v.part| :: !Mover(v, p)
    ensures Closer(v, v.(bsp := Scan(0)))
  {
    SameTable(v, v.(bsp := Scan(0)), 0);
    if !AllDone(v) { SomeoneWaits(v); }
  }

  lemma ScanCloser(v: View, n: nat, pc: BspPc)
    requires |v.part| == |v.phase| && v.bsp == Scan(n) && !v.cfg.blocking && ScansOn(v, pc)
    ensures Closer(v, v.(bsp := pc))
  {
    var t := v.(bsp := pc);
    SameTable(v, t, n);
    if n < |v.part| {
      if Due(v, n) { assert Waits(v, n) && !AllDone(v); } else { SameBeyond(v, t, n); }
    } else {
      assert !Waits(v, n);
    }
  }

  /** A look at a processor that does not wait changes nothing. */
  lemma SameBeyond(v: View, t: View, n: nat)
    requires |v.part| == |v.phase| && t.part == v.part && t.phase == v.phase && t.cfg == v.cfg
    requires n < |v.part| && !Due(v, n)
    ensures Waits(v, n) <==> Waits(t, n + 1)
    ensures AllDone(v) <==> AllDone(t)
    ensures TableDistance(t, n + 1) < TableDistance(v, n)
  {
    if Waits(v, n) {
      var p :| n <= p < |v.part| && Due(v, p);
      assert Due(t, p);
    }
    if Waits(t, n + 1) {
      var p :| n + 1 <= p < |v.part| && Due(t, p);
      assert Due(v, p);
    }
  }

  /** An effect on one participant: it moves up, so less is left to do. */
  lemma EffectCloser(v: View, t: View, p: nat, f: int)
    requires |v.part| == |v.phase| && p < |v.part| && v.part[p] && f > v.phase[p]
    requires t.part == v.part && t.phase == v.phase[p := f]
    ensures Less(v, t)
  {
    TodoUpdate(v.part, v.phase, p, f);
  }

  predicate Stuck(s: Sys) {
    && Inv(s) && s.bsp != Signalled && s.bsp != Left
    && forall p | 0 <= p < |s.cpu| :: !Mover(ViewOf(s), p)
  }

  lemma EffectStep(s: Sys, p: nat, c: Cpu)
    requires Inv(s) && p < |s.cpu| && s.cpu[p].Participant() && c.Participant()
    requires Phase(c, s.cfg.work) > Phase(s.cpu[p], s.cfg.work)
    requires BspStep(s, false).cpu == s.cpu[p := c]
    ensures Less(ViewOf(s), ViewOf(BspStep(s, false)))
  {
    UpdateView(s.cpu, p, c, s.cfg.work);
    EffectCloser(ViewOf(s), ViewOf(BspStep(s, false)), p, Phase(c, s.cfg.work));
  }

  /** The BSP's steps that move a processor on. */
  predicate Acts(s: Sys) {
    match s.bsp
    case Prepare(n, _) => n < |s.cpu| && s.cpu[n].Participant()
    case DispatchSet(_) => true
    case PollSet(n) => n < |s.cpu| && s.cpu[n].slot == None
    case Promote(_, _) => true
    case Feed(_, _) => true
    case Retire(_) => true
    case _ => false
  }

  lemma EffectSteps(s: Sys)
    requires Inv(s) && Acts(s)
    ensures Less(ViewOf(s), ViewOf(BspStep(s, false)))
  {
    match s.bsp
    case Prepare(n, initial) =>
      assert Allowed(ViewOf(s), n, ViewOf(s).phase[n]);
      StatePhase(s.cpu[n], s.cfg.work);
      EffectStep(s, n, s.cpu[n].SetState(initial));
    case DispatchSet(n) =>
      StatePhase(s.cpu[n], s.cfg.work);
      EffectStep(s, n, s.cpu[n].(slot := Some(s.cfg.work)));
    case PollSet(n) =>
      StatePhase(s.cpu[n], s.cfg.work);
      EffectStep(s, n, s.cpu[n].(slot := Some(s.cfg.work)));
    case Promote(_, k) =>
      StatePhase(s.cpu[k], s.cfg.work);
      EffectStep(s, k, s.cpu[k].SetState(Ready));
    case Feed(_, k) =>
      StatePhase(s.cpu[k], s.cfg.work);
      EffectStep(s, k, s.cpu[k].(slot := Some(s.cfg.work)));
    case Retire(n) =>
      StatePhase(s.cpu[n], s.cfg.work);
      EffectStep(s, n, s.cpu[n].SetState(Idle));
  }

  /** A signal, or a return, is the end of the way. */
  lemma EndCloser(v: View, t: View)
    requires |v.part| == |v.phase| && (v.bsp == Check || v.bsp == PollCheck) && (t.bsp == Signalled || t.bsp == Left)
    requires t.part == v.part && t.phase == v.phase
    ensures Closer(v, t)
  {
  }

  /** Unless all are done, the counters differ. */
  lemma CountersTell(v: View)
    requires ViewInv(v) && (v.bsp == Check || v.bsp == PollCheck) && !v.timedOut && v.finishCount != v.startCount
    ensures !AllDone(v)
  {
    DoneBound(v.part, v.phase);
  }

  lemma CheckCloser(s: Sys)
    requires Stuck(s) && s.bsp.Check?
    ensures Closer(ViewOf(s), ViewOf(BspStep(s, false)))
  {
    var t := BspStep(s, false);
    if t.bsp == Waiting {
      CountersTell(ViewOf(s));
      QuietCloser(ViewOf(s), Waiting);
    } else {
      EndCloser(ViewOf(s), ViewOf(t));
    }
  }

  // ----------------------------------------------------------- blocking calls

  /** Another turn of the polling loop finds someone. */
  lemma TurnCloser(v: View, t: View)
    requires ViewInv(v) && v.bsp == PollCheck && v.cfg.blocking && !AllDone(v)
    requires forall p | 0 <= p < |v.part| :: !Mover(v, p)
    requires t.part == v.part && t.phase == v.phase && t.cfg == v.cfg && t.bsp == Poll(0)
    ensures Closer(v, t)
  {
    SomeoneWaits(v);
    var p :| 0 <= p < |v.part| && Due(v, p);
    assert Due(t, p);
  }

  lemma PollCheckCloser(s: Sys)
    requires Stuck(s) && s.bsp.PollCheck?
    ensures Closer(ViewOf(s), ViewOf(BspStep(s, false)))
  {
    var t := BspStep(s, false);
    if t.bsp == Left {
      EndCloser(ViewOf(s), ViewOf(t));
    } else {
      CountersTell(ViewOf(s));
      TurnCloser(ViewOf(s), ViewOf(t));
    }
  }

  /** What the polling loop does at processor n. */
  predicate PollsOn(v: View, n: nat, pc: BspPc)
    requires |v.part| == |v.phase|
  {
    if n >= |v.part| then pc == PollCheck
    else if Is(v, n, 9) then Onward(v, n, pc)
    else if Is(v, n, 2) then pc == PollSet(n)
    else pc == Poll(n + 1)
  }

  lemma PollViewCloser(v: View, t: View, n: nat)
    requires |v.part| == |v.phase| && v.bsp == Poll(n) && v.cfg.blocking
    requires t.part == v.part && t.phase == v.phase && t.cfg == v.cfg && PollsOn(v, n, t.bsp)
    ensures Closer(v, t)
  {
    if n < |v.part| {
      if Due(v, n) { assert Waits(v, n) && !AllDone(v); } else { SameBeyond(v, t, n); }
    } else {
      assert AllDone(v) <==> AllDone(t);
      assert !Waits(v, n);
    }
  }

  lemma PollIs(s: Sys)
    requires Stuck(s) && s.bsp.Poll?
    ensures var t := BspStep(s, false); t.cpu == s.cpu && PollsOn(ViewOf(s), s.bsp.n, t.bsp)
  {
    var n := s.bsp.n;
    if n < |s.cpu| && s.cpu[n].Participant() {
      CpuStates(s, n);
      StatePhase(s.cpu[n], s.cfg.work);
      assert !Mover(ViewOf(s), n);
    }
  }

  lemma PollCloser(s: Sys)
    requires Stuck(s) && s.bsp.Poll?
    ensures Closer(ViewOf(s), ViewOf(BspStep(s, false)))
  {
    PollIs(s);
    PollViewCloser(ViewOf(s), ViewOf(BspStep(s, false)), s.bsp.n);
  }

  /** An AP whose slot is filled already is on its way. */
  lemma LateFill(s: Sys)
    requires Inv(s) && s.bsp.PollSet? && !Acts(s)
    ensures Mover(ViewOf(s), s.bsp.n) && BspStep(s, false).cpu == s.cpu
  {
    CpuStates(s, s.bsp.n);
    StatePhase(s.cpu[s.bsp.n], s.cfg.work);
    assert s.cpu[s.bsp.n := s.cpu[s.bsp.n]] == s.cpu;
  }

  // ------------------------------------------------------------ reading steps

  /** Steps that end a turn, or look at a processor in a blocking call. */
  predicate Polls(pc: BspPc) {
    pc.Check? || pc.Poll? || pc.PollCheck? || pc.PollSet?
  }

  /** The processor whose state a reading step looks at. */
  function Looked(pc: BspPc): nat {
    match pc
    case Find(_, k) => k
    case Dispatch(n) => n
    case Scan(n) => n
    case _ => 0
  }

  lemma ReaderView(s: Sys, lockFails: bool)
    requires WellFormed(s) && !Polls(s.bsp) && !Acts(s)
    ensures ViewOf(BspStep(s, lockFails)) == ViewOf(s).(bsp := BspStep(s, lockFails).bsp)
  {
  }

  lemma ReaderCloser(s: Sys)
    requires Stuck(s) && !Polls(s.bsp) && !Acts(s)
    ensures Closer(ViewOf(s), ViewOf(BspStep(s, false)))
  {
    ReaderQuiet(s);
    ReaderView(s, false);
    QuietCloser(ViewOf(s), BspStep(s, false).bsp);
  }

  lemma ReaderQuiet(s: Sys)
    requires Inv(s) && s.bsp != Signalled && s.bsp != Left && !Polls(s.bsp) && !Acts(s)
    ensures Quiet(ViewOf(s), BspStep(s, false).bsp) && ScansOn(ViewOf(s), BspStep(s, false).bsp)
  {
    var p := Looked(s.bsp);
    if p < |s.cpu| && s.cpu[p].Participant() {
      CpuStates(s, p);
      StatePhase(s.cpu[p], s.cfg.work);
    }
  }

  lemma BspCloser(s: Sys)
    requires Stuck(s)
    ensures Closer(ViewOf(s), ViewOf(BspStep(s, false)))
  {
    if Acts(s) {
      EffectSteps(s);
    } else {
      match s.bsp
      case Check => CheckCloser(s);
      case Poll(_) => PollCloser(s);
      case PollCheck => PollCheckCloser(s);
      case PollSet(_) => LateFill(s);
      case _ => ReaderCloser(s);
    }
  }

  lemma MoverCloser(s: Sys, p: nat)
    requires Inv(s) && p < |s.cpu| && Mover(ViewOf(s), p) && Calm(s, Ap(p))
    ensures Less(ViewOf(s), ViewOf(ApStep(s, p)))
  {
    ApMoves(s, p);
    EffectCloser(ViewOf(s), ViewOf(ApStep(s, p)), p, ViewOf(s).phase[p] + 1);
  }

  /** Some choice brings the run closer to its end. */
  lemma Progress(s: Sys) returns (c: Choice)
    requires Inv(s) && !s.cfg.blocking && s.bsp != Signalled
    ensures Inv(Step(s, c)) && Closer(ViewOf(s), ViewOf(Step(s, c)))
  {
    if p :| 0 <= p < |s.cpu| && Mover(ViewOf(s), p) {
      c := Ap(p);
      MoverCloser(s, p);
    } else {
      c := Bsp(false);
      BspCloser(s);
    }
    StepKeeps(s, c);
  }

  lemma TodoOf(s: Sys)
    requires Inv(s)
    ensures Todo(ViewOf(s).part, ViewOf(s).phase) >= 0
  {
    var v := ViewOf(s);
    forall p | 0 <= p < |v.part| && v.part[p] ensures v.phase[p] <= 10 {
      assert Allowed(v, p, v.phase[p]);
    }
    TodoBound(v.part, v.phase);
  }

  lemma {:induction false} FinishFrom(s: Sys) returns (cs: seq<Choice>)
    requires Inv(s) && !s.cfg.blocking
    ensures Exec(s, cs).bsp == Signalled
    decreases var v := ViewOf(s); Todo(v.part, v.phase), Distance(ViewOf(s))
  {
    if s.bsp == Signalled {
      cs := [];
    } else {
      var c := Progress(s);
      TodoOf(s);
      TodoOf(Step(s, c));
      var rest := FinishFrom(Step(s, c));
      cs := [c] + rest;
      ExecCons(s, c, rest);
    }
  }

  /** From every state of every non-blocking run, whatever was scheduled so
      far, the run can still end with WaitEvent signalled. */
  lemma NeverStuck(s: Sys, cs: seq<Choice>)
    requires Run(s, cs) && !s.cfg.blocking
    ensures exists more :: Exec(s, cs + more).bsp == Signalled
  {
    Reached(s, cs);
    var more := FinishFrom(Exec(s, cs));
    ExecAppend(s, cs, more);
  }
}
