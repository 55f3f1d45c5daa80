/** Every step of the BSP keeps the invariant. */
module MpBspSteps {
  import opened Common
  import opened MpProtocol
  import opened MpInvariant

  // ------------------------------------------------ on views: phases change

  function PrepareView(v: View, n: nat, initial: CpuState): View
    requires n < |v.phase|
  {
    v.(phase := v.phase[n := if initial == Ready then 2 else 1],
       startCount := v.startCount + 1,
       bsp := Prepare(n + 1, if v.cfg.singleThread then Blocked else initial))
  }

  lemma PrepareTurn(v: View, n: nat, initial: CpuState)
    requires |v.part| == |v.phase| && v.bsp == Prepare(n, initial) && n < |v.part| && v.part[n]
    requires AllAllowed(v) && BspFacts(v) && InTurn(v) && Led(v.part, v.phase) && v.cfg.singleThread
    ensures var t := PrepareView(v, n, initial); InTurn(t) && Chained(t) && Led(t.part, t.phase)
  {
    forall p | 0 <= p < |v.part| && v.part[p]
      ensures if p < n then v.phase[p] == 1 || v.phase[p] == 2 else v.phase[p] == 0
    {
      assert Allowed(v, p, v.phase[p]);
    }
    var t := PrepareView(v, n, initial);
    assert forall p | 0 <= p < |v.part| && v.part[p] :: t.phase[p] <= 2;
  }

  lemma PrepareAllowed(v: View, n: nat, initial: CpuState)
    requires |v.part| == |v.phase| && v.bsp == Prepare(n, initial) && n < |v.part| && v.part[n]
    requires AllAllowed(v) && BspFacts(v)
    ensures AllAllowed(PrepareView(v, n, initial))
    ensures v.phase[n] == 0 && forall p | 0 <= p < |v.part| && v.part[p] :: 0 <= v.phase[p] <= 2
  {
    var t := PrepareView(v, n, initial);
    forall p | 0 <= p < |v.part| && v.part[p] ensures Allowed(t, p, t.phase[p]) && 0 <= v.phase[p] <= 2 {
      assert Allowed(v, p, v.phase[p]);
    }
    assert Allowed(v, n, v.phase[n]);
  }

  lemma PrepareFacts(v: View, n: nat, initial: CpuState)
    requires |v.part| == |v.phase| && v.bsp == Prepare(n, initial) && n < |v.part| && v.part[n] && BspFacts(v)
    ensures BspFacts(PrepareView(v, n, initial))
  {
    assert HasBelow(v.part, n + 1);
  }

  lemma PrepareCounted(v: View, n: nat, initial: CpuState)
    requires |v.part| == |v.phase| && v.bsp == Prepare(n, initial) && n < |v.part| && v.part[n]
    requires Counted(v) && v.phase[n] == 0
    ensures Counted(PrepareView(v, n, initial))
  {
    DoneUpdate(v.part, v.phase, n, if initial == Ready then 2 else 1);
    assert v.part[..n + 1][..n] == v.part[..n];
  }

  lemma PrepareSet(v: View, n: nat, initial: CpuState)
    requires ViewInv(v) && v.bsp == Prepare(n, initial) && n < |v.part| && v.part[n]
    ensures ViewInv(PrepareView(v, n, initial))
  {
    PrepareAllowed(v, n, initial);
    PrepareFacts(v, n, initial);
    PrepareCounted(v, n, initial);
    LoggedSame(v, PrepareView(v, n, initial));
    if v.cfg.singleThread { PrepareTurn(v, n, initial); }
  }

  /** Filling the slot of a released processor that has not fetched it yet. */
  lemma FillInTurn(v: View, k: nat, pc: BspPc)
    requires |v.part| == |v.phase| && InTurn(v) && Chained(v) && k < |v.phase| && v.phase[k] == 2
    requires forall q | 0 <= q < |v.part| && Releasing(v, q) :: Releasing(v.(bsp := pc), q)
    ensures InTurn(v.(phase := v.phase[k := 3], bsp := pc)) && Chained(v.(phase := v.phase[k := 3], bsp := pc))
  {
    var t := v.(phase := v.phase[k := 3], bsp := pc);
    forall q, r | 0 <= q < r < |v.part| && v.part[q] && v.part[r] && t.phase[r] >= 2
      ensures t.phase[q] == 10 || (t.phase[q] == 9 && Releasing(t, q))
    {
      assert v.phase[r] >= 2;
    }
  }

  lemma DispatchSetKeeps(v: View, n: nat)
    requires ViewInv(v) && v.bsp == DispatchSet(n)
    ensures n < |v.phase| && ViewInv(v.(phase := v.phase[n := 3], bsp := Dispatch(n + 1)))
  {
    var t := v.(phase := v.phase[n := 3], bsp := Dispatch(n + 1));
    DoneUpdate(v.part, v.phase, n, 3);
    LoggedSame(v, t);
    if v.cfg.singleThread {
      FillInTurn(v, n, Dispatch(n + 1));
      LedSame(v.part, v.phase, n, 3);
    }
    forall p | 0 <= p < |v.part| && v.part[p] ensures Allowed(t, p, t.phase[p]) && v.phase[p] != 10 {
      assert Allowed(v, p, v.phase[p]);
    }
  }

  function PromoteView(v: View, k: nat, pc: BspPc): View
    requires k < |v.phase|
  {
    v.(phase := v.phase[k := 2], bsp := pc)
  }

  lemma PromoteInTurn(v: View, n: nat, k: nat, pc: BspPc)
    requires |v.part| == |v.phase| && v.bsp == Promote(n, k) && (pc == Feed(n, k) || pc == Retire(n))
    requires BspFacts(v) && AllAllowed(v) && InTurn(v)
    ensures InTurn(PromoteView(v, k, pc))
  {
    var t := PromoteView(v, k, pc);
    forall q, r | 0 <= q < r < |v.part| && v.part[q] && v.part[r] && t.phase[r] >= 2
      ensures t.phase[q] == 10 || (t.phase[q] == 9 && Releasing(t, q))
    {
      assert Allowed(v, q, v.phase[q]);
    }
  }

  lemma PromoteChained(v: View, n: nat, k: nat, pc: BspPc)
    requires |v.part| == |v.phase| && v.bsp == Promote(n, k) && BspFacts(v) && InTurn(v) && Chained(v)
    ensures Chained(PromoteView(v, k, pc)) && SuccessorReleased(PromoteView(v, k, pc), n)
  {
  }

  lemma PromoteKeeps(v: View, n: nat, k: nat, pc: BspPc)
    requires ViewInv(v) && v.bsp == Promote(n, k)
    requires pc == if v.cfg.blocking then Retire(n) else Feed(n, k)
    ensures k < |v.phase| && ViewInv(v.(phase := v.phase[k := 2], bsp := pc))
  {
    var t := v.(phase := v.phase[k := 2], bsp := pc);
    DoneUpdate(v.part, v.phase, k, 2);
    LoggedSame(v, t);
    LedSame(v.part, v.phase, k, 2);
    PromoteInTurn(v, n, k, pc);
    PromoteChained(v, n, k, pc);
    assert AllAllowed(t) by {
      forall p | 0 <= p < |v.part| && v.part[p] ensures Allowed(t, p, t.phase[p]) {
        assert Allowed(v, p, v.phase[p]);
      }
    }
  }
  
  lemma FeedKeeps(v: View, n: nat, k: nat)
    requires ViewInv(v) && v.bsp == Feed(n, k) && !v.cfg.blocking
    ensures k < |v.phase| && ViewInv(v.(phase := v.phase[k := 3], bsp := Retire(n)))
  {
    var t := v.(phase := v.phase[k := 3], bsp := Retire(n));
    DoneUpdate(v.part, v.phase, k, 3);
    LoggedSame(v, t);
    LedSame(v.part, v.phase, k, 3);
    FillInTurn(v, k, Retire(n));
    assert SuccessorReleased(t, n) by {
      assert SuccessorReleased(v, n);
    }
    assert AllAllowed(t) by {
      forall p | 0 <= p < |v.part| && v.part[p] ensures Allowed(t, p, t.phase[p]) {
        assert Allowed(v, p, v.phase[p]);
      }
    }
  }

  lemma PollSetFills(v: View, n: nat)
    requires ViewInv(v) && v.bsp == PollSet(n) && v.cfg.blocking && n < |v.phase| && v.phase[n] == 2
    ensures ViewInv(v.(phase := v.phase[n := 3], bsp := Poll(n + 1)))
  {
    var t := v.(phase := v.phase[n := 3], bsp := Poll(n + 1));
    DoneUpdate(v.part, v.phase, n, 3);
    LoggedSame(v, t);
    if v.cfg.singleThread {
      FillInTurn(v, n, Poll(n + 1));
      LedSame(v.part, v.phase, n, 3);
    }
    PollAllowed(v, t);
  }

  lemma PollSetLate(v: View, n: nat)
    requires ViewInv(v) && v.bsp == PollSet(n) && v.cfg.blocking
    ensures ViewInv(v.(bsp := Poll(n + 1)))
  {
    LoggedSame(v, v.(bsp := Poll(n + 1)));
    PollAllowed(v, v.(bsp := Poll(n + 1)));
  }

  /** A phase may only go from released to filled when the polling goes on. */
  lemma PollAllowed(v: View, t: View)
    requires |v.part| == |v.phase| == |t.phase| && t.part == v.part && t.cfg == v.cfg && v.cfg.blocking
    requires AllAllowed(v) && v.bsp.PollSet? && t.bsp.Poll?
    requires forall p | 0 <= p < |v.part| :: t.phase[p] == v.phase[p] || t.phase[p] == 3
    ensures AllAllowed(t)
  {
    forall p | 0 <= p < |v.part| && v.part[p] ensures Allowed(t, p, t.phase[p]) {
      assert Allowed(v, p, v.phase[p]);
    }
  }

  lemma PollSetKeeps(v: View, n: nat)
    requires ViewInv(v) && v.bsp == PollSet(n) && v.cfg.blocking
    ensures n < |v.phase|
    ensures ViewInv(v.(phase := v.phase[n := if v.phase[n] == 2 then 3 else v.phase[n]], bsp := Poll(n + 1)))
  {
    if v.phase[n] == 2 {
      PollSetFills(v, n);
    } else {
      PollSetLate(v, n);
      assert v.phase[n := v.phase[n]] == v.phase;
    }
  }

  function RetireView(v: View, n: nat): View
    requires n < |v.phase|
  {
    v.(phase := v.phase[n := 10],
       finishCount := v.finishCount + Bit(!v.cfg.blocking),
       bsp := if v.cfg.blocking then Poll(n + 1) else Scan(n + 1))
  }

  lemma RetireTurn(v: View, n: nat)
    requires |v.part| == |v.phase| && v.bsp == Retire(n) && Is(v, n, 9)
    requires InTurn(v) && Chained(v) && SuccessorReleased(v, n)
    ensures InTurn(RetireView(v, n)) && Chained(RetireView(v, n))
  {
  }

  lemma RetireKeeps(v: View, n: nat)
    requires ViewInv(v) && v.bsp == Retire(n)
    ensures n < |v.phase| && ViewInv(RetireView(v, n))
  {
    var t := RetireView(v, n);
    DoneUpdate(v.part, v.phase, n, 10);
    LoggedSame(v, t);
    if v.cfg.singleThread {
      RetireTurn(v, n);
      LedSame(v.part, v.phase, n, 10);
    }
    assert AllAllowed(t) by {
      forall p | 0 <= p < |v.part| && v.part[p] ensures Allowed(t, p, t.phase[p]) {
        assert Allowed(v, p, v.phase[p]);
      }
    }
  }

  // ------------------------------------------- on views: only the BSP moves

  /** The program counters between which nothing about the APs changes. */
  predicate Quiet(v: View, pc: BspPc) {
    match v.bsp
    case Prepare(n, initial) =>
      if n < |v.part| then !v.part[n] && pc == Prepare(n + 1, initial)
      else pc == if v.cfg.blocking then Poll(0) else Dispatch(0)
    case Dispatch(n) =>
      if n >= |v.part| then pc == Arm
      else if n < |v.phase| && v.part[n] && 2 <= v.phase[n] <= 4 then pc == DispatchSet(n)
      else pc == Dispatch(n + 1)
    case Arm => pc == Waiting
    case Waiting => pc == Scan(0)
    case Scan(n) => Onward(v, n, pc) || pc == Check || pc == Waiting || pc == Scan(n + 1)
    case Check => pc == Waiting
    case Poll(n) =>
      || pc == PollCheck || pc == Poll(n + 1)
      || (pc == PollSet(n) && n < |v.part| && n < |v.phase| && v.part[n] && 2 <= v.phase[n] <= 4)
    case PollCheck => pc == Poll(0)
    case Find(n, k) =>
      if k >= |v.part| then pc == Retire(n)
      else if Is(v, k, 1) then pc == Promote(n, k) else pc == Find(n, k + 1)
    case _ => false
  }

  predicate Onward(v: View, n: nat, pc: BspPc) {
    Is(v, n, 9) && pc == if v.cfg.singleThread then Find(n, 0) else Retire(n)
  }

  lemma QuietAllowed(v: View, pc: BspPc)
    requires ViewInv(v) && Quiet(v, pc) && (v.bsp.Scan? ==> !v.cfg.blocking)
    ensures AllAllowed(v.(bsp := pc))
  {
    var t := v.(bsp := pc);
    forall p | 0 <= p < |v.part| && v.part[p] ensures Allowed(t, p, t.phase[p]) {
      assert Allowed(v, p, v.phase[p]);
    }
  }

  lemma QuietFacts(v: View, pc: BspPc)
    requires ViewInv(v) && Quiet(v, pc)
    ensures BspFacts(v.(bsp := pc))
  {
    match v.bsp
    case Dispatch(n) => ReadFacts(v, n, pc);
    case Poll(n) => ReadFacts(v, n, pc);
    case _ =>
  }

  lemma ReadFacts(v: View, n: nat, pc: BspPc)
    requires ViewInv(v) && Quiet(v, pc) && (v.bsp == Dispatch(n) || v.bsp == Poll(n))
    ensures BspFacts(v.(bsp := pc))
  {
    if n < |v.part| && v.part[n] { assert Allowed(v, n, v.phase[n]); }
  }

  lemma QuietTurn(v: View, pc: BspPc)
    requires |v.part| == |v.phase| && InTurn(v) && Chained(v) && Quiet(v, pc)
    ensures InTurn(v.(bsp := pc)) && Chained(v.(bsp := pc))
  {
  }

  lemma QuietCounted(v: View, pc: BspPc)
    requires |v.part| == |v.phase| && Counted(v) && Quiet(v, pc) && BspFacts(v)
    requires v.bsp.Scan? || v.bsp.Check? ==> !v.cfg.blocking
    requires v.bsp.Poll? ==> v.cfg.blocking
    ensures Counted(v.(bsp := pc))
  {
    if v.bsp.Prepare? && v.bsp.n < |v.part| {
      assert v.part[..v.bsp.n + 1][..v.bsp.n] == v.part[..v.bsp.n];
    } else if v.bsp.Prepare? {
      assert v.part[..v.bsp.n] == v.part;
    }
  }

  lemma QuietKeeps(v: View, pc: BspPc)
    requires ViewInv(v) && Quiet(v, pc)
    requires v.bsp.Scan? || v.bsp.Check? ==> !v.cfg.blocking
    requires v.bsp.Poll? ==> v.cfg.blocking
    ensures ViewInv(v.(bsp := pc))
  {
    QuietAllowed(v, pc);
    QuietFacts(v, pc);
    if v.cfg.singleThread { QuietTurn(v, pc); }
    QuietCounted(v, pc);
    LoggedSame(v, v.(bsp := pc));
  }

  // ------------------------------------------- on views: the counters move

  function CollectedView(v: View, pc: BspPc): View {
    v.(finishCount := v.finishCount + 1, bsp := pc)
  }

  /** Blocking: FINISHED was read, and FinishCount goes up before the retiring. */
  lemma CollectKeeps(v: View, n: nat, pc: BspPc)
    requires ViewInv(v) && v.bsp == Poll(n) && v.cfg.blocking && Onward(v, n, pc)
    ensures ViewInv(CollectedView(v, pc))
  {
    var t := CollectedView(v, pc);
    assert AllAllowed(t) by {
      forall p | 0 <= p < |v.part| && v.part[p] ensures Allowed(t, p, t.phase[p]) {
        assert Allowed(v, p, v.phase[p]);
      }
    }
    LoggedSame(v, t);
  }

  /** The run ends: completed, or cut short by the time limit. */
  /** The run ends, timed out or not. */
  function StopView(v: View, expired: bool): View {
    v.(finishCount := if v.bsp.Check? then v.startCount else v.finishCount,
       signals := if v.bsp.Check? then v.signals + 1 else v.signals,
       timedOut := expired,
       bsp := if v.bsp.Check? then Signalled else Left)
  }

  lemma StopKeeps(v: View, expired: bool)
    requires ViewInv(v) && (v.bsp.Check? || v.bsp.PollCheck?) && (v.bsp.PollCheck? <==> v.cfg.blocking)
    requires expired || v.finishCount == v.startCount
    ensures ViewInv(StopView(v, expired))
  {
    var t := StopView(v, expired);
    assert AllAllowed(t) by {
      forall p | 0 <= p < |v.part| && v.part[p] ensures Allowed(t, p, t.phase[p]) {
        assert Allowed(v, p, v.phase[p]);
      }
    }
    LoggedSame(v, t);
  }

  // ------------------------------------------------------ on system states

  lemma CpuStates(s: Sys, p: nat)
    requires Inv(s) && p < |s.cpu| && s.cpu[p].Participant()
    ensures Phase(s.cpu[p], s.cfg.work) != -1
  {
    assert Allowed(ViewOf(s), p, ViewOf(s).phase[p]);
  }

  /** The steps that touch no data block and no counter. */
  lemma QuietStep(s: Sys, t: Sys)
    requires Inv(s) && WellFormed(t) && t.cpu == s.cpu && t.cfg == s.cfg
    requires t.finishCount == s.finishCount && t.startCount == s.startCount && t.order == s.order
    requires t.signals == s.signals && t.timedOut == s.timedOut
    requires Quiet(ViewOf(s), t.bsp)
    ensures Inv(t)
  {
    QuietKeeps(ViewOf(s), t.bsp);
    Transport(t, ViewOf(s).(bsp := t.bsp));
  }

  lemma PrepareSetView(s: Sys)
    requires Inv(s) && s.bsp.Prepare? && s.bsp.n < |s.cpu| && s.cpu[s.bsp.n].Participant()
    ensures Bystanders(BspStep(s, false).cpu)
    ensures ViewOf(BspStep(s, false)) == PrepareView(ViewOf(s), s.bsp.n, s.bsp.initial)
  {
    var n := s.bsp.n;
    assert Allowed(ViewOf(s), n, ViewOf(s).phase[n]);
    StatePhase(s.cpu[n], s.cfg.work);
    UpdateView(s.cpu, n, s.cpu[n].SetState(s.bsp.initial), s.cfg.work);
  }

  lemma PrepareSetStep(s: Sys)
    requires Inv(s) && s.bsp.Prepare? && s.bsp.n < |s.cpu| && s.cpu[s.bsp.n].Participant()
    ensures Inv(BspStep(s, false))
  {
    PrepareSet(ViewOf(s), s.bsp.n, s.bsp.initial);
    PrepareSetView(s);
    Transport(BspStep(s, false), PrepareView(ViewOf(s), s.bsp.n, s.bsp.initial));
  }

  lemma PrepareStepKeeps(s: Sys)
    requires Inv(s) && s.bsp.Prepare?
    ensures Inv(BspStep(s, false))
  {
    if s.bsp.n < |s.cpu| && s.cpu[s.bsp.n].Participant() {
      PrepareSetStep(s);
    } else {
      QuietStep(s, BspStep(s, false));
    }
  }

  lemma DispatchStepKeeps(s: Sys)
    requires Inv(s) && s.bsp.Dispatch?
    ensures Inv(BspStep(s, false))
  {
    if s.bsp.n < |s.cpu| && s.cpu[s.bsp.n].Participant() {
      CpuStates(s, s.bsp.n);
      StatePhase(s.cpu[s.bsp.n], s.cfg.work);
    }
    QuietStep(s, BspStep(s, false));
  }

  /** Filling a slot: DispatchSet, Feed and PollSet. */
  lemma SetStepKeeps(s: Sys)
    requires Inv(s) && (s.bsp.DispatchSet? || s.bsp.Feed? || s.bsp.PollSet?)
    ensures Inv(BspStep(s, false))
  {
    var p := if s.bsp.Feed? then s.bsp.k else s.bsp.n;
    var v := ViewOf(s);
    var t := BspStep(s, false);
    var c := s.cpu[p].(slot := Some(s.cfg.work));
    if s.bsp.DispatchSet? { DispatchSetKeeps(v, p); }
    if s.bsp.Feed? { FeedKeeps(v, s.bsp.n, p); }
    if s.bsp.PollSet? { PollSetKeeps(v, p); }
    StatePhase(s.cpu[p], s.cfg.work);
    UpdateView(s.cpu, p, c, s.cfg.work);
    assert t.cpu == s.cpu[p := c];
    Transport(t, v.(phase := v.phase[p := if v.phase[p] == 2 then 3 else v.phase[p]], bsp := t.bsp));
  }

  lemma ScanStepKeeps(s: Sys, lockFails: bool)
    requires Inv(s) && s.bsp.Scan?
    ensures Inv(BspStep(s, lockFails))
  {
    if s.bsp.n < |s.cpu| && s.cpu[s.bsp.n].Participant() {
      CpuStates(s, s.bsp.n);
      StatePhase(s.cpu[s.bsp.n], s.cfg.work);
    }
    QuietStep(s, BspStep(s, lockFails));
  }

  lemma FindStepKeeps(s: Sys)
    requires Inv(s) && s.bsp.Find?
    ensures Inv(BspStep(s, false))
  {
    if s.bsp.k < |s.cpu| && s.cpu[s.bsp.k].Participant() {
      CpuStates(s, s.bsp.k);
      StatePhase(s.cpu[s.bsp.k], s.cfg.work);
    }
    QuietStep(s, BspStep(s, false));
  }

  lemma PromoteStepKeeps(s: Sys)
    requires Inv(s) && s.bsp.Promote?
    ensures Inv(BspStep(s, false))
  {
    var Promote(n, k) := s.bsp;
    var v := ViewOf(s);
    var t := BspStep(s, false);
    PromoteKeeps(v, n, k, t.bsp);
    StatePhase(s.cpu[k], s.cfg.work);
    UpdateView(s.cpu, k, s.cpu[k].SetState(Ready), s.cfg.work);
    Transport(t, v.(phase := v.phase[k := 2], bsp := t.bsp));
  }

  lemma RetireStepView(s: Sys)
    requires Inv(s) && s.bsp.Retire?
    ensures Bystanders(BspStep(s, false).cpu)
    ensures ViewOf(BspStep(s, false)) == RetireView(ViewOf(s), s.bsp.n)
  {
    StatePhase(s.cpu[s.bsp.n], s.cfg.work);
    UpdateView(s.cpu, s.bsp.n, s.cpu[s.bsp.n].SetState(Idle), s.cfg.work);
  }

  lemma RetireStepKeeps(s: Sys)
    requires Inv(s) && s.bsp.Retire?
    ensures Inv(BspStep(s, false))
  {
    RetireKeeps(ViewOf(s), s.bsp.n);
    RetireStepView(s);
    Transport(BspStep(s, false), RetireView(ViewOf(s), s.bsp.n));
  }

  lemma CheckStepKeeps(s: Sys, lockFails: bool)
    requires Inv(s) && (s.bsp.Check? || s.bsp.PollCheck?)
    ensures Inv(BspStep(s, lockFails))
  {
    var t := BspStep(s, lockFails);
    if t.bsp.Signalled? || t.bsp.Left? {
      StopStep(s, lockFails);
    } else {
      QuietStep(s, t);
    }
  }

  lemma StopIs(s: Sys, lockFails: bool)
    requires WellFormed(s) && (s.bsp.Check? || s.bsp.PollCheck?)
    requires BspStep(s, lockFails).bsp.Signalled? || BspStep(s, lockFails).bsp.Left?
    ensures var t := BspStep(s, lockFails);
      t.cpu == s.cpu && ViewOf(t) == StopView(ViewOf(s), t.timedOut) && (t.timedOut || s.finishCount == s.startCount)
  {
    var t := BspStep(s, lockFails);
    assert ViewOf(t).part == ViewOf(s).part && ViewOf(t).phase == ViewOf(s).phase;
  }

  lemma StopStep(s: Sys, lockFails: bool)
    requires Inv(s) && (s.bsp.Check? || s.bsp.PollCheck?)
    requires BspStep(s, lockFails).bsp.Signalled? || BspStep(s, lockFails).bsp.Left?
    ensures Inv(BspStep(s, lockFails))
  {
    var t := BspStep(s, lockFails);
    StopIs(s, lockFails);
    StopKeeps(ViewOf(s), t.timedOut);
    Transport(t, ViewOf(t));
  }

  lemma FinishedRead(s: Sys, p: nat)
    requires Inv(s) && p < |s.cpu| && s.cpu[p].Participant() && s.cpu[p].state == Finished
    ensures Is(ViewOf(s), p, 9)
  {
    CpuStates(s, p);
    StatePhase(s.cpu[p], s.cfg.work);
  }

  lemma CollectIs(s: Sys, n: nat, pc: BspPc)
    requires WellFormed(s) && s.bsp == Poll(n) && n < |s.cpu| && s.cpu[n].Participant() && s.cpu[n].state == Finished
    requires pc == if s.cfg.singleThread then Find(n, 0) else Retire(n)
    ensures BspStep(s, false) == s.(finishCount := s.finishCount + 1, bsp := pc)
  {
  }

  lemma CollectView(s: Sys, t: Sys)
    requires t == s.(finishCount := s.finishCount + 1, bsp := t.bsp)
    ensures ViewOf(t) == CollectedView(ViewOf(s), t.bsp)
  {
  }

  lemma CollectLands(s: Sys, t: Sys, n: nat, pc: BspPc)
    requires ViewInv(ViewOf(s)) && Bystanders(s.cpu) && s.cfg.blocking
    requires s.bsp == Poll(n) && n < |s.cpu| && Onward(ViewOf(s), n, pc)
    requires t == s.(finishCount := s.finishCount + 1, bsp := pc) && WellFormed(t)
    ensures Inv(t)
  {
    CollectView(s, t);
    CollectKeeps(ViewOf(s), n, pc);
    Transport(t, CollectedView(ViewOf(s), pc));
  }

  lemma CollectStep(s: Sys)
    requires Inv(s) && s.bsp.Poll? && s.bsp.n < |s.cpu| && s.cpu[s.bsp.n].Participant()
    requires s.cpu[s.bsp.n].state == Finished
    ensures Inv(BspStep(s, false))
  {
    var n := s.bsp.n;
    var pc := if s.cfg.singleThread then Find(n, 0) else Retire(n);
    FinishedRead(s, n);
    CollectIs(s, n, pc);
    CollectLands(s, s.(finishCount := s.finishCount + 1, bsp := pc), n, pc);
  }

  lemma PollStepKeeps(s: Sys)
    requires Inv(s) && s.bsp.Poll?
    ensures Inv(BspStep(s, false))
  {
    var n := s.bsp.n;
    if n < |s.cpu| && s.cpu[n].Participant() && s.cpu[n].state == Finished {
      CollectStep(s);
    } else {
      if n < |s.cpu| && s.cpu[n].Participant() {
        CpuStates(s, n);
        StatePhase(s.cpu[n], s.cfg.work);
      }
      QuietStep(s, BspStep(s, false));
    }
  }

  lemma StepKeeps(s: Sys, c: Choice)
    requires Inv(s) && Calm(s, c)
    ensures Inv(Step(s, c))
  {
    match c
    case Ap(p) =>
      if p < |s.cpu| && !s.cpu[p].isBsp { ApKeeps(s, p); }
    case Bsp(lockFails) =>
      match s.bsp
      case Prepare(_, _) => PrepareStepKeeps(s);
      case Dispatch(_) => DispatchStepKeeps(s);
      case DispatchSet(_) => SetStepKeeps(s);
      case Arm => QuietStep(s, Step(s, c));
      case Waiting => QuietStep(s, Step(s, c));
      case Scan(_) => ScanStepKeeps(s, lockFails);
      case Check => CheckStepKeeps(s, lockFails);
      case Poll(_) => PollStepKeeps(s);
      case PollSet(_) => SetStepKeeps(s);
      case PollCheck => CheckStepKeeps(s, lockFails);
      case Find(_, _) => FindStepKeeps(s);
      case Promote(_, _) => PromoteStepKeeps(s);
      case Feed(_, _) => SetStepKeeps(s);
      case Retire(_) => RetireStepKeeps(s);
      case Signalled =>
      case Left =>
  }
}
