/** Runs under a fair scheduler end, and how soon: every non-blocking run, and
    every blocking one in which no AP is started twice. */
module MpFairness {
  import opened Common
  import opened MpProtocol
  import opened MpInvariant
  import opened MpBspSteps
  import opened MpTheorems
  import opened MpProgress
  import opened MpRearm

  /** The phases still to be gone through. */
  function Remaining(s: Sys): int {
    Todo(ViewOf(s).part, ViewOf(s).phase)
  }

  /** How far the BSP is from its next effect if no AP moves. */
  function Far(s: Sys): int {
    Distance(ViewOf(s))
  }

  /** WaitEvent has been signalled, or the blocking call has returned. */
  predicate Ended(s: Sys) {
    s.bsp == Signalled || s.bsp == Left
  }

  predicate NoneMoves(s: Sys) {
    forall p | 0 <= p < |s.cpu| :: !Mover(ViewOf(s), p)
  }

  // --------------------------------------------------------- single steps

  /** Steps that do not act leave the processors alone. */
  lemma QuietCpu(s: Sys, lockFails: bool)
    requires Inv(s) && !Acts(s)
    ensures BspStep(s, lockFails).cpu == s.cpu
  {
    if s.bsp.PollSet? { LateFill(s); }
  }

  lemma ActsAnyway(s: Sys, lockFails: bool)
    requires WellFormed(s) && Acts(s)
    ensures BspStep(s, lockFails) == BspStep(s, false)
  {
  }

  /** An AP that is no mover does nothing. */
  lemma ApRests(s: Sys, p: nat)
    requires Inv(s) && p < |s.cpu| && !s.cpu[p].isBsp && !Mover(ViewOf(s), p)
    ensures ApStep(s, p) == s
  {
    if s.cpu[p].Participant() {
      CpuStates(s, p);
      ApPhase(s.cpu[p], s.cfg.work);
    }
    assert ApMove(s.cpu[p]) == s.cpu[p];
    assert s.cpu[p := s.cpu[p]] == s.cpu;
  }

  /** No step of any thread undoes progress: less is left to do, or no
      processor has changed. */
  lemma StepForward(s: Sys, c: Choice)
    requires Inv(s) && Calm(s, c)
    ensures Inv(Step(s, c))
    ensures Remaining(Step(s, c)) < Remaining(s) || Step(s, c).cpu == s.cpu
  {
    StepKeeps(s, c);
    match c
    case Ap(p) =>
      if p < |s.cpu| && !s.cpu[p].isBsp {
        if Mover(ViewOf(s), p) { MoverCloser(s, p); } else { ApRests(s, p); }
      }
    case Bsp(lockFails) =>
      if Acts(s) {
        ActsAnyway(s, lockFails);
        EffectSteps(s);
      } else {
        QuietCpu(s, lockFails);
      }
  }

  lemma SameCpuSameLeft(s: Sys, t: Sys)
    requires s.cpu == t.cpu && s.cfg == t.cfg
    ensures Remaining(s) == Remaining(t) && ViewOf(s).part == ViewOf(t).part && ViewOf(s).phase == ViewOf(t).phase
  {
  }

  // ------------------------------------------------------------- schedules

  lemma {:induction false} ExecForward(s: Sys, cs: seq<Choice>)
    requires Inv(s) && CalmRun(s, cs)
    ensures Inv(Exec(s, cs))
    ensures Remaining(Exec(s, cs)) < Remaining(s) || Exec(s, cs).cpu == s.cpu
  {
    if cs != [] {
      var t := Exec(s, cs[..|cs| - 1]);
      ExecForward(s, cs[..|cs| - 1]);
      StepForward(t, cs[|cs| - 1]);
      if t.cpu == s.cpu { SameCpuSameLeft(s, t); }
    }
  }

  lemma {:induction false} StaysEnded(s: Sys, cs: seq<Choice>)
    requires WellFormed(s) && Ended(s)
    ensures Ended(Exec(s, cs))
  {
    if cs != [] { StaysEnded(s, cs[..|cs| - 1]); }
  }

  function BspSteps(cs: seq<Choice>): nat {
    if cs == [] then 0 else BspSteps(cs[..|cs| - 1]) + if cs[|cs| - 1].Bsp? then 1 else 0
  }

  /** How many steps the BSP may take without effect, at most. */
  function Patience(n: nat): nat { 12 * n + 40 }

  lemma DistanceBound(s: Sys)
    requires Inv(s)
    ensures Far(s) <= Patience(|s.cpu|)
  {
  }

  /** A stretch of a schedule in which every AP takes a step, and the BSP enough
      steps for two timer callbacks, or two turns of the polling loop, with no
      try-lock failing. */
  predicate Round(cs: seq<Choice>, n: nat) {
    && (forall p | 0 <= p < n :: Ap(p) in cs)
    && (forall i | 0 <= i < |cs| :: cs[i] != Bsp(true))
    && BspSteps(cs) > Patience(n)
  }

  /** A schedule without progress comes by the state of an AP as it is at the
      start, so an AP that takes a step has nothing to do. */
  lemma {:induction false} NoMover(s: Sys, cs: seq<Choice>, p: nat)
    requires Inv(s) && CalmRun(s, cs) && Remaining(Exec(s, cs)) == Remaining(s) && Ap(p) in cs
    ensures !Mover(ViewOf(s), p)
  {
    var m := |cs| - 1;
    var t := Exec(s, cs[..m]);
    Standstill(s, cs);
    if cs[m] == Ap(p) {
      if Mover(ViewOf(t), p) { MoverMoves(t, p); }
    } else {
      assert Ap(p) in cs[..m];
      NoMover(s, cs[..m], p);
    }
  }

  lemma MoverMoves(s: Sys, p: nat)
    requires Inv(s) && Mover(ViewOf(s), p) && Calm(s, Ap(p))
    ensures Remaining(Step(s, Ap(p))) < Remaining(s)
  {
    CpuStates(s, p);
    MoverCloser(s, p);
  }

  lemma OneCloser(s: Sys, c: Choice)
    requires Inv(s) && !Ended(s) && c != Bsp(true) && Remaining(Step(s, c)) == Remaining(s) && NoneMoves(s)
    ensures c.Ap? ==> Step(s, c) == s
    ensures c.Bsp? ==> 0 <= Far(Step(s, c)) < Far(s)
  {
    match c
    case Ap(p) => if p < |s.cpu| && !s.cpu[p].isBsp { ApRests(s, p); }
    case Bsp(_) => BspCloser(s);
  }

  lemma StillNoneMoves(s: Sys, t: Sys)
    requires NoneMoves(s) && |t.cpu| == |s.cpu|
    requires ViewOf(t).part == ViewOf(s).part && ViewOf(t).phase == ViewOf(s).phase
    ensures NoneMoves(t)
  {
    forall p | 0 <= p < |t.cpu| ensures !Mover(ViewOf(t), p) {
      assert !Mover(ViewOf(s), p);
    }
  }

  lemma NotYetEnded(s: Sys, c: Choice)
    requires WellFormed(s) && !Ended(Step(s, c))
    ensures !Ended(s)
  {
  }

  /** Nothing left to do has changed between two states of a schedule, so
      nothing has changed in between. */
  lemma Standstill(s: Sys, cs: seq<Choice>)
    requires Inv(s) && cs != [] && CalmRun(s, cs) && Remaining(Exec(s, cs)) == Remaining(s)
    ensures var t := Exec(s, cs[..|cs| - 1]);
      && Inv(t) && Calm(t, cs[|cs| - 1]) && CalmRun(s, cs[..|cs| - 1]) && Remaining(t) == Remaining(s) && t.cpu == s.cpu
      && ViewOf(t).part == ViewOf(s).part && ViewOf(t).phase == ViewOf(s).phase
  {
    var m := |cs| - 1;
    var t := Exec(s, cs[..m]);
    ExecForward(s, cs[..m]);
    StepForward(t, cs[m]);
    if t.cpu == s.cpu { SameCpuSameLeft(s, t); }
    if Step(t, cs[m]).cpu == t.cpu { SameCpuSameLeft(t, Step(t, cs[m])); }
  }

  /** While no AP can move and nothing changes, each step of the BSP brings it
      closer to its next effect. */
  lemma {:induction false} BspCloses(s: Sys, cs: seq<Choice>)
    requires Inv(s) && CalmRun(s, cs) && Remaining(Exec(s, cs)) == Remaining(s) && !Ended(Exec(s, cs))
    requires NoneMoves(s) && forall i | 0 <= i < |cs| :: cs[i] != Bsp(true)
    ensures Far(Exec(s, cs)) + BspSteps(cs) <= Far(s)
    ensures BspSteps(cs) > 0 ==> Far(Exec(s, cs)) >= 0
  {
    if cs != [] {
      var before, c := cs[..|cs| - 1], cs[|cs| - 1];
      var t := Exec(s, before);
      Standstill(s, cs);
      StillNoneMoves(s, t);
      NotYetEnded(t, c);
      BspCloses(s, before);
      OneCloser(t, c);
    }
  }

  /** A round makes progress or finds the run ended. */
  lemma RoundProgress(s: Sys, cs: seq<Choice>)
    requires Inv(s) && CalmRun(s, cs) && Round(cs, |s.cpu|)
    ensures Ended(Exec(s, cs)) || Remaining(Exec(s, cs)) < Remaining(s)
  {
    ExecForward(s, cs);
    if Exec(s, cs).cpu == s.cpu { SameCpuSameLeft(s, Exec(s, cs)); }
    if Remaining(Exec(s, cs)) == Remaining(s) && !Ended(Exec(s, cs)) {
      forall p | 0 <= p < |s.cpu| ensures !Mover(ViewOf(s), p) { NoMover(s, cs, p); }
      assert NoneMoves(s);
      BspCloses(s, cs);
      DistanceBound(s);
    }
  }

  // ---------------------------------------------------------- fair schedules

  function Schedule(stretches: seq<seq<Choice>>): seq<Choice> {
    if stretches == [] then []
    else Schedule(stretches[..|stretches| - 1]) + stretches[|stretches| - 1]
  }

  /** How many of the stretches are rounds. */
  function Rounds(stretches: seq<seq<Choice>>, n: nat): nat {
    if stretches == [] then 0
    else Rounds(stretches[..|stretches| - 1], n) + if Round(stretches[|stretches| - 1], n) then 1 else 0
  }

  lemma {:induction false} RoundsCount(s: Sys, stretches: seq<seq<Choice>>)
    requires Inv(s) && CalmRun(s, Schedule(stretches))
    ensures var t := Exec(s, Schedule(stretches));
      Inv(t) && (Ended(t) || Remaining(t) + Rounds(stretches, |s.cpu|) <= Remaining(s))
  {
    if stretches != [] {
      var m := |stretches| - 1;
      var before, last := Schedule(stretches[..m]), stretches[m];
      var t := Exec(s, before);
      CalmAppend(s, before, last);
      RoundsCount(s, stretches[..m]);
      ExecAppend(s, before, last);
      ExecForward(t, last);
      if Ended(t) {
        StaysEnded(t, last);
      } else {
        if Exec(t, last).cpu == t.cpu { SameCpuSameLeft(t, Exec(t, last)); }
        if Round(last, |s.cpu|) { RoundProgress(t, last); }
      }
    }
  }

  lemma {:induction false} TodoAtRest(part: seq<bool>, phase: seq<int>)
    requires |part| == |phase| && forall p | 0 <= p < |part| && part[p] :: phase[p] >= 0
    ensures Todo(part, phase) <= 10 * |part|
  {
    if part != [] { TodoAtRest(part[..|part| - 1], phase[..|part| - 1]); }
  }

  lemma EndOf(t: Sys)
    requires WellFormed(t) && Ended(t)
    ensures t.bsp == if t.cfg.blocking then Left else Signalled
  {
  }

  lemma FairCalmRunsEnd(s: Sys, stretches: seq<seq<Choice>>)
    requires Run(s, Schedule(stretches)) && Rounds(stretches, |s.cpu|) > 10 * |s.cpu|
    ensures Exec(s, Schedule(stretches)).bsp == if s.cfg.blocking then Left else Signalled
  {
    InitialInv(s);
    RoundsCount(s, stretches);
    TodoAtRest(ViewOf(s).part, ViewOf(s).phase);
    TodoOf(Exec(s, Schedule(stretches)));
    EndOf(Exec(s, Schedule(stretches)));
  }

  /** Every fair non-blocking run ends.  However the schedule goes otherwise,
      and whatever try-locks fail elsewhere in it, once it holds more than ten
      rounds per processor WaitEvent has been signalled. */
  lemma FairRunsEnd(s: Sys, stretches: seq<seq<Choice>>)
    requires Initial(s) && WellFormed(s) && !s.cfg.blocking
    requires Rounds(stretches, |s.cpu|) > 10 * |s.cpu|
    ensures Exec(s, Schedule(stretches)).bsp == Signalled
  {
    NonBlockingIsCalm(s, Schedule(stretches));
    FairCalmRunsEnd(s, stretches);
  }

  lemma {:induction false} NoLimitNoTimeOut(s: Sys, cs: seq<Choice>)
    requires WellFormed(s) && s.cfg.limit == 0 && !s.timedOut
    ensures !Exec(s, cs).timedOut
  {
    if cs != [] { NoLimitNoTimeOut(s, cs[..|cs| - 1]); }
  }

  /** So without a time limit a fair run has every enabled AP call the procedure
      exactly once, and leaves it at rest. */
  lemma FairRunsComplete(s: Sys, stretches: seq<seq<Choice>>, p: nat)
    requires Initial(s) && WellFormed(s) && !s.cfg.blocking && s.cfg.limit == 0
    requires Rounds(stretches, |s.cpu|) > 10 * |s.cpu|
    requires p < |s.cpu| && s.cpu[p].Participant()
    ensures var c := Exec(s, Schedule(stretches)).cpu[p]; c.calls == [s.cfg.work] && c.state == Idle && c.slot == None
  {
    FairRunsEnd(s, stretches);
    NoLimitNoTimeOut(s, Schedule(stretches));
    NonBlockingIsCalm(s, Schedule(stretches));
    ExactlyOnce(s, Schedule(stretches), p);
  }

  /** A fair blocking run returns too, with the same outcome, if no AP clears its
      slot between the BSP's read of READY and its write. */
  lemma FairBlockingRunsComplete(s: Sys, stretches: seq<seq<Choice>>, p: nat)
    requires Run(s, Schedule(stretches)) && s.cfg.blocking && s.cfg.limit == 0
    requires Rounds(stretches, |s.cpu|) > 10 * |s.cpu|
    requires p < |s.cpu| && s.cpu[p].Participant()
    ensures var t := Exec(s, Schedule(stretches));
      t.bsp == Left && t.cpu[p].calls == [s.cfg.work] && t.cpu[p].state == Idle && t.cpu[p].slot == None
  {
    FairCalmRunsEnd(s, stretches);
    NoLimitNoTimeOut(s, Schedule(stretches));
    ExactlyOnce(s, Schedule(stretches), p);
  }

  // ------------------------------------------------------- rounds do exist

  lemma {:induction false} BspStepsAppend(a: seq<Choice>, k: nat)
    ensures BspSteps(a + Times(Bsp(false), k)) == BspSteps(a) + k
  {
    var all := a + Times(Bsp(false), k);
    if k == 0 {
      assert all == a;
    } else {
      BspStepsAppend(a, k - 1);
      assert all[..|all| - 1] == a + Times(Bsp(false), k - 1);
      assert all[|all| - 1] == Bsp(false);
    }
  }

  function ApsOnce(n: nat): seq<Choice> {
    seq(n, i requires 0 <= i < n => Ap(i))
  }

  /** Each AP once, then the BSP alone. */
  function PlainRound(n: nat): seq<Choice> {
    ApsOnce(n) + Times(Bsp(false), Patience(n) + 1)
  }

  lemma RoundsExist(n: nat)
    ensures Round(PlainRound(n), n) && |PlainRound(n)| == n + Patience(n) + 1
  {
    BspStepsAppend(ApsOnce(n), Patience(n) + 1);
    forall p | 0 <= p < n ensures Ap(p) in PlainRound(n) { assert PlainRound(n)[p] == Ap(p); }
  }

  lemma {:induction false} BspOnlyCalm(s: Sys, k: nat)
    requires WellFormed(s)
    ensures CalmRun(s, Times(Bsp(false), k))
  {
    if k > 0 { BspOnlyCalm(s, k - 1); }
  }

  lemma PlainRoundCalm(s: Sys)
    requires WellFormed(s) && !s.bsp.PollSet?
    ensures CalmRun(s, PlainRound(|s.cpu|))
  {
    var n := |s.cpu|;
    ApsOnlyCalm(s, ApsOnce(n));
    BspOnlyCalm(Exec(s, ApsOnce(n)), Patience(n) + 1);
    CalmAppend(s, ApsOnce(n), Times(Bsp(false), Patience(n) + 1));
  }

  /** From every state, of either mode, there are calm schedules with as many
      rounds as one likes: a BSP inside the window leaves it before the APs move. */
  lemma {:induction false} FairCalmRunsExist(s: Sys, k: nat) returns (stretches: seq<seq<Choice>>)
    requires WellFormed(s)
    ensures CalmRun(s, Schedule(stretches)) && Rounds(stretches, |s.cpu|) >= k
  {
    stretches := [];
    if k > 0 {
      stretches := FairCalmRunsExist(s, k - 1);
      if Exec(s, Schedule(stretches)).bsp.PollSet? { stretches := LeaveWindow(s, stretches); }
      var before, last := Schedule(stretches), PlainRound(|s.cpu|);
      PlainRoundCalm(Exec(s, before));
      CalmAppend(s, before, last);
      RoundsExist(|s.cpu|);
      stretches := Extend(stretches, last, |s.cpu|);
    }
  }

  lemma Extend(stretches: seq<seq<Choice>>, last: seq<Choice>, n: nat) returns (after: seq<seq<Choice>>)
    ensures Schedule(after) == Schedule(stretches) + last
    ensures Rounds(after, n) == Rounds(stretches, n) + if Round(last, n) then 1 else 0
  {
    after := stretches + [last];
    assert after[..|after| - 1] == stretches;
  }

  lemma LeaveWindow(s: Sys, stretches: seq<seq<Choice>>) returns (after: seq<seq<Choice>>)
    requires WellFormed(s) && CalmRun(s, Schedule(stretches)) && Exec(s, Schedule(stretches)).bsp.PollSet?
    ensures CalmRun(s, Schedule(after)) && !Exec(s, Schedule(after)).bsp.PollSet?
    ensures Rounds(after, |s.cpu|) >= Rounds(stretches, |s.cpu|)
  {
    after := Extend(stretches, [Bsp(false)], |s.cpu|);
    OutOfWindow(s, Schedule(stretches));
  }

  lemma OutOfWindow(s: Sys, cs: seq<Choice>)
    requires WellFormed(s) && CalmRun(s, cs) && Exec(s, cs).bsp.PollSet?
    ensures CalmRun(s, cs + [Bsp(false)]) && !Exec(s, cs + [Bsp(false)]).bsp.PollSet?
  {
    CalmSnoc(s, cs, Bsp(false));
    ExecSnoc(s, cs, Bsp(false));
    Filled(Exec(s, cs));
  }

  lemma CalmSnoc(s: Sys, cs: seq<Choice>, c: Choice)
    requires WellFormed(s) && CalmRun(s, cs) && Calm(Exec(s, cs), c)
    ensures CalmRun(s, cs + [c])
  {
    assert (cs + [c])[..|cs|] == cs;
  }

  lemma Filled(t: Sys)
    requires WellFormed(t) && t.bsp.PollSet?
    ensures !Step(t, Bsp(false)).bsp.PollSet?
  {
  }
}
