/** What holds in every state of every schedule of one StartupAllAPs run. */
module MpTheorems {
  import opened Common
  import opened MpProtocol
  import opened MpInvariant
  import opened MpBspSteps

  // ---------------------------------------------------------- reachability

  lemma InitialInv(s: Sys)
    requires Initial(s)
    ensures Inv(s)
  {
    DoneBound(Flags(s.cpu), Phases(s.cpu, s.cfg.work));
  }

  lemma {:induction false} ExecAppend(s: Sys, a: seq<Choice>, b: seq<Choice>)
    requires WellFormed(s)
    ensures Exec(s, a + b) == Exec(Exec(s, a), b)
    decreases |b|
  {
    if b == [] {
      assert a + b == a;
    } else {
      var m := |b| - 1;
      ExecAppend(s, a, b[..m]);
      assert (a + b)[..|a + b| - 1] == a + b[..m];
    }
  }

  lemma ExecSnoc(s: Sys, cs: seq<Choice>, c: Choice)
    requires WellFormed(s)
    ensures Exec(s, cs + [c]) == Step(Exec(s, cs), c)
  {
    assert (cs + [c])[..|cs|] == cs;
  }

  lemma ExecCons(s: Sys, c: Choice, cs: seq<Choice>)
    requires WellFormed(s)
    ensures Exec(s, [c] + cs) == Exec(Step(s, c), cs)
  {
    ExecAppend(s, [c], cs);
    assert [c][..0] == [];
    assert Exec(s, [c]) == Step(Exec(s, []), c);
  }

  /** No AP clears its slot between the BSP's read of READY and its write. */
  predicate CalmRun(s: Sys, cs: seq<Choice>)
    requires WellFormed(s)
    decreases |cs|
  {
    cs == [] || (CalmRun(s, cs[..|cs| - 1]) && Calm(Exec(s, cs[..|cs| - 1]), cs[|cs| - 1]))
  }

  /** A run as a caller starts it. */
  predicate Run(s: Sys, cs: seq<Choice>) {
    Initial(s) && WellFormed(s) && CalmRun(s, cs)
  }

  lemma {:induction false} Reached(s: Sys, cs: seq<Choice>)
    requires Run(s, cs)
    ensures Inv(Exec(s, cs))
  {
    if cs == [] {
      InitialInv(s);
    } else {
      Reached(s, cs[..|cs| - 1]);
      StepKeeps(Exec(s, cs[..|cs| - 1]), cs[|cs| - 1]);
    }
  }

  /** Non-blocking calls need no condition on the schedule. */
  lemma {:induction false} NonBlockingIsCalm(s: Sys, cs: seq<Choice>)
    requires WellFormed(s) && !s.cfg.blocking
    ensures CalmRun(s, cs)
  {
    if cs != [] {
      NonBlockingIsCalm(s, cs[..|cs| - 1]);
    }
  }

  lemma StepFlags(s: Sys, c: Choice)
    requires WellFormed(s)
    ensures forall p | 0 <= p < |s.cpu| ::
      Step(s, c).cpu[p].isBsp == s.cpu[p].isBsp && Step(s, c).cpu[p].enabled == s.cpu[p].enabled
  {
  }

  lemma {:induction false} FlagsKept(s: Sys, cs: seq<Choice>)
    requires WellFormed(s)
    ensures Flags(Exec(s, cs).cpu) == Flags(s.cpu)
  {
    if cs != [] {
      FlagsKept(s, cs[..|cs| - 1]);
      StepFlags(Exec(s, cs[..|cs| - 1]), cs[|cs| - 1]);
    }
  }

  // ---------------------------------------------------------------- safety

  /** At most one call per processor, of the procedure and argument that were
      passed in, and never on the BSP or a disabled processor. */
  lemma AtMostOnce(s: Sys, cs: seq<Choice>, p: nat)
    requires Run(s, cs) && p < |s.cpu|
    ensures Exec(s, cs).cpu[p].calls == []
         || (!s.cpu[p].isBsp && s.cpu[p].enabled && Exec(s, cs).cpu[p].calls == [s.cfg.work])
  {
    var t := Exec(s, cs);
    Reached(s, cs);
    FlagsKept(s, cs);
    assert Flags(t.cpu)[p] == Flags(s.cpu)[p];
    if t.cpu[p].Participant() { CpuStates(t, p); }
  }

  /** The entry log has one entry per call, and is ascending in SingleThread. */
  lemma EntryOrder(s: Sys, cs: seq<Choice>)
    requires Run(s, cs)
    ensures var t := Exec(s, cs);
      && (forall i, j | 0 <= i < j < |t.order| :: t.order[i] != t.order[j])
      && (forall p | 0 <= p < |t.cpu| :: p in t.order <==> t.cpu[p].calls != [])
      && (s.cfg.singleThread ==> forall i, j | 0 <= i < j < |t.order| :: t.order[i] < t.order[j])
  {
    var t := Exec(s, cs);
    Reached(s, cs);
    forall p | 0 <= p < |t.cpu| ensures p in t.order <==> t.cpu[p].calls != [] { LoggedCall(t, p); }
  }

  lemma CalledAt(c: Cpu, w: Work)
    requires Phase(c, w) != -1
    ensures c.calls != [] <==> Phase(c, w) >= 6
  {
  }

  lemma LoggedCall(t: Sys, p: nat)
    requires Inv(t) && p < |t.cpu|
    ensures p in t.order <==> t.cpu[p].calls != []
  {
    if t.cpu[p].Participant() {
      CpuStates(t, p);
      CalledAt(t.cpu[p], t.cfg.work);
    }
  }

  lemma InFlight(t: Sys, p: nat)
    requires Inv(t) && p < |t.cpu| && t.cpu[p].pc != Polling
    ensures ViewOf(t).part[p] && 4 <= ViewOf(t).phase[p] <= 8
  {
    if t.cpu[p].Participant() { CpuStates(t, p); }
  }

  lemma Exclusive(v: View, p: nat, q: nat)
    requires |v.part| == |v.phase| && InTurn(v) && p < |v.part| && q < |v.part|
    requires v.part[p] && 4 <= v.phase[p] <= 8 && v.part[q] && 4 <= v.phase[q] <= 8
    ensures p == q
  {
  }

  /** SingleThread: two processors are never between release and FINISHED at
      once, so never inside the procedure at once. */
  lemma OneAtATime(s: Sys, cs: seq<Choice>, p: nat, q: nat)
    requires Run(s, cs) && s.cfg.singleThread && p < |s.cpu| && q < |s.cpu|
    requires Exec(s, cs).cpu[p].pc != Polling && Exec(s, cs).cpu[q].pc != Polling
    ensures p == q
  {
    var t := Exec(s, cs);
    Reached(s, cs);
    InFlight(t, p);
    InFlight(t, q);
    Exclusive(ViewOf(t), p, q);
  }

  // ---------------------------------------------------------- conservation

  /** Started processors that are not back in IDLE. */
  function Outstanding(cpu: seq<Cpu>): nat {
    if cpu == [] then 0
    else
      var c := cpu[|cpu| - 1];
      Outstanding(cpu[..|cpu| - 1]) + Bit(c.Participant() && c.state != Idle)
  }

  lemma {:induction false} OutstandingComplement(cpu: seq<Cpu>, w: Work)
    requires forall p | 0 <= p < |cpu| && cpu[p].Participant() :: Phase(cpu[p], w) >= 1
    ensures Done(Flags(cpu), Phases(cpu, w)) + Outstanding(cpu) == Participants(Flags(cpu))
  {
    if cpu != [] {
      var m := |cpu| - 1;
      OutstandingComplement(cpu[..m], w);
      assert Flags(cpu)[..m] == Flags(cpu[..m]);
      assert Phases(cpu, w)[..m] == Phases(cpu[..m], w);
      if cpu[m].Participant() { IdleAt(cpu[m], w); }
    }
  }

  lemma IdleAt(c: Cpu, w: Work)
    requires Phase(c, w) >= 1
    ensures c.state == Idle <==> Phase(c, w) == 10
  {
  }

  /** Nothing is lost: in every state after the initial states are assigned and
      before a time-out, FinishCount and the outstanding APs add up to
      StartCount, which is the number of enabled APs. */
  lemma CountsConserved(s: Sys, cs: seq<Choice>)
    requires Run(s, cs) && !s.cfg.blocking
    requires var t := Exec(s, cs); !t.bsp.Prepare? && !t.timedOut
    ensures var t := Exec(s, cs);
      && t.finishCount + Outstanding(t.cpu) == t.startCount
      && t.startCount == Participants(Flags(s.cpu))
  {
    var t := Exec(s, cs);
    Reached(s, cs);
    FlagsKept(s, cs);
    forall p | 0 <= p < |t.cpu| && t.cpu[p].Participant() ensures Phase(t.cpu[p], s.cfg.work) >= 1 {
      assert Allowed(ViewOf(t), p, ViewOf(t).phase[p]);
    }
    OutstandingComplement(t.cpu, s.cfg.work);
  }

  /** WaitEvent is signalled at most once, at the end. */
  lemma {:induction false} SignalledOnce(s: Sys, cs: seq<Choice>)
    requires Run(s, cs)
    ensures Exec(s, cs).signals == (if Exec(s, cs).bsp == Signalled then 1 else 0)
  {
    Reached(s, cs);
  }

  // ------------------------------------------------------------ completion

  predicate Completed(t: Sys) {
    (t.bsp == Signalled || t.bsp == Left) && !t.timedOut
  }

  predicate FullCycle(c: Cpu) {
    || c.history == [Ready, Busy, Finished, Idle]
    || c.history == [Blocked, Ready, Busy, Finished, Idle]
  }

  /** When a run ends other than by time-out, every AP enabled at the start has
      called the procedure exactly once, has gone through the whole cycle of
      states and is at rest again. */
  lemma ExactlyOnce(s: Sys, cs: seq<Choice>, p: nat)
    requires Run(s, cs) && Completed(Exec(s, cs)) && p < |s.cpu| && !s.cpu[p].isBsp && s.cpu[p].enabled
    ensures var c := Exec(s, cs).cpu[p];
      && c.calls == [s.cfg.work] && FullCycle(c)
      && c.state == Idle && c.slot == None && c.pc == Polling
  {
    var t := Exec(s, cs);
    Reached(s, cs);
    FlagsKept(s, cs);
    assert Flags(t.cpu)[p] == Flags(s.cpu)[p];
    AllAtRest(t, p);
    AtTheEnd(t.cpu[p], s.cfg.work);
  }

  lemma AllAtRest(t: Sys, p: nat)
    requires Inv(t) && Completed(t) && p < |t.cpu| && t.cpu[p].Participant()
    ensures Phase(t.cpu[p], t.cfg.work) == 10
  {
    DoneBound(ViewOf(t).part, ViewOf(t).phase);
    assert ViewOf(t).phase[p] == 10;
  }

  lemma AtTheEnd(c: Cpu, w: Work)
    requires Phase(c, w) == 10
    ensures c.calls == [w] && FullCycle(c) && c.state == Idle && c.slot == None && c.pc == Polling
  {
  }

  /** The enabled APs in ascending order. */
  function Roster(cpu: seq<Cpu>): (r: seq<nat>)
    ensures forall p | 0 <= p < |cpu| :: p in r <==> !cpu[p].isBsp && cpu[p].enabled
    ensures forall i | 0 <= i < |r| :: r[i] < |cpu|
    ensures forall i, j | 0 <= i < j < |r| :: r[i] < r[j]
  {
    if cpu == [] then []
    else
      var m := |cpu| - 1;
      var r := Roster(cpu[..m]);
      if cpu[m].Participant() then r + [m] else r
  }

  lemma {:induction false} SameAscending(a: seq<nat>, b: seq<nat>)
    requires forall i, j | 0 <= i < j < |a| :: a[i] < a[j]
    requires forall i, j | 0 <= i < j < |b| :: b[i] < b[j]
    requires forall x | x in a :: x in b
    requires forall x | x in b :: x in a
    ensures a == b
  {
    if a != [] { assert a[0] in b; }
    if b != [] { assert b[0] in a; }
    if a != [] {
      var i, j := |a| - 1, |b| - 1;
      assert a[i] in b && b[j] in a;
      assert a[i] == b[j];
      forall x | x in a[..i] ensures x in b[..j] { assert x in b; }
      forall x | x in b[..j] ensures x in a[..i] { assert x in a; }
      SameAscending(a[..i], b[..j]);
      assert a == a[..i] + [a[i]] && b == b[..j] + [b[j]];
    }
  }

  /** A completed SingleThread run calls the enabled APs in ascending order. */
  lemma SingleThreadOrder(s: Sys, cs: seq<Choice>)
    requires Run(s, cs) && Completed(Exec(s, cs)) && s.cfg.singleThread
    ensures Exec(s, cs).order == Roster(s.cpu)
  {
    var t := Exec(s, cs);
    EntryOrder(s, cs);
    Reached(s, cs);
    forall p | 0 <= p < |s.cpu| ensures p in t.order <==> s.cpu[p].Participant() {
      AtMostOnce(s, cs, p);
      if s.cpu[p].Participant() { ExactlyOnce(s, cs, p); }
    }
    assert forall x | x in Roster(s.cpu) :: x < |s.cpu|;
    SameAscending(t.order, Roster(s.cpu));
  }
}
