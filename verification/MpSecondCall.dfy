/** Which calls can start an AP twice, by what the caller knows beforehand. */
module MpSecondCall {
  import opened Common
  import opened MpProtocol
  import opened MpInvariant
  import opened MpBspSteps
  import opened MpTheorems
  import opened MpRearm

  // ------------------------------------------------ the BSP runs by itself

  /** The first participant. */
  predicate IsFirst(cpu: seq<Cpu>, q: nat) {
    q < |cpu| && cpu[q].Participant() && forall p | 0 <= p < q :: !cpu[p].Participant()
  }

  /** No AP has moved: the first participant has not polled, none has finished. */
  predicate Still(t: Sys, q: nat) {
    && WellFormed(t) && t.cfg.blocking && IsFirst(t.cpu, q)
    && t.cpu[q].pc == Polling && t.cpu[q].calls == [] && t.finishCount == 0
    && forall p | 0 <= p < |t.cpu| && t.cpu[p].Participant() :: t.cpu[p].state != Finished
  }

  predicate Unfilled(t: Sys, q: nat)
    requires q < |t.cpu|
  {
    t.cpu[q].slot == None && t.timeout == t.cfg.limit
  }

  predicate Filled(t: Sys, q: nat)
    requires q < |t.cpu|
  {
    t.cpu[q].slot == Some(t.cfg.work)
  }

  /** In the second sweep, after one stall. */
  predicate Refilled(t: Sys, q: nat)
    requires q < |t.cpu|
  {
    Filled(t, q) && t.timeout == Elapse(t.cfg.limit, t.cfg.interval)
  }

  predicate Released(t: Sys, q: nat)
    requires q < |t.cpu|
  {
    t.cpu[q].state == Ready && t.startCount >= 1
  }

  /** The way of the BSP: the states, one sweep, and up to the first participant. */
  predicate OnTheWay(t: Sys, q: nat) {
    && Still(t, q)
    && match t.bsp
       case Prepare(n, initial) =>
         && n <= |t.cpu| && Unfilled(t, q)
         && if n <= q then initial == Ready else initial != Finished && Released(t, q)
       case Poll(n) =>
         && n <= |t.cpu| && Released(t, q)
         && if n <= q then Unfilled(t, q) || Refilled(t, q) else Filled(t, q) && t.timeout == t.cfg.limit
       case PollSet(n) =>
         && q <= n < |t.cpu| && Released(t, q)
         && if n == q then Unfilled(t, q) || Refilled(t, q) else Filled(t, q) && t.timeout == t.cfg.limit
       case PollCheck => Released(t, q) && Filled(t, q) && t.timeout == t.cfg.limit
       case _ => false
  }

  /** The sweeps have come by p. */
  predicate Swept(t: Sys, q: nat, p: nat)
    requires q < |t.cpu|
  {
    match t.bsp
    case Poll(n) => p < n || (n <= q && Filled(t, q))
    case PollSet(n) => p < n || (n <= q && Filled(t, q))
    case PollCheck => true
    case _ => false
  }

  /** No AP has polled, and where the sweeps have come by none that is READY is
      left without work. */
  predicate Begun(t: Sys, q: nat)
    requires q < |t.cpu|
  {
    forall p | 0 <= p < |t.cpu| && t.cpu[p].Participant() ::
      Phase(t.cpu[p], t.cfg.work) <= 3 && (Swept(t, q, p) ==> Phase(t.cpu[p], t.cfg.work) != 2)
  }

  /** The BSP has read READY a second time. */
  predicate ReadAgain(t: Sys, q: nat) {
    OnTheWay(t, q) && t.bsp == PollSet(q) && Filled(t, q)
  }

  /** The steps to that read. */
  function Gap(t: Sys, q: nat): int
    requires q < |t.cpu|
  {
    var n := |t.cpu|;
    match t.bsp
    case Prepare(k, _) => 5 * n + 20 - k
    case Poll(k) => if k <= q && Filled(t, q) then 2 * (q - k) + 1 else 4 * n + 10 - 2 * k
    case PollSet(k) => if k == q && Filled(t, q) then 0 else 4 * n + 9 - 2 * k
    case PollCheck => 2 * n + 5
    case _ => 0
  }

  lemma PrepareOn(t: Sys, q: nat)
    requires OnTheWay(t, q) && t.bsp.Prepare?
    ensures OnTheWay(BspStep(t, false), q) && 0 <= Gap(BspStep(t, false), q) < Gap(t, q)
  {
  }

  lemma PollOn(t: Sys, q: nat)
    requires OnTheWay(t, q) && t.bsp.Poll?
    ensures OnTheWay(BspStep(t, false), q) && 0 <= Gap(BspStep(t, false), q) < Gap(t, q)
  {
    var n := t.bsp.n;
    if n < |t.cpu| && t.cpu[n].Participant() { assert n >= q; }
    assert BspStep(t, false).cpu == t.cpu;
    assert IsFirst(BspStep(t, false).cpu, q);
  }

  lemma FillOn(t: Sys, q: nat)
    requires OnTheWay(t, q) && t.bsp.PollSet? && !ReadAgain(t, q)
    ensures OnTheWay(BspStep(t, false), q) && 0 <= Gap(BspStep(t, false), q) < Gap(t, q)
  {
  }

  lemma CheckOn(t: Sys, q: nat)
    requires OnTheWay(t, q) && t.bsp.PollCheck?
    ensures OnTheWay(BspStep(t, false), q) && 0 <= Gap(BspStep(t, false), q) < Gap(t, q)
  {
  }

  lemma StepOn(t: Sys, q: nat)
    requires OnTheWay(t, q) && !ReadAgain(t, q)
    ensures OnTheWay(BspStep(t, false), q) && 0 <= Gap(BspStep(t, false), q) < Gap(t, q)
  {
    match t.bsp
    case Prepare(_, _) => PrepareOn(t, q);
    case Poll(_) => PollOn(t, q);
    case PollSet(_) => FillOn(t, q);
    case PollCheck => CheckOn(t, q);
  }

  lemma PhaseNow(t: Sys, p: nat)
    requires Inv(t) && p < |t.cpu| && t.cpu[p].Participant() && !t.bsp.Prepare?
    ensures 1 <= Phase(t.cpu[p], t.cfg.work) <= 10
    ensures Phase(t.cpu[p], t.cfg.work) == 1 ==> t.cfg.singleThread
  {
    assert Allowed(ViewOf(t), p, ViewOf(t).phase[p]);
  }

  lemma PollBegun(t: Sys, q: nat)
    requires Inv(t) && OnTheWay(t, q) && t.bsp.Poll? && Begun(t, q)
    ensures Begun(BspStep(t, false), q)
  {
    var n := t.bsp.n;
    if n < |t.cpu| && t.cpu[n].Participant() {
      PhaseNow(t, n);
      StatePhase(t.cpu[n], t.cfg.work);
    }
    PollPasses(t, q);
  }

  lemma PollPasses(t: Sys, q: nat)
    requires OnTheWay(t, q) && t.bsp.Poll? && Begun(t, q)
    requires t.bsp.n < |t.cpu| && t.cpu[t.bsp.n].Participant() && t.cpu[t.bsp.n].state != Ready ==>
      Phase(t.cpu[t.bsp.n], t.cfg.work) != 2
    ensures Begun(BspStep(t, false), q)
  {
  }

  lemma FillBegun(t: Sys, q: nat)
    requires Inv(t) && OnTheWay(t, q) && t.bsp.PollSet? && Begun(t, q) && !ReadAgain(t, q)
    ensures Begun(BspStep(t, false), q)
  {
    PhaseNow(t, t.bsp.n);
    StatePhase(t.cpu[t.bsp.n], t.cfg.work);
  }

  lemma PrepareBegun(t: Sys, q: nat)
    requires Inv(t) && OnTheWay(t, q) && t.bsp.Prepare? && Begun(t, q)
    ensures Begun(BspStep(t, false), q)
  {
    var n := t.bsp.n;
    if n < |t.cpu| && t.cpu[n].Participant() {
      assert Allowed(ViewOf(t), n, ViewOf(t).phase[n]);
      StatePhase(t.cpu[n], t.cfg.work);
    }
  }

  lemma StepBegun(t: Sys, q: nat)
    requires Inv(t) && OnTheWay(t, q) && Begun(t, q) && !ReadAgain(t, q)
    ensures Inv(BspStep(t, false)) && Begun(BspStep(t, false), q)
  {
    StepKeeps(t, Bsp(false));
    match t.bsp
    case Prepare(_, _) => PrepareBegun(t, q);
    case Poll(_) => PollBegun(t, q);
    case PollSet(_) => FillBegun(t, q);
    case PollCheck =>
  }

  lemma {:induction false} ToSecondRead(t: Sys, q: nat) returns (cs: seq<Choice>)
    requires Inv(t) && OnTheWay(t, q) && Begun(t, q)
    ensures ReadAgain(Exec(t, cs), q) && Inv(Exec(t, cs)) && Begun(Exec(t, cs), q)
    decreases Gap(t, q)
  {
    if ReadAgain(t, q) {
      cs := [];
    } else {
      StepOn(t, q);
      StepBegun(t, q);
      var rest := ToSecondRead(Step(t, Bsp(false)), q);
      cs := [Bsp(false)] + rest;
      ExecCons(t, Bsp(false), rest);
    }
  }

  lemma InitialOnTheWay(s: Sys, q: nat)
    requires Initial(s) && WellFormed(s) && s.cfg.blocking && IsFirst(s.cpu, q)
    ensures Inv(s) && OnTheWay(s, q) && Begun(s, q)
  {
    InitialInv(s);
  }

  // --------------------------------------------------------- and then the AP

  lemma FiveMoves(c: Cpu, w: Work)
    requires c.pc == Polling && c.slot == Some(w) && c.calls == []
    ensures Moves(c, 5).pc == Cleared && Moves(c, 5).calls == [w]
  {
    FourMoves(c, w);
    assert Moves(c, 5) == ApMove(Moves(c, 4));
  }

  /** From the second read, the AP runs through its call and clears its slot; the
      BSP fills it again and the AP calls again. */
  lemma CallsAgain(t: Sys, q: nat) returns (cs: seq<Choice>)
    requires ReadAgain(t, q)
    ensures q < |Exec(t, cs).cpu| && |Exec(t, cs).cpu[q].calls| == 2
  {
    var five := Times(Ap(q), 5);
    ApRepeats(t, q, 5);
    FiveMoves(t.cpu[q], t.cfg.work);
    SameBlock(t.cpu[q], 5);
    Rearmed(Exec(t, five), q);
    ExecAppend(t, five, SecondCall(q));
    cs := five + SecondCall(q);
  }

  lemma FirstOf(cpu: seq<Cpu>, p: nat) returns (q: nat)
    requires p < |cpu| && cpu[p].Participant()
    ensures IsFirst(cpu, q)
  {
    q := 0;
    while !cpu[q].Participant()
      invariant q <= p && forall j | 0 <= j < q :: !cpu[j].Participant()
      decreases p - q
    {
      q := q + 1;
    }
  }

  lemma TwiceReachable(s: Sys, p: nat) returns (cs: seq<Choice>)
    requires Initial(s) && WellFormed(s) && s.cfg.blocking && p < |s.cpu| && s.cpu[p].Participant()
    ensures !NoSecondCall(Exec(s, cs))
  {
    var q := FirstOf(s.cpu, p);
    InitialOnTheWay(s, q);
    var before := ToSecondRead(s, q);
    var after := CallsAgain(Exec(s, before), q);
    ExecAppend(s, before, after);
    cs := before + after;
  }

  // ------------------------------------------------------- the other calls

  predicate NoParticipants(s: Sys) {
    forall p | 0 <= p < |s.cpu| :: !s.cpu[p].Participant()
  }

  lemma NoneIsCalm(t: Sys, c: Choice)
    requires Inv(t) && NoParticipants(t)
    ensures Calm(t, c)
  {
  }

  lemma SameFlags(s: Sys, t: Sys)
    requires Flags(s.cpu) == Flags(t.cpu) && NoParticipants(s)
    ensures NoParticipants(t)
  {
    forall p | 0 <= p < |t.cpu| ensures !t.cpu[p].Participant() {
      assert Flags(t.cpu)[p] == Flags(s.cpu)[p];
    }
  }

  lemma {:induction false} CalmWithoutParticipants(s: Sys, cs: seq<Choice>)
    requires Initial(s) && WellFormed(s) && NoParticipants(s)
    ensures CalmRun(s, cs)
  {
    if cs != [] {
      var before := cs[..|cs| - 1];
      CalmWithoutParticipants(s, before);
      Reached(s, before);
      FlagsKept(s, before);
      SameFlags(s, Exec(s, before));
      NoneIsCalm(Exec(s, before), cs[|cs| - 1]);
    }
  }

  lemma OnceInCalmRuns(s: Sys, cs: seq<Choice>)
    requires Run(s, cs)
    ensures NoSecondCall(Exec(s, cs))
  {
    forall p | 0 <= p < |s.cpu| ensures |Exec(s, cs).cpu[p].calls| <= 1 { AtMostOnce(s, cs, p); }
  }

  /** What a caller can tell beforehand: no schedule starts an AP twice if and
      only if the call does not block, or has no AP to start. */
  lemma CalledOnceExactly(s: Sys)
    requires Initial(s) && WellFormed(s)
    ensures (forall cs :: NoSecondCall(Exec(s, cs))) <==> !s.cfg.blocking || NoParticipants(s)
  {
    if !s.cfg.blocking || NoParticipants(s) {
      forall cs ensures NoSecondCall(Exec(s, cs)) {
        if s.cfg.blocking { CalmWithoutParticipants(s, cs); } else { NonBlockingIsCalm(s, cs); }
        OnceInCalmRuns(s, cs);
      }
    } else {
      var p :| 0 <= p < |s.cpu| && s.cpu[p].Participant();
      var cs := TwiceReachable(s, p);
    }
  }
}
