/** The inductive invariant of the dispatcher and its preservation by every
    step of every schedule.

    Each AP is abstracted to a phase number, the whole system to a View of
    phases and counters.  The invariant is stated on views. */
module MpInvariant {
  import opened Common
  import opened MpProtocol

  // ----------------------------------------------------------------- phases

  predicate Released(c: Cpu, tail: seq<CpuState>) {
    c.history == [Ready] + tail || c.history == [Blocked, Ready] + tail
  }

  /** How far a processor has come in a run that hands out `w`; -1 when its
      fields and logs fit no point of an orderly life cycle. */
  function Phase(c: Cpu, w: Work): int {
    match c.pc
    case Polling =>
      if c.slot == None && c.calls == [] then
        if c.state == Idle && c.history == [] then 0
        else if c.state == Blocked && c.history == [Blocked] then 1
        else if c.state == Ready && Released(c, []) then 2
        else -1
      else if c.slot == Some(w) && c.calls == [] && c.state == Ready && Released(c, []) then 3
      else if c.slot == None && c.calls == [w] then
        if c.state == Finished && Released(c, [Busy, Finished]) then 9
        else if c.state == Idle && Released(c, [Busy, Finished, Idle]) then 10
        else -1
      else -1
    case Fetched(v) =>
      if v == w && c.state == Ready && c.slot == Some(w) && c.calls == [] && Released(c, []) then 4 else -1
    case Announced(v) =>
      if v == w && c.state == Busy && c.slot == Some(w) && c.calls == [] && Released(c, [Busy]) then 5 else -1
    case Inside =>
      if c.state == Busy && c.slot == Some(w) && c.calls == [w] && Released(c, [Busy]) then 6 else -1
    case Returned =>
      if c.state == Busy && c.slot == Some(w) && c.calls == [w] && Released(c, [Busy]) then 7 else -1
    case Cleared =>
      if c.state == Busy && c.slot == None && c.calls == [w] && Released(c, [Busy]) then 8 else -1
  }

  /** An AP moves itself only between its slot being filled and FINISHED. */
  lemma ApPhase(c: Cpu, w: Work)
    requires Phase(c, w) != -1
    ensures 3 <= Phase(c, w) <= 8 ==> Phase(ApMove(c), w) == Phase(c, w) + 1
    ensures !(3 <= Phase(c, w) <= 8) ==> ApMove(c) == c
    ensures c.pc.Announced? <==> Phase(c, w) == 5
  {
  }

  /** What a reader of State learns, and what the BSP's writes do. */
  lemma StatePhase(c: Cpu, w: Work)
    requires Phase(c, w) != -1
    ensures c.state == Blocked <==> Phase(c, w) == 1
    ensures c.state == Ready <==> 2 <= Phase(c, w) <= 4
    ensures c.state == Finished <==> Phase(c, w) == 9
    ensures Phase(c, w) == 0 ==> Phase(c.SetState(Blocked), w) == 1 && Phase(c.SetState(Ready), w) == 2
    ensures Phase(c, w) == 1 ==> Phase(c.SetState(Ready), w) == 2
    ensures Phase(c, w) == 9 ==> Phase(c.SetState(Idle), w) == 10
    ensures Phase(c, w) == 2 ==> Phase(c.(slot := Some(w)), w) == 3
    ensures 3 <= Phase(c, w) <= 7 ==> c.(slot := Some(w)) == c
  {
  }

  /** A processor that takes no part is never touched in a way that matters. */
  predicate Bystander(c: Cpu) {
    c.slot == None && c.pc == Polling && c.calls == [] && (c.isBsp || c.state == Idle)
  }

  // ------------------------------------------------------------------ views

  datatype View = View(
    cfg: Config, part: seq<bool>, phase: seq<int>,
    finishCount: nat, startCount: nat, signals: nat, timedOut: bool,
    order: seq<nat>, bsp: BspPc)

  function Flags(cpu: seq<Cpu>): (r: seq<bool>)
    ensures |r| == |cpu| && forall p | 0 <= p < |cpu| :: r[p] == cpu[p].Participant()
  {
    seq(|cpu|, p requires 0 <= p < |cpu| => cpu[p].Participant())
  }

  function Phases(cpu: seq<Cpu>, w: Work): (r: seq<int>)
    ensures |r| == |cpu| && forall p | 0 <= p < |cpu| :: r[p] == Phase(cpu[p], w)
  {
    seq(|cpu|, p requires 0 <= p < |cpu| => Phase(cpu[p], w))
  }

  function ViewOf(s: Sys): View {
    View(s.cfg, Flags(s.cpu), Phases(s.cpu, s.cfg.work),
         s.finishCount, s.startCount, s.signals, s.timedOut, s.order, s.bsp)
  }

  // --------------------------------------------------------------- counting

  function Bit(b: bool): nat { if b then 1 else 0 }

  function Participants(part: seq<bool>): nat {
    if part == [] then 0 else Participants(part[..|part| - 1]) + Bit(part[|part| - 1])
  }

  /** The participants back in IDLE after their call. */
  function Done(part: seq<bool>, phase: seq<int>): nat
    requires |part| == |phase|
  {
    if part == [] then 0
    else
      var m := |part| - 1;
      Done(part[..m], phase[..m]) + Bit(part[m] && phase[m] == 10)
  }

  lemma {:induction false} DoneUpdate(part: seq<bool>, phase: seq<int>, p: nat, f: int)
    requires |part| == |phase| && p < |part| && part[p]
    ensures Done(part, phase[p := f]) + Bit(phase[p] == 10) == Done(part, phase) + Bit(f == 10)
  {
    var m := |part| - 1;
    if p < m {
      DoneUpdate(part[..m], phase[..m], p, f);
      assert phase[p := f][..m] == phase[..m][p := f];
    } else {
      assert phase[p := f][..m] == phase[..m];
    }
  }

  lemma {:induction false} DoneBound(part: seq<bool>, phase: seq<int>)
    requires |part| == |phase|
    ensures Done(part, phase) <= Participants(part)
    ensures Done(part, phase) == Participants(part)
        <==> forall p | 0 <= p < |part| && part[p] :: phase[p] == 10
    ensures Done(part, phase) == 0 <==> forall p | 0 <= p < |part| && part[p] :: phase[p] != 10
  {
    if part != [] {
      var m := |part| - 1;
      DoneBound(part[..m], phase[..m]);
      assert forall p | 0 <= p < m :: part[..m][p] == part[p] && phase[..m][p] == phase[p];
    }
  }

  // -------------------------------------------------------------- invariant

  /** What a participant's phase may be, given where the BSP is. */
  predicate Allowed(v: View, p: nat, f: int) {
    && (f == 1 ==> v.cfg.singleThread)
    && match v.bsp
       case Prepare(n, _) => if p < n then f == 1 || f == 2 else f == 0
       case Dispatch(n) => if p < n then f == 1 || 3 <= f <= 9 else f == 1 || f == 2
       case DispatchSet(n) => if p < n then f == 1 || 3 <= f <= 9 else f == 1 || f == 2
       case Feed(_, k) => 1 <= f <= 10 && (f == 2 ==> p == k)
       case _ => 1 <= f <= 10 && (f == 2 ==> v.cfg.blocking)
  }

  predicate AllAllowed(v: View)
    requires |v.part| == |v.phase|
  {
    forall p | 0 <= p < |v.part| && v.part[p] :: Allowed(v, p, v.phase[p])
  }

  predicate Is(v: View, p: nat, f: int) {
    p < |v.part| == |v.phase| && v.part[p] && v.phase[p] == f
  }

  predicate NoneBlockedBelow(v: View, k: nat) {
    |v.part| == |v.phase| && k <= |v.part|
    && forall j | 0 <= j < k && v.part[j] :: v.phase[j] != 1
  }

  /** What the BSP's program counter says about the processors it names. */
  predicate BspFacts(v: View) {
    match v.bsp
    case Prepare(n, initial) =>
      && n <= |v.part|
      && (initial == Ready || (v.cfg.singleThread && initial == Blocked))
      && (initial == Ready && v.cfg.singleThread ==> forall p | 0 <= p < n :: !v.part[p])
      && (initial == Blocked ==> HasBelow(v.part, n))
    case Dispatch(n) => n <= |v.part|
    case DispatchSet(n) => Is(v, n, 2)
    case PollSet(n) => n < |v.part| == |v.phase| && v.part[n] && 2 <= v.phase[n] <= 7
    case Find(n, k) => v.cfg.singleThread && Is(v, n, 9) && NoneBlockedBelow(v, k)
    case Promote(n, k) => v.cfg.singleThread && Is(v, n, 9) && Is(v, k, 1) && NoneBlockedBelow(v, k)
    case Feed(n, k) => v.cfg.singleThread && Is(v, n, 9) && Is(v, k, 2) && SuccessorReleased(v, n)
    case Retire(n) => Is(v, n, 9) && (v.cfg.singleThread ==> SuccessorReleased(v, n))
    case _ => true
  }

  predicate Successor(part: seq<bool>, q: nat, r: nat) {
    q < r < |part| && part[q] && part[r] && forall j | q < j < r :: !part[j]
  }

  predicate SuccessorReleased(v: View, q: nat)
    requires |v.part| == |v.phase|
  {
    forall r | 0 <= r < |v.part| && Successor(v.part, q, r) :: v.phase[r] != 1
  }

  predicate Releasing(v: View, q: nat) {
    match v.bsp
    case Feed(n, _) => n == q
    case Retire(n) => n == q
    case _ => false
  }

  /** SingleThread: below a released participant there are only retired ones. */
  predicate InTurn(v: View)
    requires |v.part| == |v.phase|
  {
    forall q, r | 0 <= q < r < |v.part| && v.part[q] && v.part[r] && v.phase[r] >= 2 ::
      v.phase[q] == 10 || (v.phase[q] == 9 && Releasing(v, q))
  }

  /** SingleThread: a participant retires only after releasing the next. */
  predicate Chained(v: View)
    requires |v.part| == |v.phase|
  {
    forall q, r | 0 <= q < r < |v.part| && Successor(v.part, q, r) && v.phase[q] == 10 :: v.phase[r] != 1
  }

  /** SingleThread: the first participant is never held back. */
  predicate Led(part: seq<bool>, phase: seq<int>)
    requires |part| == |phase|
  {
    forall r | 0 <= r < |part| && part[r] && phase[r] == 1 :: HasBelow(part, r)
  }

  predicate HasBelow(part: seq<bool>, r: nat) {
    exists q | 0 <= q < r && q < |part| :: part[q]
  }

  predicate Counted(v: View)
    requires |v.part| == |v.phase|
  {
    && v.startCount == (if v.bsp.Prepare? && v.bsp.n <= |v.part|
                        then Participants(v.part[..v.bsp.n]) else Participants(v.part))
    && v.signals == Bit(v.bsp.Signalled?)
    && (v.timedOut ==> v.bsp.Signalled? || v.bsp.Left?)
    && (v.bsp.Signalled? ==> v.finishCount == v.startCount)
    && (v.bsp.Left? && !v.timedOut ==> v.finishCount == v.startCount)
    && ((v.timedOut && v.bsp.Signalled?)
        || v.finishCount == Done(v.part, v.phase)
                            + Bit(v.cfg.blocking && (v.bsp.Find? || v.bsp.Promote? || v.bsp.Retire?)))
  }

  /** The entry log names exactly the participants that have called. */
  predicate Logged(v: View)
    requires |v.part| == |v.phase|
  {
    && (forall p | 0 <= p < |v.part| :: p in v.order <==> v.part[p] && v.phase[p] >= 6)
    && (forall i | 0 <= i < |v.order| :: v.order[i] < |v.part|)
    && (forall i, j | 0 <= i < j < |v.order| :: v.order[i] != v.order[j])
    && (v.cfg.singleThread ==> forall i, j | 0 <= i < j < |v.order| :: v.order[i] < v.order[j])
  }

  predicate ViewInv(v: View) {
    && |v.part| == |v.phase|
    && AllAllowed(v)
    && BspFacts(v)
    && (v.cfg.singleThread ==> InTurn(v) && Chained(v) && Led(v.part, v.phase))
    && Counted(v) && Logged(v)
  }

  predicate Inv(s: Sys) {
    WellFormed(s) && Bystanders(s.cpu) && ViewInv(ViewOf(s))
  }

  // ----------------------------------------------------------- preservation

  /** In a blocking call the BSP reads READY and fills the slot in two separate
      sections; nothing goes wrong unless the AP clears its slot in between. */
  predicate Calm(s: Sys, c: Choice) {
    s.bsp.PollSet? && c.Ap? && c.p == s.bsp.n && c.p < |s.cpu| ==> s.cpu[c.p].pc != Returned
  }

  lemma LedSame(part: seq<bool>, phase: seq<int>, p: nat, f: int)
    requires |part| == |phase| && p < |part| && Led(part, phase) && f != 1
    ensures Led(part, phase[p := f])
  {
  }

  /** One step of AP `p`, seen on the view. */
  function Advance(v: View, p: nat): View
    requires p < |v.phase|
  {
    v.(phase := v.phase[p := v.phase[p] + 1],
       order := if v.phase[p] == 5 then v.order + [p] else v.order)
  }

  predicate Moving(v: View, p: nat) {
    && ViewInv(v) && p < |v.part| && v.part[p] && 3 <= v.phase[p] <= 8
    && (v.bsp == PollSet(p) ==> v.phase[p] != 7)
  }

  lemma AdvanceInTurn(v: View, p: nat)
    requires Moving(v, p) && v.cfg.singleThread
    ensures InTurn(Advance(v, p)) && Chained(Advance(v, p))
  {
    var t := Advance(v, p);
    forall q, r | 0 <= q < r < |v.part| && v.part[q] && v.part[r] && t.phase[r] >= 2
      ensures t.phase[q] == 10 || (t.phase[q] == 9 && Releasing(t, q))
    {
      InTurnAt(v, p, q, r);
    }
  }

  lemma InTurnAt(v: View, p: nat, q: nat, r: nat)
    requires |v.part| == |v.phase| && InTurn(v) && p < |v.phase| && 3 <= v.phase[p] <= 8
    requires q < r < |v.part| && v.part[q] && v.part[r] && Advance(v, p).phase[r] >= 2
    ensures q != p && v.phase[r] >= 2
    ensures v.phase[q] == 10 || (v.phase[q] == 9 && Releasing(v, q))
  {
    assert v.phase[r] >= 2;
  }

  /** The entry log does not see phase changes on one side of the call. */
  lemma LoggedSame(v: View, t: View)
    requires |v.part| == |v.phase| == |t.phase| && t.part == v.part && t.order == v.order && t.cfg == v.cfg
    requires Logged(v)
    requires forall p | 0 <= p < |v.part| && v.part[p] :: (t.phase[p] >= 6 <==> v.phase[p] >= 6)
    ensures Logged(t)
  {
  }

  lemma LoggedEntry(v: View, p: nat)
    requires |v.part| == |v.phase| && p < |v.part| && v.part[p] && v.phase[p] == 5
    requires Logged(v) && (v.cfg.singleThread ==> InTurn(v))
    ensures Logged(Advance(v, p))
  {
    var t := Advance(v, p);
    assert p !in v.order;
    forall q | 0 <= q < |v.part| ensures q in t.order <==> t.part[q] && t.phase[q] >= 6 {
      assert q in t.order <==> q in v.order || q == p;
    }
    forall i | 0 <= i < |v.order| && v.cfg.singleThread ensures v.order[i] < p {
      assert v.order[i] in v.order;
    }
  }

  lemma AdvanceLogged(v: View, p: nat)
    requires Moving(v, p)
    ensures Logged(Advance(v, p))
  {
    if v.phase[p] == 5 {
      LoggedEntry(v, p);
    } else {
      LoggedSame(v, Advance(v, p));
    }
  }

  lemma AdvanceBspFacts(v: View, p: nat)
    requires Moving(v, p)
    ensures BspFacts(Advance(v, p))
  {
    var t := Advance(v, p);
    if t.bsp.Prepare? {
      assert Allowed(v, p, v.phase[p]);
    } else if t.bsp.Retire? && v.cfg.singleThread {
      assert SuccessorReleased(v, t.bsp.n);
    }
  }

  lemma AdvanceKeeps(v: View, p: nat)
    requires Moving(v, p)
    ensures ViewInv(Advance(v, p))
  {
    var t := Advance(v, p);
    assert Allowed(v, p, v.phase[p]);
    DoneUpdate(v.part, v.phase, p, t.phase[p]);
    AdvanceBspFacts(v, p);
    AdvanceLogged(v, p);
    if v.cfg.singleThread {
      AdvanceInTurn(v, p);
      LedSame(v.part, v.phase, p, t.phase[p]);
    }
    forall q | 0 <= q < |v.part| && v.part[q] ensures Allowed(t, q, t.phase[q]) {
      assert Allowed(v, q, v.phase[q]);
    }
  }

  predicate Bystanders(cpu: seq<Cpu>) {
    forall p | 0 <= p < |cpu| && !cpu[p].Participant() :: Bystander(cpu[p])
  }

  /** Replacing a participant's block changes one phase and nothing else. */
  lemma UpdateView(cpu: seq<Cpu>, p: nat, c: Cpu, w: Work)
    requires p < |cpu| && cpu[p].Participant() && c.Participant()
    ensures Flags(cpu[p := c]) == Flags(cpu)
    ensures Phases(cpu[p := c], w) == Phases(cpu, w)[p := Phase(c, w)]
    ensures Bystanders(cpu) ==> Bystanders(cpu[p := c])
  {
  }

  lemma Transport(s: Sys, v: View)
    requires ViewInv(v) && v == ViewOf(s) && WellFormed(s) && Bystanders(s.cpu)
    ensures Inv(s)
  {
  }

  lemma ApMoves(s: Sys, p: nat)
    requires Inv(s) && p < |s.cpu| && s.cpu[p].Participant() && Calm(s, Ap(p))
    requires 3 <= Phase(s.cpu[p], s.cfg.work) <= 8
    ensures Moving(ViewOf(s), p) && ViewOf(ApStep(s, p)) == Advance(ViewOf(s), p)
    ensures Bystanders(ApStep(s, p).cpu)
  {
    ApPhase(s.cpu[p], s.cfg.work);
    UpdateView(s.cpu, p, ApMove(s.cpu[p]), s.cfg.work);
  }

  lemma ApStays(s: Sys, p: nat)
    requires Inv(s) && p < |s.cpu| && !s.cpu[p].isBsp 
    requires !s.cpu[p].Participant() || !(3 <= Phase(s.cpu[p], s.cfg.work) <= 8)
    ensures ApStep(s, p) == s
  {
    if s.cpu[p].Participant() {
      assert Allowed(ViewOf(s), p, ViewOf(s).phase[p]);
      ApPhase(s.cpu[p], s.cfg.work);
    }
  }

  lemma ApKeeps(s: Sys, p: nat)
    requires Inv(s) && p < |s.cpu| && !s.cpu[p].isBsp && Calm(s, Ap(p))
    ensures Inv(ApStep(s, p))
  {
    if s.cpu[p].Participant() && 3 <= Phase(s.cpu[p], s.cfg.work) <= 8 {
      ApMoves(s, p);
      AdvanceKeeps(ViewOf(s), p);
      Transport(ApStep(s, p), Advance(ViewOf(s), p));
    } else {
      ApStays(s, p);
    }
  }
}
