/** Blocking calls: the read of READY and the write of the slot are two
    separate lock sections, and an AP that clears its slot in between is
    started a second time. */
module MpRearm {
  import opened Common
  import opened MpProtocol
  import opened MpInvariant
  import opened MpTheorems

  function Times(c: Choice, k: nat): (r: seq<Choice>)
    ensures |r| == k && forall i | 0 <= i < k :: r[i] == c
  {
    if k == 0 then [] else Times(c, k - 1) + [c]
  }

  /** After the AP has cleared its slot inside the window: the BSP fills the
      slot, and the AP finishes, polls, announces and calls again. */
  function SecondCall(n: nat): seq<Choice> {
    [Bsp(false)] + Times(Ap(n), 4)
  }

  lemma OneAp(s: Sys, n: nat)
    requires WellFormed(s) && n < |s.cpu| && !s.cpu[n].isBsp
    ensures var t := Step(s, Ap(n));
      && |t.cpu| == |s.cpu| && t.bsp == s.bsp && t.cfg == s.cfg && t.cpu[n] == ApMove(s.cpu[n])
  {
  }

  lemma {:induction false} ApRepeats(s: Sys, n: nat, k: nat)
    requires WellFormed(s) && n < |s.cpu| && !s.cpu[n].isBsp
    ensures var t := Exec(s, Times(Ap(n), k));
      && |t.cpu| == |s.cpu| && t.bsp == s.bsp && t.cpu[n] == Moves(s.cpu[n], k)
  {
    if k > 0 {
      ApRepeats(s, n, k - 1);
      ExecSnoc(s, Times(Ap(n), k - 1), Ap(n));
      SameBlock(s.cpu[n], k - 1);
      OneAp(Exec(s, Times(Ap(n), k - 1)), n);
    }
  }

  lemma {:induction false} SameBlock(c: Cpu, k: nat)
    ensures Moves(c, k).isBsp == c.isBsp
  {
    if k > 0 { SameBlock(c, k - 1); }
  }

  /** `k` steps of one AP on its data block. */
  function Moves(c: Cpu, k: nat): Cpu {
    if k == 0 then c else ApMove(Moves(c, k - 1))
  }

  lemma FourMoves(c: Cpu, w: Work)
    requires c.slot == Some(w)
    ensures c.pc == Cleared ==> Moves(c, 4).pc == Inside && Moves(c, 4).calls == c.calls + [w]
    ensures c.pc == Polling ==> Moves(c, 4).pc == Returned && Moves(c, 4).calls == c.calls + [w]
  {
    var c1 := ApMove(c);
    var c2 := ApMove(c1);
    var c3 := ApMove(c2);
    assert Moves(c, 1) == ApMove(Moves(c, 0));
    assert Moves(c, 2) == c2;
    assert Moves(c, 3) == c3;
    assert Moves(c, 4) == ApMove(c3);
  }

  lemma Rearmed(s: Sys, n: nat)
    requires WellFormed(s) && s.bsp == PollSet(n) && n < |s.cpu| && !s.cpu[n].isBsp
    requires s.cpu[n].pc == Cleared
    ensures Exec(s, SecondCall(n)).cpu[n].calls == s.cpu[n].calls + [s.cfg.work]
  {
    var b := Bsp(false);
    var s1 := Step(s, b);
    assert s1.cpu[n] == s.cpu[n].(slot := Some(s.cfg.work));
    ApRepeats(s1, n, 4);
    FourMoves(s1.cpu[n], s.cfg.work);
    ExecCons(s, b, Times(Ap(n), 4));
  }

  lemma {:induction false} CalmAppend(s: Sys, a: seq<Choice>, b: seq<Choice>)
    requires WellFormed(s)
    ensures CalmRun(s, a + b) <==> CalmRun(s, a) && CalmRun(Exec(s, a), b)
    decreases |b|
  {
    if b == [] {
      assert a + b == a;
    } else {
      var m := |b| - 1;
      CalmAppend(s, a, b[..m]);
      ExecAppend(s, a, b[..m]);
      assert (a + b)[..|a + b| - 1] == a + b[..m];
    }
  }

  lemma SecondCallIsCalm(s: Sys, n: nat)
    requires WellFormed(s) && s.bsp == PollSet(n)
    ensures CalmRun(s, SecondCall(n))
  {
    var b := Bsp(false);
    var s1 := Step(s, b);
    assert s1.bsp == Poll(n + 1);
    CalmAppend(s, [b], Times(Ap(n), 4));
    ExecSnoc(s, [], b);
    assert [] + [b] == [b] && [b][..0] == [];
    ApsOnlyCalm(s1, Times(Ap(n), 4));
  }

  /** AP steps leave the BSP where it is, and outside the window they are calm. */
  lemma {:induction false} ApsOnlyCalm(s: Sys, cs: seq<Choice>)
    requires WellFormed(s) && !s.bsp.PollSet?
    requires forall i | 0 <= i < |cs| :: cs[i].Ap?
    ensures CalmRun(s, cs) && Exec(s, cs).bsp == s.bsp
  {
    if cs != [] {
      ApsOnlyCalm(s, cs[..|cs| - 1]);
    }
  }

  predicate NoSecondCall(t: Sys) {
    forall p | 0 <= p < |t.cpu| :: |t.cpu[p].calls| <= 1
  }

  /** The exact condition.  After any calm run, the next choice keeps every calm
      continuation free of second calls if and only if it is itself calm: it is
      not the AP clearing its slot between the BSP's read and its write. */
  lemma SecondCallExactlyWhen(s: Sys, cs: seq<Choice>, c: Choice)
    requires Run(s, cs)
    ensures Calm(Exec(s, cs), c) <==>
      (forall more | CalmRun(Step(Exec(s, cs), c), more) :: NoSecondCall(Exec(Step(Exec(s, cs), c), more)))
  {
    var t := Exec(s, cs);
    Reached(s, cs);
    if Calm(t, c) {
      forall more | CalmRun(Step(t, c), more) ensures NoSecondCall(Exec(Step(t, c), more)) {
        CalmThenOnce(s, cs, c, more);
      }
    } else {
      var n := c.p;
      var u := Step(t, c);
      assert ViewOf(t).phase[n] == 7;
      SecondCallIsCalm(u, n);
      Rearmed(u, n);
      assert |Exec(u, SecondCall(n)).cpu[n].calls| == 2;
      assert !NoSecondCall(Exec(u, SecondCall(n)));
    }
  }

  lemma CalmThenOnce(s: Sys, cs: seq<Choice>, c: Choice, more: seq<Choice>)
    requires Run(s, cs) && Calm(Exec(s, cs), c) && CalmRun(Step(Exec(s, cs), c), more)
    ensures NoSecondCall(Exec(Step(Exec(s, cs), c), more))
  {
    var all := cs + [c] + more;
    assert (cs + [c])[..|cs|] == cs;
    CalmAppend(s, cs + [c], more);
    ExecAppend(s, cs + [c], more);
    forall p | 0 <= p < |s.cpu| ensures |Exec(s, all).cpu[p].calls| <= 1 {
      AtMostOnce(s, all, p);
    }
  }

  // ------------------------------------------------- the window is reachable

  /** One BSP, one AP, a blocking call without time limit. */
  function World(ap: Cpu, started: nat, timeout: nat, order: seq<nat>, bsp: BspPc): Sys {
    Sys(Config(true, false, false, Work(1, 2), 0, 1),
        [Cpu(true, true, Busy, None, Polling, [], []), ap],
        0, started, None, timeout, 0, false, order, bsp)
  }

  function Start(): Sys {
    World(Cpu(false, true, Idle, None, Polling, [], []), 0, 0, [], Prepare(0, Ready))
  }

  const IDLE := Cpu(false, true, Idle, None, Polling, [], [])
  const READY := Cpu(false, true, Ready, None, Polling, [Ready], [])
  const ARMED := Cpu(false, true, Ready, Some(Work(1, 2)), Polling, [Ready], [])

  lemma FirstRound()
    ensures Exec(Start(), Times(Bsp(false), 5)) == World(READY, 1, 0, [], PollSet(1))
    ensures CalmRun(Start(), Times(Bsp(false), 5))
  {
    var b := Bsp(false);
    var trace := [
      Start(),
      World(IDLE, 0, 0, [], Prepare(1, Ready)),
      World(READY, 1, 0, [], Prepare(2, Ready)),
      World(READY, 1, 0, [], Poll(0)),
      World(READY, 1, 0, [], Poll(1)),
      World(READY, 1, 0, [], PollSet(1))];
    assert Step(trace[0], b) == trace[1];
    assert IDLE.history + [Ready] == [Ready];
    assert Step(trace[1], b).cpu == trace[2].cpu;
    assert Step(trace[1], b) == trace[2];
    assert Step(trace[2], b) == trace[3];
    assert Step(trace[3], b) == trace[4];
    assert Step(trace[4], b) == trace[5];
    BspTrace(trace, 5);
  }

  lemma SecondRound()
    ensures Exec(World(READY, 1, 0, [], PollSet(1)), Times(Bsp(false), 5))
         == World(ARMED, 1, SPAN64 - 1, [], PollSet(1))
    ensures CalmRun(World(READY, 1, 0, [], PollSet(1)), Times(Bsp(false), 5))
  {
    var b := Bsp(false);
    assert Elapse(0, 1) == SPAN64 - 1;
    var trace := [
      World(READY, 1, 0, [], PollSet(1)),
      World(ARMED, 1, 0, [], Poll(2)),
      World(ARMED, 1, 0, [], PollCheck),
      World(ARMED, 1, SPAN64 - 1, [], Poll(0)),
      World(ARMED, 1, SPAN64 - 1, [], Poll(1)),
      World(ARMED, 1, SPAN64 - 1, [], PollSet(1))];
    assert Step(trace[0], b) == trace[1];
    assert Step(trace[1], b) == trace[2];
    assert Step(trace[2], b) == trace[3];
    assert Step(trace[3], b) == trace[4];
    assert Step(trace[4], b) == trace[5];
    BspTrace(trace, 5);
  }

  lemma Join(s: Sys, a: seq<Choice>, t: Sys, b: seq<Choice>)
    requires WellFormed(s) && WellFormed(t) && t == Exec(s, a) && CalmRun(s, a) && CalmRun(t, b)
    ensures Exec(s, a + b) == Exec(t, b) && CalmRun(s, a + b)
  {
    ExecAppend(s, a, b);
    CalmAppend(s, a, b);
  }

  /** The BSP starts the AP and comes round to it again before the AP polls;
      then the AP fetches, announces, calls and returns.  One more step of the
      AP is the choice that is not calm. */
  lemma WindowReachable() returns (cs: seq<Choice>)
    ensures Run(Start(), cs) && !Calm(Exec(Start(), cs), Ap(1))
  {
    var rounds := TwoRounds();
    var t := World(ARMED, 1, SPAN64 - 1, [], PollSet(1));
    var calls := ApCalls(t, 1);
    Join(Start(), rounds, t, calls);
    cs := rounds + calls;
  }

  lemma TwoRounds() returns (cs: seq<Choice>)
    ensures Exec(Start(), cs) == World(ARMED, 1, SPAN64 - 1, [], PollSet(1)) && CalmRun(Start(), cs)
  {
    FirstRound();
    SecondRound();
    Join(Start(), Times(Bsp(false), 5), World(READY, 1, 0, [], PollSet(1)), Times(Bsp(false), 5));
    cs := Times(Bsp(false), 5) + Times(Bsp(false), 5);
  }

  /** A list of states, each the BSP's next one, is what the schedule gives. */
  lemma {:induction false} BspTrace(trace: seq<Sys>, k: nat)
    requires k < |trace|
    requires WellFormed(trace[0])
    requires forall i | 0 <= i < k :: WellFormed(trace[i]) && trace[i + 1] == Step(trace[i], Bsp(false))
    ensures Exec(trace[0], Times(Bsp(false), k)) == trace[k] && CalmRun(trace[0], Times(Bsp(false), k))
  {
    if k > 0 {
      BspTrace(trace, k - 1);
      assert Times(Bsp(false), k)[..k - 1] == Times(Bsp(false), k - 1);
    }
  }

  /** Four steps take an AP with a filled slot through its call. */
  lemma ApCalls(s: Sys, n: nat) returns (cs: seq<Choice>)
    requires WellFormed(s) && s.bsp == PollSet(n) && n < |s.cpu| && !s.cpu[n].isBsp
    requires s.cpu[n].pc == Polling && s.cpu[n].slot == Some(s.cfg.work)
    ensures var t := Exec(s, cs);
      && t.bsp == PollSet(n) && t.cpu[n].pc == Returned && t.cpu[n].calls == s.cpu[n].calls + [s.cfg.work]
    ensures CalmRun(s, cs)
  {
    ApRepeats(s, n, 4);
    cs := Times(Ap(n), 4);
    FourMoves(s.cpu[n], s.cfg.work);
    CalmMoves(s, n, 4);
  }

  /** An AP with a filled slot and not yet called is at most about to clear it. */
  lemma {:induction false} CalmMoves(s: Sys, n: nat, k: nat)
    requires WellFormed(s) && n < |s.cpu| && !s.cpu[n].isBsp && k <= 4
    requires s.cpu[n].pc == Polling && s.cpu[n].slot.Some?
    ensures CalmRun(s, Times(Ap(n), k))
  {
    if k > 0 {
      CalmMoves(s, n, k - 1);
      ApRepeats(s, n, k - 1);
      assert Times(Ap(n), k)[..k - 1] == Times(Ap(n), k - 1);
      NotReturned(s.cpu[n], k - 1);
    }
  }

  lemma NotReturned(c: Cpu, k: nat)
    requires c.pc == Polling && c.slot.Some? && k <= 3
    ensures Moves(c, k).pc != Returned
  {
    assert Moves(c, 1) == ApMove(Moves(c, 0));
    assert Moves(c, 2) == ApMove(Moves(c, 1));
    assert Moves(c, 3) == ApMove(Moves(c, 2));
  }
}
