/** The polling loop of a blocking StartupAllAPs with a time limit: what it
    stalls, how it returns, and that it returns whatever the APs do. */
module MpBlocking {
  import opened Common
  import opened MpProtocol
  import opened MpTiming
  import opened MpFairness

  /** A blocking call with a limit, and a poll interval that is a UINTN. */
  predicate Limited(s: Sys) {
    WellFormed(s) && s.cfg.blocking && 0 < s.cfg.limit < SPAN64 && 0 < s.cfg.interval < SPAN64
  }

  // ------------------------------------------------------------ what it stalls

  /** The end of a turn of the loop that goes on to another one. */
  predicate StallsAt(t: Sys, c: Choice)
    requires WellFormed(t)
  {
    c.Bsp? && t.bsp == PollCheck && Step(t, c).bsp != Left
  }

  /** The stalls made in a schedule. */
  function Stalled(s: Sys, cs: seq<Choice>): seq<nat>
    requires WellFormed(s)
  {
    if cs == [] then []
    else
      var m := |cs| - 1;
      var t := Exec(s, cs[..m]);
      if StallsAt(t, cs[m]) then Stalled(s, cs[..m]) + [StallTime(t.timeout, s.cfg.interval)]
      else Stalled(s, cs[..m])
  }

  /** How the loop returns. */
  predicate Returned(t: Sys) {
    && (t.timedOut ==> t.bsp == Left)
    && (t.bsp == Left ==> (t.timedOut <==> t.finishCount != t.startCount))
    && (t.timedOut ==> t.timeout == 0)
  }

  lemma StepBlocking(t: Sys, c: Choice)
    requires WellFormed(t) && t.cfg.blocking && t.cfg.limit != 0 && Returned(t)
    ensures Returned(Step(t, c))
    ensures StallsAt(t, c) ==> t.timeout != 0 && Step(t, c).timeout == Elapse(t.timeout, t.cfg.interval)
    ensures !StallsAt(t, c) ==> Step(t, c).timeout == t.timeout
  {
  }

  /** In every state of every schedule the remaining time has not wrapped, and
      the stalls made and those still to come are the stalls of the limit. */
  lemma {:induction false} StallsConserved(s: Sys, cs: seq<Choice>)
    requires Initial(s) && Limited(s)
    ensures Exec(s, cs).timeout <= s.cfg.limit && Returned(Exec(s, cs))
    ensures Stalled(s, cs) + Stalls(Exec(s, cs).timeout, s.cfg.interval) == Stalls(s.cfg.limit, s.cfg.interval)
  {
    if cs != [] {
      var m := |cs| - 1;
      var t := Exec(s, cs[..m]);
      StallsConserved(s, cs[..m]);
      StepBlocking(t, cs[m]);
      if StallsAt(t, cs[m]) { NextStall(Stalled(s, cs[..m]), t.timeout, s.cfg.interval); }
    }
  }

  /** So a call that has returned timed out exactly when the counters differ, and
      then it has stalled for the limit exactly. */
  lemma TimedOutExactly(s: Sys, cs: seq<Choice>)
    requires Initial(s) && Limited(s) && Exec(s, cs).bsp == Left
    ensures Exec(s, cs).timedOut <==> Exec(s, cs).finishCount != Exec(s, cs).startCount
    ensures Stalled(s, cs) <= Stalls(s.cfg.limit, s.cfg.interval)
    ensures Exec(s, cs).timedOut ==>
      Stalled(s, cs) == Stalls(s.cfg.limit, s.cfg.interval) && Sum(Stalled(s, cs)) == s.cfg.limit
  {
    StallsConserved(s, cs);
    StallsExact(s.cfg.limit, s.cfg.interval);
  }

  /** Every stall made is a full interval, but for what is left at the end. */
  lemma StalledExactly(s: Sys, cs: seq<Choice>)
    requires Initial(s) && Limited(s)
    ensures Spends(Stalled(s, cs), s.cfg.limit, s.cfg.interval)
    ensures var used := |Stalled(s, cs)| * s.cfg.interval;
      Exec(s, cs).timeout == if used <= s.cfg.limit then s.cfg.limit - used else 0
  {
    var made := Stalled(s, cs);
    StallsConserved(s, cs);
    PrefixSpends(made, s.cfg.limit, s.cfg.interval);
    RestIs(made, Exec(s, cs).timeout, s.cfg.limit, s.cfg.interval);
  }

  lemma RestIs(made: seq<nat>, timeout: nat, limit: nat, interval: nat)
    requires 0 < limit < SPAN64 && 0 < interval < SPAN64 && timeout < SPAN64
    requires made + Stalls(timeout, interval) == Stalls(limit, interval)
    ensures timeout == if |made| * interval <= limit then limit - |made| * interval else 0
  {
    var n := |made|;
    CountdownStalls(limit, interval, n);
    RemainsExactly(limit, interval, n);
    assert Stalls(limit, interval)[n..] == Stalls(timeout, interval);
    StallsExact(timeout, interval);
    StallsExact(AfterTicks(limit, interval, n), interval);
  }

  // --------------------------------------------------------------- it returns

  /** The most steps the BSP takes for one processor, and for a whole turn. */
  function PerCpu(n: nat): nat { n + 4 }

  function PerTurn(n: nat): nat { n * PerCpu(n) + 2 }

  /** The steps to the end of the turn from processor k on. */
  function FromCpu(n: nat, k: nat): nat {
    if k >= n then 2 else (n - k) * PerCpu(n) + 2
  }

  lemma FromNext(n: nat, k: nat)
    requires k < n
    ensures FromCpu(n, k) == FromCpu(n, k + 1) + PerCpu(n)
  {
    assert (n - k) * PerCpu(n) == (n - (k + 1)) * PerCpu(n) + PerCpu(n);
  }

  /** The most steps the BSP can take from here to the end of its turn. */
  function ToTurnEnd(s: Sys): nat {
    var n := |s.cpu|;
    match s.bsp
    case Prepare(k, _) => PerTurn(n) + 1 + if k >= n then 0 else n - k
    case Poll(k) => FromCpu(n, k)
    case PollSet(k) => FromCpu(n, k + 1) + 1
    case Find(k, j) => FromCpu(n, k + 1) + 2 + if j >= n then 0 else n - j
    case Promote(k, _) => FromCpu(n, k + 1) + 2
    case Retire(k) => FromCpu(n, k + 1) + 1
    case PollCheck => 1
    case _ => 0
  }

  /** The most steps it can take at all: whole turns for the stalls to come. */
  function Budget(s: Sys): nat
    requires s.cfg.interval > 0
  {
    ToTurnEnd(s) + |Stalls(s.timeout, s.cfg.interval)| * PerTurn(|s.cpu|)
  }

  /** Inside a turn each step brings the end closer. */
  lemma TurnStep(s: Sys)
    requires WellFormed(s) && s.cfg.blocking && s.bsp != PollCheck && s.bsp != Left
    ensures ToTurnEnd(BspStep(s, false)) < ToTurnEnd(s) && BspStep(s, false).timeout == s.timeout
  {
    match s.bsp
    case Prepare(_, _) => PrepareTurn(s);
    case Poll(_) => PollTurn(s);
    case _ =>
  }

  lemma PrepareTurn(s: Sys)
    requires WellFormed(s) && s.cfg.blocking && s.bsp.Prepare?
    ensures ToTurnEnd(BspStep(s, false)) < ToTurnEnd(s) && BspStep(s, false).timeout == s.timeout
  {
    assert FromCpu(|s.cpu|, 0) <= PerTurn(|s.cpu|);
  }

  lemma PollTurn(s: Sys)
    requires WellFormed(s) && s.cfg.blocking && s.bsp.Poll?
    ensures ToTurnEnd(BspStep(s, false)) < ToTurnEnd(s) && BspStep(s, false).timeout == s.timeout
  {
    if s.bsp.n < |s.cpu| { FromNext(|s.cpu|, s.bsp.n); }
  }

  lemma SameStep(s: Sys, lockFails: bool)
    requires WellFormed(s) && s.cfg.blocking
    ensures BspStep(s, lockFails) == BspStep(s, false)
  {
  }

  lemma TurnOver(k: nat, turn: nat)
    requires k > 0
    ensures k * turn == (k - 1) * turn + turn
  {
  }

  /** At its end the loop returns, or spends a stall on another turn. */
  lemma EndOfTurn(s: Sys)
    requires WellFormed(s) && s.cfg.blocking && s.cfg.limit != 0 && s.bsp == PollCheck
    requires s.timeout < SPAN64 && s.cfg.interval > 0
    ensures BspStep(s, false).bsp == Left || Budget(BspStep(s, false)) < Budget(s)
  {
    var t := BspStep(s, false);
    if t.bsp != Left {
      NextStall([], s.timeout, s.cfg.interval);
      var rest := Stalls(t.timeout, s.cfg.interval);
      assert |Stalls(s.timeout, s.cfg.interval)| == |rest| + 1;
      TurnOver(|rest| + 1, PerTurn(|s.cpu|));
      assert FromCpu(|s.cpu|, 0) == PerTurn(|s.cpu|);
    }
  }

  lemma BudgetStep(s: Sys, c: Choice)
    requires WellFormed(s) && s.cfg.blocking && s.cfg.limit != 0 && s.timeout < SPAN64 && s.cfg.interval > 0
    requires s.bsp != Left
    ensures c.Ap? ==> Budget(Step(s, c)) == Budget(s)
    ensures c.Bsp? ==> Step(s, c).bsp == Left || Budget(Step(s, c)) < Budget(s)
  {
    if c.Bsp? {
      SameStep(s, c.lockFails);
      if s.bsp == PollCheck { EndOfTurn(s); } else { TurnStep(s); }
    }
  }

  lemma {:induction false} BudgetSpent(s: Sys, cs: seq<Choice>)
    requires Initial(s) && Limited(s) && Exec(s, cs).bsp != Left
    ensures Budget(Exec(s, cs)) + BspSteps(cs) <= Budget(s)
  {
    if cs != [] {
      var m := |cs| - 1;
      var t := Exec(s, cs[..m]);
      StallsConserved(s, cs[..m]);
      assert t.bsp != Left;
      BudgetSpent(s, cs[..m]);
      BudgetStep(t, cs[m]);
    }
  }

  /** A blocking call with a limit returns, whatever the APs do: at the latest
      after ceil(limit / interval) + 1 turns' worth of BSP steps and those that
      assign the states. */
  lemma BlockingCallReturns(s: Sys, cs: seq<Choice>)
    requires Initial(s) && Limited(s)
    requires BspSteps(cs) > (|Stalls(s.cfg.limit, s.cfg.interval)| + 1) * PerTurn(|s.cpu|) + |s.cpu| + 1
    ensures Exec(s, cs).bsp == Left
  {
    TurnOver(|Stalls(s.cfg.limit, s.cfg.interval)| + 1, PerTurn(|s.cpu|));
    if Exec(s, cs).bsp != Left { BudgetSpent(s, cs); }
  }
}
