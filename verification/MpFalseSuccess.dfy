/** After a second start the finished AP is counted twice, and a blocking call
    can return success while another enabled AP has never called the procedure. */
module MpFalseSuccess {
  import opened Common
  import opened MpProtocol
  import opened MpInvariant
  import opened MpTheorems
  import opened MpRearm
  import opened MpSecondCall
  import opened MpTurns

  /** The call has returned success, and an enabled AP has not called. */
  predicate FalseSuccess(t: Sys, p: nat) {
    p < |t.cpu| && t.bsp == Left && !t.timedOut && t.cpu[p].Participant() && t.cpu[p].calls == []
  }

  // -------------------------------------------------------- what it takes

  /** What holds of a block in every blocking run, calm or not. */
  predicate Sound(c: Cpu) {
    && (c.Participant() && c.state == Finished ==> c.calls != [])
    && (c.pc == Inside || c.pc == Returned || c.pc == Cleared ==> c.calls != [])
    && (!c.Participant() ==> c.slot == None && c.pc == Polling && c.calls == [] && (c.isBsp || c.state == Idle))
  }

  predicate AllSound(cpu: seq<Cpu>) {
    forall p | 0 <= p < |cpu| :: Sound(cpu[p])
  }

  predicate SomeCalled(cpu: seq<Cpu>) {
    exists p | 0 <= p < |cpu| :: cpu[p].calls != []
  }

  predicate SomeBelow(cpu: seq<Cpu>, n: nat) {
    exists p | 0 <= p < n && p < |cpu| :: cpu[p].Participant()
  }

  /** Where there is a participant there is something to count. */
  predicate Started(t: Sys) {
    match t.bsp
    case Prepare(n, initial) => initial != Finished && (SomeBelow(t.cpu, n) ==> t.startCount > 0)
    case _ => SomeBelow(t.cpu, |t.cpu|) ==> t.startCount > 0
  }

  /** The processors the program counter names take part. */
  predicate Named(t: Sys) {
    match t.bsp
    case PollSet(n) => n < |t.cpu| && t.cpu[n].Participant()
    case Promote(n, k) => n < |t.cpu| && k < |t.cpu| && t.cpu[n].Participant() && t.cpu[k].Participant()
    case Retire(n) => n < |t.cpu| && t.cpu[n].Participant()
    case Find(n, _) => n < |t.cpu| && t.cpu[n].Participant()
    case _ => true
  }

  /** Counting takes a call. */
  predicate Honest(t: Sys) {
    && WellFormed(t) && t.cfg.blocking && AllSound(t.cpu) && Started(t) && Named(t)
    && (t.finishCount > 0 ==> SomeCalled(t.cpu))
    && (t.bsp == Left && !t.timedOut ==> t.finishCount == t.startCount)
  }

  /** One block changes and keeps its flags, its soundness and its calls. */
  predicate Replaced(cpu: seq<Cpu>, p: nat, c: Cpu) {
    && p < |cpu| && c.isBsp == cpu[p].isBsp && c.enabled == cpu[p].enabled
    && Sound(c) && (cpu[p].calls != [] ==> c.calls != [])
  }

  lemma ReplacedKeeps(cpu: seq<Cpu>, p: nat, c: Cpu)
    requires AllSound(cpu) && Replaced(cpu, p, c)
    ensures AllSound(cpu[p := c]) && (SomeCalled(cpu) ==> SomeCalled(cpu[p := c]))
    ensures forall n: nat :: SomeBelow(cpu[p := c], n) <==> SomeBelow(cpu, n)
  {
    var after := cpu[p := c];
    assert forall q | 0 <= q < |cpu| :: after[q].Participant() == cpu[q].Participant();
    if q :| 0 <= q < |cpu| && cpu[q].calls != [] { assert after[q].calls != []; }
    forall n: nat ensures SomeBelow(after, n) <==> SomeBelow(cpu, n) {
      if q :| 0 <= q < n && q < |cpu| && cpu[q].Participant() { assert after[q].Participant(); }
      if q :| 0 <= q < n && q < |cpu| && after[q].Participant() { assert cpu[q].Participant(); }
    }
  }

  lemma ApHonest(t: Sys, p: nat)
    requires Honest(t) && p < |t.cpu| && !t.cpu[p].isBsp
    ensures Honest(ApStep(t, p))
  {
    ReplacedKeeps(t.cpu, p, ApMove(t.cpu[p]));
  }

  lemma PrepareHonest(t: Sys)
    requires Honest(t) && t.bsp.Prepare?
    ensures Honest(BspStep(t, false))
  {
    var n := t.bsp.n;
    if n < |t.cpu| && t.cpu[n].Participant() {
      ReplacedKeeps(t.cpu, n, t.cpu[n].SetState(t.bsp.initial));
    }
  }

  lemma PollHonest(t: Sys)
    requires Honest(t) && t.bsp.Poll?
    ensures Honest(BspStep(t, false))
  {
    var n := t.bsp.n;
    if n < |t.cpu| && t.cpu[n].Participant() && t.cpu[n].state == Finished {
      assert Sound(t.cpu[n]);
    }
  }

  lemma WriteHonest(t: Sys)
    requires Honest(t) && (t.bsp.PollSet? || t.bsp.Promote? || t.bsp.Retire?)
    ensures Honest(BspStep(t, false))
  {
    match t.bsp
    case PollSet(n) =>
      assert Sound(t.cpu[n]);
      ReplacedKeeps(t.cpu, n, t.cpu[n].(slot := Some(t.cfg.work)));
    case Promote(n, k) =>
      assert Sound(t.cpu[k]);
      ReplacedKeeps(t.cpu, k, t.cpu[k].SetState(Ready));
    case Retire(n) =>
      assert Sound(t.cpu[n]);
      ReplacedKeeps(t.cpu, n, t.cpu[n].SetState(Idle));
  }

  lemma FindHonest(t: Sys)
    requires Honest(t) && t.bsp.Find?
    ensures Honest(BspStep(t, false))
  {
    if t.bsp.k < |t.cpu| { assert Sound(t.cpu[t.bsp.k]); }
  }

  lemma BspHonest(t: Sys)
    requires Honest(t)
    ensures Honest(BspStep(t, false))
  {
    match t.bsp
    case Prepare(_, _) => PrepareHonest(t);
    case Poll(_) => PollHonest(t);
    case PollSet(_) => WriteHonest(t);
    case Promote(_, _) => WriteHonest(t);
    case Retire(_) => WriteHonest(t);
    case Find(_, _) => FindHonest(t);
    case _ =>
  }

  lemma LocksDoNotMatter(t: Sys, lockFails: bool)
    requires WellFormed(t) && t.cfg.blocking
    ensures BspStep(t, lockFails) == BspStep(t, false)
  {
  }

  lemma {:induction false} StaysHonest(s: Sys, cs: seq<Choice>)
    requires Initial(s) && WellFormed(s) && s.cfg.blocking
    ensures Honest(Exec(s, cs))
  {
    if cs != [] {
      var t, c := Exec(s, cs[..|cs| - 1]), cs[|cs| - 1];
      StaysHonest(s, cs[..|cs| - 1]);
      match c
      case Ap(p) => if p < |t.cpu| && !t.cpu[p].isBsp { ApHonest(t, p); }
      case Bsp(lockFails) =>
        LocksDoNotMatter(t, lockFails);
        BspHonest(t);
    }
  }

  /** A false success takes a blocking call in which an AP clears its slot inside
      the window, and another enabled AP that has called. */
  lemma FalseSuccessTakes(s: Sys, cs: seq<Choice>, p: nat)
    requires Initial(s) && WellFormed(s) && FalseSuccess(Exec(s, cs), p)
    ensures s.cfg.blocking && !CalmRun(s, cs)
    ensures exists q | 0 <= q < |s.cpu| && q != p :: s.cpu[q].Participant() && Exec(s, cs).cpu[q].calls != []
  {
    var t := Exec(s, cs);
    FlagsKept(s, cs);
    assert Flags(s.cpu)[p] == Flags(t.cpu)[p];
    if CalmRun(s, cs) { ExactlyOnce(s, cs, p); }
    StaysHonest(s, cs);
    assert SomeBelow(t.cpu, |t.cpu|);
    var q :| 0 <= q < |t.cpu| && t.cpu[q].calls != [];
    assert Sound(t.cpu[q]);
    assert Flags(s.cpu)[q] == Flags(t.cpu)[q];
  }

  // ------------------------------------------------ the table between turns

  /** The doubled AP: it has been counted and its slot is full again. */
  predicate Loaded(c: Cpu, w: Work) {
    c.pc == Polling && c.state == Idle && c.slot == Some(w)
  }

  predicate Resting(c: Cpu) {
    c.pc == Polling && c.state == Idle && c.slot == None
  }

  /** An AP that has not polled. */
  predicate Fresh(c: Cpu, cfg: Config) {
    && c.pc == Polling && c.calls == []
    && ((c.state == Ready && c.slot == Some(cfg.work)) || (cfg.singleThread && c.state == Blocked && c.slot == None))
  }

  /** All below m have been counted, the first one, q, is about to call again. */
  predicate Placed(c: Cpu, cfg: Config, y: nat, q: nat, m: nat) {
    if y == q then Loaded(c, cfg.work) else if y < m then Resting(c) else Fresh(c, cfg)
  }

  /** The time allows for the stalls still to come. */
  predicate InTime(limit: nat, timeout: nat, stalls: int, interval: nat) {
    limit == 0 || stalls * interval < timeout < SPAN64
  }

  predicate Frame(t: Sys, q: nat, m: nat) {
    && WellFormed(t) && t.cfg.blocking && t.bsp == Poll(0) && !t.timedOut
    && IsFirst(t.cpu, q) && Bystanders(t.cpu) && q <= m < |t.cpu| && t.cpu[m].Participant()
    && t.startCount == Participants(Flags(t.cpu)) && t.finishCount == Participants(Flags(t.cpu)[..m])
    && InTime(t.cfg.limit, t.timeout, t.startCount - t.finishCount - 2, t.cfg.interval)
  }

  /** m is the next to call. */
  predicate Lined(t: Sys, q: nat, m: nat) {
    && Frame(t, q, m) && q < m && t.cpu[m].state == Ready
    && forall y | 0 <= y < |t.cpu| && t.cpu[y].Participant() :: Placed(t.cpu[y], t.cfg, y, q, m)
  }

  /** x is finished. */
  predicate Due(t: Sys, q: nat, x: nat) {
    && Frame(t, q, x)
    && t.cpu[x].pc == Polling && t.cpu[x].state == Finished
    && t.cpu[x].slot == (if x == q then Some(t.cfg.work) else None)
    && forall y | 0 <= y < |t.cpu| && y != x && t.cpu[y].Participant() :: Placed(t.cpu[y], t.cfg, y, q, x)
  }

  lemma DueIsOne(t: Sys, q: nat, x: nat)
    requires Due(t, q, x)
    ensures OneDue(t, x)
  {
    forall y | 0 <= y < |t.cpu| && !t.cpu[y].isBsp && t.cpu[y].state == Blocked
      ensures y > x && t.cpu[y].Participant()
    {
      assert t.cpu[y].Participant() || Bystander(t.cpu[y]);
    }
  }

  /** m is the next participant after x. */
  predicate Follows(cpu: seq<Cpu>, x: nat, m: nat) {
    x < m < |cpu| && cpu[m].Participant() && forall y | x < y < m :: !cpu[y].Participant()
  }

  lemma FollowerOf(cpu: seq<Cpu>, x: nat, p: nat) returns (m: nat)
    requires x < p < |cpu| && cpu[p].Participant()
    ensures Follows(cpu, x, m) && m <= p
  {
    m := x + 1;
    while !cpu[m].Participant()
      invariant x < m <= p && forall y | x < y < m :: !cpu[y].Participant()
      decreases p - m
    {
      m := m + 1;
    }
  }

  lemma NextIsReleased(t: Sys, q: nat, x: nat, m: nat)
    requires Due(t, q, x) && Follows(t.cpu, x, m)
    ensures var b := NextBlocked(t);
      && (b < |t.cpu| ==> m <= b && t.cpu[b].Participant() && t.cpu[b].slot == None)
      && (t.cpu[m].state == Ready || b == m)
  {
    DueIsOne(t, q, x);
    var b := NextBlocked(t);
    assert Placed(t.cpu[m], t.cfg, m, q, x);
    if b < |t.cpu| { assert Placed(t.cpu[b], t.cfg, b, q, x); }
    if t.cpu[m].state == Blocked && m < b { assert !t.cpu[m].isBsp; }
  }

  lemma TablePlaced(t: Sys, q: nat, x: nat, m: nat)
    requires Due(t, q, x) && Follows(t.cpu, x, m)
    ensures var cpu := TurnTable(t, x);
      && |cpu| == |t.cpu| && Flags(cpu) == Flags(t.cpu) && Bystanders(cpu) && cpu[m].state == Ready
      && forall y | 0 <= y < |cpu| && cpu[y].Participant() :: Placed(cpu[y], t.cfg, y, q, m)
  {
    NextIsReleased(t, q, x, m);
    var cpu := TurnTable(t, x);
    forall y | 0 <= y < |cpu| && cpu[y].Participant() ensures Placed(cpu[y], t.cfg, y, q, m) {
      if y != x { assert Placed(t.cpu[y], t.cfg, y, q, x); }
    }
    forall y | 0 <= y < |cpu| && !cpu[y].Participant() ensures Bystander(cpu[y]) {
      assert cpu[y] == t.cpu[y];
    }
  }

  // ---------------------------------------------------------------- counting

  lemma {:induction false} NoneBetween(part: seq<bool>, a: nat, b: nat)
    requires a <= b <= |part| && forall y | a <= y < b :: !part[y]
    ensures Participants(part[..b]) == Participants(part[..a])
  {
    if a < b {
      NoneBetween(part, a, b - 1);
      assert part[..b][..b - 1] == part[..b - 1];
    }
  }

  lemma {:induction false} FewerBelow(part: seq<bool>, a: nat, b: nat)
    requires a <= b <= |part|
    ensures Participants(part[..a]) <= Participants(part[..b])
  {
    if a < b {
      FewerBelow(part, a, b - 1);
      assert part[..b][..b - 1] == part[..b - 1];
    }
  }

  lemma OneMore(part: seq<bool>, x: nat)
    requires x < |part| && part[x]
    ensures Participants(part[..x + 1]) == Participants(part[..x]) + 1 <= Participants(part)
  {
    assert part[..x + 1][..x] == part[..x];
    FewerBelow(part, x + 1, |part|);
    assert part[..|part|] == part;
  }

  lemma FollowerCount(cpu: seq<Cpu>, x: nat, m: nat)
    requires Follows(cpu, x, m) && cpu[x].Participant()
    ensures Participants(Flags(cpu)[..m]) == Participants(Flags(cpu)[..x]) + 1 < Participants(Flags(cpu))
  {
    OneMore(Flags(cpu), x);
    NoneBetween(Flags(cpu), x + 1, m);
    OneMore(Flags(cpu), m);
  }

  lemma Spend(limit: nat, timeout: nat, stalls: int, interval: nat)
    requires InTime(limit, timeout, stalls, interval) && stalls >= 0
    ensures limit != 0 ==> timeout != 0
    ensures InTime(limit, Elapse(timeout, interval), stalls - 1, interval)
  {
    assert stalls * interval >= 0;
    assert (stalls - 1) * interval == stalls * interval - interval;
  }

  // ------------------------------------------------------------- the rounds

  /** The state after the turn and the stall. */
  function AfterTurn(t: Sys, x: nat): Sys
    requires x < |t.cpu|
  {
    t.(cpu := TurnTable(t, x), finishCount := t.finishCount + 1,
       timeout := Elapse(t.timeout, t.cfg.interval), bsp := Poll(0))
  }

  lemma ToNextTurn(t: Sys, x: nat)
    requires OneDue(t, x) && t.cfg.blocking && t.finishCount + 1 != t.startCount
    requires t.cfg.limit != 0 ==> t.timeout != 0
    ensures Leads(t, AfterTurn(t, x))
  {
    Turn(t, x);
    var checked := t.(cpu := TurnTable(t, x), finishCount := t.finishCount + 1, bsp := PollCheck);
    BspLeads(checked, AfterTurn(t, x));
    Chain(t, checked, AfterTurn(t, x));
  }

  lemma SameFirst(a: seq<Cpu>, b: seq<Cpu>, q: nat)
    requires Flags(a) == Flags(b) && IsFirst(a, q)
    ensures IsFirst(b, q)
  {
    assert forall y | 0 <= y < |a| :: a[y].Participant() == Flags(a)[y] == b[y].Participant();
  }

  lemma StillLined(t: Sys, q: nat, x: nat, m: nat)
    requires Due(t, q, x) && Follows(t.cpu, x, m)
    ensures Lined(AfterTurn(t, x), q, m)
  {
    TablePlaced(t, q, x, m);
    FollowerCount(t.cpu, x, m);
    Spend(t.cfg.limit, t.timeout, t.startCount - t.finishCount - 2, t.cfg.interval);
    SameFirst(t.cpu, TurnTable(t, x), q);
    assert TurnTable(t, x)[m].Participant() == Flags(t.cpu)[m];
  }

  lemma TurnOn(t: Sys, q: nat, x: nat, p: nat) returns (u: Sys, m: nat)
    requires Due(t, q, x) && x < p < |t.cpu| && t.cpu[p].Participant()
    ensures Leads(t, u) && Lined(u, q, m) && x < m <= p && Flags(u.cpu) == Flags(t.cpu)
  {
    m := FollowerOf(t.cpu, x, p);
    u := AfterTurn(t, x);
    DueIsOne(t, q, x);
    FollowerCount(t.cpu, x, m);
    Spend(t.cfg.limit, t.timeout, t.startCount - t.finishCount - 2, t.cfg.interval);
    ToNextTurn(t, x);
    TablePlaced(t, q, x, m);
    StillLined(t, q, x, m);
  }

  /** The next AP calls and finishes. */
  lemma NextCalls(t: Sys, q: nat, m: nat) returns (u: Sys)
    requires Lined(t, q, m)
    ensures Leads(t, u) && Due(u, q, m) && Flags(u.cpu) == Flags(t.cpu)
  {
    assert Placed(t.cpu[m], t.cfg, m, q, m);
    SixMoves(t.cpu[m], t.cfg.work);
    u := RunAp(t, m, 6);
    FinishedIsDue(t, u, q, m);
  }

  lemma FinishedIsDue(t: Sys, u: Sys, q: nat, m: nat)
    requires Lined(t, q, m) && u == t.(cpu := u.cpu, order := u.order)
    requires |u.cpu| == |t.cpu| && u.cpu == t.cpu[m := u.cpu[m]] && u.cpu[m].Participant()
    requires u.cpu[m].pc == Polling && u.cpu[m].state == Finished && u.cpu[m].slot == None
    ensures Due(u, q, m) && Flags(u.cpu) == Flags(t.cpu)
  {
    FlagsSame(t.cpu, m, u.cpu[m]);
    SameFirst(t.cpu, u.cpu, q);
  }

  lemma FlagsSame(cpu: seq<Cpu>, m: nat, c: Cpu)
    requires m < |cpu| && cpu[m].Participant() && c.Participant()
    ensures Flags(cpu[m := c]) == Flags(cpu) && (Bystanders(cpu) ==> Bystanders(cpu[m := c]))
  {
  }

  lemma {:induction false} RoundsTo(t: Sys, q: nat, m: nat, p: nat) returns (u: Sys)
    requires Lined(t, q, m) && m <= p < |t.cpu| && t.cpu[p].Participant()
    ensures Leads(t, u) && Lined(u, q, p) && Flags(u.cpu) == Flags(t.cpu)
    decreases p - m
  {
    if m == p {
      u := t;
      Stay(t);
    } else {
      var t1 := NextCalls(t, q, m);
      assert Flags(t1.cpu)[p];
      var t2, m2 := TurnOn(t1, q, m, p);
      assert Flags(t2.cpu)[p];
      u := RoundsTo(t2, q, m2, p);
      Chain(t, t1, t2);
      Chain(t, t2, u);
    }
  }

  predicate IsLast(cpu: seq<Cpu>, p: nat) {
    p < |cpu| && cpu[p].Participant() && forall y | p < y < |cpu| :: !cpu[y].Participant()
  }

  predicate NoneBlocked(cpu: seq<Cpu>) {
    forall y | 0 <= y < |cpu| && !cpu[y].isBsp :: cpu[y].state != Blocked
  }

  /** Before the last one has moved there is nothing else to do. */
  lemma OnlyFirst(t: Sys, q: nat, p: nat, c: Cpu)
    requires Lined(t, q, p) && IsLast(t.cpu, p) && c.Participant() && c.state == Finished
    ensures NoneBlocked(t.cpu[q := c])
    ensures forall y | 0 <= y < |t.cpu| && y != q && t.cpu[y].Participant() :: Passed(t.cpu[y], t.cfg.work)
  {
    forall y | 0 <= y < |t.cpu| && y != q && !t.cpu[y].isBsp ensures t.cpu[y].state != Blocked {
      assert if t.cpu[y].Participant() then Placed(t.cpu[y], t.cfg, y, q, p) else Bystander(t.cpu[y]);
    }
    forall y | 0 <= y < |t.cpu| && y != q && t.cpu[y].Participant() ensures Passed(t.cpu[y], t.cfg.work) {
      assert Placed(t.cpu[y], t.cfg, y, q, p);
    }
  }

  /** The doubled AP calls a second time. */
  lemma CallsAhead(t: Sys, q: nat, p: nat) returns (u: Sys)
    requires Lined(t, q, p) && IsLast(t.cpu, p)
    ensures Leads(t, u) && OneDue(u, q) && NextBlocked(u) == |u.cpu| && q < p < |u.cpu|
    ensures u == t.(cpu := u.cpu, order := u.order) && Flags(u.cpu) == Flags(t.cpu) && u.cpu[p] == t.cpu[p]
  {
    assert Placed(t.cpu[q], t.cfg, q, q, p);
    SixMoves(t.cpu[q], t.cfg.work);
    u := RunAp(t, q, 6);
    OnlyFirst(t, q, p, u.cpu[q]);
    assert Flags(u.cpu) == Flags(t.cpu);
  }

  /** That call is counted in its place, and the counters agree. */
  lemma LastTurn(t: Sys, q: nat, p: nat) returns (u: Sys)
    requires Lined(t, q, p) && IsLast(t.cpu, p)
    ensures Leads(t, u) && FalseSuccess(u, p)
  {
    var t1 := CallsAhead(t, q, p);
    Turn(t1, q);
    var checked := t1.(cpu := TurnTable(t1, q), finishCount := t1.finishCount + 1, bsp := PollCheck);
    OneMore(Flags(t.cpu), p);
    NoneBetween(Flags(t.cpu), p + 1, |t.cpu|);
    assert Flags(t.cpu)[..|t.cpu|] == Flags(t.cpu);
    assert checked.finishCount == checked.startCount;
    u := checked.(bsp := Left);
    BspLeads(checked, u);
    Chain(t, t1, checked);
    Chain(t, checked, u);
    assert Placed(t.cpu[p], t.cfg, p, q, p);
  }

  // ------------------------------------------------------------- the re-arm

  lemma FreshAt(t: Sys, q: nat, y: nat)
    requires Inv(t) && ReadAgain(t, q) && Begun(t, q) && y < |t.cpu| && t.cpu[y].Participant()
    ensures Fresh(t.cpu[y], t.cfg)
  {
    PhaseNow(t, y);
    assert Swept(t, q, y);
  }

  /** The first AP calls and clears its slot between the read and the write. */
  lemma Rearm(t: Sys, q: nat) returns (u: Sys)
    requires Inv(t) && ReadAgain(t, q) && Begun(t, q)
    ensures Leads(t, u) && WellFormed(u) && u == t.(cpu := u.cpu, order := u.order, bsp := Poll(q + 1))
    ensures |u.cpu| == |t.cpu| && u.cpu == t.cpu[q := u.cpu[q]] && u.cpu[q].Participant()
    ensures u.cpu[q].pc == Cleared && u.cpu[q].slot == Some(t.cfg.work) && u.cpu[q].state == Busy
  {
    FreshAt(t, q, q);
    FiveToCleared(t.cpu[q], t.cfg.work);
    var m := RunAp(t, q, 5);
    u := m.(cpu := m.cpu[q := m.cpu[q].(slot := Some(t.cfg.work))], bsp := Poll(q + 1));
    BspLeads(m, u);
    Chain(t, m, u);
  }

  lemma FiveToCleared(c: Cpu, w: Work)
    requires c.pc == Polling && c.slot == Some(w)
    ensures var d := Moves(c, 5); d.pc == Cleared && d.state == Busy && d.isBsp == c.isBsp && d.enabled == c.enabled
  {
    assert Moves(c, 1) == ApMove(Moves(c, 0));
    assert Moves(c, 2) == ApMove(Moves(c, 1));
    assert Moves(c, 3) == ApMove(Moves(c, 2));
    assert Moves(c, 4) == ApMove(Moves(c, 3));
    assert Moves(c, 5) == ApMove(Moves(c, 4));
  }

  /** Then the turn goes on and the BSP stalls. */
  lemma RearmedTurn(t: Sys, q: nat) returns (u: Sys)
    requires Inv(t) && ReadAgain(t, q) && Begun(t, q) && t.startCount > 0 && (t.cfg.limit != 0 ==> t.timeout != 0)
    ensures Leads(t, u) && WellFormed(u)
    ensures u == t.(cpu := u.cpu, order := u.order, timeout := Elapse(t.timeout, t.cfg.interval), bsp := Poll(0))
    ensures |u.cpu| == |t.cpu| && u.cpu == t.cpu[q := u.cpu[q]] && u.cpu[q].Participant()
    ensures u.cpu[q].pc == Cleared && u.cpu[q].slot == Some(t.cfg.work)
  {
    var t1 := Rearm(t, q);
    forall y | q < y < |t.cpu| && t.cpu[y].Participant() ensures Passed(t1.cpu[y], t.cfg.work) { FreshAt(t, q, y); }
    ToCheck(t1);
    var t2 := t1.(bsp := PollCheck);
    u := t1.(timeout := Elapse(t.timeout, t.cfg.interval), bsp := Poll(0));
    BspLeads(t2, u);
    Chain(t, t1, t2);
    Chain(t, t2, u);
  }

  lemma ReadFacts(t: Sys, q: nat)
    requires Inv(t) && ReadAgain(t, q)
    ensures t.startCount == Participants(Flags(t.cpu)) && t.finishCount == 0 && !t.timedOut && t.cfg.blocking
    ensures t.timeout == Elapse(t.cfg.limit, t.cfg.interval) && Bystanders(t.cpu)
  {
  }

  /** And the AP finishes with its slot full. */
  lemma FinishesLoaded(t: Sys, q: nat) returns (u: Sys)
    requires Inv(t) && ReadAgain(t, q) && Begun(t, q) && t.startCount > 0 && (t.cfg.limit != 0 ==> t.timeout != 0)
    ensures Leads(t, u) && WellFormed(u)
    ensures u == t.(cpu := u.cpu, order := u.order, timeout := Elapse(t.timeout, t.cfg.interval), bsp := Poll(0))
    ensures |u.cpu| == |t.cpu| && u.cpu == t.cpu[q := u.cpu[q]] && u.cpu[q].Participant()
    ensures u.cpu[q].pc == Polling && u.cpu[q].state == Finished && u.cpu[q].slot == Some(t.cfg.work)
  {
    var m := RearmedTurn(t, q);
    OneMove(m.cpu[q]);
    u := RunAp(m, q, 1);
    Chain(t, m, u);
    assert m.cpu[q := u.cpu[q]] == t.cpu[q := u.cpu[q]];
  }

  lemma FirstDue(t: Sys, q: nat, p: nat) returns (u: Sys)
    requires Inv(t) && ReadAgain(t, q) && Begun(t, q) && q < p < |t.cpu| && t.cpu[p].Participant()
    requires InTime(t.cfg.limit, t.timeout, t.startCount - 1, t.cfg.interval)
    ensures Leads(t, u) && Due(u, q, q) && Flags(u.cpu) == Flags(t.cpu)
  {
    ReadFacts(t, q);
    TwoCount(t.cpu, q, p);
    Spend(t.cfg.limit, t.timeout, t.startCount - 1, t.cfg.interval);
    u := FinishesLoaded(t, q);
    OthersFresh(t, q);
    BecomesDue(t, u, q);
  }

  predicate OthersPlaced(t: Sys, q: nat) {
    forall y | 0 <= y < |t.cpu| && y != q && t.cpu[y].Participant() :: Placed(t.cpu[y], t.cfg, y, q, q)
  }

  lemma BecomesDue(t: Sys, u: Sys, q: nat)
    requires IsFirst(t.cpu, q) && Bystanders(t.cpu) && OthersPlaced(t, q)
    requires |u.cpu| == |t.cpu| && u.cpu == t.cpu[q := u.cpu[q]] && u.cpu[q].Participant() && u.cfg == t.cfg
    requires u.cpu[q].pc == Polling && u.cpu[q].state == Finished && u.cpu[q].slot == Some(t.cfg.work)
    requires WellFormed(u) && u.cfg.blocking && u.bsp == Poll(0) && !u.timedOut
    requires u.startCount == Participants(Flags(t.cpu)) && u.finishCount == 0
    requires InTime(u.cfg.limit, u.timeout, u.startCount - 2, u.cfg.interval)
    ensures Due(u, q, q) && Flags(u.cpu) == Flags(t.cpu)
  {
    FlagsSame(t.cpu, q, u.cpu[q]);
    SameFirst(t.cpu, u.cpu, q);
    FirstFramed(u, q);
  }

  lemma OthersFresh(t: Sys, q: nat)
    requires Inv(t) && ReadAgain(t, q) && Begun(t, q)
    ensures OthersPlaced(t, q)
  {
    forall y | 0 <= y < |t.cpu| && y != q && t.cpu[y].Participant() ensures Placed(t.cpu[y], t.cfg, y, q, q) {
      FreshAt(t, q, y);
    }
  }

  lemma FirstFramed(u: Sys, q: nat)
    requires WellFormed(u) && u.cfg.blocking && u.bsp == Poll(0) && !u.timedOut && IsFirst(u.cpu, q)
    requires Bystanders(u.cpu) && u.startCount == Participants(Flags(u.cpu)) && u.finishCount == 0
    requires InTime(u.cfg.limit, u.timeout, u.startCount - 2, u.cfg.interval)
    ensures Frame(u, q, q)
  {
    NoneBetween(Flags(u.cpu), 0, q);
  }

  lemma TwoCount(cpu: seq<Cpu>, q: nat, p: nat)
    requires q < p < |cpu| && cpu[q].Participant() && cpu[p].Participant()
    ensures Participants(Flags(cpu)) >= 2
  {
    OneMore(Flags(cpu), q);
    FewerBelow(Flags(cpu), q + 1, p);
    OneMore(Flags(cpu), p);
  }

  // --------------------------------------------------------- the condition

  /** The limit, if there is one, is longer than one interval for each AP. */
  predicate LongEnough(s: Sys) {
    InTime(s.cfg.limit, s.cfg.limit, Participants(Flags(s.cpu)), s.cfg.interval)
  }

  lemma LastOf(cpu: seq<Cpu>, p: nat) returns (r: nat)
    requires p < |cpu| && cpu[p].Participant()
    ensures IsLast(cpu, r) && p <= r
  {
    r := |cpu| - 1;
    while !cpu[r].Participant()
      invariant p <= r < |cpu| && forall y | r < y < |cpu| :: !cpu[y].Participant()
      decreases r
    {
      r := r - 1;
    }
  }

  lemma SecondRead(s: Sys, q: nat) returns (t: Sys)
    requires Initial(s) && WellFormed(s) && s.cfg.blocking && IsFirst(s.cpu, q) && LongEnough(s)
    ensures Leads(s, t) && Inv(t) && ReadAgain(t, q) && Begun(t, q) && Flags(t.cpu) == Flags(s.cpu)
    ensures InTime(t.cfg.limit, t.timeout, t.startCount - 1, t.cfg.interval)
  {
    InitialOnTheWay(s, q);
    var cs := ToSecondRead(s, q);
    t := Exec(s, cs);
    FlagsKept(s, cs);
    LeadsBy(s, cs);
    TimeAtSecondRead(s, t, q);
  }

  lemma LeadsBy(s: Sys, cs: seq<Choice>)
    requires WellFormed(s)
    ensures Leads(s, Exec(s, cs))
  {
  }

  lemma TimeAtSecondRead(s: Sys, t: Sys, q: nat)
    requires Inv(t) && ReadAgain(t, q) && t.cfg == s.cfg && Flags(t.cpu) == Flags(s.cpu) && LongEnough(s)
    ensures InTime(t.cfg.limit, t.timeout, t.startCount - 1, t.cfg.interval)
  {
    ReadFacts(t, q);
    Spend(s.cfg.limit, s.cfg.limit, Participants(Flags(s.cpu)), s.cfg.interval);
  }

  lemma FalseSuccessReachable(s: Sys, q: nat, p: nat) returns (cs: seq<Choice>, r: nat)
    requires Initial(s) && WellFormed(s) && s.cfg.blocking && LongEnough(s)
    requires IsFirst(s.cpu, q) && q < p < |s.cpu| && s.cpu[p].Participant()
    ensures FalseSuccess(Exec(s, cs), r)
  {
    r := LastOf(s.cpu, p);
    var t1 := SecondRead(s, q);
    assert Flags(t1.cpu)[r];
    var t2 := FirstDue(t1, q, r);
    assert Flags(t2.cpu)[r];
    var t3, m := TurnOn(t2, q, q, r);
    assert Flags(t3.cpu)[r];
    var t4 := RoundsTo(t3, q, m, r);
    SameLast(s.cpu, t4.cpu, r);
    var t5 := LastTurn(t4, q, r);
    Chain(s, t1, t2);
    Chain(s, t2, t3);
    Chain(s, t3, t4);
    Chain(s, t4, t5);
    cs :| Exec(s, cs) == t5;
  }

  lemma SameLast(a: seq<Cpu>, b: seq<Cpu>, p: nat)
    requires Flags(a) == Flags(b) && IsLast(a, p)
    ensures IsLast(b, p)
  {
    assert forall y | 0 <= y < |a| :: a[y].Participant() == Flags(a)[y] == b[y].Participant();
  }

  lemma {:induction false} NoneCounted(part: seq<bool>)
    ensures Participants(part) == 0 <==> forall y | 0 <= y < |part| :: !part[y]
  {
    if part != [] { NoneCounted(part[..|part| - 1]); }
  }

  lemma OnlyOne(part: seq<bool>, q: nat)
    requires q < |part| && part[q] && forall y | 0 <= y < |part| && y != q :: !part[y]
    ensures Participants(part) == 1
  {
    OneMore(part, q);
    NoneBetween(part, 0, q);
    NoneBetween(part, q + 1, |part|);
    assert part[..|part|] == part;
  }

  lemma TwoOf(cpu: seq<Cpu>) returns (q: nat, p: nat)
    requires Participants(Flags(cpu)) >= 2
    ensures IsFirst(cpu, q) && q < p < |cpu| && cpu[p].Participant()
  {
    var part := Flags(cpu);
    NoneCounted(part);
    var y: nat :| y < |cpu| && part[y];
    q := FirstOf(cpu, y);
    if forall z | q < z < |part| :: !part[z] { OnlyOne(part, q); }
    p :| q < p < |part| && part[p];
  }

  /** Whatever the schedule, success means that every enabled AP has called. */
  ghost predicate SuccessIsTrue(s: Sys)
    requires WellFormed(s)
  {
    forall cs, p: nat :: !FalseSuccess(Exec(s, cs), p)
  }

  lemma FalseThen(s: Sys, cs: seq<Choice>, p: nat)
    requires WellFormed(s) && FalseSuccess(Exec(s, cs), p)
    ensures !SuccessIsTrue(s)
  {
  }

  /** What a caller can tell beforehand: success is true if and only if the call
      does not block or has fewer than two APs to start. */
  lemma SuccessIsTrueExactly(s: Sys)
    requires Initial(s) && WellFormed(s) && LongEnough(s)
    ensures SuccessIsTrue(s) <==> !s.cfg.blocking || Participants(Flags(s.cpu)) < 2
  {
    if !s.cfg.blocking || Participants(Flags(s.cpu)) < 2 {
      forall cs, p: nat ensures !FalseSuccess(Exec(s, cs), p) {
        if FalseSuccess(Exec(s, cs), p) { TakesTwo(s, cs, p); }
      }
    } else {
      var q, p := TwoOf(s.cpu);
      var cs, r := FalseSuccessReachable(s, q, p);
      FalseThen(s, cs, r);
    }
  }

  /** This half holds for every limit. */
  lemma TakesTwo(s: Sys, cs: seq<Choice>, p: nat)
    requires Initial(s) && WellFormed(s) && FalseSuccess(Exec(s, cs), p)
    ensures s.cfg.blocking && Participants(Flags(s.cpu)) >= 2
  {
    FalseSuccessTakes(s, cs, p);
    FlagsKept(s, cs);
    assert Flags(s.cpu)[p] == Flags(Exec(s, cs).cpu)[p];
    var q :| 0 <= q < |s.cpu| && q != p && s.cpu[q].Participant();
    if q < p { TwoCount(s.cpu, q, p); } else { TwoCount(s.cpu, p, q); }
  }
}
