/** Turns of the blocking loop in which one finished processor is counted. */
module MpTurns {
  import opened Common
  import opened MpProtocol
  import opened MpTheorems
  import opened MpRearm

  // -------------------------------------------- leading from state to state

  ghost predicate Leads(s: Sys, t: Sys) {
    WellFormed(s) && exists cs :: Exec(s, cs) == t
  }

  lemma Stay(s: Sys)
    requires WellFormed(s)
    ensures Leads(s, s)
  {
    assert Exec(s, []) == s;
  }

  lemma Chain(s: Sys, t: Sys, u: Sys)
    requires Leads(s, t) && Leads(t, u)
    ensures Leads(s, u)
  {
    var a :| Exec(s, a) == t;
    var b :| Exec(t, b) == u;
    ExecAppend(s, a, b);
  }

  lemma BspLeads(t: Sys, u: Sys)
    requires WellFormed(t) && BspStep(t, false) == u
    ensures Leads(t, u)
  {
    ExecSnoc(t, [], Bsp(false));
    assert Exec(t, [] + [Bsp(false)]) == u;
  }

  /** A step of an AP changes its block and the entry log. */
  lemma ApLeads(t: Sys, p: nat) returns (u: Sys)
    requires WellFormed(t) && p < |t.cpu| && !t.cpu[p].isBsp
    ensures Leads(t, u) && u == t.(cpu := t.cpu[p := ApMove(t.cpu[p])], order := u.order)
  {
    u := Step(t, Ap(p));
    ExecSnoc(t, [], Ap(p));
    assert Exec(t, [] + [Ap(p)]) == u;
  }

  lemma {:induction false} RunAp(t: Sys, p: nat, k: nat) returns (u: Sys)
    requires WellFormed(t) && p < |t.cpu| && !t.cpu[p].isBsp
    ensures Leads(t, u) && u == t.(cpu := t.cpu[p := Moves(t.cpu[p], k)], order := u.order)
  {
    if k == 0 {
      u := t;
      Stay(t);
      assert t.cpu[p := t.cpu[p]] == t.cpu;
    } else {
      var m := RunAp(t, p, k - 1);
      SameBlock(t.cpu[p], k - 1);
      u := ApLeads(m, p);
      Chain(t, m, u);
      assert m.cpu[p := Moves(t.cpu[p], k)] == t.cpu[p := Moves(t.cpu[p], k)];
    }
  }

  lemma OneMove(c: Cpu)
    requires c.pc == Cleared
    ensures Moves(c, 1) == c.SetState(Finished).(pc := Polling)
  {
    assert Moves(c, 1) == ApMove(Moves(c, 0));
  }

  /** From a filled slot to FINISHED. */
  lemma SixMoves(c: Cpu, w: Work)
    requires c.pc == Polling && c.slot == Some(w)
    ensures var d := Moves(c, 6);
      && d.pc == Polling && d.slot == None && d.state == Finished && d.isBsp == c.isBsp && d.enabled == c.enabled
  {
    var c1 := ApMove(c);
    var c2 := ApMove(c1);
    var c3 := ApMove(c2);
    var c4 := ApMove(c3);
    var c5 := ApMove(c4);
    assert Moves(c, 1) == ApMove(Moves(c, 0));
    assert Moves(c, 2) == c2;
    assert Moves(c, 3) == c3;
    assert Moves(c, 4) == c4;
    assert Moves(c, 5) == c5;
    assert Moves(c, 6) == ApMove(c5);
  }

  // -------------------------------------------------- one turn of the BSP

  /** There is nothing in this block for the BSP to change. */
  predicate Passed(c: Cpu, w: Work) {
    c.state != Finished && (c.state == Ready ==> c.slot == Some(w))
  }

  predicate AllPassed(t: Sys, from: nat, to: nat) {
    forall y | from <= y < to && y < |t.cpu| && t.cpu[y].Participant() :: Passed(t.cpu[y], t.cfg.work)
  }

  lemma SkipOne(t: Sys)
    requires WellFormed(t) && t.bsp.Poll? && t.bsp.n < |t.cpu| && AllPassed(t, t.bsp.n, t.bsp.n + 1)
    ensures Leads(t, t.(bsp := Poll(t.bsp.n + 1)))
  {
    var n, u := t.bsp.n, t.(bsp := Poll(t.bsp.n + 1));
    if t.cpu[n].Participant() && t.cpu[n].state == Ready {
      var m := t.(bsp := PollSet(n));
      BspLeads(t, m);
      assert m.cpu[n := m.cpu[n].(slot := Some(t.cfg.work))] == m.cpu;
      BspLeads(m, u);
      Chain(t, m, u);
    } else {
      BspLeads(t, u);
    }
  }

  lemma {:induction false} Sweep(t: Sys, to: nat)
    requires WellFormed(t) && t.bsp.Poll? && t.bsp.n <= to <= |t.cpu| && AllPassed(t, t.bsp.n, to)
    ensures Leads(t, t.(bsp := Poll(to)))
    decreases |t.cpu| - t.bsp.n
  {
    if t.bsp.n < to {
      var m := t.(bsp := Poll(t.bsp.n + 1));
      SkipOne(t);
      Sweep(m, to);
      Chain(t, m, t.(bsp := Poll(to)));
    } else {
      Stay(t);
    }
  }

  function FirstBlocked(cpu: seq<Cpu>, k: nat): (b: nat)
    ensures b <= |cpu|
    ensures forall y | k <= y < b && y < |cpu| && !cpu[y].isBsp :: cpu[y].state != Blocked
    ensures b < |cpu| ==> k <= b && !cpu[b].isBsp && cpu[b].state == Blocked
    decreases |cpu| - k
  {
    if k >= |cpu| then |cpu|
    else if !cpu[k].isBsp && cpu[k].state == Blocked then k
    else FirstBlocked(cpu, k + 1)
  }

  /** Processor b, if there is one, is set READY; its slot is filled. */
  function Promoted(cpu: seq<Cpu>, b: nat): seq<Cpu> {
    if b < |cpu| then cpu[b := cpu[b].SetState(Ready)] else cpu
  }

  function Handed(cpu: seq<Cpu>, b: nat, w: Work): seq<Cpu> {
    if b < |cpu| then cpu[b := cpu[b].(slot := Some(w))] else cpu
  }

  lemma {:induction false} Search(t: Sys, x: nat, k: nat)
    requires WellFormed(t) && t.cfg.blocking && t.bsp == Find(x, k)
    ensures var b := FirstBlocked(t.cpu, k);
      Leads(t, t.(bsp := if b < |t.cpu| then Promote(x, b) else Retire(x)))
    decreases |t.cpu| - k
  {
    var u := BspStep(t, false);
    BspLeads(t, u);
    if u.bsp.Find? {
      Search(u, x, k + 1);
      var b := FirstBlocked(t.cpu, k);
      Chain(t, u, t.(bsp := if b < |t.cpu| then Promote(x, b) else Retire(x)));
    }
  }

  lemma Release(t: Sys, x: nat)
    requires WellFormed(t) && t.cfg.blocking && t.bsp == Find(x, 0)
    ensures Leads(t, t.(cpu := Promoted(t.cpu, FirstBlocked(t.cpu, 0)), bsp := Retire(x)))
  {
    var b := FirstBlocked(t.cpu, 0);
    Search(t, x, 0);
    if b < |t.cpu| {
      var m, u := t.(bsp := Promote(x, b)), t.(cpu := Promoted(t.cpu, b), bsp := Retire(x));
      BspLeads(m, u);
      Chain(t, m, u);
    }
  }

  /** The successor that a count releases: one past the end if there is none. */
  function NextBlocked(t: Sys): nat {
    if t.cfg.singleThread then FirstBlocked(t.cpu, 0) else |t.cpu|
  }

  lemma CountOne(t: Sys, x: nat)
    requires WellFormed(t) && t.bsp == Poll(x) && x < |t.cpu| && t.cpu[x].Participant() && t.cpu[x].state == Finished
    ensures Leads(t, t.(cpu := Promoted(t.cpu, NextBlocked(t)), finishCount := t.finishCount + 1, bsp := Retire(x)))
  {
    var m := BspStep(t, false);
    BspLeads(t, m);
    if t.cfg.singleThread {
      Release(m, x);
      Chain(t, m, m.(cpu := Promoted(m.cpu, FirstBlocked(m.cpu, 0)), bsp := Retire(x)));
    }
  }

  lemma RetireOne(t: Sys, x: nat)
    requires WellFormed(t) && t.cfg.blocking && t.bsp == Retire(x)
    ensures Leads(t, t.(cpu := t.cpu[x := t.cpu[x].SetState(Idle)], bsp := Poll(x + 1)))
  {
    BspLeads(t, BspStep(t, false));
  }

  lemma ToCheck(t: Sys)
    requires WellFormed(t) && t.bsp.Poll? && t.bsp.n <= |t.cpu| && AllPassed(t, t.bsp.n, |t.cpu|)
    ensures Leads(t, t.(bsp := PollCheck))
  {
    var m := t.(bsp := Poll(|t.cpu|));
    Sweep(t, |t.cpu|);
    BspLeads(m, t.(bsp := PollCheck));
    Chain(t, m, t.(bsp := PollCheck));
  }

  /** The rest of a turn fills the slot of the one just released. */
  lemma HandOver(t: Sys, b: nat)
    requires WellFormed(t) && t.bsp.Poll? && t.bsp.n <= b < |t.cpu| && AllPassed(t, t.bsp.n, b)
    requires t.cpu[b].Participant() && t.cpu[b].state == Ready
    ensures Leads(t, t.(cpu := Handed(t.cpu, b, t.cfg.work), bsp := Poll(b + 1)))
  {
    var m1, m2 := t.(bsp := Poll(b)), t.(bsp := PollSet(b));
    var u := t.(cpu := Handed(t.cpu, b, t.cfg.work), bsp := Poll(b + 1));
    Sweep(t, b);
    BspLeads(m1, m2);
    BspLeads(m2, u);
    Chain(t, m1, m2);
    Chain(t, m2, u);
  }

  lemma RestOfTurn(t: Sys, b: nat)
    requires WellFormed(t) && t.bsp.Poll? && t.bsp.n <= |t.cpu| && t.bsp.n <= b
    requires forall y | t.bsp.n <= y < |t.cpu| && y != b && t.cpu[y].Participant() :: Passed(t.cpu[y], t.cfg.work)
    requires b < |t.cpu| ==> t.cpu[b].Participant() && t.cpu[b].state == Ready
    ensures Leads(t, t.(cpu := Handed(t.cpu, b, t.cfg.work), bsp := PollCheck))
  {
    if b < |t.cpu| {
      var m := t.(cpu := Handed(t.cpu, b, t.cfg.work), bsp := Poll(b + 1));
      HandOver(t, b);
      ToCheck(m);
      Chain(t, m, m.(bsp := PollCheck));
    } else {
      ToCheck(t);
    }
  }

  /** The table after a turn in which x is counted. */
  function TurnTable(t: Sys, x: nat): seq<Cpu>
    requires x < |t.cpu|
  {
    var b := NextBlocked(t);
    Handed(Promoted(t.cpu, b)[x := t.cpu[x].SetState(Idle)], b, t.cfg.work)
  }

  /** Processor x is finished, and it is all there is to do in the turn. */
  predicate OneDue(t: Sys, x: nat) {
    && WellFormed(t) && t.bsp == Poll(0) && x < |t.cpu|
    && t.cpu[x].Participant() && t.cpu[x].state == Finished
    && (forall y | 0 <= y < |t.cpu| && y != x && t.cpu[y].Participant() :: Passed(t.cpu[y], t.cfg.work))
    && (forall y | 0 <= y < |t.cpu| && !t.cpu[y].isBsp && t.cpu[y].state == Blocked :: y > x && t.cpu[y].Participant())
  }

  lemma Turn(t: Sys, x: nat)
    requires OneDue(t, x)
    ensures Leads(t, t.(cpu := TurnTable(t, x), finishCount := t.finishCount + 1, bsp := PollCheck))
  {
    var b := NextBlocked(t);
    var m1 := t.(bsp := Poll(x));
    var m2 := t.(cpu := Promoted(t.cpu, b), finishCount := t.finishCount + 1, bsp := Retire(x));
    var m3 := m2.(cpu := Promoted(t.cpu, b)[x := t.cpu[x].SetState(Idle)], bsp := Poll(x + 1));
    Sweep(t, x);
    CountOne(m1, x);
    Chain(t, m1, m2);
    RetireOne(m2, x);
    Chain(t, m2, m3);
    RestOfTurn(m3, b);
    Chain(t, m3, t.(cpu := TurnTable(t, x), finishCount := t.finishCount + 1, bsp := PollCheck));
  }
}
