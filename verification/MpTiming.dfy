/** Time limits: the waits of a blocking call, and the callback's countdown. */
module MpTiming {
  import opened Common
  import opened MpProtocol

  function Sum(xs: seq<nat>): nat {
    if xs == [] then 0 else Sum(xs[..|xs| - 1]) + xs[|xs| - 1]
  }

  lemma {:induction false} SumCons(x: nat, xs: seq<nat>)
    ensures Sum([x] + xs) == x + Sum(xs)
  {
    if xs == [] {
      assert [x] + xs == [x];
      assert [x][..0] == [];
    } else {
      var m := |xs| - 1;
      SumCons(x, xs[..m]);
      assert ([x] + xs)[..|[x] + xs| - 1] == [x] + xs[..m];
    }
  }

  /** The stalls of a wait that runs into its limit. */
  function Stalls(limit: nat, interval: nat): seq<nat>
    requires interval > 0
  {
    if limit == 0 then []
    else [StallTime(limit, interval)] + Stalls(limit - StallTime(limit, interval), interval)
  }

  /** They add up to the limit, and there are ceil(limit / interval) of them. */
  lemma {:induction false} StallsExact(limit: nat, interval: nat)
    requires interval > 0
    ensures Sum(Stalls(limit, interval)) == limit
    ensures limit <= |Stalls(limit, interval)| * interval
    ensures limit > 0 ==> (|Stalls(limit, interval)| - 1) * interval < limit
    decreases limit
  {
    if limit != 0 {
      var d := StallTime(limit, interval);
      var rest := Stalls(limit - d, interval);
      StallsExact(limit - d, interval);
      SumCons(d, rest);
      assert |Stalls(limit, interval)| == 1 + |rest|;
      assert (1 + |rest|) * interval == interval + |rest| * interval;
      assert (|rest| - 1) * interval == |rest| * interval - interval;
    }
  }

  /** Each of them but the last is the interval, and the last is what is left. */
  lemma {:induction false} StallIs(limit: nat, interval: nat, k: nat)
    requires interval > 0 && k < |Stalls(limit, interval)|
    ensures k * interval < limit
    ensures Stalls(limit, interval)[k] == if (k + 1) * interval <= limit then interval else limit - k * interval
    decreases limit
  {
    var d := StallTime(limit, interval);
    if k > 0 {
      StallIs(limit - d, interval, k - 1);
      assert (k - 1) * interval == k * interval - interval;
      assert (k + 1) * interval == k * interval + interval;
    }
  }

  lemma NextStall(stalls: seq<nat>, timeout: nat, interval: nat)
    requires 0 < timeout < SPAN64 && interval > 0
    ensures Elapse(timeout, interval) == timeout - StallTime(timeout, interval) < timeout
    ensures stalls + [StallTime(timeout, interval)] + Stalls(Elapse(timeout, interval), interval)
         == stalls + Stalls(timeout, interval)
  {
    Assoc(stalls, [StallTime(timeout, interval)], Stalls(Elapse(timeout, interval), interval));
  }

  /** The callback's countdown after `ticks` ticks. */
  function AfterTicks(limit: nat, interval: nat, ticks: nat): nat {
    if ticks == 0 then limit else Elapse(AfterTicks(limit, interval, ticks - 1), interval)
  }

  lemma {:induction false} CountdownStalls(limit: nat, interval: nat, ticks: nat)
    requires limit < SPAN64 && 0 < interval < SPAN64
    requires ticks <= |Stalls(limit, interval)|
    ensures Stalls(limit, interval)[ticks..] == Stalls(AfterTicks(limit, interval, ticks), interval)
    ensures AfterTicks(limit, interval, ticks) <= limit
  {
    var all := Stalls(limit, interval);
    if ticks == 0 {
      assert all[0..] == all;
    } else {
      CountdownStalls(limit, interval, ticks - 1);
      var before := AfterTicks(limit, interval, ticks - 1);
      NextStall([], before, interval);
      assert Stalls(before, interval)[1..] == Stalls(Elapse(before, interval), interval);
      assert all[ticks..] == all[ticks - 1..][1..];
    }
  }

  /** What remains after some ticks: the limit less one interval for each, and
      nothing once they have used it up. */
  lemma {:induction false} RemainsExactly(limit: nat, interval: nat, ticks: nat)
    requires limit < SPAN64 && 0 < interval < SPAN64 && ticks <= |Stalls(limit, interval)|
    ensures AfterTicks(limit, interval, ticks) == if ticks * interval <= limit then limit - ticks * interval else 0
  {
    if ticks > 0 {
      var before := AfterTicks(limit, interval, ticks - 1);
      RemainsExactly(limit, interval, ticks - 1);
      StallIs(limit, interval, ticks - 1);
      CountdownStalls(limit, interval, ticks - 1);
      NextStall([], before, interval);
      assert ticks * interval == (ticks - 1) * interval + interval;
    }
  }

  /** It reaches zero at tick ceil(limit / interval) and no earlier; one tick
      later it has wrapped to nearly the whole range of a UINTN. */
  lemma Countdown(limit: nat, interval: nat, ticks: nat)
    requires 0 < limit < SPAN64 && 0 < interval < SPAN64
    requires ticks <= |Stalls(limit, interval)|
    ensures AfterTicks(limit, interval, ticks) == 0 <==> ticks == |Stalls(limit, interval)|
    ensures AfterTicks(limit, interval, |Stalls(limit, interval)| + 1) == SPAN64 - interval
  {
    CountdownStalls(limit, interval, ticks);
    CountdownStalls(limit, interval, |Stalls(limit, interval)|);
  }

  /** The stalls of the first n turns of a wait, whatever its limit. */
  function Taken(limit: nat, interval: nat, n: nat): (r: seq<nat>)
    ensures |r| == n
  {
    if n == 0 then [] else Taken(limit, interval, n - 1) + [StallTime(AfterTicks(limit, interval, n - 1), interval)]
  }

  lemma {:induction false} TakenOf(limit: nat, interval: nat, n: nat)
    requires limit < SPAN64 && 0 < interval < SPAN64 && n <= |Stalls(limit, interval)|
    ensures Taken(limit, interval, n) == Stalls(limit, interval)[..n]
  {
    if n > 0 {
      var all := Stalls(limit, interval);
      TakenOf(limit, interval, n - 1);
      CountdownStalls(limit, interval, n - 1);
      assert all[n - 1..][0] == all[n - 1];
      assert all[..n] == all[..n - 1] + [all[n - 1]];
    }
  }

  lemma LimitedWait(limit: nat, interval: nat, n: nat)
    requires 0 < limit < SPAN64 && 0 < interval < SPAN64 && n <= |Stalls(limit, interval)|
    ensures Taken(limit, interval, n) <= Stalls(limit, interval)
    ensures AfterTicks(limit, interval, n) == 0 <==> n == |Stalls(limit, interval)|
    ensures n == |Stalls(limit, interval)| ==>
      Taken(limit, interval, n) == Stalls(limit, interval) && Sum(Taken(limit, interval, n)) == limit
  {
    TakenOf(limit, interval, n);
    Countdown(limit, interval, n);
    StallsExact(limit, interval);
  }

  /** Full intervals, and at the end of the limit what is left of it. */
  predicate Spends(stalls: seq<nat>, limit: nat, interval: nat) {
    forall k | 0 <= k < |stalls| ::
      stalls[k] == (if (k + 1) * interval <= limit then interval else limit - k * interval)
  }

  /** Full intervals, until the remaining time has run once round a UINTN. */
  predicate SpendsForEver(stalls: seq<nat>, interval: nat) {
    forall k | 0 <= k < |stalls| && (k + 1) * interval <= SPAN64 :: stalls[k] == interval
  }

  lemma PrefixSpends(stalls: seq<nat>, limit: nat, interval: nat)
    requires interval > 0 && stalls <= Stalls(limit, interval)
    ensures Spends(stalls, limit, interval)
  {
    forall k | 0 <= k < |stalls|
      ensures stalls[k] == if (k + 1) * interval <= limit then interval else limit - k * interval
    {
      StallIs(limit, interval, k);
    }
  }

  /** A countdown without a limit wraps at once, and then goes down as well. */
  lemma {:induction false} WrapsAtOnce(interval: nat, ticks: nat)
    requires 0 < interval < SPAN64 && ticks * interval <= SPAN64
    ensures AfterTicks(0, interval, ticks) == if ticks == 0 then 0 else SPAN64 - ticks * interval
  {
    if ticks > 0 {
      assert ticks * interval == (ticks - 1) * interval + interval;
      WrapsAtOnce(interval, ticks - 1);
    }
  }

  lemma {:induction false} TakenForEver(interval: nat, n: nat)
    requires 0 < interval < SPAN64
    ensures SpendsForEver(Taken(0, interval, n), interval)
  {
    if n > 0 {
      TakenForEver(interval, n - 1);
      if n * interval <= SPAN64 {
        assert n * interval == (n - 1) * interval + interval;
        WrapsAtOnce(interval, n - 1);
      }
    }
  }

  /** One of the looks 0 to n finds the AP finished. */
  ghost predicate FoundWithin(states: nat -> CpuState, n: nat) {
    exists i | 0 <= i <= n :: states(i) == Finished
  }

  ghost predicate NotBefore(states: nat -> CpuState, n: nat) {
    forall i | 0 <= i < n :: states(i) != Finished
  }

  lemma FoundExactly(states: nat -> CpuState, n: nat, max: nat)
    requires n <= max && NotBefore(states, n)
    ensures states(n) == Finished ==> FoundWithin(states, max)
    ensures states(n) != Finished ==> NotBefore(states, n + 1)
    ensures n == max && states(n) != Finished ==> !FoundWithin(states, max)
  {
  }

  lemma AsSpent(limit: nat, interval: nat, n: nat)
    requires limit < SPAN64 && 0 < interval < SPAN64 && (limit > 0 ==> n <= |Stalls(limit, interval)|)
    ensures var taken := Taken(limit, interval, n);
      if limit > 0 then Spends(taken, limit, interval) else SpendsForEver(taken, interval)
  {
    if limit > 0 {
      TakenOf(limit, interval, n);
      PrefixSpends(Taken(limit, interval, n), limit, interval);
    } else {
      TakenForEver(interval, n);
    }
  }

  datatype WaitStatus = Success | TimedOut

  /** The polling loop of a blocking StartupThisAP.  `states(i)` is what the i-th
      look at the AP finds; `state` is what the call leaves there.  Without a
      limit the loop ends if some look finds the AP finished.  With one it always
      ends, and succeeds exactly when one of the first ceil(limit / interval) + 1
      looks does; the remaining time never wraps, and a wait that times out has
      stalled for the limit exactly. */
  method WaitForAp(limit: nat, interval: nat, states: nat -> CpuState, ghost end: nat)
      returns (status: WaitStatus, state: CpuState, stalls: seq<nat>)
    requires limit < SPAN64 && 0 < interval < SPAN64
    requires limit == 0 ==> states(end) == Finished
    ensures stalls == Taken(limit, interval, |stalls|) && NotBefore(states, |stalls|)
    ensures status == Success <==> states(|stalls|) == Finished
    ensures state == if status == Success then Idle else states(|stalls|)
    ensures status == TimedOut ==> limit > 0 && stalls == Stalls(limit, interval) && Sum(stalls) == limit
    ensures limit > 0 ==> stalls <= Stalls(limit, interval)
    ensures if limit > 0 then Spends(stalls, limit, interval) else SpendsForEver(stalls, interval)
    ensures limit > 0 ==> (status == Success <==> FoundWithin(states, |Stalls(limit, interval)|))
  {
    var timeout: nat := limit;
    ghost var n, most := 0, if limit > 0 then |Stalls(limit, interval)| else end;
    stalls := [];
    while true
      invariant n == |stalls| <= most && stalls == Taken(limit, interval, n)
      invariant timeout == AfterTicks(limit, interval, n) && NotBefore(states, n)
      decreases most - n
    {
      state := states(|stalls|);
      if limit > 0 { LimitedWait(limit, interval, n); }
      FoundExactly(states, n, most);
      AsSpent(limit, interval, n);
      if state == Finished {
        state := Idle;
        return Success, state, stalls;
      }
      if limit != 0 && timeout == 0 {
        return TimedOut, state, stalls;
      }
      stalls := stalls + [StallTime(timeout, interval)];
      timeout := Elapse(timeout, interval);
      n := n + 1;
    }
  }
}
