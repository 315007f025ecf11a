/** The concurrent hash table does not deadlock: a thread that holds its lock, or finds it free, can
    finish alone, and whenever a thread is under way there is such a thread. */
module HashProgress {
  import opened HashMachine
  import opened HashProof

  /** Thread t is in its critical section, or past it, or the lock it wants is free. */
  predicate CanGoOn(s: System, t: nat) {
    && |s.buckets| > 0 && t < |s.threads| && s.threads[t].Busy?
    && (s.threads[t].pc == Acquire ==> !s.buckets[BucketOf(s, s.threads[t].op)].flag)
  }

  /** An upper bound on the steps thread t still takes, n being the length of its list. */
  function StepsLeft(th: Thread, n: nat): int
    requires th.Busy?
  {
    match th.pc
    case Acquire => n + 6
    case Start => n + 5
    case Scan => n - th.pos + 4
    case Link => 4
    case Publish => 3
    case Unlink => 3
    case Release => 2
    case Return => 1
  }

  function Length(s: System, chains: seq<seq<int>>, t: nat): nat
    requires |chains| == |s.buckets| > 0 && t < |s.threads| && s.threads[t].Busy?
  {
    |chains[BucketOf(s, s.threads[t].op)]|
  }

  /** One step of the thread alone brings it nearer, its list being n long. */
  lemma StepNearer(s: System, t: nat, op: Op, n: nat)
    requires CanGoOn(s, t) && Defined(s, t)
    requires s.threads[t].pc == Scan ==> s.threads[t].pos <= n && (s.threads[t].current != NIL ==> s.threads[t].pos < n)
    ensures var th, s' := s.threads[t], Step(s, t, op);
      if th.pc == Return then t < |s'.threads| && s'.threads[t].Idle? && |s'.calls| == |s.calls| + 1
      else CanGoOn(s', t) && s'.threads[t].op == th.op && |s'.buckets| == |s.buckets|
           && if th.pc == Publish || th.pc == Unlink then s'.threads[t].pc == Release
              else StepsLeft(s'.threads[t], n) < StepsLeft(th, n)
  {
    hide ElementAt;
  }

  lemma ScanPlace(s: System, chains: seq<seq<int>>, t: nat)
    requires At(s, chains, t, Scan)
    ensures |chains| == |s.buckets| > 0
    ensures s.threads[t].pos <= Length(s, chains, t)
    ensures s.threads[t].current != NIL ==> s.threads[t].pos < Length(s, chains, t)
  {
    hide Linked, LocksOk, ContentsOk, LogOk, CallsOk;
    assert ThreadOk(s, chains, s.threads[t]);
  }

  lemma AsManyChains(s: System, chains: seq<seq<int>>)
    requires Inv(s, chains)
    ensures |chains| == |s.buckets| > 0
  {
    hide Linked, LocksOk, ContentsOk, LogOk, CallsOk, ThreadsOk;
  }

  /** The invariant after a step, with the list as it was except where a node enters or leaves it. */
  lemma StepKeepsLists(s: System, chains: seq<seq<int>>, t: nat, op: Op) returns (chains': seq<seq<int>>)
    requires Inv(s, chains) && t < |s.threads| && s.threads[t].Busy?
    ensures Defined(s, t) && Inv(Step(s, t, op), chains')
    ensures s.threads[t].pc != Publish && s.threads[t].pc != Unlink ==> chains' == chains
  {
    hide Inv, StepAcquire, StepLink, StepPublish, StepStart, StepScan, StepUnlink, StepRelease, StepReturn;
    StepDefined(s, chains, t);
    chains' := chains;
    match s.threads[t].pc {
      case Acquire => AcquireKeeps(s, chains, t);
      case Link => LinkKeeps(s, chains, t);
      case Publish => chains' := StepKeeps(s, chains, t, op);
      case Start => StartKeeps(s, chains, t);
      case Scan => ScanKeeps(s, chains, t);
      case Unlink => chains' := StepKeeps(s, chains, t, op);
      case Release => ReleaseKeeps(s, chains, t);
      case Return => ReturnKeeps(s, chains, t);
    }
  }

  /** Steps of thread t alone, from s to the return of the operation it is in. */
  ghost predicate Finishes(states: seq<System>, s: System, t: nat, op: Op) {
    && |states| > 1 && states[0] == s
    && (forall k :: 0 <= k < |states| - 1 ==> Follows(states[k], Choice(t, op), states[k + 1]))
    && t < |states[|states| - 1].threads| && states[|states| - 1].threads[t].Idle?
  }

  lemma FinishesLater(rest: seq<System>, s: System, s': System, t: nat, op: Op)
    requires Finishes(rest, s', t, op) && Follows(s, Choice(t, op), s')
    ensures Finishes([s] + rest, s, t, op)
  {
    hide Follows;
    var states := [s] + rest;
    forall k | 0 <= k < |states| - 1 ensures Follows(states[k], Choice(t, op), states[k + 1]) {
      if k > 0 {
        assert Follows(rest[k - 1], Choice(t, op), rest[k - 1 + 1]);
      }
    }
  }

  lemma FinishesNow(s: System, s': System, t: nat, op: Op)
    requires Follows(s, Choice(t, op), s') && t < |s'.threads| && s'.threads[t].Idle?
    ensures Finishes([s, s'], s, t, op)
  {
    hide Follows;
  }

  lemma OneStep(s: System, chains: seq<seq<int>>, t: nat, op: Op) returns (s': System, chains': seq<seq<int>>)
    requires Inv(s, chains) && |chains| == |s.buckets| > 0 && CanGoOn(s, t)
    ensures Follows(s, Choice(t, op), s') && t < |s'.threads|
    ensures s.threads[t].pc == Return ==> s'.threads[t].Idle?
    ensures s.threads[t].pc != Return ==>
              && Inv(s', chains') && |chains'| == |s'.buckets| > 0 && CanGoOn(s', t)
              && 0 <= StepsLeft(s'.threads[t], Length(s', chains', t)) < StepsLeft(s.threads[t], Length(s, chains, t))
  {
    hide Inv, Step;
    chains' := StepKeepsLists(s, chains, t, op);
    s' := Step(s, t, op);
    if s.threads[t].pc == Scan {
      ScanPlace(s, chains, t);
    }
    StepNearer(s, t, op, Length(s, chains, t));
    AsManyChains(s', chains');
    if s.threads[t].pc != Return && s'.threads[t].pc == Scan {
      ScanPlace(s', chains', t);
    }
  }

  /** A thread that can go on comes to its return by its own steps, and within the bound. */
  lemma {:induction false} FinishesAlone(s: System, chains: seq<seq<int>>, t: nat, op: Op) returns (states: seq<System>)
    requires Inv(s, chains) && |chains| == |s.buckets| > 0 && CanGoOn(s, t)
    requires StepsLeft(s.threads[t], Length(s, chains, t)) >= 0
    ensures Finishes(states, s, t, op)
    ensures |states| - 1 <= StepsLeft(s.threads[t], Length(s, chains, t))
    decreases StepsLeft(s.threads[t], Length(s, chains, t))
  {
    hide Inv, Finishes, Follows;
    var s', chains' := OneStep(s, chains, t, op);
    if s.threads[t].pc == Return {
      FinishesNow(s, s', t, op);
      states := [s, s'];
    } else {
      var rest := FinishesAlone(s', chains', t, op);
      FinishesLater(rest, s, s', t, op);
      states := [s] + rest;
    }
  }

  lemma HolderOrFree(s: System, t: nat) returns (u: nat)
    requires LocksOk(s) && t < |s.threads| && s.threads[t].Busy?
    ensures CanGoOn(s, u)
    ensures u == t || BucketOf(s, s.threads[u].op) == BucketOf(s, s.threads[t].op)
  {
    u := t;
    var b := BucketOf(s, s.threads[t].op);
    if s.threads[t].pc == Acquire && s.buckets[b].flag {
      u :| 0 <= u < |s.threads| && InSection(s.threads[u]) && BucketOf(s, s.threads[u].op) == b;
    }
  }

  /** No deadlock: in every reachable state with a thread under way, that thread, or the holder of the
      lock it waits for, can finish its operation by its own steps alone. */
  lemma NoDeadlock(states: seq<System>, schedule: seq<Choice>, buckets: nat, threads: nat, k: nat, t: nat, op: Op)
      returns (u: nat, alone: seq<System>)
    requires Run(states, schedule, buckets, threads) && k < |states|
    requires t < |states[k].threads| && states[k].threads[t].Busy?
    ensures CanGoOn(states[k], u) && Finishes(alone, states[k], u, op)
    ensures u == t || BucketOf(states[k], states[k].threads[u].op) == BucketOf(states[k], states[k].threads[t].op)
  {
    hide Run, Finishes, ChainsOk, ThreadsOk, ContentsOk, LogOk, CallsOk, LocksOk, CanGoOn, StepsLeft;
    var s := states[k];
    var chains := RunInv(states, schedule, buckets, threads, k);
    AsManyChains(s, chains);
    u := HolderOrFree(s, t);
    BoundIsNat(s, chains, u);
    alone := FinishesAlone(s, chains, u, op);
  }

  lemma BoundIsNat(s: System, chains: seq<seq<int>>, t: nat)
    requires Inv(s, chains) && |chains| == |s.buckets| > 0 && CanGoOn(s, t)
    ensures StepsLeft(s.threads[t], Length(s, chains, t)) >= 0
  {
    hide Inv;
    if s.threads[t].pc == Scan {
      ScanPlace(s, chains, t);
    }
  }
}
