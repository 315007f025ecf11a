/** The producer and the workers around the request buffer: every critical section, wait and
    wake-up is one step, and any thread may take the next one. */
module Scheduler {
  import opened RequestBuffer

  /** Before the mutex, asleep on main_cv, or holding a slot for the connection it waits for. */
  datatype Producer = Ready(i: int) | Blocked(i: int) | Accepting(i: int)

  /** Before the mutex, asleep on worker_cv, or serving a request it has taken. */
  datatype Worker = Running | Waiting | Serving(r: Request)

  /** accepted and dispatched are history: all requests in the order they came and were taken. */
  datatype System = System(buf: Buffer, producer: Producer, workers: seq<Worker>,
                           accepted: seq<Request>, dispatched: seq<Request>)

  datatype Step =
    | Lock(stale: int)
    | Insert(fd: int, size: int, woken: int)
    | ProducerWakes
    | WorkerLock(w: nat)
    | WorkerDone(w: nat)
    | WorkerWakes(w: nat)

  predicate IsWaiting(s: System, w: int) {
    0 <= w < |s.workers| && s.workers[w].Waiting?
  }

  /** The step can be taken. A signal wakes one waiting worker, any one, if there is one. */
  predicate Enabled(s: System, st: Step) {
    match st
    case Lock(_) => s.producer.Ready?
    case Insert(fd, _, woken) =>
      && s.producer.Accepting? && fd != FREE
      && (IsWaiting(s, woken) || forall w :: 0 <= w < |s.workers| ==> !IsWaiting(s, w))
    case ProducerWakes => s.producer.Blocked?
    case WorkerLock(w) => w < |s.workers| && s.workers[w].Running?
    case WorkerDone(w) => w < |s.workers| && s.workers[w].Serving?
    case WorkerWakes(w) => IsWaiting(s, w)
  }

  predicate WellTyped(s: System) {
    && Configured(s.buf) && 0 <= s.buf.index < |s.buf.slots| && 0 <= s.producer.i < |s.buf.slots|
    && |s.workers| >= 1
  }

  /** The slot a worker serves from exists: otherwise the code would index outside the buffer. */
  predicate Defined(s: System, st: Step)
    requires WellTyped(s)
  {
    st.WorkerLock? && s.buf.count != 0 ==> ServedSlot(s.buf) != -1
  }

  function Awaken(workers: seq<Worker>, w: int): seq<Worker> {
    if 0 <= w < |workers| && workers[w].Waiting? then workers[w := Running] else workers
  }

  function After(s: System, st: Step): System
    requires WellTyped(s) && Enabled(s, st) && Defined(s, st)
  {
    var i := s.producer.i;
    match st
    case Lock(stale) =>
      s.(producer := if s.buf.count == |s.buf.slots| then Blocked(i) else Accepting(ChosenSlot(s.buf, i, stale)))
    case Insert(fd, size, woken) =>
      var buf := AfterInsert(s.buf, i, fd, size, |s.accepted|);
      System(buf, Ready(Next(i, |s.buf.slots|)), Awaken(s.workers, woken), s.accepted + [buf.slots[i]], s.dispatched)
    case ProducerWakes => s.(producer := Ready(i))
    case WorkerLock(w) =>
      if s.buf.count == 0 then s.(workers := s.workers[w := Waiting])
      else
        var r := s.buf.slots[ServedSlot(s.buf)];
        s.(buf := AfterDispatch(s.buf), workers := s.workers[w := Serving(r)], dispatched := s.dispatched + [r])
    case WorkerDone(w) =>
      s.(workers := s.workers[w := Running], producer := if s.producer.Blocked? then Ready(i) else s.producer)
    case WorkerWakes(w) => s.(workers := s.workers[w := Running])
  }

  ghost predicate Start(s: System, alg: Algorithm) {
    && WellTyped(s) && s.buf.alg == alg
    && s.buf == Buffer(alg, s.buf.epochSize, s.buf.slots, 0, 0, 0, 0, 0, 0)
    && (forall p :: !Occupied(s.buf.slots, p))
    && s.producer == Ready(0) && s.accepted == [] && s.dispatched == []
    && forall w :: 0 <= w < |s.workers| ==> s.workers[w].Running?
  }

  ghost predicate Follows(s: System, st: Step, s': System) {
    WellTyped(s) && Enabled(s, st) && Defined(s, st) && s' == After(s, st)
  }

  /** states are what the steps lead through. */
  ghost predicate Run(states: seq<System>, steps: seq<Step>, alg: Algorithm) {
    && |states| == |steps| + 1 && Start(states[0], alg)
    && forall k :: 0 <= k < |steps| ==> Follows(states[k], steps[k], states[k + 1])
  }

  // ----- What is queued is what came, what is taken is served -----

  datatype Connection = Connection(fd: int, size: int)

  /** The connections the steps accepted, in order. */
  function Arrivals(steps: seq<Step>): seq<Connection> {
    if steps == [] then []
    else
      var st := steps[|steps| - 1];
      Arrivals(steps[..|steps| - 1]) + if st.Insert? then [Connection(st.fd, st.size)] else []
  }

  /** The requests accepted are the connections that came, and workers serve requests taken. */
  ghost predicate Genuine(s: System, came: seq<Connection>) {
    && |s.accepted| == |came|
    && (forall j :: 0 <= j < |came| ==>
          s.accepted[j].fd == came[j].fd && s.accepted[j].size == came[j].size && s.accepted[j].id == j)
    && (forall w :: 0 <= w < |s.workers| && s.workers[w].Serving? ==> s.workers[w].r in s.dispatched)
  }

  lemma GenuineKept(s: System, st: Step, s': System, came: seq<Connection>)
    requires Genuine(s, came) && Follows(s, st, s')
    ensures Genuine(s', came + if st.Insert? then [Connection(st.fd, st.size)] else [])
  {
    hide ServedSlot, ChosenSlot;
    forall w | 0 <= w < |s'.workers| && s'.workers[w].Serving? ensures s'.workers[w].r in s'.dispatched {
      if st.WorkerLock? && st.w == w {
        assert s'.dispatched[|s.dispatched|] == s'.workers[w].r;
      } else {
        assert s.dispatched <= s'.dispatched;
      }
    }
  }

  lemma {:induction false} RunGenuine(states: seq<System>, steps: seq<Step>, alg: Algorithm, k: nat)
    requires Run(states, steps, alg) && k < |states|
    ensures Genuine(states[k], Arrivals(steps[..k]))
  {
    hide Follows;
    if k > 0 {
      hide Genuine;
      RunGenuine(states, steps, alg, k - 1);
      assert Follows(states[k - 1], steps[k - 1], states[k - 1 + 1]);
      GenuineKept(states[k - 1], steps[k - 1], states[k], Arrivals(steps[..k - 1]));
      assert steps[..k][..k - 1] == steps[..k - 1];
    } else {
      StartGenuine(states[0], alg);
    }
  }

  lemma StartGenuine(s: System, alg: Algorithm)
    requires Start(s, alg)
    ensures Genuine(s, [])
  {
  }

  /** A worker that comes to a buffer with work in it takes one request and serves it until it is done;
      no other step takes a request or gives one up. */
  lemma Handed(states: seq<System>, steps: seq<Step>, alg: Algorithm, k: nat)
    requires Run(states, steps, alg) && k < |steps|
    ensures var s, st, s' := states[k], steps[k], states[k + 1];
      && (if st.WorkerLock? && s.buf.count != 0 then
            st.w < |s'.workers| && s'.workers[st.w].Serving? && s'.dispatched == s.dispatched + [s'.workers[st.w].r]
          else s'.dispatched == s.dispatched)
      && |s'.workers| == |s.workers|
      && forall w :: 0 <= w < |s.workers| && s.workers[w].Serving? && s'.workers[w] != s.workers[w] ==>
           st == WorkerDone(w)
  {
    hide ServedSlot, ChosenSlot;
    assert Follows(states[k], steps[k], states[k + 1]);
  }

  /** Signals reach whom they are for: an insert wakes the waiting worker it signals, a worker that is
      done wakes a blocked producer, and apart from that a step changes only the thread that takes it. */
  lemma Signalled(states: seq<System>, steps: seq<Step>, alg: Algorithm, k: nat)
    requires Run(states, steps, alg) && k < |steps|
    ensures var s, st, s' := states[k], steps[k], states[k + 1];
      && (st.Insert? && IsWaiting(s, st.woken) ==> st.woken < |s'.workers| && s'.workers[st.woken].Running?)
      && (st.WorkerDone? && s.producer.Blocked? ==> s'.producer == Ready(s.producer.i))
      && (st.WorkerLock? || st.WorkerWakes? ==> s'.producer == s.producer)
      && |s'.workers| == |s.workers|
      && forall w: nat :: w < |s.workers| && s'.workers[w] != s.workers[w] ==>
           st == WorkerLock(w) || st == WorkerDone(w) || st == WorkerWakes(w) || (st.Insert? && st.woken == w)
  {
    hide ServedSlot, ChosenSlot;
    assert Follows(states[k], steps[k], states[k + 1]);
  }

  // ----- No wake-up is lost -----

  ghost predicate Awake(s: System) {
    exists w :: 0 <= w < |s.workers| && !s.workers[w].Waiting?
  }

  ghost predicate Busy(s: System) {
    exists w :: 0 <= w < |s.workers| && s.workers[w].Serving?
  }

  ghost predicate WakeOk(s: System) {
    && WellTyped(s)
    && (s.buf.count != 0 ==> Awake(s))
    && (s.producer.Blocked? ==> s.buf.count == |s.buf.slots| || Busy(s))
  }

  lemma WakeKept(s: System, st: Step)
    requires WakeOk(s) && Enabled(s, st) && Defined(s, st)
    ensures WakeOk(After(s, st))
  {
    hide ServedSlot, ChosenSlot;
    var s' := After(s, st);
    match st {
      case Lock(_) => SameWorkers(s, s');
      case ProducerWakes => SameWorkers(s, s');
      case Insert(_, _, woken) =>
        if IsWaiting(s, woken) {
          assert !s'.workers[woken].Waiting?;
        } else {
          assert !IsWaiting(s, 0);
          assert !s'.workers[0].Waiting?;
        }
      case WorkerLock(w) =>
        if s.buf.count == 0 {
          if s.producer.Blocked? {
            var v :| 0 <= v < |s.workers| && s.workers[v].Serving?;
            assert s'.workers[v].Serving?;
          }
        } else {
          assert s'.workers[w].Serving?;
        }
      case WorkerDone(w) => assert !s'.workers[w].Waiting?;
      case WorkerWakes(w) =>
        assert !s'.workers[w].Waiting?;
        if Busy(s) {
          var v :| 0 <= v < |s.workers| && s.workers[v].Serving?;
          assert s'.workers[v].Serving?;
        }
    }
  }

  lemma SameWorkers(s: System, s': System)
    requires s'.workers == s.workers
    ensures (Awake(s) <==> Awake(s')) && (Busy(s) <==> Busy(s'))
  {
  }

  lemma {:induction false} RunWakeOk(states: seq<System>, steps: seq<Step>, alg: Algorithm, k: nat)
    requires Run(states, steps, alg) && k < |states|
    ensures WakeOk(states[k])
  {
    hide After, Enabled, Defined;
    if k > 0 {
      RunWakeOk(states, steps, alg, k - 1);
      assert Follows(states[k - 1], steps[k - 1], states[k - 1 + 1]);
      WakeKept(states[k - 1], steps[k - 1]);
    }
  }

  /** In no reachable state is there work with every worker asleep, or a sleeping producer that no
      worker is on its way to wake. That the step of the awake worker is also defined depends on the
      algorithm: see WorkIsServed. */
  lemma NoLostWakeup(states: seq<System>, steps: seq<Step>, alg: Algorithm, k: nat)
    requires Run(states, steps, alg) && k < |states|
    ensures var s := states[k];
      && (s.buf.count != 0 || s.producer.Blocked? ==>
            exists w: nat :: w < |s.workers| && (Enabled(s, WorkerLock(w)) || Enabled(s, WorkerDone(w))))
      && (s.producer.Blocked? && s.buf.count < |s.buf.slots| ==> exists w: nat :: Enabled(s, WorkerDone(w)))
      && (!s.producer.Blocked? ==> Enabled(s, Lock(0)) || s.producer.Accepting?)
  {
    RunWakeOk(states, steps, alg, k);
    var s := states[k];
    if s.buf.count != 0 {
      var w :| 0 <= w < |s.workers| && !s.workers[w].Waiting?;
      assert Enabled(s, WorkerLock(w)) || Enabled(s, WorkerDone(w));
    }
    if Busy(s) {
      var w :| 0 <= w < |s.workers| && s.workers[w].Serving?;
      assert Enabled(s, WorkerDone(w));
    }
  }

  // ----- First in, first out -----

  /** The slot j places after the serve index. */
  function Ring(index: int, j: int, size: nat): int {
    if index + j < size then index + j else index + j - size
  }

  ghost predicate FifoOk(s: System) {
    && WellTyped(s) && s.buf.alg == FIFO
    && 0 <= s.buf.count <= |s.buf.slots| && |s.accepted| == |s.dispatched| + s.buf.count
    && s.dispatched == s.accepted[..|s.dispatched|]
    && (forall j :: 0 <= j < s.buf.count ==>
          s.buf.slots[Ring(s.buf.index, j, |s.buf.slots|)] == s.accepted[|s.dispatched| + j])
    && (forall p :: 0 <= p < |s.buf.slots| ==>
          (Occupied(s.buf.slots, p) <==> Ahead(s.buf.index, p, |s.buf.slots|) < s.buf.count))
    && s.producer.i == Ring(s.buf.index, s.buf.count, |s.buf.slots|)
    && (s.producer.Accepting? ==> s.buf.count < |s.buf.slots|)
  }

  /** Whatever the uninitialised local holds, neither scan moves. */
  lemma FifoScans(s: System, stale: int)
    requires FifoOk(s)
    ensures s.buf.count < |s.buf.slots| ==>
              !Occupied(s.buf.slots, s.producer.i) && ChosenSlot(s.buf, s.producer.i, stale) == s.producer.i
    ensures s.buf.count > 0 ==> Occupied(s.buf.slots, s.buf.index) && ServedSlot(s.buf) == s.buf.index
  {
  }

  lemma FifoInsert(s: System, fd: int, size: int, woken: int)
    requires FifoOk(s) && Enabled(s, Insert(fd, size, woken))
    ensures FifoOk(After(s, Insert(fd, size, woken)))
  {
    FifoScans(s, 0);
    var s' := After(s, Insert(fd, size, woken));
    var n := |s.buf.slots|;
    forall j | 0 <= j < s'.buf.count
      ensures s'.buf.slots[Ring(s'.buf.index, j, n)] == s'.accepted[|s'.dispatched| + j]
    {
      if j < s.buf.count {
        assert Ring(s.buf.index, j, n) != s.producer.i;
      }
    }
    forall p | 0 <= p < n ensures Occupied(s'.buf.slots, p) <==> Ahead(s'.buf.index, p, n) < s'.buf.count {
      assert Occupied(s.buf.slots, p) <==> Ahead(s.buf.index, p, n) < s.buf.count;
    }
    assert s'.accepted[..|s'.dispatched|] == s.accepted[..|s.dispatched|];
  }

  /** A step of a worker that takes a request in FIFO mode. */
  ghost predicate Taking(s: System, w: nat) {
    FifoOk(s) && Enabled(s, WorkerLock(w)) && Defined(s, WorkerLock(w)) && s.buf.count > 0
  }

  lemma FifoNextPending(s: System, w: nat, j: nat)
    requires Taking(s, w) && j < s.buf.count - 1
    ensures var s', n := After(s, WorkerLock(w)), |s.buf.slots|;
      && 0 <= Ring(s'.buf.index, j, n) < |s'.buf.slots| && |s'.dispatched| + j < |s'.accepted|
      && s'.buf.slots[Ring(s'.buf.index, j, n)] == s'.accepted[|s'.dispatched| + j]
  {
    hide ServedSlot, ChosenSlot;
    FifoScans(s, 0);
    var s', n := After(s, WorkerLock(w)), |s.buf.slots|;
    assert Ring(s'.buf.index, j, n) == Ring(s.buf.index, j + 1, n) != s.buf.index;
    assert s.buf.slots[Ring(s.buf.index, j + 1, n)] == s.accepted[|s.dispatched| + (j + 1)];
  }

  lemma FifoNextOccupied(s: System, w: nat, p: int)
    requires Taking(s, w) && 0 <= p < |s.buf.slots|
    ensures var s', n := After(s, WorkerLock(w)), |s.buf.slots|;
      Occupied(s'.buf.slots, p) <==> Ahead(s'.buf.index, p, n) < s'.buf.count
  {
    hide ServedSlot, ChosenSlot;
    FifoScans(s, 0);
    assert Occupied(s.buf.slots, p) <==> Ahead(s.buf.index, p, |s.buf.slots|) < s.buf.count;
  }

  lemma FifoTakesFirst(s: System, w: nat)
    requires Taking(s, w)
    ensures var s', n := After(s, WorkerLock(w)), |s.buf.slots|;
      && WellTyped(s') && s'.buf.alg == FIFO && s'.buf.count == s.buf.count - 1 && s'.accepted == s.accepted
      && |s'.buf.slots| == n && s'.producer == s.producer && |s'.dispatched| == |s.dispatched| + 1
      && s'.dispatched == s'.accepted[..|s'.dispatched|]
      && s'.producer.i == Ring(s'.buf.index, s'.buf.count, n)
  {
    hide ServedSlot, ChosenSlot;
    FifoScans(s, 0);
    var n := |s.buf.slots|;
    assert s.buf.slots[Ring(s.buf.index, 0, n)] == s.accepted[|s.dispatched| + 0];
    assert s.accepted[..|s.dispatched|] + [s.accepted[|s.dispatched|]] == s.accepted[..|s.dispatched| + 1];
  }

  lemma FifoDispatch(s: System, w: nat)
    requires Taking(s, w)
    ensures FifoOk(After(s, WorkerLock(w)))
  {
    FifoTakesFirst(s, w);
    FifoRoom(s);
    hide ServedSlot, ChosenSlot, After, Ring, Ahead, Taking, Occupied, WellTyped;
    var s', n := After(s, WorkerLock(w)), |s.buf.slots|;
    forall j: nat | j < s'.buf.count
      ensures 0 <= Ring(s'.buf.index, j, n) < n && |s'.dispatched| + j < |s'.accepted|
      ensures s'.buf.slots[Ring(s'.buf.index, j, n)] == s'.accepted[|s'.dispatched| + j]
    {
      FifoNextPending(s, w, j);
    }
    forall p | 0 <= p < n ensures Occupied(s'.buf.slots, p) <==> Ahead(s'.buf.index, p, n) < s'.buf.count {
      FifoNextOccupied(s, w, p);
    }
  }

  lemma FifoRoom(s: System)
    requires FifoOk(s)
    ensures |s.accepted| == |s.dispatched| + s.buf.count && 0 <= s.buf.count <= |s.buf.slots|
    ensures s.producer.Accepting? ==> s.buf.count < |s.buf.slots|
  {
  }

  lemma FifoKept(s: System, st: Step)
    requires FifoOk(s) && Enabled(s, st)
    ensures Defined(s, st) && FifoOk(After(s, st))
  {
    hide ServedSlot, ChosenSlot;
    FifoScans(s, if st.Lock? then st.stale else 0);
    match st {
      case Insert(fd, size, woken) => FifoInsert(s, fd, size, woken);
      case WorkerLock(w) =>
        if s.buf.count > 0 {
          FifoDispatch(s, w);
        }
      case _ =>
    }
  }

  lemma {:induction false} FifoRun(states: seq<System>, steps: seq<Step>, k: nat)
    requires Run(states, steps, FIFO) && k < |states|
    ensures FifoOk(states[k])
  {
    hide After, Enabled, Defined;
    if k == 0 {
      hide FifoOk;
      FifoStart(states[0]);
    } else {
      FifoRun(states, steps, k - 1);
      assert Follows(states[k - 1], steps[k - 1], states[k - 1 + 1]);
      FifoKept(states[k - 1], steps[k - 1]);
    }
  }

  lemma FifoStart(s: System)
    requires Start(s, FIFO)
    ensures FifoOk(s)
  {
  }

  /** FIFO: over every interleaving the requests accepted are the connections that came, in that order;
      those taken are the first ones accepted, in that order;
      the others are all in the buffer, in the slots following the serve index; the slot the
      producer holds is free; and a worker that finds work finds it at the serve index. */
  lemma FifoTheorem(states: seq<System>, steps: seq<Step>, k: nat)
    requires Run(states, steps, FIFO) && k < |states|
    ensures var s := states[k]; var b := s.buf; var n := |b.slots|;
      && WellTyped(s) && 0 <= b.count <= n
      && s.accepted == s.dispatched + seq(b.count, j requires 0 <= j < b.count => b.slots[Ring(b.index, j, n)])
      && (forall p :: 0 <= p < n ==>
            (Occupied(b.slots, p) <==> exists j :: 0 <= j < b.count && p == Ring(b.index, j, n)))
      && (s.producer.Accepting? ==> !Occupied(b.slots, s.producer.i))
      && (b.count > 0 ==> ServedSlot(b) == b.index)
      && (forall w: nat :: Enabled(s, WorkerLock(w)) ==> Defined(s, WorkerLock(w)))
      && Genuine(s, Arrivals(steps[..k]))
  {
    hide ServedSlot, ChosenSlot, Genuine;
    RunGenuine(states, steps, FIFO, k);
    FifoRun(states, steps, k);
    var s := states[k];
    var b, n := s.buf, |s.buf.slots|;
    FifoScans(s, 0);
    var pending := seq(b.count, j requires 0 <= j < b.count => b.slots[Ring(b.index, j, n)]);
    assert pending == s.accepted[|s.dispatched|..];
    forall p | 0 <= p < n ensures Occupied(b.slots, p) <==> exists j :: 0 <= j < b.count && p == Ring(b.index, j, n) {
      assert Occupied(b.slots, p) <==> Ahead(b.index, p, n) < b.count;
      assert p == Ring(b.index, Ahead(b.index, p, n), n);
    }
  }
}
