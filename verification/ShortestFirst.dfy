/** Shortest file first, plain and in epochs: no request is lost exactly as long as the producer
    inserts into free slots, epochs keep any request from being overtaken for long, and how a request
    is lost when the scan stops on an occupied slot. */
module ShortestFirst {
  import opened Basics
  import opened RequestBuffer
  import opened Scheduler

  // ----- Counting -----

  function Between(lo: nat, hi: nat): (r: set<nat>)
    ensures forall i: nat :: i in r <==> lo <= i < hi
    ensures |r| == if lo <= hi then hi - lo else 0
    decreases hi
  {
    if lo < hi then Between(lo, hi - 1) + {hi - 1} else {}
  }

  function Ids(rs: seq<Request>): set<nat> {
    set r | r in rs :: r.id
  }

  lemma IdsAppend(rs: seq<Request>, r: Request)
    ensures Ids(rs + [r]) == Ids(rs) + {r.id}
  {
    forall i ensures i in Ids(rs + [r]) <==> i in Ids(rs) + {r.id} {
      if i in Ids(rs) {
        var x :| x in rs && x.id == i;
        assert x in rs + [r];
      }
      if i == r.id {
        assert r in rs + [r];
      }
    }
  }

  // ----- Conservation -----

  /** If the step inserts a request, its slot is free at that moment. */
  predicate GoodInsert(s: System, st: Step) {
    st.Insert? ==> !Occupied(s.buf.slots, s.producer.i)
  }

  ghost predicate SlotOk(s: System, p: int) {
    Occupied(s.buf.slots, p) ==>
      var r := s.buf.slots[p];
      r.id < |s.accepted| && s.accepted[r.id] == r && r.id !in Ids(s.dispatched)
  }

  predicate SameRequest(s: System, p: int, q: int) {
    Occupied(s.buf.slots, p) && Occupied(s.buf.slots, q) && s.buf.slots[p].id == s.buf.slots[q].id
  }

  /** Request n sits in a slot. */
  ghost predicate Pending(s: System, n: nat) {
    exists p :: Occupied(s.buf.slots, p) && s.buf.slots[p].id == n
  }

  ghost predicate Conserved(s: System) {
    && WellTyped(s)
    && (forall n :: 0 <= n < |s.accepted| ==> s.accepted[n].id == n && s.accepted[n].fd != FREE)
    && (forall p :: SlotOk(s, p))
    && (forall p, q :: SameRequest(s, p, q) ==> p == q)
    && (forall n: nat :: n < |s.accepted| ==> n in Ids(s.dispatched) || Pending(s, n))
    && (forall r :: r in s.dispatched ==> r.id < |s.accepted| && s.accepted[r.id] == r)
    && |Ids(s.dispatched)| == |s.dispatched|
    && s.buf.count == |s.accepted| - |s.dispatched| && 0 <= s.buf.count <= |s.buf.slots|
    && (s.producer.Accepting? ==> s.buf.count < |s.buf.slots|)
  }

  lemma InsertConserves(s: System, fd: int, size: int, woken: int)
    requires Conserved(s) && Enabled(s, Insert(fd, size, woken)) && !Occupied(s.buf.slots, s.producer.i)
    ensures Conserved(After(s, Insert(fd, size, woken)))
  {
    hide Ids;
    var s' := After(s, Insert(fd, size, woken));
    var i := s.producer.i;
    forall p ensures SlotOk(s', p) {
      assert SlotOk(s, p);
      if p == i {
        NotTaken(s, |s.accepted|);
      }
    }
    forall p, q | SameRequest(s', p, q) ensures p == q {
      assert SlotOk(s, p) && SlotOk(s, q);
      assert p != i && q != i ==> SameRequest(s, p, q);
    }
    forall n: nat | n < |s'.accepted| ensures n in Ids(s'.dispatched) || Pending(s', n) {
      if n == |s.accepted| {
        assert Occupied(s'.buf.slots, i) && s'.buf.slots[i].id == n;
      } else if n !in Ids(s.dispatched) {
        var p :| Occupied(s.buf.slots, p) && s.buf.slots[p].id == n;
        assert Occupied(s'.buf.slots, p) && s'.buf.slots[p].id == n;
      }
    }
  }

  /** An insert into an occupied slot drops the request that was there. */
  lemma OverwriteLoses(s: System, fd: int, size: int, woken: int)
    requires Conserved(s) && Enabled(s, Insert(fd, size, woken)) && Occupied(s.buf.slots, s.producer.i)
    ensures var s', n := After(s, Insert(fd, size, woken)), s.buf.slots[s.producer.i].id;
      n < |s'.accepted| && n !in Ids(s'.dispatched) && !Pending(s', n)
  {
    hide Ids;
    var s', i := After(s, Insert(fd, size, woken)), s.producer.i;
    var n := s.buf.slots[i].id;
    assert SlotOk(s, i);
    forall p | Occupied(s'.buf.slots, p) ensures s'.buf.slots[p].id != n {
      if p != i {
        assert SameRequest(s, p, i) ==> p == i;
      }
    }
  }

  /** Exactly when an insert loses nothing. */
  lemma InsertConservesIff(s: System, fd: int, size: int, woken: int)
    requires Conserved(s) && Enabled(s, Insert(fd, size, woken))
    ensures Conserved(After(s, Insert(fd, size, woken))) <==> !Occupied(s.buf.slots, s.producer.i)
  {
    if Occupied(s.buf.slots, s.producer.i) {
      OverwriteLoses(s, fd, size, woken);
    } else {
      InsertConserves(s, fd, size, woken);
    }
    hide Ids, SlotOk, SameRequest;
  }

  lemma NotTaken(s: System, n: nat)
    requires forall r :: r in s.dispatched ==> r.id < n
    ensures n !in Ids(s.dispatched)
  {
  }

  lemma DispatchConserves(s: System, w: nat)
    requires Conserved(s) && Enabled(s, WorkerLock(w)) && s.buf.count > 0
    requires ServedSlot(s.buf) != -1 && Occupied(s.buf.slots, ServedSlot(s.buf))
    ensures Conserved(After(s, WorkerLock(w)))
  {
    hide Ids, ServedSlot;
    var s' := After(s, WorkerLock(w));
    var p := ServedSlot(s.buf);
    var r := s.buf.slots[p];
    assert SlotOk(s, p);
    IdsAppend(s.dispatched, r);
    forall q ensures SlotOk(s', q) {
      assert SlotOk(s, q);
      assert SameRequest(s, p, q) ==> p == q;
    }
    forall q, u | SameRequest(s', q, u) ensures q == u {
      assert SameRequest(s, q, u);
    }
    forall n: nat | n < |s'.accepted| ensures n in Ids(s'.dispatched) || Pending(s', n) {
      if n !in Ids(s.dispatched) && n != r.id {
        var q :| Occupied(s.buf.slots, q) && s.buf.slots[q].id == n;
        assert Occupied(s'.buf.slots, q) && s'.buf.slots[q].id == n;
      }
    }
  }

  lemma QuietConserves(s: System, s': System)
    requires Conserved(s) && WellTyped(s')
    requires s'.buf == s.buf && s'.accepted == s.accepted && s'.dispatched == s.dispatched
    requires s'.producer.Accepting? ==> s.producer.Accepting? || s.buf.count < |s.buf.slots|
    ensures Conserved(s')
  {
    forall p ensures SlotOk(s', p) {
      assert SlotOk(s, p);
    }
    forall p, q | SameRequest(s', p, q) ensures p == q {
      assert SameRequest(s, p, q);
    }
    forall n: nat | n < |s'.accepted| ensures n in Ids(s'.dispatched) || Pending(s', n) {
      if n !in Ids(s.dispatched) {
        var q :| Occupied(s.buf.slots, q) && s.buf.slots[q].id == n;
        assert Occupied(s'.buf.slots, q) && s'.buf.slots[q].id == n;
      }
    }
  }

  lemma Kept(s: System, st: Step)
    requires Conserved(s) && Enabled(s, st) && GoodInsert(s, st)
    requires st.WorkerLock? && s.buf.count != 0 ==> ServedSlot(s.buf) != -1 && Occupied(s.buf.slots, ServedSlot(s.buf))
    ensures Conserved(After(s, st))
  {
    hide ServedSlot, ChosenSlot, Occupied, SlotOk, Ids;
    if st.Insert? {
      InsertConserves(s, st.fd, st.size, st.woken);
    } else if st.WorkerLock? && s.buf.count != 0 {
      DispatchConserves(s, st.w);
    } else {
      QuietConserves(s, After(s, st));
    }
  }

  // ----- Epochs -----

  /** The epoch of the n-th arrival, or of the n-th dispatch. */
  function Epoch(n: nat, e: nat): nat
    requires e >= 1
  {
    n / e
  }

  /** The first number of that epoch, and how far n is into it. */
  function EpochStart(n: nat, e: nat): nat
    requires e >= 1
  {
    n / e * e
  }

  function Into(n: nat, e: nat): nat
    requires e >= 1
  {
    n % e
  }

  /** What the code keeps of an epoch number. */
  function Tag(epoch: nat): nat {
    epoch % INT_MAX
  }

  /** In SFF-BS mode, d requests having been taken: the counters tell how many came and went, all
      requests before the current epoch have been taken, and none after it. */
  ghost predicate EpochsOk(s: System) {
    var e, k, d := s.buf.epochSize, |s.accepted|, |s.dispatched|;
    && e >= 1
    && s.buf.producerCount == Into(k, e) && s.buf.producerEpoch == Tag(Epoch(k, e))
    && s.buf.workerCount == Into(d, e) && s.buf.workerEpoch == Tag(Epoch(d, e))
    && (forall n :: 0 <= n < k ==> s.accepted[n].epoch == Tag(Epoch(n, e)))
    && (forall n: nat :: n < EpochStart(d, e) ==> n in Ids(s.dispatched))
    && (forall n: nat :: n in Ids(s.dispatched) ==> n < EpochStart(d, e) + e)
  }

  lemma EpochBounds(n: nat, e: nat)
    requires e >= 1
    ensures EpochStart(n, e) <= n < EpochStart(n, e) + e
  {
  }

  /** One more: either further into the epoch, or at the start of the next one. */
  lemma EpochStep(n: nat, e: nat)
    requires e >= 1
    ensures Into(n + 1, e) == (Into(n, e) + 1) % e
    ensures Into(n + 1, e) != 0 ==> Epoch(n + 1, e) == Epoch(n, e) && EpochStart(n + 1, e) == EpochStart(n, e)
    ensures Into(n + 1, e) == 0 ==>
              Epoch(n + 1, e) == Epoch(n, e) + 1 && EpochStart(n + 1, e) == EpochStart(n, e) + e == n + 1
  {
    var q, r := n / e, n % e;
    assert n == q * e + r;
    if r + 1 < e {
      DivUnique(n + 1, e, q, r + 1);
      DivUnique(r + 1, e, 0, r + 1);
    } else {
      assert (q + 1) * e == q * e + e;
      DivUnique(n + 1, e, q + 1, 0);
      DivUnique(e, e, 1, 0);
    }
  }

  lemma SameEpoch(n: nat, d: nat, e: nat)
    requires e >= 1
    ensures EpochStart(d, e) <= n < EpochStart(d, e) + e <==> Epoch(n, e) == Epoch(d, e)
  {
    if EpochStart(d, e) <= n < EpochStart(d, e) + e {
      DivUnique(n, e, d / e, n - d / e * e);
    }
  }

  lemma TagStep(x: nat)
    ensures Tag(x + 1) == (Tag(x) + 1) % INT_MAX
  {
  }

  /** How many epochs lie between two requests that can be in the buffer together. */
  lemma EpochSpan(d: nat, m: nat, e: nat, size: nat)
    requires 1 <= e && 1 <= size <= INT_MAX && EpochStart(d, e) <= m < d + size
    ensures 0 <= Epoch(m, e) - Epoch(d, e) < INT_MAX
  {
    var x, y := d / e, m / e;
    var t := y - x;
    assert x * e <= d <= x * e + e - 1 && y * e <= m <= y * e + e - 1;
    assert t * e == y * e - x * e;
    Magnitude(t, e);
    if t >= INT_MAX {
      TooFar(t, e, size);
    }
  }

  /** Requests that can be in the buffer together lie in fewer than INT_MAX epochs, so equal tags
      mean equal epochs although the tags wrap around. */
  lemma TagsTell(d: nat, m: nat, e: nat, size: nat)
    requires 1 <= e && 1 <= size <= INT_MAX && EpochStart(d, e) <= m < d + size
    ensures Tag(Epoch(m, e)) == Tag(Epoch(d, e)) <==> Epoch(m, e) == Epoch(d, e)
  {
    EpochSpan(d, m, e, size);
    var x, y := Epoch(d, e), Epoch(m, e);
    hide Epoch, EpochStart;
    if Tag(x) == Tag(y) {
      WrapTells(x, y - x);
    }
  }

  lemma TooFar(t: int, e: int, size: int)
    requires 1 <= size <= INT_MAX <= t && 1 <= e
    ensures t * e >= size + e - 1
  {
    assert t * e == (t - 1) * e + e;
    Magnitude(t - 1, e);
  }

  lemma WrapTells(x: nat, t: nat)
    requires t < INT_MAX && (x + t) % INT_MAX == x % INT_MAX
    ensures t == 0
  {
    var q, r := x / INT_MAX, x % INT_MAX;
    var q' := (x + t) / INT_MAX;
    assert x == q * INT_MAX + r && x + t == q' * INT_MAX + r;
    assert t == (q' - q) * INT_MAX;
  }

  ghost predicate BatchOk(s: System) {
    Conserved(s) && s.buf.alg == SFF_BS && EpochsOk(s)
  }

  /** The first request of the current epoch not yet taken, which exists as long as any request is
      in the buffer: the requests taken are too few to have used the epoch up. */
  lemma CurrentPending(s: System) returns (n: nat)
    requires BatchOk(s) && s.buf.count > 0
    ensures Epoch(n, s.buf.epochSize) == Epoch(|s.dispatched|, s.buf.epochSize) && n < |s.accepted| && Pending(s, n)
  {
    hide SlotOk, Pending, Ids, Epoch, EpochStart, Into, Tag;
    var e, d, k := s.buf.epochSize, |s.dispatched|, |s.accepted|;
    EpochBounds(d, e);
    var top := if k < EpochStart(d, e) + e then k else EpochStart(d, e) + e;
    if Between(0, top) <= Ids(s.dispatched) {
      SubsetSize(Between(0, top), Ids(s.dispatched));
      assert false;
    }
    n :| n in Between(0, top) && n !in Ids(s.dispatched);
    SameEpoch(n, d, e);
  }

  /** The requests of the workers' epoch tag are those of their epoch. */
  lemma TagEligible(s: System, q: int)
    requires BatchOk(s) && Occupied(s.buf.slots, q)
    ensures Eligible(s.buf.slots, s.buf.workerEpoch, q)
       <==> Epoch(s.buf.slots[q].id, s.buf.epochSize) == Epoch(|s.dispatched|, s.buf.epochSize)
  {
    hide Pending, Ids, Epoch, EpochStart, Into, Tag;
    assert SlotOk(s, q);
    TagsTell(|s.dispatched|, s.buf.slots[q].id, s.buf.epochSize, |s.buf.slots|);
  }

  /** p holds a smallest request of the epoch that the next dispatch belongs to. */
  ghost predicate SmallestOfEpoch(s: System, p: int)
    requires s.buf.epochSize >= 1
  {
    var e, d := s.buf.epochSize, |s.dispatched|;
    && Occupied(s.buf.slots, p) && Epoch(s.buf.slots[p].id, e) == Epoch(d, e)
    && forall q :: Occupied(s.buf.slots, q) && Epoch(s.buf.slots[q].id, e) == Epoch(d, e) ==>
         s.buf.slots[p].size <= s.buf.slots[q].size
  }

  /** In SFF-BS mode a worker that finds work always gets a request, namely a smallest one among the
      requests of the oldest epoch that is not used up. */
  lemma BatchServes(s: System)
    requires BatchOk(s) && s.buf.count > 0
    ensures SmallestOfEpoch(s, ServedSlot(s.buf))
  {
    hide Ids, SlotOk, Epoch, EpochStart, Into, Tag;
    var n := CurrentPending(s);
    forall q | Occupied(s.buf.slots, q)
      ensures Eligible(s.buf.slots, s.buf.workerEpoch, q)
         <==> Epoch(s.buf.slots[q].id, s.buf.epochSize) == Epoch(|s.dispatched|, s.buf.epochSize)
    {
      TagEligible(s, q);
    }
    var p :| Occupied(s.buf.slots, p) && s.buf.slots[p].id == n;
    assert Eligible(s.buf.slots, s.buf.workerEpoch, p);
  }

  lemma BatchDispatch(s: System, w: nat)
    requires BatchOk(s) && Enabled(s, WorkerLock(w)) && s.buf.count > 0
    ensures Defined(s, WorkerLock(w)) && BatchOk(After(s, WorkerLock(w)))
  {
    hide ServedSlot, SlotOk, Pending, Ids, Epoch, EpochStart, Into, Tag;
    BatchServes(s);
    DispatchConserves(s, w);
    var s' := After(s, WorkerLock(w));
    var e, d := s.buf.epochSize, |s.dispatched|;
    var r := s.buf.slots[ServedSlot(s.buf)];
    IdsAppend(s.dispatched, r);
    EpochStep(d, e);
    EpochBounds(d, e);
    SameEpoch(r.id, d, e);
    TagStep(Epoch(d, e));
    if Into(d + 1, e) == 0 {
      SubsetSize(Ids(s'.dispatched), Between(0, d + 1));
    }
  }

  lemma BatchInsert(s: System, fd: int, size: int, woken: int)
    requires BatchOk(s) && Enabled(s, Insert(fd, size, woken)) && !Occupied(s.buf.slots, s.producer.i)
    ensures BatchOk(After(s, Insert(fd, size, woken)))
  {
    hide SlotOk, Pending, Ids, Conserved, Epoch, EpochStart, Into, Tag;
    InsertConserves(s, fd, size, woken);
    TypedConserved(s);
    EpochStep(|s.accepted|, s.buf.epochSize);
    TagStep(Epoch(|s.accepted|, s.buf.epochSize));
  }

  lemma TypedConserved(s: System)
    requires Conserved(s)
    ensures WellTyped(s)
  {
  }

  lemma BatchKept(s: System, st: Step)
    requires BatchOk(s) && Enabled(s, st) && GoodInsert(s, st)
    ensures Defined(s, st) && BatchOk(After(s, st))
  {
    hide ServedSlot, ChosenSlot, Occupied, SlotOk, Ids, Pending, Epoch, EpochStart, Into, Tag;
    if st.Insert? {
      BatchInsert(s, st.fd, st.size, st.woken);
    } else if st.WorkerLock? && s.buf.count != 0 {
      BatchDispatch(s, st.w);
    } else {
      QuietConserves(s, After(s, st));
    }
  }

  /** All inserts of a run go into free slots. */
  ghost predicate GoodInserts(states: seq<System>, steps: seq<Step>)
    requires |states| == |steps| + 1
  {
    forall k :: 0 <= k < |steps| ==> GoodInsert(states[k], steps[k])
  }

  lemma StartConserved(s: System, alg: Algorithm)
    requires Start(s, alg)
    ensures Conserved(s) && (alg == SFF_BS ==> BatchOk(s))
  {
  }

  lemma {:induction false} BatchRun(states: seq<System>, steps: seq<Step>, k: nat)
    requires Run(states, steps, SFF_BS) && GoodInserts(states, steps) && k < |states|
    ensures BatchOk(states[k])
  {
    hide After, Enabled, Defined, BatchOk, GoodInsert;
    if k == 0 {
      StartConserved(states[0], SFF_BS);
    } else {
      BatchRun(states, steps, k - 1);
      assert Follows(states[k - 1], steps[k - 1], states[k - 1 + 1]);
      assert GoodInsert(states[k - 1], steps[k - 1]);
      BatchKept(states[k - 1], steps[k - 1]);
    }
  }

  /** The later arrivals among the requests taken. */
  function Overtaking(s: System, n: nat): set<nat> {
    set m | m in Ids(s.dispatched) && m > n
  }

  /** In SFF-BS mode a request in the buffer has been overtaken by fewer than an epoch's worth of
      later arrivals. */
  lemma OvertakenFewTimes(s: System, n: nat)
    requires BatchOk(s) && Pending(s, n)
    ensures |Overtaking(s, n)| <= s.buf.epochSize - 1
  {
    hide Ids, Epoch, EpochStart, Into, Tag;
    var e, d := s.buf.epochSize, |s.dispatched|;
    var p :| Occupied(s.buf.slots, p) && s.buf.slots[p].id == n;
    assert SlotOk(s, p);
    SubsetSize(Overtaking(s, n), Between(n + 1, EpochStart(d, e) + e));
  }

  /** SFF-BS: as long as the inserts go into free slots, over every interleaving each accepted request
      is in exactly one slot or was taken exactly once; a worker that finds work is given a smallest
      request of the oldest unfinished epoch, though the epoch counters wrap around; and no request
      is overtaken by an epoch's worth of later ones. */
  lemma BatchTheorem(states: seq<System>, steps: seq<Step>, k: nat)
    requires Run(states, steps, SFF_BS) && GoodInserts(states, steps) && k < |states|
    ensures var s := states[k];
      && BatchOk(s)
      && (s.buf.count > 0 ==> SmallestOfEpoch(s, ServedSlot(s.buf)))
      && (forall n: nat :: n < |s.accepted| ==> (n in Ids(s.dispatched) <==> !Pending(s, n)))
      && (forall n: nat :: Pending(s, n) ==> |Overtaking(s, n)| <= s.buf.epochSize - 1)
      && Genuine(s, Arrivals(steps[..k]))
  {
    hide ServedSlot, Overtaking, Ids, EpochsOk, Genuine;
    RunGenuine(states, steps, SFF_BS, k);
    BatchRun(states, steps, k);
    var s := states[k];
    if s.buf.count > 0 {
      BatchServes(s);
    }
    forall n: nat | n < |s.accepted| && Pending(s, n) ensures n !in Ids(s.dispatched) {
      var p :| Occupied(s.buf.slots, p) && s.buf.slots[p].id == n;
      assert SlotOk(s, p);
    }
    forall n: nat | Pending(s, n) ensures |Overtaking(s, n)| <= s.buf.epochSize - 1 {
      OvertakenFewTimes(s, n);
    }
  }

  // ----- Plain SFF -----

  /** In SFF mode a worker that finds work is given a smallest request of the whole buffer. */
  lemma ShortestServed(s: System)
    requires Conserved(s) && s.buf.alg == SFF && s.buf.count > 0
    ensures var p := ServedSlot(s.buf);
      p != -1 && Occupied(s.buf.slots, p)
      && forall q :: Occupied(s.buf.slots, q) ==> s.buf.slots[p].size <= s.buf.slots[q].size
  {
    hide Ids, SlotOk;
    if Between(0, |s.accepted|) <= Ids(s.dispatched) {
      SubsetSize(Between(0, |s.accepted|), Ids(s.dispatched));
      assert false;
    }
    var n :| n in Between(0, |s.accepted|) && n !in Ids(s.dispatched);
    var p :| Occupied(s.buf.slots, p) && s.buf.slots[p].id == n;
    assert Eligible(s.buf.slots, -1, p);
  }

  lemma ShortestKept(s: System, st: Step)
    requires Conserved(s) && s.buf.alg == SFF && Enabled(s, st) && GoodInsert(s, st)
    ensures Defined(s, st) && Conserved(After(s, st)) && After(s, st).buf.alg == SFF
  {
    hide ServedSlot, ChosenSlot, Occupied, SlotOk, Ids, Pending;
    if st.WorkerLock? && s.buf.count != 0 {
      ShortestServed(s);
    }
    Kept(s, st);
  }

  lemma {:induction false} ShortestRun(states: seq<System>, steps: seq<Step>, k: nat)
    requires Run(states, steps, SFF) && GoodInserts(states, steps) && k < |states|
    ensures Conserved(states[k]) && states[k].buf.alg == SFF
    ensures Genuine(states[k], Arrivals(steps[..k]))
  {
    hide After, Enabled, Defined, Conserved, GoodInsert, Genuine;
    RunGenuine(states, steps, SFF, k);
    if k == 0 {
      StartConserved(states[0], SFF);
    } else {
      ShortestRun(states, steps, k - 1);
      assert Follows(states[k - 1], steps[k - 1], states[k - 1 + 1]);
      assert GoodInsert(states[k - 1], steps[k - 1]);
      ShortestKept(states[k - 1], steps[k - 1]);
    }
  }

  // ----- Exactly when nothing is lost -----

  /** In the SFF modes every request is kept throughout a run if and only if every insert of the run
      goes into a free slot. */
  lemma RunConservedIff(states: seq<System>, steps: seq<Step>, alg: Algorithm)
    requires Run(states, steps, alg) && (alg == SFF || alg == SFF_BS)
    ensures (forall k :: 0 <= k < |states| ==> Conserved(states[k])) <==> GoodInserts(states, steps)
  {
    hide After, Enabled, Defined, Conserved, GoodInsert;
    if GoodInserts(states, steps) {
      forall k | 0 <= k < |states| ensures Conserved(states[k]) {
        if alg == SFF {
          ShortestRun(states, steps, k);
        } else {
          BatchRun(states, steps, k);
        }
      }
    } else if forall k :: 0 <= k < |states| ==> Conserved(states[k]) {
      forall k | 0 <= k < |steps| ensures GoodInsert(states[k], steps[k]) {
        assert Follows(states[k], steps[k], states[k + 1]);
        GoodIfConserved(states[k], steps[k], states[k + 1]);
      }
    }
  }

  lemma GoodIfConserved(s: System, st: Step, s': System)
    requires Follows(s, st, s') && Conserved(s) && Conserved(s')
    ensures GoodInsert(s, st)
  {
    hide Conserved, After, Defined;
    if st.Insert? {
      InsertConservesIff(s, st.fd, st.size, st.woken);
    }
  }

  /** If the step is a scan, it ends on a free slot, as it is meant to. */
  predicate GoodScan(s: System, st: Step)
    requires WellTyped(s)
  {
    st.Lock? && s.buf.count != |s.buf.slots| ==> !Occupied(s.buf.slots, ChosenSlot(s.buf, s.producer.i, st.stale))
  }

  ghost predicate GoodScans(states: seq<System>, steps: seq<Step>)
    requires |states| == |steps| + 1
  {
    forall k :: 0 <= k < |steps| ==> WellTyped(states[k]) && GoodScan(states[k], steps[k])
  }

  predicate HeldFree(s: System) {
    WellTyped(s) && (s.producer.Accepting? ==> !Occupied(s.buf.slots, s.producer.i))
  }

  lemma HeldKept(s: System, st: Step)
    requires HeldFree(s) && Enabled(s, st) && Defined(s, st) && GoodScan(s, st)
    ensures HeldFree(After(s, st))
  {
    hide ServedSlot, ChosenSlot;
  }

  lemma {:induction false} HeldRun(states: seq<System>, steps: seq<Step>, alg: Algorithm, k: nat)
    requires Run(states, steps, alg) && GoodScans(states, steps) && k < |states|
    ensures HeldFree(states[k])
  {
    hide After, Enabled, Defined, GoodScan, HeldFree;
    if k > 0 {
      HeldRun(states, steps, alg, k - 1);
      assert Follows(states[k - 1], steps[k - 1], states[k - 1 + 1]);
      HeldKept(states[k - 1], steps[k - 1]);
    } else {
      HeldAtStart(states[0], alg);
    }
  }

  lemma HeldAtStart(s: System, alg: Algorithm)
    requires Start(s, alg)
    ensures HeldFree(s)
  {
  }

  /** It is enough that every scan ends on a free slot: only the producer fills slots. */
  lemma ScansSuffice(states: seq<System>, steps: seq<Step>, alg: Algorithm)
    requires Run(states, steps, alg) && GoodScans(states, steps)
    ensures GoodInserts(states, steps)
  {
    hide After, Defined, GoodScan, ChosenSlot;
    forall k | 0 <= k < |steps| ensures GoodInsert(states[k], steps[k]) {
      HeldRun(states, steps, alg, k);
      assert Follows(states[k], steps[k], states[k + 1]);
    }
  }

  // ----- Work is served -----

  /** Worker w can take a request, and there is one for it; or it is about to signal. */
  predicate CanServe(s: System, w: nat) {
    && WellTyped(s) && w < |s.workers|
    && ((Enabled(s, WorkerLock(w)) && Defined(s, WorkerLock(w))) || Enabled(s, WorkerDone(w)))
  }

  /** Under every algorithm, provided in the SFF modes that inserts go into free slots: with work
      pending, or the producer blocked, some worker is awake and its next step is defined. */
  lemma WorkIsServed(states: seq<System>, steps: seq<Step>, alg: Algorithm, k: nat)
    requires Run(states, steps, alg) && k < |states| && (alg == FIFO || GoodInserts(states, steps))
    ensures var s := states[k];
      && (s.buf.count != 0 || s.producer.Blocked? ==> exists w: nat :: CanServe(s, w))
      && forall w: nat :: Enabled(s, WorkerLock(w)) ==> WellTyped(s) && Defined(s, WorkerLock(w))
  {
    hide ServedSlot, After, Conserved, EpochsOk, SmallestOfEpoch, Start, Follows;
    var s := states[k];
    RunWakeOk(states, steps, alg, k);
    assert s.buf.count != 0 ==> ServedSlot(s.buf) != -1 by {
      ServedInRun(states, steps, alg, k);
    }
    NoLostWakeup(states, steps, alg, k);
    if s.buf.count != 0 || s.producer.Blocked? {
      var w: nat :| w < |s.workers| && (Enabled(s, WorkerLock(w)) || Enabled(s, WorkerDone(w)));
      assert CanServe(s, w);
    }
  }

  lemma ServedInRun(states: seq<System>, steps: seq<Step>, alg: Algorithm, k: nat)
    requires Run(states, steps, alg) && k < |states| && (alg == FIFO || GoodInserts(states, steps))
    ensures WellTyped(states[k]) && (states[k].buf.count != 0 ==> ServedSlot(states[k].buf) != -1)
  {
    hide ServedSlot, After, EpochsOk, SmallestOfEpoch, Start, Follows, Ids, SlotOk, SameRequest;
    if alg == FIFO {
      FifoTheorem(states, steps, k);
    } else if alg == SFF {
      ShortestRun(states, steps, k);
      if states[k].buf.count != 0 {
        ShortestServed(states[k]);
      }
    } else {
      BatchRun(states, steps, k);
      if states[k].buf.count != 0 {
        BatchServes(states[k]);
        ServedIsSlot(states[k]);
      }
    }
  }

  lemma ServedIsSlot(s: System)
    requires s.buf.epochSize >= 1 && 0 <= s.buf.index < |s.buf.slots| && SmallestOfEpoch(s, ServedSlot(s.buf))
    ensures ServedSlot(s.buf) != -1
  {
  }

  // ----- What happens when a scan does not -----

  /** Two slots, and in SFF-BS epochs of three requests. */
  function TwoSlots(alg: Algorithm): System {
    var free := Request(FREE, 0, 0, 0);
    System(Buffer(alg, if alg == SFF_BS then 3 else 0, [free, free], 0, 0, 0, 0, 0, 0), Ready(0), [Running], [], [])
  }

  /** The first, second and third request. Outside SFF-BS the producer's epoch is of no account. */
  function Arrival(alg: Algorithm, n: nat): Request {
    var epoch := if alg == SFF_BS then 0 else n;
    Request(3 + n, epoch, if n == 0 then 5 else if n == 1 then 3 else 1, n)
  }

  lemma OneServed(s: System, p: int)
    requires WellTyped(s) && (s.buf.alg == SFF || (s.buf.alg == SFF_BS && s.buf.workerEpoch == 0))
    requires |s.buf.slots| == 2 && 0 <= p < 2
    requires IsMin(s.buf.slots, if s.buf.alg == SFF then -1 else 0, p, 2)
    ensures ServedSlot(s.buf) == p
  {
  }

  /** Two requests fill both slots. */
  function FillingSteps(): seq<Step> {
    [Lock(0), Insert(3, 5, 0), Lock(0), Insert(4, 3, 0)]
  }

  /** The second, smaller one is taken; the producer is back at slot 0, where its scan never moves,
      and overwrites the first. */
  function OverwritingSteps(): seq<Step> {
    [WorkerLock(0), Lock(0), Insert(5, 1, 0)]
  }

  /** The third, the smallest, is taken, and nothing is left. */
  function EmptyingSteps(): seq<Step> {
    [WorkerDone(0), WorkerLock(0), WorkerDone(0)]
  }

  function Filled(alg: Algorithm): System {
    var buf := if alg == SFF_BS then Buffer(alg, 3, [Arrival(alg, 0), Arrival(alg, 1)], 2, 0, 0, 0, 0, 2)
               else Buffer(alg, 0, [Arrival(alg, 0), Arrival(alg, 1)], 2, 0, 0, 0, 2, 0);
    System(buf, Ready(0), [Running], [Arrival(alg, 0), Arrival(alg, 1)], [])
  }

  function Overwritten(alg: Algorithm): System {
    var slots := [Arrival(alg, 2), Arrival(alg, 1).(fd := FREE)];
    var buf := if alg == SFF_BS then Buffer(alg, 3, slots, 2, 0, 0, 1, 1, 0)
               else Buffer(alg, 0, slots, 2, 0, 0, 0, 3, 0);
    System(buf, Ready(1), [Serving(Arrival(alg, 1))],
           [Arrival(alg, 0), Arrival(alg, 1), Arrival(alg, 2)], [Arrival(alg, 1)])
  }

  ghost predicate Leads(states: seq<System>, steps: seq<Step>) {
    |states| == |steps| + 1 && forall k :: 0 <= k < |steps| ==> Follows(states[k], steps[k], states[k + 1])
  }

  lemma Filling(alg: Algorithm) returns (states: seq<System>)
    requires alg == SFF || alg == SFF_BS
    ensures Leads(states, FillingSteps()) && states[0] == TwoSlots(alg) && states[4] == Filled(alg)
  {
    hide ServedSlot;
    var s0 := TwoSlots(alg);
    var s1 := After(s0, Lock(0));
    var s2 := After(s1, Insert(3, 5, 0));
    var s3 := After(s2, Lock(0));
    var s4 := After(s3, Insert(4, 3, 0));
    states := [s0, s1, s2, s3, s4];
  }

  lemma Overwriting(alg: Algorithm) returns (states: seq<System>)
    requires alg == SFF || alg == SFF_BS
    ensures Leads(states, OverwritingSteps()) && states[0] == Filled(alg) && states[3] == Overwritten(alg)
  {
    hide ServedSlot;
    var s4 := Filled(alg);
    OneServed(s4, 1);
    var s5 := After(s4, WorkerLock(0));
    var s6 := After(s5, Lock(0));
    var s7 := After(s6, Insert(5, 1, 0));
    states := [s4, s5, s6, s7];
  }

  lemma Emptying(alg: Algorithm) returns (states: seq<System>)
    requires alg == SFF || alg == SFF_BS
    ensures Leads(states, EmptyingSteps()) && states[0] == Overwritten(alg)
    ensures var s := states[3];
      && WellTyped(s) && s.accepted == [Arrival(alg, 0), Arrival(alg, 1), Arrival(alg, 2)]
      && s.dispatched == [Arrival(alg, 1), Arrival(alg, 2)]
      && s.buf.count == 1 && ServedSlot(s.buf) == -1 && (forall p :: !Occupied(s.buf.slots, p))
      && s.workers == [Running]
  {
    hide ServedSlot;
    var s7 := Overwritten(alg);
    var s8 := After(s7, WorkerDone(0));
    OneServed(s8, 0);
    var s9 := After(s8, WorkerLock(0));
    var s10 := After(s9, WorkerDone(0));
    NoneServed(s10.buf);
    states := [s7, s8, s9, s10];
  }

  lemma NoneServed(b: Buffer)
    requires (b.alg == SFF || b.alg == SFF_BS) && 0 <= b.index < |b.slots| && forall p :: !Occupied(b.slots, p)
    ensures ServedSlot(b) == -1
  {
  }

  lemma Joined(first: seq<System>, a: seq<Step>, second: seq<System>, b: seq<Step>)
    requires Leads(first, a) && Leads(second, b) && first[|a|] == second[0]
    ensures Leads(first + second[1..], a + b)
    ensures (first + second[1..])[|a| + |b|] == second[|b|]
  {
    hide Follows;
    var states, steps := first + second[1..], a + b;
    forall k | 0 <= k < |steps| ensures Follows(states[k], steps[k], states[k + 1]) {
      if k < |a| {
        assert Follows(first[k], a[k], first[k + 1]);
      } else {
        assert Follows(second[k - |a|], b[k - |a|], second[k - |a| + 1]);
      }
    }
  }

  /** In both SFF modes the scan as written can lose a request, and later leave a worker with a count
      of one, no request in any slot and hence no slot to serve from. */
  lemma RequestLost(alg: Algorithm) returns (states: seq<System>)
    requires alg == SFF || alg == SFF_BS
    ensures Run(states, FillingSteps() + OverwritingSteps() + EmptyingSteps(), alg)
    ensures var s := states[10];
      && WellTyped(s) && |s.accepted| == 3 && 0 !in Ids(s.dispatched) && !Pending(s, 0)
      && s.buf.count == 1 && Enabled(s, WorkerLock(0)) && !Defined(s, WorkerLock(0))
  {
    hide Follows, ServedSlot, Leads;
    var first := Filling(alg);
    var second := Overwriting(alg);
    var third := Emptying(alg);
    LedLength(first, FillingSteps());
    LedLength(second, OverwritingSteps());
    LedLength(third, EmptyingSteps());
    Joined(first, FillingSteps(), second, OverwritingSteps());
    var both := first + second[1..];
    LedLength(both, FillingSteps() + OverwritingSteps());
    Joined(both, FillingSteps() + OverwritingSteps(), third, EmptyingSteps());
    states := both + third[1..];
    LedRun(states, FillingSteps() + OverwritingSteps() + EmptyingSteps(), alg);
  }

  lemma LedLength(states: seq<System>, steps: seq<Step>)
    requires Leads(states, steps)
    ensures |states| == |steps| + 1
  {
  }

  lemma LedRun(states: seq<System>, steps: seq<Step>, alg: Algorithm)
    requires Leads(states, steps) && Start(states[0], alg)
    ensures Run(states, steps, alg)
  {
    hide Follows, Start;
  }
}
